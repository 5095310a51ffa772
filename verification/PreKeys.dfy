/** The allocation of one-time pre-keys: generating a batch, uploading a copy, committing it. */
module PreKeys {
  import opened Common

  const MIN_PREKEY_COUNT := 5

  type Ids = seq<int>

  datatype Pair = Pair(privateKey: Bytes, publicKey: Bytes)

  /** The pre-key part of the credentials, with the defaults for fields that are not there. */
  datatype Pool = Pool(next: int, first: int, keys: map<int, Pair>) {
    /** Every id from `first` up to `next` has its key. */
    ghost predicate Stocked() {
      first <= next && forall id :: first <= id < next ==> id in keys
    }
  }

  datatype UploadError = MissingKeys(ids: Ids) | QueryFailed

  function Max(a: int, b: int): int {
    if a >= b then a else b
  }

  /** `list(range(a, b))` */
  function Range(a: int, b: int): (r: Ids)
    ensures |r| == Max(0, b - a)
    ensures forall i :: 0 <= i < |r| ==> r[i] == a + i
    ensures forall id :: id in r <==> a <= id < b
    decreases Max(0, b - a)
  {
    if a >= b then [] else Range(a, b - 1) + [b - 1]
  }

  /** The keys drawn for the ids from `a` up to `b`. */
  function Drawn(a: int, b: int, draw: int -> Pair): map<int, Pair> {
    map id | a <= id < b :: draw(id)
  }

  lemma DrawnStep(before: map<int, Pair>, a: int, b: int, draw: int -> Pair)
    ensures b <= a ==> before + Drawn(a, b, draw) == before && Range(a, b) == []
    ensures a <= b ==> (before + Drawn(a, b, draw))[b := draw(b)] == before + Drawn(a, b + 1, draw)
    ensures a <= b ==> Range(a, b) + [b] == Range(a, b + 1)
  {
  }

  /** The pool after `count` ids have been taken from it, with the keys that were lacking. */
  function Taken(p: Pool, count: int, draw: int -> Pair): Pool {
    var end := p.first + count;
    Pool(Max(p.next, end), Max(p.first, end), p.keys + Drawn(p.next, end, draw))
  }

  function Missing(ids: Ids, keys: map<int, Pair>): (r: Ids)
    ensures r == [] <==> forall id :: id in ids ==> id in keys
  {
    if ids == [] then []
    else
      var last := ids[|ids| - 1];
      assert ids == ids[..|ids| - 1] + [last];
      Missing(ids[..|ids| - 1], keys) + if last in keys then [] else [last]
  }

  function Wanted(count: Option<int>): int {
    if count == None || count == Some(0) then MIN_PREKEY_COUNT else count.value
  }

  /** One upload as a step: what is stored afterwards, and the ids uploaded or the exception. */
  function Upload(p: Pool, count: Option<int>, accepted: bool, draw: int -> Pair): (Pool, Result<Ids, UploadError>) {
    var working := Taken(p, Wanted(count), draw);
    var batch := Range(p.first, p.first + Wanted(count));
    var missing := Missing(batch, working.keys);
    if missing != [] then (p, Err(MissingKeys(missing)))
    else if !accepted then (p, Err(QueryFailed))
    else (working, Ok(batch))
  }

  function OrElse<T>(o: Option<T>, default: T): T {
    match o
    case None => default
    case Some(v) => v
  }

  /** The credentials dictionary; None for a field that is not there. */
  class Credentials {
    var nextPreKeyId: Option<int>
    var firstUnuploadedPreKeyId: Option<int>
    var preKeys: Option<map<int, Pair>>

    function View(): Pool
      reads this
    {
      Pool(OrElse(nextPreKeyId, 1), OrElse(firstUnuploadedPreKeyId, OrElse(nextPreKeyId, 1)), OrElse(preKeys, map[]))
    }

    /** `copy.deepcopy` */
    constructor Copy(from: Credentials)
      ensures View() == from.View()
    {
      nextPreKeyId := from.nextPreKeyId;
      firstUnuploadedPreKeyId := from.firstUnuploadedPreKeyId;
      preKeys := from.preKeys;
    }

    /** `generate_or_get_pre_keys` */
    method GenerateOrGetPreKeys(count: int, draw: int -> Pair) returns (uploaded: Ids, news: Ids)
      modifies this
      ensures View() == Taken(old(View()), count, draw)
      ensures uploaded == Range(old(View().first), old(View().first) + count)
      ensures news == Range(old(View().next), old(View().first) + count)
    {
      hide Drawn, Range;
      var nextId := OrElse(nextPreKeyId, 1);
      var firstUnuploaded := OrElse(firstUnuploadedPreKeyId, nextId);
      var available := nextId - firstUnuploaded;
      var remaining := count - available;
      var lastPreKeyId := nextId + remaining - 1;
      var keys := OrElse(preKeys, map[]);
      ghost var before := keys;
      news := [];
      DrawnStep(keys, nextId, nextId, draw);
      if remaining > 0 {
        for id := nextId to lastPreKeyId + 1
          invariant keys == before + Drawn(nextId, id, draw)
          invariant news == Range(nextId, id)
        {
          DrawnStep(before, nextId, id, draw);
          keys := keys[id := draw(id)];
          news := news + [id];
        }
      } else {
        DrawnStep(keys, nextId, firstUnuploaded + count, draw);
      }
      uploaded := Range(firstUnuploaded, firstUnuploaded + count);
      preKeys := Some(keys);
      nextPreKeyId := Some(Max(lastPreKeyId + 1, nextId));
      firstUnuploadedPreKeyId := Some(Max(firstUnuploaded, lastPreKeyId + 1));
    }

    /** `build_prekey_upload_node`, as far as the ids go. */
    method BuildUpload(count: int, draw: int -> Pair) returns (r: Result<Ids, UploadError>)
      modifies this
      ensures View() == Taken(old(View()), count, draw)
      ensures
        var batch := Range(old(View().first), old(View().first) + count);
        var missing := Missing(batch, View().keys);
        r == if missing == [] then Ok(batch) else Err(MissingKeys(missing))
    {
      var uploaded, _ := GenerateOrGetPreKeys(count, draw);
      var missing := Missing(uploaded, OrElse(preKeys, map[]));
      r := if missing == [] then Ok(uploaded) else Err(MissingKeys(missing));
    }
  }

  /** Whether one of the attempts 0 to `retries` is answered; with negative retries nothing is asked. */
  predicate Answered(retries: int, answers: int -> bool) {
    retries < 0 || exists attempt :: 0 <= attempt <= retries && answers(attempt)
  }

  class Client {
    var credentials: Credentials

    constructor (credentials: Credentials)
      ensures this.credentials == credentials
    {
      this.credentials := credentials;
    }

    /** `upload_pre_keys`: the work is done on a copy, which replaces the credentials only after an answer. */
    method UploadPreKeys(count: Option<int>, retries: int, draw: int -> Pair, answers: int -> bool)
      returns (r: Result<Ids, UploadError>)
      modifies this
      ensures (credentials.View(), r) == Upload(old(credentials.View()), count, Answered(retries, answers), draw)
      ensures r.Err? ==> credentials == old(credentials)
      ensures r.Ok? ==> fresh(credentials)
    {
      hide Range, Missing, Drawn, Taken;
      var working := new Credentials.Copy(credentials);
      var result := working.BuildUpload(Wanted(count), draw);
      if result.Err? {
        return result;
      }
      var failed := false;
      for attempt := 0 to Max(0, retries + 1)
        invariant failed == (attempt > 0)
        invariant forall a :: 0 <= a < attempt ==> !answers(a)
      {
        if answers(attempt) {
          failed := false;
          break;
        }
        failed := true;
      }
      assert failed == !Answered(retries, answers);
      if failed {
        return Err(QueryFailed);
      }
      credentials := working;
      return result;
    }
  }

  // ---- runs ---------------------------------------------------------------------------

  /** An upload with its outcome at the server, or the use of a key that was uploaded before. */
  datatype Event =
    | UploadEvent(count: Option<int>, accepted: bool, draw: int -> Pair)
    | ConsumeEvent(id: int)

  datatype Run = Run(pool: Pool, batches: seq<Ids>)

  function Step(s: Run, e: Event): Run {
    match e
    case UploadEvent(count, accepted, draw) =>
      var (pool, r) := Upload(s.pool, count, accepted, draw);
      Run(pool, if r.Ok? then s.batches + [r.value] else s.batches)
    case ConsumeEvent(id) => s.(pool := s.pool.(keys := s.pool.keys - {id}))
  }

  function After(s: Run, events: seq<Event>): Run {
    if events == [] then s else Step(After(s, events[..|events| - 1]), events[|events| - 1])
  }

  /** Only keys that were uploaded are ever used up. */
  predicate Legal(s: Run, events: seq<Event>) {
    events == [] ||
    (var before, last := events[..|events| - 1], events[|events| - 1];
     Legal(s, before) && (last.ConsumeEvent? ==> last.id < After(s, before).pool.first))
  }

  function Joined(batches: seq<Ids>): Ids {
    if batches == [] then [] else Joined(batches[..|batches| - 1]) + batches[|batches| - 1]
  }

  /** A key is reported missing exactly when one of the ids taken from the stock has none. */
  lemma MissingExactly(p: Pool, count: int, draw: int -> Pair)
    ensures Missing(Range(p.first, p.first + count), Taken(p, count, draw).keys) == []
      <==> forall id :: p.first <= id < p.first + count && id < p.next ==> id in p.keys
  {
    hide Missing, Range;
    var batch, keys := Range(p.first, p.first + count), Taken(p, count, draw).keys;
    assert forall id :: p.next <= id < p.first + count ==> id in keys;
    assert forall id :: id < p.next ==> (id in keys <==> id in p.keys);
  }

  /** From stocked credentials the missing-key error cannot be reached, every id of a batch has its key, and
      the credentials stay stocked. */
  lemma UploadStocked(p: Pool, count: Option<int>, accepted: bool, draw: int -> Pair)
    requires p.Stocked()
    ensures
      var (after, r) := Upload(p, count, accepted, draw);
      && after.Stocked()
      && (r.Ok? <==> accepted)
      && (r.Err? ==> r.error == QueryFailed && after == p)
      && (r.Ok? ==> r.value == Range(p.first, after.first) && |r.value| == Max(0, Wanted(count)))
      && (r.Ok? ==> forall id :: id in r.value ==> id in after.keys)
  {
    MissingExactly(p, Wanted(count), draw);
  }

  /** What one upload does to any credentials: the marks never go back, the batch is what the first mark
      passes, and a stored key changes only where a new one is drawn. */
  lemma UploadMarks(p: Pool, count: Option<int>, accepted: bool, draw: int -> Pair)
    ensures
      var (after, r) := Upload(p, count, accepted, draw);
      && p.first <= after.first && p.next <= after.next
      && (p.first <= p.next ==> after.first <= after.next)
      && (r.Ok? ==> r.value == Range(p.first, after.first))
      && (r.Err? ==> after == p)
      && (forall id :: id in p.keys ==>
            id in after.keys && after.keys[id] == if p.next <= id < after.next then draw(id) else p.keys[id])
  {
    hide Missing;
  }

  lemma RangeJoin(a: int, b: int, c: int)
    requires a <= b <= c
    ensures Range(a, b) + Range(b, c) == Range(a, c)
  {
  }

  /** Over any run from any credentials the committed batches, one after the other, are exactly the ids that
      the first mark has passed, and the first mark does not overtake the next id. */
  lemma {:induction false} BatchesContiguous(s: Run, events: seq<Event>)
    ensures
      var now := After(s, events);
      && s.pool.first <= now.pool.first
      && Joined(now.batches) == Joined(s.batches) + Range(s.pool.first, now.pool.first)
      && (s.pool.first <= s.pool.next ==> now.pool.first <= now.pool.next)
  {
    hide Upload, Range;
    if events == [] {
      assert Joined(s.batches) + [] == Joined(s.batches);
    } else {
      var before, last := After(s, events[..|events| - 1]), events[|events| - 1];
      BatchesContiguous(s, events[..|events| - 1]);
      if last.UploadEvent? {
        UploadMarks(before.pool, last.count, last.accepted, last.draw);
        var (after, r) := Upload(before.pool, last.count, last.accepted, last.draw);
        if r.Ok? {
          assert (before.batches + [r.value])[..|before.batches|] == before.batches;
          RangeJoin(s.pool.first, before.pool.first, after.first);
          assert Joined(s.batches) + Range(s.pool.first, before.pool.first) + r.value
              == Joined(s.batches) + (Range(s.pool.first, before.pool.first) + r.value);
        }
      }
    }
  }

  /** Over any run from stocked credentials in which only uploaded keys are used up, they stay stocked: so no
      upload of the run meets the missing-key error. */
  lemma {:induction false} StaysStocked(s: Run, events: seq<Event>)
    requires s.pool.Stocked() && Legal(s, events)
    ensures After(s, events).pool.Stocked()
  {
    hide Upload;
    if events != [] {
      var before, last := After(s, events[..|events| - 1]), events[|events| - 1];
      StaysStocked(s, events[..|events| - 1]);
      if last.UploadEvent? {
        UploadStocked(before.pool, last.count, last.accepted, last.draw);
      }
    }
  }

  lemma {:induction false} JoinedPlace(batches: seq<Ids>, i: nat, k: nat)
    requires i < |batches| && k < |batches[i]|
    ensures
      var at := |Joined(batches[..i])| + k;
      at < |Joined(batches)| && Joined(batches)[at] == batches[i][k]
      && at < |Joined(batches[..i + 1])|
  {
    var n := |batches| - 1;
    assert batches[..i + 1][..i] == batches[..i];
    if i < n {
      assert batches[..n][..i] == batches[..i];
      JoinedPlace(batches[..n], i, k);
    }
  }

  lemma {:induction false} JoinedGrows(batches: seq<Ids>, i: nat, j: nat)
    requires i <= j <= |batches|
    ensures |Joined(batches[..i])| <= |Joined(batches[..j])|
  {
    if i < j {
      assert batches[..j][..j - 1] == batches[..j - 1];
      JoinedGrows(batches, i, j - 1);
    }
  }

  /** No id is in two batches or twice in one: every later id is the greater one. */
  lemma BatchesAscend(s: Run, events: seq<Event>, i: nat, k: nat, j: nat, l: nat)
    requires s.batches == []
    requires
      var batches := After(s, events).batches;
      i <= j < |batches| && k < |batches[i]| && l < |batches[j]| && (i == j ==> k < l)
    ensures After(s, events).batches[i][k] < After(s, events).batches[j][l]
  {
    var batches := After(s, events).batches;
    BatchesContiguous(s, events);
    JoinedPlace(batches, i, k);
    JoinedPlace(batches, j, l);
    if i < j {
      JoinedGrows(batches, i + 1, j);
    }
  }

  /** No upload of the run draws this pair for this id. */
  ghost predicate DrawsOther(events: seq<Event>, id: int, pair: Pair) {
    forall e :: e in events && e.UploadEvent? ==> e.draw(id) != pair
  }

  lemma {:induction false} MarksGrow(s: Run, events: seq<Event>)
    ensures s.pool.next <= After(s, events).pool.next
  {
    hide Upload;
    if events != [] {
      var before, last := After(s, events[..|events| - 1]), events[|events| - 1];
      MarksGrow(s, events[..|events| - 1]);
      if last.UploadEvent? {
        UploadMarks(before.pool, last.count, last.accepted, last.draw);
      }
    }
  }

  /** A stored key that is not used up is still stored; it is the same one if the next id started above it or
      has not passed it, and otherwise it has been replaced by a key drawn for the id. */
  lemma {:induction false} KeyKept(s: Run, events: seq<Event>, id: int)
    requires id in s.pool.keys && ConsumeEvent(id) !in events
    ensures
      var now := After(s, events).pool;
      && id in now.keys
      && (id < s.pool.next || now.next <= id ==> now.keys[id] == s.pool.keys[id])
      && (DrawsOther(events, id, s.pool.keys[id]) ==>
            (now.keys[id] == s.pool.keys[id] <==> id < s.pool.next || now.next <= id))
  {
    hide Upload;
    if events != [] {
      var front, last := events[..|events| - 1], events[|events| - 1];
      assert events == front + [last];
      KeyKept(s, front, id);
      MarksGrow(s, front);
      if last.UploadEvent? {
        UploadMarks(After(s, front).pool, last.count, last.accepted, last.draw);
      }
    }
  }

  /** Credentials that hold a key but no marks: the first accepted upload draws the key of id 1 anew. */
  lemma KeyReplaced(pair: Pair, draw: int -> Pair)
    ensures
      var s := Run(Pool(1, 1, map[1 := pair]), []);
      var now := After(s, [UploadEvent(None, true, draw)]).pool;
      1 in now.keys && now.keys[1] == draw(1)
  {
    var s, e := Run(Pool(1, 1, map[1 := pair]), []), UploadEvent(None, true, draw);
    assert [e][..0] == [] && After(s, []) == s;
    MissingExactly(s.pool, MIN_PREKEY_COUNT, draw);
  }

  // ---- one upload, one use --------------------------------------------------------------

  predicate Ascending(ids: Ids) {
    forall i :: 0 < i < |ids| ==> ids[i - 1] < ids[i]
  }

  lemma {:induction false} MissingIs(a: int, b: int, keys: map<int, Pair>)
    ensures Ascending(Missing(Range(a, b), keys))
    ensures forall id :: id in Missing(Range(a, b), keys) <==> a <= id < b && id !in keys
    decreases b - a
  {
    hide Missing, Range;
    MissingStep(a, b, keys);
    if a < b {
      MissingIs(a, b - 1, keys);
      var ids := Missing(Range(a, b - 1), keys);
      assert ids != [] ==> ids[|ids| - 1] in ids;
    }
  }

  lemma MissingStep(a: int, b: int, keys: map<int, Pair>)
    ensures Missing(Range(a, b), keys) ==
      if a >= b then [] else Missing(Range(a, b - 1), keys) + if b - 1 in keys then [] else [b - 1]
  {
    if a < b {
      assert Range(a, b)[..|Range(a, b)| - 1] == Range(a, b - 1);
    }
  }

  /** An upload of `count` keys, or of 5 when no count or 0 is given. It raises with exactly the ids of the stock that
      have no key, in order; else, when it is answered, the ids uploaded are those from the first mark on, the ones from
      the next id on have new keys, and both marks are moved behind them, though never back; and otherwise nothing
      changes. */
  lemma UploadExact(p: Pool, count: Option<int>, accepted: bool, draw: int -> Pair)
    ensures
      var n := if count.Some? && count.value != 0 then count.value else 5;
      var end := p.first + n;
      var (after, r) := Upload(p, count, accepted, draw);
      if exists id :: p.first <= id < end && id < p.next && id !in p.keys then
        && after == p && r.Err? && r.error.MissingKeys? && Ascending(r.error.ids)
        && forall id :: id in r.error.ids <==> p.first <= id < end && id < p.next && id !in p.keys
      else if !accepted then after == p && r == Err(QueryFailed)
      else
        && r.Ok? && Ascending(r.value) && (forall id :: id in r.value <==> p.first <= id < end)
        && after.next == (if p.next < end then end else p.next)
        && after.first == (if n > 0 then end else p.first)
        && forall id :: (id in after.keys <==> id in p.keys || p.next <= id < end)
                        && (id in after.keys ==> after.keys[id] == if p.next <= id < end then draw(id) else p.keys[id])
  {
    hide Missing, Ascending;
    var n := Wanted(count);
    var keys := Taken(p, n, draw).keys;
    MissingIs(p.first, p.first + n, keys);
    MissingExactly(p, n, draw);
    InOrder(p.first, p.first + n);
    TakenKeys(p, n, draw);
    hide Range, Drawn;
  }

  lemma InOrder(a: int, b: int)
    ensures Ascending(Range(a, b))
  {
  }

  lemma TakenKeys(p: Pool, count: int, draw: int -> Pair)
    ensures
      var keys, end := Taken(p, count, draw).keys, p.first + count;
      && (forall id :: id in keys <==> id in p.keys || p.next <= id < end)
      && (forall id :: id in keys ==> keys[id] == if p.next <= id < end then draw(id) else p.keys[id])
  {
  }

  /** A key that was used up is gone for good, unless its id was still to be passed when the run started. */
  lemma {:induction false} UsedUpGone(s: Run, events: seq<Event>, id: int)
    requires ConsumeEvent(id) in events && id < s.pool.next
    ensures id !in After(s, events).pool.keys
  {
    hide Upload;
    var front, last := events[..|events| - 1], events[|events| - 1];
    assert events == front + [last];
    MarksGrow(s, front);
    if last != ConsumeEvent(id) {
      UsedUpGone(s, front, id);
      if last.UploadEvent? {
        UploadMarks(After(s, front).pool, last.count, last.accepted, last.draw);
        NewKeysOnly(After(s, front).pool, last.count, last.accepted, last.draw, id);
      }
    }
  }

  lemma NewKeysOnly(p: Pool, count: Option<int>, accepted: bool, draw: int -> Pair, id: int)
    requires id !in p.keys && id < p.next
    ensures id !in Upload(p, count, accepted, draw).0.keys
  {
    hide Missing;
  }

  /** An upload is answered when the first answer comes within the retries; with negative retries nobody is asked. */
  lemma FirstAnswer(retries: int, answers: int -> bool, first: nat)
    requires answers(first) && forall i :: 0 <= i < first ==> !answers(i)
    ensures Answered(retries, answers) <==> retries < 0 || first <= retries
  {
  }

  /** Credentials without pre-key fields start from id 1 and hold no key; without the first mark it is the next id. */
  lemma DefaultFields(c: Credentials)
    ensures c.nextPreKeyId == None && c.preKeys == None ==> c.View().next == 1 && c.View().keys == map[]
    ensures c.firstUnuploadedPreKeyId == None ==> c.View().first == c.View().next
    ensures c.nextPreKeyId.Some? ==> c.View().next == c.nextPreKeyId.value
    ensures c.firstUnuploadedPreKeyId.Some? ==> c.View().first == c.firstUnuploadedPreKeyId.value
    ensures c.preKeys.Some? ==> c.View().keys == c.preKeys.value
  {
  }
}
