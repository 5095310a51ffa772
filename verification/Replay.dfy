/** The cache of sent messages and the answering of retry receipts from it. */
module Replay {
  import opened Common
  import opened WABinary

  datatype ReplayEntry = ReplayEntry(node: Node, expiresAt: real)

  type Entries = map<string, ReplayEntry>

  /** A message id and the participant who asks for it again. */
  datatype RetryKey = RetryKey(id: string, participant: Option<string>)

  /** The key of a retry receipt. */
  datatype Request = Request(id: Option<string>, participant: Option<string>, fromMe: bool)

  datatype Reason = NotFromMe | MaxRetriesExceeded | Resent | MessageUnavailable | ResendError

  /** A session bundle out of a receipt, and the credentials with that session in them. */
  datatype Session = Session(bundle: Bytes, credentials: Bytes)

  /** What a retry receipt leads to; `sent` is the node that went out. */
  datatype Outcome = Outcome(localRetryCount: nat, willRetry: bool, reason: Reason, sent: Option<Node>,
                             bundle: Option<Bytes>)

  function OrEmpty(id: Option<string>): string {
    match id
    case None => ""
    case Some(v) => v
  }

  function KeyOf(r: Request): RetryKey {
    RetryKey(OrEmpty(r.id), r.participant)
  }

  // ---- the state as a value -----------------------------------------------------------

  /** `committed` are the credentials that were saved last, if any were. */
  datatype Cache = Cache(entries: Entries, recent: map<string, Node>, retries: map<RetryKey, nat>,
                         committed: Option<Bytes>)

  function Save(c: Cache, id: string, node: Node, expiresAt: real): Cache {
    if id == "" then c
    else c.(entries := c.entries[id := ReplayEntry(node, expiresAt)], recent := c.recent[id := node])
  }

  /** A lookup: an entry that has expired is dropped. */
  function Lookup(entries: Entries, id: string, now: real): (Entries, Option<Node>) {
    if id !in entries then (entries, None)
    else if entries[id].expiresAt <= now then (entries - {id}, None)
    else (entries, Some(entries[id].node))
  }

  function Load(c: Cache, id: string, now: real): (Cache, Option<Node>) {
    var (entries, node) := Lookup(c.entries, id, now);
    (c.(entries := entries, recent := if node.Some? then c.recent[id := node.value] else c.recent - {id}), node)
  }

  function Unexpired(entries: Entries, now: real): Entries {
    map id | id in entries && entries[id].expiresAt > now :: entries[id]
  }

  function Retries(c: Cache, k: RetryKey): nat {
    if k in c.retries then c.retries[k] else 0
  }

  /** The session that a receipt brings: only one that names its participant is looked at. */
  function SessionOf(r: Request, session: Option<Session>): Option<Session> {
    if Filled(r.participant) then session else None
  }

  function Commit(c: Cache, session: Option<Session>): Cache {
    if session.Some? then c.(committed := Some(session.value.credentials)) else c
  }

  /** One retry receipt. `session` is what injecting its session comes to, None if it has none or that raises;
      `sendFails` stands for an exception out of the connection. */
  function Dispatch(c: Cache, r: Request, session: Option<Session>, max: int, now: real, sendFails: bool)
    : (Cache, Outcome)
  {
    var count := Retries(c, KeyOf(r)) + 1;
    var counted := c.(retries := c.retries[KeyOf(r) := count]);
    var given := SessionOf(r, session);
    var bundle := if given.Some? then Some(given.value.bundle) else None;
    var willRetry := r.fromMe && count <= max;
    if !r.fromMe then (Commit(counted, given), Outcome(count, willRetry, NotFromMe, None, bundle))
    else if count > max then (Commit(counted, given), Outcome(count, willRetry, MaxRetriesExceeded, None, bundle))
    else if OrEmpty(r.id) == "" then
      (Commit(counted, given), Outcome(count, willRetry, MessageUnavailable, None, bundle))
    else
      var (after, node) := Load(counted, r.id.value, now);
      (Commit(after, given),
       if node == None then Outcome(count, willRetry, MessageUnavailable, None, bundle)
       else if sendFails then Outcome(count, willRetry, ResendError, None, bundle)
       else Outcome(count, willRetry, Resent, node, bundle))
  }

  // ---- the classes --------------------------------------------------------------------

  class InMemoryReplayStore {
    var entries: Entries

    constructor ()
      ensures entries == map[]
    {
      entries := map[];
    }

    method SaveRecentOutbound(id: string, node: Node, expiresAt: real)
      modifies this
      ensures entries == if id == "" then old(entries) else old(entries)[id := ReplayEntry(node, expiresAt)]
    {
      if id == "" {
        return;
      }
      entries := entries[id := ReplayEntry(node, expiresAt)];
    }

    method LoadRecentOutbound(id: string, now: real) returns (node: Option<Node>)
      modifies this
      ensures (entries, node) == Lookup(old(entries), id, now)
    {
      if id !in entries {
        return None;
      }
      var entry := entries[id];
      if entry.expiresAt <= now {
        entries := entries - {id};
        return None;
      }
      return Some(entry.node);
    }

    method DeleteRecentOutbound(id: string)
      modifies this
      ensures entries == old(entries) - {id}
    {
      entries := entries - {id};
    }

    method PruneExpired(now: real) returns (count: nat)
      modifies this
      ensures entries == Unexpired(old(entries), now)
      ensures count == |old(entries).Keys - entries.Keys|
    {
      var expired := Expired(entries, now);
      ghost var before, gone := entries, {};
      count := |expired|;
      var todo := expired;
      assert before - gone == before;
      while todo != {}
        invariant gone + todo == expired
        invariant entries == before - gone
        decreases |todo|
      {
        var id :| id in todo;
        RemoveOne(before, gone, id);
        entries := entries - {id};
        todo, gone := todo - {id}, gone + {id};
      }
      RemoveExpired(before, now);
    }
  }

  function Expired(entries: Entries, now: real): set<string> {
    set id | id in entries && entries[id].expiresAt <= now
  }

  lemma RemoveOne(entries: Entries, gone: set<string>, id: string)
    ensures entries - gone - {id} == entries - (gone + {id})
  {
  }

  lemma RemoveExpired(entries: Entries, now: real)
    ensures entries - Expired(entries, now) == Unexpired(entries, now)
    ensures entries.Keys - Unexpired(entries, now).Keys == Expired(entries, now)
  {
  }

  class Client {
    const store: InMemoryReplayStore
    const maxMsgRetryCount: int
    const replayTtlSeconds: real
    var recentOutbound: map<string, Node>
    var messageRetryCounts: map<RetryKey, nat>
    var committed: Option<Bytes>

    constructor (maxMsgRetryCount: int, replayTtlSeconds: real)
      ensures fresh(store)
      ensures this.maxMsgRetryCount == maxMsgRetryCount && this.replayTtlSeconds == replayTtlSeconds
      ensures View() == Cache(map[], map[], map[], None)
    {
      store := new InMemoryReplayStore();
      this.maxMsgRetryCount, this.replayTtlSeconds := maxMsgRetryCount, replayTtlSeconds;
      recentOutbound, messageRetryCounts, committed := map[], map[], None;
    }

    function View(): Cache
      reads this, store
    {
      Cache(store.entries, recentOutbound, messageRetryCounts, committed)
    }

    /** `save_recent_outbound` */
    method SaveRecentOutbound(id: string, node: Node, ttl: Option<real>, now: real)
      modifies this, store
      ensures View() == Save(old(View()), id, node, now + if ttl.Some? then ttl.value else replayTtlSeconds)
    {
      if id == "" {
        return;
      }
      var expiresAt := now + if ttl.Some? then ttl.value else replayTtlSeconds;
      recentOutbound := recentOutbound[id := node];
      store.SaveRecentOutbound(id, node, expiresAt);
    }

    /** `load_recent_outbound` */
    method LoadRecentOutbound(id: string, now: real) returns (node: Option<Node>)
      modifies this, store
      ensures (View(), node) == Load(old(View()), id, now)
    {
      node := store.LoadRecentOutbound(id, now);
      if node.Some? {
        recentOutbound := recentOutbound[id := node.value];
      } else {
        recentOutbound := recentOutbound - {id};
      }
    }

    /** `_increment_retry_count` */
    method IncrementRetryCount(id: string, participant: Option<string>) returns (count: nat)
      modifies this
      ensures
        var k := RetryKey(id, participant);
        count == Retries(old(View()), k) + 1
        && View() == old(View()).(retries := old(View()).retries[k := count])
    {
      var k := RetryKey(id, participant);
      count := (if k in messageRetryCounts then messageRetryCounts[k] else 0) + 1;
      messageRetryCounts := messageRetryCounts[k := count];
    }

    /** `resend_message_for_retry`: the node that went out, or an exception. */
    method ResendMessageForRetry(r: Request, now: real, sendFails: bool) returns (sent: Result<Option<Node>, Reason>)
      modifies this, store
      ensures OrEmpty(r.id) == "" ==> View() == old(View()) && sent == Ok(None)
      ensures OrEmpty(r.id) != "" ==>
        var (after, node) := Load(old(View()), r.id.value, now);
        View() == after && sent == if node.Some? && sendFails then Err(ResendError) else Ok(node)
    {
      if OrEmpty(r.id) == "" {
        return Ok(None);
      }
      var node := LoadRecentOutbound(r.id.value, now);
      if node == None {
        return Ok(None);
      }
      if sendFails {
        return Err(ResendError);
      }
      return Ok(node);
    }

    /** `dispatch_retry_receipt_node` */
    method DispatchRetryReceiptNode(r: Request, session: Option<Session>, now: real, sendFails: bool)
      returns (outcome: Outcome)
      modifies this, store
      ensures (View(), outcome) == Dispatch(old(View()), r, session, maxMsgRetryCount, now, sendFails)
    {
      var count := IncrementRetryCount(OrEmpty(r.id), r.participant);
      var bundle := None;
      if Filled(r.participant) && session.Some? {
        bundle := Some(session.value.bundle);
      }
      var willRetry := r.fromMe && count <= maxMsgRetryCount;
      var reason, sent := NotFromMe, None;
      if !r.fromMe {
      } else if count > maxMsgRetryCount {
        reason := MaxRetriesExceeded;
      } else {
        var resent := ResendMessageForRetry(r, now, sendFails);
        match resent
        case Err(_) => reason := ResendError;
        case Ok(node) => reason, sent := if node.Some? then Resent else MessageUnavailable, node;
      }
      outcome := Outcome(count, willRetry, reason, sent, bundle);
      if bundle.Some? {
        committed := Some(session.value.credentials);
      }
    }
  }

  // ---- runs ---------------------------------------------------------------------------

  datatype Event =
    | Saved(id: string, node: Node, ttl: real, now: real)
    | Loaded(id: string, now: real)
    | Pruned(now: real)
    | Deleted(id: string, now: real)
    | Receipt(request: Request, session: Option<Session>, sendFails: bool, now: real)

  function Step(c: Cache, e: Event, max: int): Cache {
    match e
    case Saved(id, node, ttl, now) => Save(c, id, node, now + ttl)
    case Loaded(id, now) => Load(c, id, now).0
    case Pruned(now) => c.(entries := Unexpired(c.entries, now))
    case Deleted(id, _) => c.(entries := c.entries - {id})
    case Receipt(r, session, sendFails, now) => Dispatch(c, r, session, max, now, sendFails).0
  }

  function After(log: seq<Event>, max: int): Cache {
    if log == [] then Cache(map[], map[], map[], None) else Step(After(log[..|log| - 1], max), log[|log| - 1], max)
  }

  /** The clock never goes back, up to `now`. */
  predicate Ticking(log: seq<Event>, now: real) {
    log == [] || (log[|log| - 1].now <= now && Ticking(log[..|log| - 1], log[|log| - 1].now))
  }

  /** The last save of an id, unless it was deleted since. */
  function LastSave(log: seq<Event>, id: string): Option<ReplayEntry> {
    if log == [] || id == "" then None
    else
      var last := log[|log| - 1];
      if last.Saved? && last.id == id then Some(ReplayEntry(last.node, last.now + last.ttl))
      else if last.Deleted? && last.id == id then None
      else LastSave(log[..|log| - 1], id)
  }

  /** The node last saved for an id, whatever happened since. */
  function LastSaved(log: seq<Event>, id: string): Option<Node> {
    if log == [] || id == "" then None
    else
      var last := log[|log| - 1];
      if last.Saved? && last.id == id then Some(last.node) else LastSaved(log[..|log| - 1], id)
  }

  /** What a plain log of saves answers: the node last saved for the id, unless that has expired. */
  function PlainLookup(log: seq<Event>, id: string, now: real): Option<Node> {
    match LastSave(log, id)
    case None => None
    case Some(entry) => if entry.expiresAt <= now then None else Some(entry.node)
  }

  /** How many receipts have come from one participant for one message. */
  function Receipts(log: seq<Event>, k: RetryKey): nat {
    if log == [] then 0
    else
      var last := log[|log| - 1];
      Receipts(log[..|log| - 1], k) + if last.Receipt? && KeyOf(last.request) == k then 1 else 0
  }

  lemma {:induction false} CountsReceipts(log: seq<Event>, max: int, k: RetryKey)
    ensures Retries(After(log, max), k) == Receipts(log, k)
  {
    if log != [] {
      CountsReceipts(log[..|log| - 1], max, k);
    }
  }

  /** An event that drops the entry of the id if it has expired: a prune, a load of the id, or a receipt
      of it within the limit. */
  predicate Purges(log: seq<Event>, e: Event, max: int, id: string) {
    match e
    case Pruned(_) => true
    case Loaded(loaded, _) => loaded == id
    case Receipt(r, _, _, _) => OrEmpty(r.id) == id && r.fromMe && Receipts(log, KeyOf(r)) < max
    case _ => false
  }

  /** Since the last save of the id, such an event came at or after its expiry. */
  predicate Purged(log: seq<Event>, max: int, id: string)
    ensures Purged(log, max, id) ==> LastSave(log, id).Some?
  {
    log != [] &&
    (var before, last := log[..|log| - 1], log[|log| - 1];
     !((last.Saved? || last.Deleted?) && last.id == id)
     && (Purged(before, max, id)
         || (LastSave(before, id).Some? && Purges(before, last, max, id)
             && LastSave(before, id).value.expiresAt <= last.now)))
  }

  /** Under any clock the cache holds the last save of an id exactly as long as it was not purged. */
  lemma {:induction false} HoldsLastSave(log: seq<Event>, max: int, id: string)
    ensures
      var c, last := After(log, max), LastSave(log, id);
      && (id in c.entries <==> last.Some? && !Purged(log, max, id))
      && (id in c.entries ==> last == Some(c.entries[id]))
  {
    if log != [] {
      var before, e := log[..|log| - 1], log[|log| - 1];
      HoldsLastSave(before, max, id);
      if e.Receipt? {
        CountsReceipts(before, max, KeyOf(e.request));
      }
    }
  }

  /** A receipt leaves the caches alone or loads its id. */
  lemma ReceiptLoads(c: Cache, r: Request, session: Option<Session>, max: int, now: real, sendFails: bool)
    ensures
      var after := Dispatch(c, r, session, max, now, sendFails).0;
      || (after.entries == c.entries && after.recent == c.recent)
      || (OrEmpty(r.id) != "" && after.entries == Load(c, r.id.value, now).0.entries
          && after.recent == Load(c, r.id.value, now).0.recent)
  {
  }

  /** The second cache never holds another node than the one last saved, and it holds every node that
      the store holds. */
  lemma {:induction false} RecentIsLastSaved(log: seq<Event>, max: int, id: string)
    ensures
      var c := After(log, max);
      && (id in c.recent ==> LastSaved(log, id) == Some(c.recent[id]))
      && (id in c.entries ==> LastSaved(log, id) == Some(c.entries[id].node) && id in c.recent)
  {
    hide Dispatch;
    if log != [] {
      var before, last := log[..|log| - 1], log[|log| - 1];
      RecentIsLastSaved(before, max, id);
      if last.Receipt? {
        ReceiptLoads(After(before, max), last.request, last.session, max, last.now, last.sendFails);
      }
    }
  }

  /** An event that looks the id up: a load of it, or a receipt of it within the limit. */
  predicate LooksUp(log: seq<Event>, e: Event, max: int, id: string) {
    match e
    case Loaded(loaded, _) => loaded == id
    case Receipt(r, _, _, _) => id != "" && r.id == Some(id) && r.fromMe && Receipts(log, KeyOf(r)) < max
    case _ => false
  }

  /** Whether the last save or look-up of the id left it in the second cache: a save does, and a look-up does exactly
      when it finds an entry that has neither been purged nor expired. */
  predicate Remembered(log: seq<Event>, max: int, id: string) {
    log != [] && id != "" &&
    (var before, last := log[..|log| - 1], log[|log| - 1];
     if last.Saved? && last.id == id then true
     else if LooksUp(before, last, max, id) then
       LastSave(before, id).Some? && !Purged(before, max, id) && LastSave(before, id).value.expiresAt > last.now
     else Remembered(before, max, id))
  }

  /** The second cache holds exactly the ids whose last save or look-up left them there. */
  lemma {:induction false} RecentExact(log: seq<Event>, max: int, id: string)
    ensures id in After(log, max).recent <==> Remembered(log, max, id)
  {
    hide Dispatch, Purged, LastSave;
    if log != [] {
      var before, last := log[..|log| - 1], log[|log| - 1];
      RecentExact(before, max, id);
      HoldsLastSave(before, max, id);
      NoSave(before);
      if last.Receipt? {
        CountsReceipts(before, max, KeyOf(last.request));
        ReceiptRecent(After(before, max), last.request, last.session, max, last.now, last.sendFails);
      }
    }
  }

  /** A receipt looks its id up when it is of an own message within the limit, and leaves the second cache alone
      otherwise. */
  lemma ReceiptRecent(c: Cache, r: Request, session: Option<Session>, max: int, now: real, sendFails: bool)
    ensures Dispatch(c, r, session, max, now, sendFails).0.recent
      == if r.fromMe && Retries(c, KeyOf(r)) < max && Filled(r.id) then Load(c, r.id.value, now).0.recent else c.recent
  {
  }

  /** Under any clock, the lazily purged cache answers as the plain log of saves does unless the entry
      was purged by a clock that has since gone back to before its expiry. */
  lemma LoadIsPlain(log: seq<Event>, max: int, id: string, now: real)
    ensures Load(After(log, max), id, now).1 == PlainLookup(log, id, now)
      <==> !(Purged(log, max, id) && now < LastSave(log, id).value.expiresAt)
  {
    HoldsLastSave(log, max, id);
  }

  /** While the clock does not go back, what was purged has expired. */
  lemma {:induction false} TickingPurges(log: seq<Event>, max: int, id: string, now: real)
    requires Ticking(log, now) && Purged(log, max, id)
    ensures LastSave(log, id).value.expiresAt <= now
  {
    var before, last := log[..|log| - 1], log[|log| - 1];
    if Purged(before, max, id) {
      TickingPurges(before, max, id, last.now);
    }
  }

  /** So a clock that does not go back is enough for the two to agree. */
  lemma TickingIsPlain(log: seq<Event>, max: int, id: string, now: real)
    requires Ticking(log, now)
    ensures Load(After(log, max), id, now).1 == PlainLookup(log, id, now)
  {
    LoadIsPlain(log, max, id, now);
    if Purged(log, max, id) {
      TickingPurges(log, max, id, now);
    }
  }

  /** The outcome of a receipt, from the log alone: its number decides whether it is answered,
      and the plain log of saves decides with what. */
  function Expected(log: seq<Event>, r: Request, session: Option<Session>, max: int, now: real, sendFails: bool)
    : Outcome
  {
    var id := match r.id case Some(v) => v case None => "";
    var count, node := Receipts(log, RetryKey(id, r.participant)) + 1, PlainLookup(log, id, now);
    var reason :=
      if !r.fromMe then NotFromMe
      else if count > max then MaxRetriesExceeded
      else if node == None then MessageUnavailable
      else if sendFails then ResendError
      else Resent;
    Outcome(count, r.fromMe && count <= max, reason, if reason == Resent then node else None,
            if Filled(r.participant) && session.Some? then Some(session.value.bundle) else None)
  }

  /** A receipt of a run has the outcome that the log determines unless it would be answered from an
      entry that was purged by a clock that has since gone back to before its expiry. */
  lemma DispatchAsExpected(log: seq<Event>, r: Request, session: Option<Session>, max: int, now: real,
                           sendFails: bool)
    ensures
      var id := OrEmpty(r.id);
      Dispatch(After(log, max), r, session, max, now, sendFails).1 == Expected(log, r, session, max, now, sendFails)
      <==> !(r.fromMe && Receipts(log, KeyOf(r)) < max && Purged(log, max, id)
             && now < LastSave(log, id).value.expiresAt)
  {
    hide Purged, LastSave, Receipts, After;
    CountsReceipts(log, max, KeyOf(r));
    HoldsLastSave(log, max, OrEmpty(r.id));
    NoSave(log);
  }

  lemma NoSave(log: seq<Event>)
    ensures LastSave(log, "") == None
  {
  }

  /** How many receipts of one participant for one message were answered with the message. */
  function Resends(log: seq<Event>, max: int, k: RetryKey): nat {
    if log == [] then 0
    else
      var before, last := log[..|log| - 1], log[|log| - 1];
      Resends(before, max, k)
      + if last.Receipt? && KeyOf(last.request) == k
           && Dispatch(After(before, max), last.request, last.session, max, last.now, last.sendFails).1.sent.Some?
        then 1 else 0
  }

  /** A message is resent to a participant at most `max` times, whatever the clock does. */
  lemma {:induction false} ResendsBounded(log: seq<Event>, max: int, k: RetryKey)
    ensures Resends(log, max, k) <= Receipts(log, k)
    ensures Resends(log, max, k) <= if max < 0 then 0 else max
  {
    if log != [] {
      ResendsBounded(log[..|log| - 1], max, k);
      CountsReceipts(log[..|log| - 1], max, k);
    }
  }

  /** The credentials of the last receipt that names its participant and brings a session. */
  function LastSession(log: seq<Event>): Option<Bytes> {
    if log == [] then None
    else
      var last := log[|log| - 1];
      if last.Receipt? && Filled(last.request.participant) && last.session.Some?
      then Some(last.session.value.credentials)
      else LastSession(log[..|log| - 1])
  }

  /** Whether a receipt is answered or refused, even if its resend raises, the credentials with its session are
      saved; nothing else saves any. */
  lemma {:induction false} CommitsEverySession(log: seq<Event>, max: int)
    ensures After(log, max).committed == LastSession(log)
  {
    if log != [] {
      CommitsEverySession(log[..|log| - 1], max);
    }
  }

  /** With a clock that goes back the two differ: a purge forgets an entry that the log still holds valid. */
  lemma ClockBack(node: Node, max: int)
    ensures
      var log := [Saved("m", node, 5.0, 0.0), Pruned(9.0)];
      Load(After(log, max), "m", 1.0).1 == None && PlainLookup(log, "m", 1.0) == Some(node)
  {
    var log := [Saved("m", node, 5.0, 0.0), Pruned(9.0)];
    assert log[..1] == [Saved("m", node, 5.0, 0.0)];
    assert log[..1][..0] == [];
    assert LastSave(log[..1], "m") == Some(ReplayEntry(node, 5.0));
  }
}
