/** Extracted content is canonical: extracting again changes nothing, and neither do the order
    of records with different numbers, records outside the allow-list, or the way a nested
    message was written, at any depth. */
module ReportingCanonical {
  import opened Common
  import opened Varint
  import opened Reporting

  // ---- the stable sort ----------------------------------------------------------------

  predicate Sorted(pieces: seq<Piece>) {
    forall i, j :: 0 <= i < j < |pieces| ==> pieces[i].num <= pieces[j].num
  }

  /** The pieces with one number, in order. */
  function OfNumber(pieces: seq<Piece>, num: nat): seq<Piece> {
    if pieces == [] then []
    else if pieces[0].num == num then [pieces[0]] + OfNumber(pieces[1..], num)
    else OfNumber(pieces[1..], num)
  }

  lemma {:induction false} InsertSorted(p: Piece, sorted: seq<Piece>)
    requires Sorted(sorted)
    ensures Sorted(Insert(p, sorted))
    ensures multiset(Insert(p, sorted)) == multiset(sorted) + multiset{p}
    ensures Insert(p, sorted)[0] == p || (sorted != [] && Insert(p, sorted)[0] == sorted[0])
  {
    if sorted != [] && p.num > sorted[0].num {
      InsertSorted(p, sorted[1..]);
      assert sorted == [sorted[0]] + sorted[1..];
    }
  }

  lemma {:induction false} InsertNumber(p: Piece, sorted: seq<Piece>, num: nat)
    requires Sorted(sorted)
    ensures OfNumber(Insert(p, sorted), num)
      == if p.num == num then [p] + OfNumber(sorted, num) else OfNumber(sorted, num)
  {
    if sorted == [] || p.num <= sorted[0].num {
      assert ([p] + sorted)[1..] == sorted;
    } else {
      InsertNumber(p, sorted[1..], num);
      assert ([sorted[0]] + Insert(p, sorted[1..]))[1..] == Insert(p, sorted[1..]);
    }
  }

  lemma {:induction false} SortOrders(pieces: seq<Piece>)
    ensures Sorted(StableSort(pieces))
    ensures multiset(StableSort(pieces)) == multiset(pieces)
  {
    hide Insert, Sorted;
    if pieces == [] {
      EmptySorted();
    } else {
      SortOrders(pieces[1..]);
      InsertSorted(pieces[0], StableSort(pieces[1..]));
      assert pieces == [pieces[0]] + pieces[1..];
    }
  }

  lemma EmptySorted()
    ensures Sorted([])
  {
  }

  lemma {:induction false} SortKeepsOrder(pieces: seq<Piece>, num: nat)
    ensures OfNumber(StableSort(pieces), num) == OfNumber(pieces, num)
  {
    hide Insert, Sorted;
    if pieces != [] {
      SortKeepsOrder(pieces[1..], num);
      SortOrders(pieces[1..]);
      InsertNumber(pieces[0], StableSort(pieces[1..]), num);
    }
  }

  /** The sort orders by number, drops and adds nothing, and keeps pieces of one number in order. */
  lemma SortSpec(pieces: seq<Piece>)
    ensures Sorted(StableSort(pieces))
    ensures multiset(StableSort(pieces)) == multiset(pieces)
    ensures forall num :: OfNumber(StableSort(pieces), num) == OfNumber(pieces, num)
  {
    hide *;
    SortOrders(pieces);
    forall num
      ensures OfNumber(StableSort(pieces), num) == OfNumber(pieces, num)
    {
      SortKeepsOrder(pieces, num);
    }
  }

  lemma {:induction false} SortOfSorted(pieces: seq<Piece>)
    requires Sorted(pieces)
    ensures StableSort(pieces) == pieces
  {
    if pieces != [] {
      SortOfSorted(pieces[1..]);
    }
  }

  lemma {:induction false} InsertCommutes(p: Piece, q: Piece, sorted: seq<Piece>)
    requires p.num != q.num
    ensures Insert(p, Insert(q, sorted)) == Insert(q, Insert(p, sorted))
  {
    if sorted != [] && p.num > sorted[0].num && q.num > sorted[0].num {
      InsertCommutes(p, q, sorted[1..]);
      assert ([sorted[0]] + Insert(p, sorted[1..]))[1..] == Insert(p, sorted[1..]);
      assert ([sorted[0]] + Insert(q, sorted[1..]))[1..] == Insert(q, sorted[1..]);
    } else {
      assert ([p] + sorted)[1..] == sorted && ([q] + sorted)[1..] == sorted;
      if sorted != [] {
        assert ([sorted[0]] + Insert(p, sorted[1..]))[1..] == Insert(p, sorted[1..]);
        assert ([sorted[0]] + Insert(q, sorted[1..]))[1..] == Insert(q, sorted[1..]);
      }
    }
  }

  /** Swapping neighbours with different numbers does not show after sorting. */
  lemma {:induction false} SortSwap(front: seq<Piece>, p: Piece, q: Piece, back: seq<Piece>)
    requires p.num != q.num
    ensures StableSort(front + [p, q] + back) == StableSort(front + [q, p] + back)
  {
    var a, b := front + [p, q] + back, front + [q, p] + back;
    if front == [] {
      assert a[1..][1..] == back && b[1..][1..] == back;
      assert a[0] == p && a[1..][0] == q && b[0] == q && b[1..][0] == p;
      InsertCommutes(p, q, StableSort(back));
    } else {
      assert a[1..] == front[1..] + [p, q] + back && b[1..] == front[1..] + [q, p] + back;
      SortSwap(front[1..], p, q, back);
    }
  }

  // ---- records stand for themselves ---------------------------------------------------

  /** A record does not depend on what follows it. */
  lemma FirstLocal(d: Bytes, rest: Bytes, fields: seq<Field>)
    requires FirstRecord(d, fields).Some?
    ensures FirstRecord(d[..FirstRecord(d, fields).value.size] + rest, fields) == FirstRecord(d, fields)
  {
    hide VarintAt, Lookup, Extract, Rewrapped;
    var (tag, tagSize) := VarintAt(d, BUDGET).value;
    var end := FirstRecord(d, fields).value.size;
    var e := d[..end] + rest;
    assert e == d[..tagSize] + (d[tagSize..end] + rest);
    VarintLocal(d, d[tagSize..end] + rest, BUDGET);
    if tag % 8 == WIRE_VARINT || tag % 8 == WIRE_BYTES {
      var tail := d[tagSize..];
      var size := VarintAt(tail, BUDGET).value.1;
      assert e[tagSize..] == tail[..size] + (d[tagSize + size..end] + rest);
      VarintLocal(tail, d[tagSize + size..end] + rest, BUDGET);
      assert e[tagSize + size..end] == d[tagSize + size..end];
    }
    assert e[..end] == d[..end];
  }

  /** The pieces of accepted bytes come first, whatever follows. */
  lemma {:induction false} PiecesConcat(a: Bytes, b: Bytes, fields: seq<Field>)
    requires Pieces(a, fields).Some?
    ensures Pieces(a + b, fields) == Prepend(Pieces(a, fields).value, Pieces(b, fields))
    decreases |a|
  {
    hide FirstRecord;
    if a == [] {
      assert a + b == b;
      PrependMore([], [], Pieces(b, fields));
    } else {
      var step := FirstRecord(a, fields).value;
      var tail := a[step.size..];
      FirstLocal(a, tail + b, fields);
      assert a[..step.size] + (tail + b) == a + b && (a + b)[step.size..] == tail + b;
      PiecesConcat(tail, b, fields);
      PrependMore(Kept(step), Pieces(tail, fields).value, Pieces(b, fields));
    }
  }

  /** One record on its own. */
  ghost predicate IsRecord(r: Bytes, fields: seq<Field>, kept: Option<Piece>) {
    FirstRecord(r, fields) == Some(Step(|r|, kept))
  }

  lemma PiecesOfRecord(r: Bytes, fields: seq<Field>, kept: Option<Piece>)
    requires IsRecord(r, fields, kept)
    ensures Pieces(r, fields) == Some(Kept(Step(|r|, kept)))
  {
    hide FirstRecord;
    assert r[|r|..] == [];
    PrependMore(Kept(Step(|r|, kept)), [], Some([]));
  }

  // ---- length -------------------------------------------------------------------------

  function TotalBytes(pieces: seq<Piece>): nat {
    if pieces == [] then 0 else |pieces[0].bytes| + TotalBytes(pieces[1..])
  }

  lemma {:induction false} JoinLength(pieces: seq<Piece>)
    ensures |JoinPieces(pieces)| == TotalBytes(pieces)
  {
    if pieces != [] {
      JoinLength(pieces[1..]);
    }
  }

  lemma {:induction false} SortLength(pieces: seq<Piece>)
    ensures TotalBytes(StableSort(pieces)) == TotalBytes(pieces)
  {
    if pieces != [] {
      SortLength(pieces[1..]);
      InsertLength(pieces[0], StableSort(pieces[1..]));
    }
  }

  lemma {:induction false} InsertLength(p: Piece, sorted: seq<Piece>)
    ensures TotalBytes(Insert(p, sorted)) == |p.bytes| + TotalBytes(sorted)
  {
    if sorted == [] || p.num <= sorted[0].num {
      assert ([p] + sorted)[1..] == sorted;
    } else {
      InsertLength(p, sorted[1..]);
      assert ([sorted[0]] + Insert(p, sorted[1..]))[1..] == Insert(p, sorted[1..]);
    }
  }

  /** Writing a nested message again takes no more bytes than it had. */
  lemma RewrappedLength(d: Bytes, tag: nat, tagSize: nat, length: nat, lengthSize: nat, inner: Bytes)
    requires VarintAt(d, BUDGET) == Some((tag, tagSize)) && VarintAt(d[tagSize..], BUDGET) == Some((length, lengthSize))
    requires |inner| <= length
    ensures |Rewrapped(tag, inner)| <= tagSize + lengthSize + length
  {
    hide VarintAt, VarintBytes;
    VarintShortest(d, BUDGET);
    VarintShortest(d[tagSize..], BUDGET);
    VarintMonotone(tag % 0x1_0000_0000, tag);
    VarintMonotone(|inner| % 0x1_0000_0000, length);
  }

  lemma {:induction false} RecordLength(d: Bytes, fields: seq<Field>)
    requires FirstRecord(d, fields).Some? && FirstRecord(d, fields).value.kept.Some?
    ensures |FirstRecord(d, fields).value.kept.value.bytes| <= FirstRecord(d, fields).value.size
    decreases |d|, 0
  {
    hide VarintAt, Lookup, Extract, Rewrapped;
    var (tag, tagSize) := VarintAt(d, BUDGET).value;
    var end := FirstRecord(d, fields).value.size;
    var field := Lookup(fields, tag / 8).value;
    if tag % 8 == WIRE_BYTES && field.Nested() {
      var (length, lengthSize) := VarintAt(d[tagSize..], BUDGET).value;
      var content := d[tagSize + lengthSize..end];
      ExtractShortens(content, field.children);
      RewrappedLength(d, tag, tagSize, length, lengthSize, Extract(content, field.children).value);
    }
  }

  lemma {:induction false} PiecesLength(d: Bytes, fields: seq<Field>)
    requires Pieces(d, fields).Some?
    ensures TotalBytes(Pieces(d, fields).value) <= |d|
    decreases |d|, 1
  {
    hide FirstRecord;
    if d != [] {
      var step := FirstRecord(d, fields).value;
      PiecesLength(d[step.size..], fields);
      if step.kept.Some? {
        RecordLength(d, fields);
        var others := Pieces(d[step.size..], fields).value;
        assert ([step.kept.value] + others)[1..] == others;
      } else {
        PrependMore([], [], Pieces(d[step.size..], fields));
      }
    }
  }

  /** The extracted content is never longer than the message. */
  lemma {:induction false} ExtractShortens(d: Bytes, fields: seq<Field>)
    requires Extract(d, fields).Some?
    ensures |Extract(d, fields).value| <= |d|
    decreases |d|, 2
  {
    PiecesLength(d, fields);
    var pieces := Pieces(d, fields).value;
    SortLength(pieces);
    JoinLength(StableSort(pieces));
  }

  // ---- idempotence --------------------------------------------------------------------

  const NUMBER_LIMIT: nat := 0x2000_0000

  /** Field numbers below 2^29, at every level: their tags fit 32 bits. */
  predicate SmallNumbers(fields: seq<Field>) {
    forall i :: 0 <= i < |fields| ==> SmallField(fields[i])
  }

  predicate SmallField(field: Field) {
    (field.Nested() ==> field.num < NUMBER_LIMIT) && SmallNumbers(field.children)
  }

  /** A piece is itself a record of which it is kept whole. */
  ghost predicate Stands(p: Piece, fields: seq<Field>) {
    p.bytes != [] && IsRecord(p.bytes, fields, Some(p))
  }

  /** `head` is accepted as the tag and the length of a nested message, however padded the two are. */
  predicate Opens(head: Bytes, tag: nat, length: nat) {
    match VarintAt(head, BUDGET)
    case None => false
    case Some((value, size)) =>
      value == tag && tag % 8 == WIRE_BYTES && VarintAt(head[size..], BUDGET) == Some((length, |head| - size))
  }

  /** What becomes of a nested message, whatever follows it. */
  lemma NestedRecord(head: Bytes, tag: nat, x: Bytes, rest: Bytes, field: Field, fields: seq<Field>)
    requires Opens(head, tag, |x|)
    requires Lookup(fields, tag / 8) == Some(field) && field.Nested()
    ensures FirstRecord(head + x + rest, fields) ==
            match Extract(x, field.children)
            case None => None
            case Some(inner) => Some(Step(|head + x|, NestedKept(tag, inner)))
  {
    hide VarintAt, VarintBytes, Lookup, Extract, Rewrapped;
    var k := VarintAt(head, BUDGET).value.1;
    var d, length := head + x + rest, head[k..];
    assert d == head[..k] + (length + x + rest);
    VarintLocal(head, length + x + rest, BUDGET);
    assert d[k..] == length[..|length|] + (x + rest);
    VarintLocal(length, x + rest, BUDGET);
    assert d[|head|..|head| + |x|] == x;
  }

  /** The shortest header that a nested message can have. */
  lemma ShortestOpens(tag: nat, length: nat)
    requires tag < 0x1_0000_0000 && tag % 8 == WIRE_BYTES && length < 0x1_0000_0000
    ensures Opens(VarintBytes(tag) + VarintBytes(length), tag, length)
  {
    hide VarintAt, VarintBytes;
    var front, back := VarintBytes(tag), VarintBytes(length);
    VarintRoundTrip(tag, back);
    VarintRoundTrip(length, []);
    assert (front + back)[|front|..] == back == back + [];
  }

  function NestedKept(tag: nat, inner: Bytes): Option<Piece> {
    if inner == [] then None else Some(Piece(tag / 8, Rewrapped(tag, inner)))
  }

  /** A nested message whose content is already reduced is kept as it is. */
  lemma RewrappedStands(tag: nat, inner: Bytes, field: Field, fields: seq<Field>)
    requires tag < 0x1_0000_0000 && tag % 8 == WIRE_BYTES && 0 < |inner| < 0x1_0000_0000
    requires Lookup(fields, tag / 8) == Some(field) && field.Nested()
    requires Extract(inner, field.children) == Some(inner)
    ensures Stands(Piece(tag / 8, Rewrapped(tag, inner)), fields)
  {
    hide FirstRecord, VarintBytes, Lookup, Extract, Opens;
    var head := VarintBytes(tag) + VarintBytes(|inner|);
    ShortestOpens(tag, |inner|);
    NestedRecord(head, tag, inner, [], field, fields);
    assert Rewrapped(tag, inner) == head + inner == head + inner + [];
  }

  /** Everything that is kept stands for itself. */
  lemma {:induction false} KeptStands(d: Bytes, fields: seq<Field>)
    requires SmallNumbers(fields) && |d| < 0x1_0000_0000
    requires FirstRecord(d, fields).Some? && FirstRecord(d, fields).value.kept.Some?
    ensures Stands(FirstRecord(d, fields).value.kept.value, fields)
    decreases |d|, 0
  {
    hide VarintAt, Extract, Rewrapped, Lookup;
    var (tag, tagSize) := VarintAt(d, BUDGET).value;
    var end := FirstRecord(d, fields).value.size;
    var field := Lookup(fields, tag / 8).value;
    assert SmallField(field) by {
      var i :| 0 <= i < |fields| && fields[i] == field;
    }
    if tag % 8 == WIRE_BYTES && field.Nested() {
      var start := tagSize + VarintAt(d[tagSize..], BUDGET).value.1;
      ExtractShortens(d[start..end], field.children);
      ExtractIdempotent(d[start..end], field.children);
      RewrappedStands(tag, Extract(d[start..end], field.children).value, field, fields);
    } else {
      FirstLocal(d, [], fields);
      assert d[..end] + [] == d[..end];
    }
  }

  lemma {:induction false} PiecesStand(d: Bytes, fields: seq<Field>)
    requires SmallNumbers(fields) && |d| < 0x1_0000_0000 && Pieces(d, fields).Some?
    ensures forall i :: 0 <= i < |Pieces(d, fields).value| ==> Stands(Pieces(d, fields).value[i], fields)
    decreases |d|, 1
  {
    hide FirstRecord, Stands, SmallNumbers;
    if d != [] {
      var step := FirstRecord(d, fields).value;
      PiecesStand(d[step.size..], fields);
      if step.kept.Some? {
        KeptStands(d, fields);
      }
    }
  }

  /** Pieces that stand for themselves are the pieces of their own bytes. */
  lemma {:induction false} PiecesOfJoined(pieces: seq<Piece>, fields: seq<Field>)
    requires forall i :: 0 <= i < |pieces| ==> Stands(pieces[i], fields)
    ensures Pieces(JoinPieces(pieces), fields) == Some(pieces)
  {
    hide FirstRecord;
    if pieces != [] {
      var p, others := pieces[0], pieces[1..];
      PiecesOfJoined(others, fields);
      PiecesOfRecord(p.bytes, fields, Some(p));
      PiecesConcat(p.bytes, JoinPieces(others), fields);
      assert [p] + others == pieces;
    }
  }

  /** Extracting from extracted content changes nothing. */
  lemma {:induction false} ExtractIdempotent(d: Bytes, fields: seq<Field>)
    requires SmallNumbers(fields) && |d| < 0x1_0000_0000 && Extract(d, fields).Some?
    ensures Extract(Extract(d, fields).value, fields) == Extract(d, fields)
    decreases |d|, 2
  {
    hide Stands;
    var pieces := Pieces(d, fields).value;
    var sorted := StableSort(pieces);
    PiecesStand(d, fields);
    SortSpec(pieces);
    forall i | 0 <= i < |sorted|
      ensures Stands(sorted[i], fields)
    {
      assert sorted[i] in multiset(sorted);
      assert sorted[i] in pieces;
    }
    PiecesOfJoined(sorted, fields);
    SortOfSorted(sorted);
  }

  // ---- order and unlisted records -----------------------------------------------------

  lemma PiecesOfThree(pre: Bytes, middle: Bytes, post: Bytes, fields: seq<Field>)
    requires Pieces(pre, fields).Some? && Pieces(middle, fields).Some?
    ensures Pieces(pre + middle + post, fields) ==
            Prepend(Pieces(pre, fields).value + Pieces(middle, fields).value, Pieces(post, fields))
  {
    assert pre + middle + post == pre + (middle + post);
    PiecesConcat(pre, middle + post, fields);
    PiecesConcat(middle, post, fields);
    PrependMore(Pieces(pre, fields).value, Pieces(middle, fields).value, Pieces(post, fields));
  }

  /** Swapping two neighbouring records with different field numbers changes nothing. */
  lemma SwapRecords(pre: Bytes, a: Bytes, b: Bytes, post: Bytes, fields: seq<Field>, keptA: Option<Piece>,
                    keptB: Option<Piece>)
    requires Pieces(pre, fields).Some?
    requires IsRecord(a, fields, keptA) && IsRecord(b, fields, keptB)
    requires keptA.Some? && keptB.Some? ==> keptA.value.num != keptB.value.num
    ensures Extract(pre + a + b + post, fields) == Extract(pre + b + a + post, fields)
  {
    hide FirstRecord, IsRecord, StableSort, Pieces;
    var front := Pieces(pre, fields).value;
    var x, y := Kept(Step(|a|, keptA)), Kept(Step(|b|, keptB));
    PiecesOfTwo(pre, a, b, post, fields, keptA, keptB);
    PiecesOfTwo(pre, b, a, post, fields, keptB, keptA);
    if Pieces(post, fields).Some? {
      SwapKept(front, x, y, Pieces(post, fields).value);
    }
  }

  lemma PiecesOfTwo(pre: Bytes, a: Bytes, b: Bytes, post: Bytes, fields: seq<Field>, keptA: Option<Piece>,
                    keptB: Option<Piece>)
    requires Pieces(pre, fields).Some?
    requires IsRecord(a, fields, keptA) && IsRecord(b, fields, keptB)
    ensures Pieces(pre + a + b + post, fields) ==
            Prepend(Pieces(pre, fields).value + (Kept(Step(|a|, keptA)) + Kept(Step(|b|, keptB))), Pieces(post, fields))
  {
    hide FirstRecord, IsRecord, Pieces;
    PiecesOfRecord(a, fields, keptA);
    PiecesOfRecord(b, fields, keptB);
    PiecesConcat(a, b, fields);
    PiecesOfThree(pre, a + b, post, fields);
    assert pre + (a + b) + post == pre + a + b + post;
  }

  lemma SwapKept(front: seq<Piece>, x: seq<Piece>, y: seq<Piece>, back: seq<Piece>)
    requires |x| <= 1 && |y| <= 1
    requires |x| == |y| == 1 ==> x[0].num != y[0].num
    ensures StableSort(front + (x + y) + back) == StableSort(front + (y + x) + back)
  {
    hide StableSort;
    if |x| == |y| == 1 {
      assert x + y == [x[0], y[0]] && y + x == [y[0], x[0]];
      SortSwap(front, x[0], y[0], back);
    } else {
      assert x + y == y + x;
    }
  }

  /** A kept piece carries the number of its tag, so records with different tags may be swapped. */
  lemma KeptNumber(d: Bytes, fields: seq<Field>)
    requires FirstRecord(d, fields).Some? && FirstRecord(d, fields).value.kept.Some?
    ensures FirstRecord(d, fields).value.kept.value.num == VarintAt(d, BUDGET).value.0 / 8
    ensures Lookup(fields, VarintAt(d, BUDGET).value.0 / 8).Some?
  {
  }

  /** A complete record whose number is not listed leaves no trace, wherever it stands. */
  lemma UnlistedRecord(pre: Bytes, r: Bytes, post: Bytes, fields: seq<Field>)
    requires Pieces(pre, fields).Some?
    requires FirstRecord(r, fields).Some? && FirstRecord(r, fields).value.size == |r|
    requires Lookup(fields, VarintAt(r, BUDGET).value.0 / 8).None?
    ensures Extract(pre + r + post, fields) == Extract(pre + post, fields)
  {
    var kept := FirstRecord(r, fields).value.kept;
    if kept.Some? {
      KeptNumber(r, fields);
    }
    assert kept == None;
    hide FirstRecord, VarintAt, Lookup;
    PiecesOfRecord(r, fields, kept);
    PiecesOfThree(pre, r, post, fields);
    PiecesConcat(pre, post, fields);
    assert Pieces(pre, fields).value + [] == Pieces(pre, fields).value;
  }

  // ---- any depth ----------------------------------------------------------------------

  /** A place inside a message: at the top, or inside a nested message between other records.
      `head` is the header of that message, its tag and its length. */
  datatype Place = Here | Inside(pre: Bytes, head: Bytes, inner: Place, post: Bytes)

  /** The message with `x` at the place. */
  function Plug(place: Place, x: Bytes): Bytes {
    match place
    case Here => x
    case Inside(pre, head, inner, post) => pre + (head + Plug(inner, x)) + post
  }

  /** The tag in an accepted header. */
  function TagOf(head: Bytes): nat {
    match VarintAt(head, BUDGET)
    case None => 0
    case Some((tag, _)) => tag
  }

  /** The fields that are looked up at the place when `x` stands there, if the headers of the enclosing
      messages are accepted, their numbers are listed as messages, and the records before them are accepted. */
  function FieldsAt(place: Place, x: Bytes, fields: seq<Field>): Option<seq<Field>> {
    match place
    case Here => Some(fields)
    case Inside(pre, head, inner, post) =>
      match Lookup(fields, TagOf(head) / 8)
      case None => None
      case Some(field) =>
        if field.Nested() && Opens(head, TagOf(head), |Plug(inner, x)|) && Pieces(pre, fields).Some?
        then FieldsAt(inner, x, field.children) else None
  }

  /** Two places that differ only in how the headers around them are spelt: the lengths, which depend on
      what stands there, and the padding. */
  predicate SamePath(p: Place, q: Place) {
    match (p, q)
    case (Here, Here) => true
    case (Inside(pre, head, inner, post), Inside(pre', head', inner', post')) =>
      pre == pre' && post == post' && TagOf(head) == TagOf(head') && SamePath(inner, inner')
    case _ => false
  }

  /** Contents that are reduced to the same bytes at some place of a message may be exchanged there,
      however the enclosing headers are spelt on the two sides: the whole message is reduced to the
      same bytes, or refused on both sides. */
  lemma {:induction false} AtAnyDepth(p: Place, x: Bytes, q: Place, y: Bytes, fields: seq<Field>)
    requires SamePath(p, q) && FieldsAt(p, x, fields).Some? && FieldsAt(q, y, fields).Some?
    requires Extract(x, FieldsAt(p, x, fields).value) == Extract(y, FieldsAt(p, x, fields).value)
    ensures Extract(Plug(p, x), fields) == Extract(Plug(q, y), fields)
    ensures FieldsAt(p, x, fields) == FieldsAt(q, y, fields)
    decreases p
  {
    hide FirstRecord, Opens, Lookup, Rewrapped, Extract, TagOf, Pieces;
    match p
    case Here =>
    case Inside(pre, head, inner, post) =>
      var tag := TagOf(head);
      var field := Lookup(fields, tag / 8).value;
      var a, b := Plug(inner, x), Plug(q.inner, y);
      AtAnyDepth(inner, x, q.inner, y, field.children);
      forall rest
        ensures SameFirst(head + a, q.head + b, rest, fields)
      {
        NestedRecord(head, tag, a, rest, field, fields);
        NestedRecord(q.head, tag, b, rest, field, fields);
      }
      HeadNotEmpty(head, tag, |a|);
      HeadNotEmpty(q.head, tag, |b|);
      SameRecords(pre, head + a, q.head + b, post, fields);
  }

  lemma HeadNotEmpty(head: Bytes, tag: nat, length: nat)
    requires Opens(head, tag, length)
    ensures head != []
  {
  }

  /** How the headers around a place are spelt does not matter. */
  lemma SpellingAside(p: Place, q: Place, x: Bytes, fields: seq<Field>)
    requires SamePath(p, q) && FieldsAt(p, x, fields).Some? && FieldsAt(q, x, fields).Some?
    ensures Extract(Plug(p, x), fields) == Extract(Plug(q, x), fields)
  {
    AtAnyDepth(p, x, q, x, fields);
  }

  /** Followed by the same bytes, the two are refused alike or kept alike. */
  ghost predicate SameFirst(a: Bytes, b: Bytes, rest: Bytes, fields: seq<Field>) {
    var x, y := FirstRecord(a + rest, fields), FirstRecord(b + rest, fields);
    if x.None? then y.None?
    else y.Some? && x.value.size == |a| && y.value.size == |b| && x.value.kept == y.value.kept
  }

  lemma SameRecords(pre: Bytes, a: Bytes, b: Bytes, post: Bytes, fields: seq<Field>)
    requires Pieces(pre, fields).Some? && a != [] && b != []
    requires forall rest :: SameFirst(a, b, rest, fields)
    ensures Extract(pre + a + post, fields) == Extract(pre + b + post, fields)
  {
    hide FirstRecord, StableSort;
    assert pre + a + post == pre + (a + post) && pre + b + post == pre + (b + post);
    PiecesConcat(pre, a + post, fields);
    PiecesConcat(pre, b + post, fields);
    assert SameFirst(a, b, post, fields);
    assert (a + post)[|a|..] == post && (b + post)[|b|..] == post;
  }

  /** Swapping records with different numbers, at any nesting level. */
  lemma SwapAnywhere(p: Place, q: Place, pre: Bytes, a: Bytes, b: Bytes, post: Bytes, fields: seq<Field>,
                     keptA: Option<Piece>, keptB: Option<Piece>)
    requires SamePath(p, q)
    requires FieldsAt(p, pre + a + b + post, fields).Some? && FieldsAt(q, pre + b + a + post, fields).Some?
    requires var here := FieldsAt(p, pre + a + b + post, fields).value;
             && Pieces(pre, here).Some? && IsRecord(a, here, keptA) && IsRecord(b, here, keptB)
             && (keptA.Some? && keptB.Some? ==> keptA.value.num != keptB.value.num)
    ensures Extract(Plug(p, pre + a + b + post), fields) == Extract(Plug(q, pre + b + a + post), fields)
  {
    hide Plug, Extract, FieldsAt, SamePath, IsRecord, Pieces;
    SwapRecords(pre, a, b, post, FieldsAt(p, pre + a + b + post, fields).value, keptA, keptB);
    AtAnyDepth(p, pre + a + b + post, q, pre + b + a + post, fields);
  }

  /** Inserting an unlisted record, at any nesting level; the enclosing lengths change with it. */
  lemma UnlistedAnywhere(p: Place, q: Place, pre: Bytes, r: Bytes, post: Bytes, fields: seq<Field>)
    requires SamePath(p, q)
    requires FieldsAt(p, pre + r + post, fields).Some? && FieldsAt(q, pre + post, fields).Some?
    requires var here := FieldsAt(p, pre + r + post, fields).value;
             && Pieces(pre, here).Some?
             && FirstRecord(r, here).Some? && FirstRecord(r, here).value.size == |r|
             && Lookup(here, VarintAt(r, BUDGET).value.0 / 8).None?
    ensures Extract(Plug(p, pre + r + post), fields) == Extract(Plug(q, pre + post), fields)
  {
    hide Plug, Extract, FieldsAt, SamePath, FirstRecord, Pieces;
    UnlistedRecord(pre, r, post, FieldsAt(p, pre + r + post, fields).value);
    AtAnyDepth(p, pre + r + post, q, pre + post, fields);
  }
}
