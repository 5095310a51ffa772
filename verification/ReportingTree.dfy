/** What the extraction keeps, against a definition that does not read bytes: a message as a tree of records,
    reduced by the allow-list at every level. */
module ReportingTree {
  import opened Common
  import opened Varint
  import opened Reporting
  import opened ReportingCanonical

  // ---- records ------------------------------------------------------------------------

  /** A record of one of the four wire types: its tag, and exactly the bytes that the type asks for. */
  predicate Whole(r: Bytes) {
    match VarintAt(r, 6)
    case None => false
    case Some((tag, n)) =>
      match tag % 8
      case 0 => VarintEnds(r[n..])
      case 1 => |r| == n + 8
      case 2 => BlockEnds(r[n..])
      case 5 => |r| == n + 4
      case _ => false
  }

  /** A varint and nothing after it. */
  predicate VarintEnds(d: Bytes) {
    VarintAt(d, 6).Some? && VarintAt(d, 6).value.1 == |d|
  }

  /** A length and that many bytes. */
  predicate BlockEnds(d: Bytes) {
    VarintAt(d, 6).Some? && VarintAt(d, 6).value.0 + VarintAt(d, 6).value.1 == |d|
  }

  function Tag(r: Bytes): nat {
    match VarintAt(r, 6)
    case None => 0
    case Some((tag, _)) => tag
  }

  /** The record is taken as a message of its own. */
  predicate IsNested(tag: nat, fields: seq<Field>) {
    match Lookup(fields, tag / 8)
    case None => false
    case Some(field) => tag % 8 == 2 && (field.message || field.children != [])
  }

  /** The last field with the number is the one that counts. */
  lemma {:induction false} LookupLast(fields: seq<Field>, num: nat, i: nat)
    requires i < |fields| && fields[i].num == num && forall j :: i < j < |fields| ==> fields[j].num != num
    ensures Lookup(fields, num) == Some(fields[i])
    decreases |fields|
  {
    var front := fields[..|fields| - 1];
    if i < |fields| - 1 {
      assert forall j :: i < j < |front| ==> front[j] == fields[j];
      LookupLast(front, num, i);
    }
  }

  lemma {:induction false} LookupNothing(fields: seq<Field>, num: nat)
    requires forall j :: 0 <= j < |fields| ==> fields[j].num != num
    ensures Lookup(fields, num) == None
  {
    if fields != [] {
      LookupNothing(fields[..|fields| - 1], num);
    }
  }

  /** Every record that is accepted is whole. */
  lemma AcceptedWhole(d: Bytes, fields: seq<Field>)
    requires FirstRecord(d, fields).Some?
    ensures
      var r := d[..FirstRecord(d, fields).value.size];
      Whole(r) && VarintAt(r, 6) == VarintAt(d, 6)
  {
    hide VarintAt, Lookup, Extract, Rewrapped;
    var (tag, n) := VarintAt(d, 6).value;
    var end := FirstRecord(d, fields).value.size;
    var r := d[..end];
    VarintLocal(d, r[n..], 6);
    assert r == d[..n] + r[n..];
    if tag % 8 == 0 || tag % 8 == 2 {
      var m := VarintAt(d[n..], 6).value.1;
      VarintLocal(d[n..], r[n + m..], 6);
      assert r[n..] == d[n..][..m] + r[n + m..];
    }
  }

  /** A whole record that is no nested message is accepted, and kept byte for byte if its number is listed. */
  lemma LeafKept(r: Bytes, rest: Bytes, fields: seq<Field>)
    requires Whole(r) && !IsNested(Tag(r), fields)
    ensures FirstRecord(r + rest, fields) == Some(Step(|r|, LeafPiece(r, fields)))
  {
    hide VarintAt, Lookup, Extract, Rewrapped;
    var (tag, n) := VarintAt(r, 6).value;
    var d := r + rest;
    VarintLocal(r, r[n..] + rest, 6);
    assert d == r[..n] + (r[n..] + rest);
    assert d[n..] == r[n..] + rest;
    if tag % 8 == 0 || tag % 8 == 2 {
      var m := VarintAt(r[n..], 6).value.1;
      VarintLocal(r[n..], r[n + m..] + rest, 6);
      assert d[n..] == r[n..][..m] + (r[n + m..] + rest);
    }
    assert d[..|r|] == r;
  }

  function LeafPiece(r: Bytes, fields: seq<Field>): Option<Piece> {
    if Lookup(fields, Tag(r) / 8).Some? then Some(Piece(Tag(r) / 8, r)) else None
  }

  // ---- messages as trees --------------------------------------------------------------

  /** A record that is no nested message; or the tag and the length of one, and its records. */
  datatype Item = Leaf(record: Bytes) | Nest(head: Bytes, items: seq<Item>)

  function Spelt(items: seq<Item>): Bytes
    decreases items
  {
    if items == [] then [] else ItemBytes(items[0]) + Spelt(items[1..])
  }

  function ItemBytes(item: Item): Bytes
    decreases item
  {
    match item
    case Leaf(r) => r
    case Nest(head, items) => head + Spelt(items)
  }

  /** The tree has a nested message exactly where the fields have one, and every record is whole. */
  predicate Fitting(items: seq<Item>, fields: seq<Field>)
    decreases items
  {
    items == [] || (FittingItem(items[0], fields) && Fitting(items[1..], fields))
  }

  predicate FittingItem(item: Item, fields: seq<Field>)
    decreases item
  {
    match item
    case Leaf(r) => Whole(r) && !IsNested(Tag(r), fields)
    case Nest(head, items) =>
      && IsNested(Tag(head), fields) && Opens(head, Tag(head), |Spelt(items)|)
      && Fitting(items, Lookup(fields, Tag(head) / 8).value.children)
  }

  /** The allow-list applied to a tree: of its records the listed ones are kept, a nested message with what is kept
      of it under a header of its own, unless that is nothing. */
  function Reduced(items: seq<Item>, fields: seq<Field>): seq<Piece>
    decreases items
  {
    if items == [] then [] else ReducedItem(items[0], fields) + Reduced(items[1..], fields)
  }

  function ReducedItem(item: Item, fields: seq<Field>): seq<Piece>
    decreases item
  {
    match item
    case Leaf(r) => if Lookup(fields, Tag(r) / 8).Some? then [Piece(Tag(r) / 8, r)] else []
    case Nest(head, items) =>
      if Lookup(fields, Tag(head) / 8).None? then []
      else
        var inner := JoinPieces(StableSort(Reduced(items, Lookup(fields, Tag(head) / 8).value.children)));
        if inner == [] then []
        else [Piece(Tag(head) / 8, VarintBytes(Tag(head) % 0x1_0000_0000)
                                   + VarintBytes(|inner| % 0x1_0000_0000) + inner)]
  }

  /** Extraction is that reduction: the pieces of a message are those of its tree, sorted by number. */
  lemma {:induction false} TreeReduced(items: seq<Item>, fields: seq<Field>)
    requires Fitting(items, fields)
    ensures Pieces(Spelt(items), fields) == Some(Reduced(items, fields))
    ensures Extract(Spelt(items), fields) == Some(JoinPieces(StableSort(Reduced(items, fields))))
    decreases items
  {
    hide FirstRecord, FittingItem, ReducedItem, StableSort, ItemBytes;
    if items != [] {
      ItemKept(items[0], fields);
      TreeReduced(items[1..], fields);
      PiecesConcat(ItemBytes(items[0]), Spelt(items[1..]), fields);
    }
  }

  lemma {:induction false} ItemKept(item: Item, fields: seq<Field>)
    requires FittingItem(item, fields)
    ensures Pieces(ItemBytes(item), fields) == Some(ReducedItem(item, fields))
    decreases item
  {
    hide FirstRecord, Lookup, Pieces, Whole, Opens, VarintBytes, Extract;
    var bytes := ItemBytes(item);
    assert bytes + [] == bytes;
    match item
    case Leaf(r) =>
      LeafKept(r, [], fields);
      PiecesOfRecord(r, fields, LeafPiece(r, fields));
    case Nest(head, items) =>
      var tag := Tag(head);
      var field := Lookup(fields, tag / 8).value;
      TreeReduced(items, field.children);
      NestedRecord(head, tag, Spelt(items), [], field, fields);
      PiecesOfRecord(bytes, fields, NestedKept(tag, Extract(Spelt(items), field.children).value));
  }

  /** The tree of a message that is accepted. */
  lemma {:induction false} TreeOf(d: Bytes, fields: seq<Field>) returns (items: seq<Item>)
    requires Pieces(d, fields).Some?
    ensures Fitting(items, fields) && Spelt(items) == d
    decreases |d|
  {
    hide FirstRecord, FittingItem, ItemBytes, Lookup;
    if d == [] {
      items := [];
    } else {
      var size := FirstRecord(d, fields).value.size;
      var others := TreeOf(d[size..], fields);
      var item := ItemOf(d, fields);
      items := [item] + others;
      assert items[1..] == others && d == d[..size] + d[size..];
    }
  }

  lemma {:induction false} ItemOf(d: Bytes, fields: seq<Field>) returns (item: Item)
    requires FirstRecord(d, fields).Some?
    ensures FittingItem(item, fields) && ItemBytes(item) == d[..FirstRecord(d, fields).value.size]
    decreases |d|, 0
  {
    hide VarintAt, Lookup, Whole, Spelt, Fitting, VarintBytes;
    AcceptedWhole(d, fields);
    var (tag, n) := VarintAt(d, 6).value;
    var end := FirstRecord(d, fields).value.size;
    if IsNested(tag, fields) {
      var (length, m) := VarintAt(d[n..], 6).value;
      var head, x := d[..n + m], d[n + m..end];
      var items := TreeOf(x, Lookup(fields, tag / 8).value.children);
      HeadOpens(d, n, m);
      item := Nest(head, items);
      assert head + x == d[..end];
    } else {
      item := Leaf(d[..end]);
    }
  }

  lemma HeadOpens(d: Bytes, n: nat, m: nat)
    requires VarintAt(d, 6).Some? && VarintAt(d, 6).value.1 == n && VarintAt(d, 6).value.0 % 8 == 2
    requires VarintAt(d[n..], 6).Some? && VarintAt(d[n..], 6).value.1 == m
    ensures Tag(d[..n + m]) == VarintAt(d, 6).value.0
    ensures Opens(d[..n + m], VarintAt(d, 6).value.0, VarintAt(d[n..], 6).value.0)
  {
    hide VarintAt;
    VarintLocal(d, d[n..][..m], 6);
    assert d[..n + m] == d[..n] + d[n..][..m];
    VarintLocal(d[n..], [], 6);
    assert d[..n + m][n..] == d[n..][..m] + [];
  }

  ghost predicate SpeltBy(d: Bytes, items: seq<Item>, fields: seq<Field>) {
    Fitting(items, fields) && Spelt(items) == d
  }

  /** A message is accepted exactly when it spells such a tree. */
  lemma ExtractExact(d: Bytes, fields: seq<Field>)
    ensures Extract(d, fields).Some? <==> exists items :: SpeltBy(d, items, fields)
  {
    hide FirstRecord, Fitting, Spelt, StableSort, Reduced;
    if Extract(d, fields).Some? {
      var items := TreeOf(d, fields);
      assert SpeltBy(d, items, fields);
    }
    if items :| SpeltBy(d, items, fields) {
      TreeReduced(items, fields);
    }
  }

  /** A listed record that is no nested message is kept byte for byte, between what is kept of its number before and
      after it; the records of other numbers are as they would be without it. */
  lemma LeafStays(pre: Bytes, r: Bytes, post: Bytes, fields: seq<Field>, num: nat)
    requires Pieces(pre, fields).Some? && Pieces(post, fields).Some?
    requires Whole(r) && !IsNested(Tag(r), fields) && Lookup(fields, Tag(r) / 8).Some?
    ensures Extract(r, fields) == Some(r)
    ensures
      var all := Pieces(pre + r + post, fields);
      && all.Some?
      && OfNumber(all.value, num)
         == OfNumber(Pieces(pre, fields).value, num)
            + (if num == Tag(r) / 8 then [Piece(num, r)] else [])
            + OfNumber(Pieces(post, fields).value, num)
  {
    hide FirstRecord, Whole, Lookup, Pieces;
    LeafKept(r, [], fields);
    assert r + [] == r;
    PiecesOfRecord(r, fields, LeafPiece(r, fields));
    var piece := Piece(Tag(r) / 8, r);
    assert StableSort([piece]) == [piece] by { SortOfSorted([piece]); }
    assert JoinPieces([piece]) == r by { assert [piece][1..] == []; }
    PiecesOfThree(pre, r, post, fields);
    var front, back := Pieces(pre, fields).value, Pieces(post, fields).value;
    NumberJoin(front + [piece], back, num);
    NumberJoin(front, [piece], num);
    assert [piece][1..] == [];
  }

  lemma {:induction false} NumberJoin(a: seq<Piece>, b: seq<Piece>, num: nat)
    ensures OfNumber(a + b, num) == OfNumber(a, num) + OfNumber(b, num)
  {
    if a == [] {
      assert a + b == b;
    } else {
      assert (a + b)[1..] == a[1..] + b;
      NumberJoin(a[1..], b, num);
    }
  }

  /** Field 1 with the two bytes `hi`: kept if field 1 is listed, dropped if it is not. */
  lemma TwoBytes(num: nat)
    ensures Extract([0x0A, 2, 0x68, 0x69], [Field(num, false, [])])
      == Some(if num == 1 then [0x0A, 2, 0x68, 0x69] else [])
  {
    var r: Bytes, fields := [0x0A, 2, 0x68, 0x69], [Field(num, false, [])];
    assert VarintAt(r, 6) == Some((10, 1)) && r[1..] == [2, 0x68, 0x69];
    assert VarintAt([2, 0x68, 0x69], 6) == Some((2, 1));
    if num == 1 {
      LookupLast(fields, 1, 0);
      LeafStays([], r, [], fields, 1);
    } else {
      LookupNothing(fields, 1);
      LeafKept(r, [], fields);
      assert r + [] == r;
      PiecesOfRecord(r, fields, None);
    }
  }
}
