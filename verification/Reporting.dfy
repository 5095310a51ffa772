/** The content that a reporting token covers: a serialised message reduced to the fields
    of an allow-list, sorted by field number at every level. */
module Reporting {
  import opened Common
  import opened Varint

  datatype Field = Field(num: nat, message: bool, children: seq<Field>)
  {
    /** The value of the field is itself a message to be reduced. */
    predicate Nested() {
      message || children != []
    }
  }

  /** One kept record: its field number and its bytes. */
  datatype Piece = Piece(num: nat, bytes: Bytes)

  /** How far the first record reaches, and what is kept of it. */
  datatype Step = Step(size: nat, kept: Option<Piece>)

  const WIRE_VARINT: nat := 0
  const WIRE_FIXED64: nat := 1
  const WIRE_BYTES: nat := 2
  const WIRE_FIXED32: nat := 5

  /** The dictionary by field number: the last field with a number counts. */
  function Lookup(fields: seq<Field>, num: nat): (r: Option<Field>)
    ensures r.Some? ==> r.value in fields && r.value.num == num
  {
    if fields == [] then None
    else if fields[|fields| - 1].num == num then Some(fields[|fields| - 1])
    else Lookup(fields[..|fields| - 1], num)
  }

  /** The end of a record that is not a nested message, counted from its own start. */
  function PlainEnd(d: Bytes, wire: nat, start: nat): (r: Option<nat>)
    requires start <= |d|
    ensures r.Some? ==> start < r.value || wire == WIRE_BYTES
    ensures r.Some? ==> start <= r.value
  {
    if wire == WIRE_FIXED64 then Some(start + 8)
    else if wire == WIRE_FIXED32 then Some(start + 4)
    else if wire == WIRE_VARINT || wire == WIRE_BYTES then
      match VarintAt(d[start..], BUDGET)
      case None => None
      case Some((value, size)) => Some(start + size + if wire == WIRE_BYTES then value else 0)
    else None
  }

  /** The first record of `d`: None when the message is not accepted. */
  function FirstRecord(d: Bytes, fields: seq<Field>): (r: Option<Step>)
    ensures r.Some? ==> 1 <= r.value.size <= |d|
    decreases |d|, 0
  {
    match VarintAt(d, BUDGET)
    case None => None
    case Some((tag, tagSize)) =>
      match PlainEnd(d, tag % 8, tagSize)
      case None => None
      case Some(end) =>
        if end > |d| then None
        else match Lookup(fields, tag / 8)
          case None => Some(Step(end, None))
          case Some(field) =>
            if tag % 8 == WIRE_BYTES && field.Nested() then
              var start := tagSize + VarintAt(d[tagSize..], BUDGET).value.1;
              match Extract(d[start..end], field.children)
              case None => None
              case Some(inner) =>
                Some(Step(end, if inner == [] then None else Some(Piece(tag / 8, Rewrapped(tag, inner)))))
            else Some(Step(end, Some(Piece(tag / 8, d[..end]))))
  }

  /** A nested message with its reduced content: tag, new length, content. */
  function Rewrapped(tag: nat, inner: Bytes): Bytes {
    VarintBytes(tag % 0x1_0000_0000) + VarintBytes(|inner| % 0x1_0000_0000) + inner
  }

  /** The kept pieces in the order of the message. */
  function Pieces(d: Bytes, fields: seq<Field>): Option<seq<Piece>>
    decreases |d|, 1
  {
    if d == [] then Some([])
    else match FirstRecord(d, fields)
      case None => None
      case Some(step) => Prepend(Kept(step), Pieces(d[step.size..], fields))
  }

  function Prepend(front: seq<Piece>, others: Option<seq<Piece>>): Option<seq<Piece>> {
    if others.None? then None else Some(front + others.value)
  }

  function Kept(step: Step): seq<Piece> {
    if step.kept.Some? then [step.kept.value] else []
  }

  /** `_extract_reporting_token_content` */
  function Extract(d: Bytes, fields: seq<Field>): Option<Bytes>
    decreases |d|, 2
  {
    match Pieces(d, fields)
    case None => None
    case Some(pieces) => Some(JoinPieces(StableSort(pieces)))
  }

  function JoinPieces(pieces: seq<Piece>): Bytes {
    if pieces == [] then [] else pieces[0].bytes + JoinPieces(pieces[1..])
  }

  /** `output.sort(key=...)`: a stable sort by field number. */
  function StableSort(pieces: seq<Piece>): seq<Piece> {
    if pieces == [] then [] else Insert(pieces[0], StableSort(pieces[1..]))
  }

  /** `p` goes before every piece whose number is not smaller. */
  function Insert(p: Piece, sorted: seq<Piece>): seq<Piece> {
    if sorted == [] || p.num <= sorted[0].num then [p] + sorted
    else [sorted[0]] + Insert(p, sorted[1..])
  }

  // ---- the extraction loop ------------------------------------------------------------

  /** `_extract_reporting_token_content`: the cursor `i` moves over the records. */
  method ExtractContent(data: Bytes, fields: seq<Field>) returns (r: Option<Bytes>)
    ensures r == Extract(data, fields)
    decreases |data|
  {
    hide FirstRecord, StableSort;
    var output: seq<Piece> := [];
    var i := 0;
    assert data[0..] == data;
    PrependMore([], [], Pieces(data, fields));
    while i < |data|
      invariant i <= |data|
      invariant Pieces(data, fields) == Prepend(output, Pieces(data[i..], fields))
    {
      var step := ReadRecord(data, i, fields);
      if step.None? { return None; }
      PrependMore(output, Kept(step.value), Pieces(data[i + step.value.size..], fields));
      assert data[i..][step.value.size..] == data[i + step.value.size..];
      output := output + Kept(step.value);
      i := i + step.value.size;
    }
    PrependMore(output, [], Some([]));
    r := Some(JoinPieces(StableSort(output)));
  }

  lemma PrependMore(front: seq<Piece>, middle: seq<Piece>, others: Option<seq<Piece>>)
    ensures Prepend(front + middle, others) == Prepend(front, Prepend(middle, others))
    ensures Prepend([], others) == others
    ensures Prepend(front, Some([])) == Some(front)
  {
    if others.Some? {
      assert front + middle + others.value == front + (middle + others.value);
      assert [] + others.value == others.value;
    }
    assert front + [] == front;
  }

  /** One turn of the loop: the record at `i`. */
  method ReadRecord(data: Bytes, i: nat, fields: seq<Field>) returns (r: Option<Step>)
    requires i < |data|
    ensures r == FirstRecord(data[i..], fields)
    decreases |data|, 1
  {
    hide VarintAt, Lookup, Extract, Rewrapped;
    ghost var d := data[i..];
    var tag := DecodeVarint(data, i);
    if tag.None? { return None; }
    var (tagValue, tagBytes) := tag.value;
    var num, wire := tagValue / 8, tagValue % 8;
    var start := i + tagBytes;
    assert d[tagBytes..] == data[start..];
    var end := 0;
    if wire == WIRE_VARINT {
      var value := DecodeVarint(data, start);
      if value.None? { return None; }
      end := start + value.value.1;
    } else if wire == WIRE_FIXED64 {
      end := start + 8;
    } else if wire == WIRE_FIXED32 {
      end := start + 4;
    } else if wire == WIRE_BYTES {
      r := ReadLengthRecord(data, i, fields, tagValue, start);
      return;
    } else {
      return None;
    }
    if end > |data| { return None; }
    if Lookup(fields, num).None? { return Some(Step(end - i, None)); }
    assert d[..end - i] == data[i..end];
    r := Some(Step(end - i, Some(Piece(num, data[i..end]))));
  }

  /** The branch for length-delimited values. */
  method ReadLengthRecord(data: Bytes, i: nat, fields: seq<Field>, tag: nat, start: nat) returns (r: Option<Step>)
    requires i < start <= |data| && tag % 8 == WIRE_BYTES
    requires VarintAt(data[i..], BUDGET) == Some((tag, start - i))
    ensures r == FirstRecord(data[i..], fields)
    decreases |data|, 0
  {
    hide VarintAt, Lookup, Extract, Rewrapped;
    ghost var d := data[i..];
    assert d[start - i..] == data[start..];
    var length := DecodeVarint(data, start);
    if length.None? { return None; }
    var valueStart := start + length.value.1;
    var valueEnd := valueStart + length.value.0;
    if valueEnd > |data| { return None; }
    var field := Lookup(fields, tag / 8);
    if field.None? { return Some(Step(valueEnd - i, None)); }
    if field.value.Nested() {
      assert d[valueStart - i..valueEnd - i] == data[valueStart..valueEnd];
      var inner := ExtractContent(data[valueStart..valueEnd], field.value.children);
      if inner.None? { return None; }
      var kept := Rewrap(tag / 8, tag, inner.value);
      return Some(Step(valueEnd - i, kept));
    }
    assert d[..valueEnd - i] == data[i..valueEnd];
    r := Some(Step(valueEnd - i, Some(Piece(tag / 8, data[i..valueEnd]))));
  }

  /** A nested message is written again unless nothing of it is kept. */
  method Rewrap(num: nat, tag: nat, inner: Bytes) returns (kept: Option<Piece>)
    ensures kept == if inner == [] then None else Some(Piece(num, Rewrapped(tag, inner)))
  {
    if inner == [] { return None; }
    var head := EncodeVarint(tag);
    var size := EncodeVarint(|inner|);
    kept := Some(Piece(num, head + size + inner));
  }
}
