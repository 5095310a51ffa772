/** The records of a WAM metrics buffer: how one is written, and a parser that reads it back. */
module WamRecord {
  import opened Common

  type Int32 = n: int | -0x8000_0000 <= n < 0x8000_0000

  datatype Value = Null | Bool(b: bool) | Int(n: Int32) | Str(s: string)

  const FLAG_GLOBAL: nat := 0
  const FLAG_EVENT: nat := 1
  const FLAG_FIELD: nat := 2
  const FLAG_EXTENDED: nat := 4
  const FLAG_BYTE: nat := 8

  type Flag = n: int | 0 <= n < 8

  // ---- records ------------------------------------------------------------------------

  /** One call of `_serialize_data`. */
  datatype Record = Record(key: int, value: Value, flag: Flag)

  /** The encoder raises on every other record. */
  predicate Writable(u: Utf8, r: Record) {
    && 0 <= r.key < 0x1_0000
    && (r.value.Null? ==> r.flag == FLAG_GLOBAL)
    && (r.value.Str? ==> |u.encode(r.value.s)| < 0x1_0000_0000)
  }

  /** `_serialize_header`: the flag byte holds the flag, whether the key is wide, and the type. */
  function Header(key: int, flag: Flag, kind: nat): Bytes
    requires 0 <= key < 0x1_0000 && kind <= 10
  {
    if key < 256 then [16 * kind + flag, key]
    else [16 * kind + FLAG_BYTE + flag] + Little2(key)
  }

  function IntBytes(key: int, n: Int32, flag: Flag): Bytes
    requires 0 <= key < 0x1_0000
  {
    if n == 0 || n == 1 then Header(key, flag, n as int + 1)
    else if -128 <= n < 128 then Header(key, flag, 3) + [n as int % 0x100]
    else if -32768 <= n < 32768 then Header(key, flag, 4) + Little2(n as int % 0x1_0000)
    else Header(key, flag, 5) + Little4(n as int % 0x1_0000_0000)
  }

  function StringBytes(key: int, payload: Bytes, flag: Flag): Bytes
    requires 0 <= key < 0x1_0000 && |payload| < 0x1_0000_0000
  {
    if |payload| < 256 then Header(key, flag, 8) + [|payload|] + payload
    else if |payload| < 0x1_0000 then Header(key, flag, 9) + Little2(|payload|) + payload
    else Header(key, flag, 10) + Little4(|payload|) + payload
  }

  /** `_serialize_data` */
  function RecordBytes(u: Utf8, r: Record): (b: Bytes)
    requires Writable(u, r)
    ensures b != []
  {
    match r.value
    case Null => Header(r.key, r.flag, 0)
    case Bool(b) => IntBytes(r.key, if b then 1 else 0, r.flag)
    case Int(n) => IntBytes(r.key, n, r.flag)
    case Str(s) => StringBytes(r.key, u.encode(s), r.flag)
  }

  // ---- reading records back -----------------------------------------------------------

  /** Booleans are written as 0 and 1. */
  function NormValue(v: Value): Value {
    if v.Bool? then Int(if v.b then 1 else 0) else v
  }

  function NormRecord(r: Record): Record {
    r.(value := NormValue(r.value))
  }

  function Signed(n: nat, modulus: nat): int {
    if 2 * n >= modulus then n - modulus else n
  }

  /** The value of a type and the bytes after it. */
  function ParseValue(u: Utf8, kind: nat, d: Bytes): Option<(Value, Bytes)> {
    if kind == 0 then Some((Null, d))
    else if kind <= 2 then Some((Int(kind - 1), d))
    else if kind == 3 && |d| >= 1 then Some((Int(Signed(d[0], 0x100)), d[1..]))
    else if kind == 4 && |d| >= 2 then Some((Int(Signed(FromLittle(d[..2]), 0x1_0000)), d[2..]))
    else if kind == 5 && |d| >= 4 then ParseInt32(d)
    else if kind == 8 && |d| >= 1 then ParseText(u, d[0], d[1..])
    else if kind == 9 && |d| >= 2 then ParseText(u, FromLittle(d[..2]), d[2..])
    else if kind == 10 && |d| >= 4 then ParseText(u, FromLittle(d[..4]), d[4..])
    else None
  }

  function ParseInt32(d: Bytes): Option<(Value, Bytes)>
    requires |d| >= 4
  {
    var n := Signed(FromLittle(d[..4]), 0x1_0000_0000);
    if -0x8000_0000 <= n < 0x8000_0000 then Some((Int(n), d[4..])) else None
  }

  function ParseText(u: Utf8, length: nat, d: Bytes): Option<(Value, Bytes)> {
    if length > |d| then None
    else match u.decode(d[..length])
      case None => None
      case Some(s) => Some((Str(s), d[length..]))
  }

  function ParseRecord(u: Utf8, d: Bytes): Option<(Record, Bytes)> {
    if |d| < 2 then None
    else
      var kind, wide, flag := d[0] as int / 16, d[0] as int % 16 >= 8, d[0] as int % 8;
      if wide && |d| < 3 then None
      else
        var key := if wide then FromLittle(d[1..3]) else d[1] as int;
        match ParseValue(u, kind, if wide then d[3..] else d[2..])
        case None => None
        case Some((value, rest)) => Some((Record(key, value, flag), rest))
  }

  lemma HeaderBack(u: Utf8, key: int, flag: Flag, kind: nat, rest: Bytes)
    requires 0 <= key < 0x1_0000 && kind <= 10
    ensures ParseRecord(u, Header(key, flag, kind) + rest) ==
            match ParseValue(u, kind, rest)
            case None => None
            case Some((value, after)) => Some((Record(key, value, flag), after))
  {
    hide ParseValue, FromLittle;
    var d := Header(key, flag, kind) + rest;
    if key < 256 {
      assert d[2..] == rest;
    } else {
      assert d[1..3] == Little2(key) && d[3..] == rest;
      assert d[0] == 16 * kind + 8 + flag;
    }
  }

  lemma IntBack(u: Utf8, key: int, n: Int32, flag: Flag, rest: Bytes)
    requires 0 <= key < 0x1_0000
    ensures ParseRecord(u, IntBytes(key, n, flag) + rest) == Some((Record(key, Int(n), flag), rest))
  {
    hide Header, ParseRecord, FromLittle, Little2, Little4;
    if n == 0 || n == 1 {
      HeaderBack(u, key, flag, n as int + 1, rest);
    } else if -128 <= n < 128 {
      var tail: Bytes := [n as int % 0x100];
      HeaderBack(u, key, flag, 3, tail + rest);
      assert Header(key, flag, 3) + tail + rest == Header(key, flag, 3) + (tail + rest) && (tail + rest)[1..] == rest;
    } else if -32768 <= n < 32768 {
      var tail := Little2(n as int % 0x1_0000);
      HeaderBack(u, key, flag, 4, tail + rest);
      assert Header(key, flag, 4) + tail + rest == Header(key, flag, 4) + (tail + rest);
      assert (tail + rest)[..2] == tail && (tail + rest)[2..] == rest;
    } else {
      LongBack(u, key, n, flag, rest);
    }
  }

  lemma LongBack(u: Utf8, key: int, n: Int32, flag: Flag, rest: Bytes)
    requires 0 <= key < 0x1_0000
    ensures ParseRecord(u, Header(key, flag, 5) + Little4(n as int % 0x1_0000_0000) + rest)
      == Some((Record(key, Int(n), flag), rest))
  {
    hide Header, ParseRecord, FromLittle, Little4;
    var tail := Little4(n as int % 0x1_0000_0000);
    HeaderBack(u, key, flag, 5, tail + rest);
    assert Header(key, flag, 5) + tail + rest == Header(key, flag, 5) + (tail + rest);
    assert (tail + rest)[..4] == tail && (tail + rest)[4..] == rest;
  }

  lemma TextBack(u: Utf8, key: int, s: string, flag: Flag, rest: Bytes)
    requires u.Lawful() && 0 <= key < 0x1_0000 && |u.encode(s)| < 0x1_0000_0000
    ensures ParseRecord(u, StringBytes(key, u.encode(s), flag) + rest) == Some((Record(key, Str(s), flag), rest))
  {
    hide Header, ParseRecord, FromLittle;
    var payload := u.encode(s);
    assert u.decode(payload) == Some(s);
    assert (payload + rest)[..|payload|] == payload && (payload + rest)[|payload|..] == rest;
    var kind: nat := if |payload| < 256 then 8 else if |payload| < 0x1_0000 then 9 else 10;
    var size: Bytes :=
      if |payload| < 256 then [|payload|]
      else if |payload| < 0x1_0000 then Little2(|payload|) else Little4(|payload|);
    var tail := size + (payload + rest);
    HeaderBack(u, key, flag, kind, tail);
    assert Header(key, flag, kind) + size + payload + rest == Header(key, flag, kind) + tail;
    assert tail[..|size|] == size && tail[|size|..] == payload + rest;
  }

  /** Reading a record back gives it with its value normalised, whatever follows. */
  lemma RecordBack(u: Utf8, r: Record, rest: Bytes)
    requires u.Lawful() && Writable(u, r)
    ensures ParseRecord(u, RecordBytes(u, r) + rest) == Some((NormRecord(r), rest))
  {
    hide ParseRecord, IntBytes, StringBytes, Header;
    match r.value
    case Null => HeaderBack(u, r.key, r.flag, 0, rest);
    case Bool(b) => IntBack(u, r.key, if b then 1 else 0, r.flag, rest);
    case Int(n) => IntBack(u, r.key, n, r.flag, rest);
    case Str(s) => TextBack(u, r.key, s, r.flag, rest);
  }

  // ---- nothing shorter ----------------------------------------------------------------

  /** The bytes that a value takes after the header. */
  function ValueSize(u: Utf8, v: Value): nat {
    match v
    case Null => 0
    case Bool(_) => 0
    case Int(n) => if n == 0 || n == 1 then 0 else if -128 <= n < 128 then 1 else if -32768 <= n < 32768 then 2 else 4
    case Str(s) =>
      var length := |u.encode(s)|;
      length + if length < 256 then 1 else if length < 0x1_0000 then 2 else 4
  }

  function HeaderSize(key: int): nat {
    if key < 256 then 2 else 3
  }

  lemma RecordSize(u: Utf8, r: Record)
    requires Writable(u, r)
    ensures |RecordBytes(u, r)| == HeaderSize(r.key) + ValueSize(u, r.value)
  {
    hide Little2, Little4;
  }

  /** A value that is read takes at least the bytes it would be written with. */
  lemma ValueShortest(u: Utf8, kind: nat, d: Bytes, v: Value, rest: Bytes)
    requires u.Lawful() && ParseValue(u, kind, d) == Some((v, rest))
    ensures ValueSize(u, v) + |rest| <= |d|
  {
  }

  /** No bytes that are read as a record are shorter than those it is written with. */
  lemma RecordShortest(u: Utf8, r: Record, d: Bytes, rest: Bytes)
    requires u.Lawful() && Writable(u, r) && ParseRecord(u, d) == Some((NormRecord(r), rest))
    ensures |RecordBytes(u, r)| + |rest| <= |d|
  {
    hide RecordBytes, ParseValue, ValueSize, FromLittle;
    RecordSize(u, r);
    var kind, wide := d[0] as int / 16, d[0] as int % 16 >= 8;
    ValueShortest(u, kind, if wide then d[3..] else d[2..], NormValue(r.value), rest);
    assert ValueSize(u, NormValue(r.value)) == ValueSize(u, r.value) by { NormSize(u, r.value); }
  }

  lemma NormSize(u: Utf8, v: Value)
    ensures ValueSize(u, NormValue(v)) == ValueSize(u, v)
  {
  }

  // ---- writing ------------------------------------------------------------------------

  /** `_serialize_header`: the type of the value stands in the upper half of `flag`. */
  method SerializeHeader(key: int, flag: int) returns (h: Option<Bytes>)
    requires 0 <= flag < 0xB0 && flag % 16 < FLAG_BYTE
    ensures h.Some? <==> 0 <= key < 0x1_0000
    ensures h.Some? ==> h.value == Header(key, flag % 16, flag / 16)
  {
    if key < 0 { return None; }
    if key < 256 { return Some([flag, key]); }
    if key >= 0x1_0000 { return None; }
    return Some([flag + FLAG_BYTE] + Little2(key));
  }

  /** The branches for integers. */
  method SerializeInt(key: int, n: Int32, flag: Flag) returns (b: Option<Bytes>)
    ensures b.Some? <==> 0 <= key < 0x1_0000
    ensures b.Some? ==> b.value == IntBytes(key, n, flag)
  {
    hide Header;
    if n == 0 || n == 1 {
      b := SerializeHeader(key, flag + 16 * (n as int + 1));
      return;
    }
    var kind: nat := if -128 <= n < 128 then 3 else if -32768 <= n < 32768 then 4 else 5;
    b := SerializeHeader(key, flag + 16 * kind);
    if b.None? { return; }
    if -128 <= n < 128 {
      b := Some(b.value + [n as int % 0x100]);
    } else if -32768 <= n < 32768 {
      b := Some(b.value + Little2(n as int % 0x1_0000));
    } else {
      b := Some(b.value + Little4(n as int % 0x1_0000_0000));
    }
  }

  /** The branches for text. */
  method SerializeText(key: int, payload: Bytes, flag: Flag) returns (b: Option<Bytes>)
    ensures b.Some? <==> 0 <= key < 0x1_0000 && |payload| < 0x1_0000_0000
    ensures b.Some? ==> b.value == StringBytes(key, payload, flag)
  {
    hide Header;
    var kind: nat := if |payload| < 256 then 8 else if |payload| < 0x1_0000 then 9 else 10;
    b := SerializeHeader(key, flag + 16 * kind);
    if b.None? { return; }
    if |payload| < 256 {
      b := Some(b.value + [|payload|] + payload);
    } else if |payload| < 0x1_0000 {
      b := Some(b.value + Little2(|payload|) + payload);
    } else if |payload| < 0x1_0000_0000 {
      b := Some(b.value + Little4(|payload|) + payload);
    } else {
      b := None;
    }
  }

  /** `_serialize_data`: what is written is read back, whatever follows, and nothing shorter is. */
  method Serialize(u: Utf8, key: int, value: Value, flag: Flag) returns (b: Option<Bytes>)
    ensures b.Some? <==> Writable(u, Record(key, value, flag))
    ensures b.Some? ==> b.value == RecordBytes(u, Record(key, value, flag))
    ensures b.Some? && u.Lawful() ==>
      forall rest: Bytes :: ParseRecord(u, b.value + rest) == Some((NormRecord(Record(key, value, flag)), rest))
    ensures b.Some? && u.Lawful() ==>
      forall d, rest ::
        ParseRecord(u, d) == Some((NormRecord(Record(key, value, flag)), rest)) ==> |b.value| + |rest| <= |d|
  {
    hide ParseRecord, Header, IntBytes, StringBytes;
    match value {
      case Null =>
        if flag != FLAG_GLOBAL { return None; }
        b := SerializeHeader(key, flag);
      case Bool(x) => b := SerializeInt(key, if x then 1 else 0, flag);
      case Int(n) => b := SerializeInt(key, n, flag);
      case Str(s) => b := SerializeText(key, u.encode(s), flag);
    }
    if b.Some? && u.Lawful() {
      BackAndShortest(u, Record(key, value, flag));
    }
  }

  lemma BackAndShortest(u: Utf8, r: Record)
    requires u.Lawful() && Writable(u, r)
    ensures forall rest: Bytes :: ParseRecord(u, RecordBytes(u, r) + rest) == Some((NormRecord(r), rest))
    ensures forall d, rest :: ParseRecord(u, d) == Some((NormRecord(r), rest)) ==> |RecordBytes(u, r)| + |rest| <= |d|
  {
    hide ParseRecord, RecordBytes, Writable, NormRecord;
    forall rest: Bytes
      ensures ParseRecord(u, RecordBytes(u, r) + rest) == Some((NormRecord(r), rest))
    {
      RecordBack(u, r, rest);
    }
    forall d, rest | ParseRecord(u, d) == Some((NormRecord(r), rest))
      ensures |RecordBytes(u, r)| + |rest| <= |d|
    {
      RecordShortest(u, r, d, rest);
    }
  }
}
