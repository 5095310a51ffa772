/** Bytes, results and the fixed-width integers that every wire format of the repository uses. */
module Common {

  type Byte = b: int | 0 <= b < 256
  type Bytes = seq<Byte>

  datatype Option<+T> = None | Some(value: T)

  /** A returned value, or the exception raised instead of it. */
  datatype Result<+T, +E> = Ok(value: T) | Err(error: E) {
    predicate IsFailure() { Err? }
    function PropagateFailure<U>(): Result<U, E> requires Err? { Err(error) }
    function Extract(): T requires Ok? { value }
  }

  /** `n.to_bytes(2, "big")`, for a number that fits. */
  function Big2(n: nat): (b: Bytes)
    requires n < 0x1_0000
    ensures |b| == 2
    ensures FromBig(b) == n
  {
    [n / 0x100, n % 0x100]
  }

  /** `n.to_bytes(3, "big")`, for a number that fits. */
  function Big3(n: nat): (b: Bytes)
    requires n < 0x100_0000
    ensures |b| == 3
    ensures FromBig(b) == n
  {
    var n1 := n / 0x100;
    [n1 / 0x100, n1 % 0x100, n % 0x100]
  }

  /** `n.to_bytes(4, "big")`, for a number that fits. */
  function Big4(n: nat): (b: Bytes)
    requires n < 0x1_0000_0000
    ensures |b| == 4
    ensures FromBig(b) == n
  {
    var n1 := n / 0x100;
    var n2 := n1 / 0x100;
    [n2 / 0x100, n2 % 0x100, n1 % 0x100, n % 0x100]
  }

  /** `int.from_bytes(b, "big")` for the two to four byte fields of the formats. */
  function FromBig(b: Bytes): nat
    requires 2 <= |b| <= 4
  {
    var high := b[0] as int * 0x100 + b[1];
    if |b| == 2 then high
    else if |b| == 3 then high * 0x100 + b[2]
    else (high * 0x100 + b[2]) * 0x100 + b[3]
  }

  /** `int.from_bytes(b, "little")`. */
  function FromLittle(b: Bytes): nat
    requires 2 <= |b| <= 4
  {
    var low := b[1] as int * 0x100 + b[0];
    if |b| == 2 then low
    else if |b| == 3 then b[2] as int * 0x1_0000 + low
    else b[3] as int * 0x100_0000 + b[2] as int * 0x1_0000 + low
  }

  /** `n.to_bytes(2, "little")`, for a number that fits. */
  function Little2(n: nat): (b: Bytes)
    requires n < 0x1_0000
    ensures |b| == 2
    ensures FromLittle(b) == n
  {
    [n % 0x100, n / 0x100]
  }

  /** `n.to_bytes(4, "little")`, for a number that fits. */
  function Little4(n: nat): (b: Bytes)
    requires n < 0x1_0000_0000
    ensures |b| == 4
    ensures FromLittle(b) == n
  {
    var n1 := n / 0x100;
    var n2 := n1 / 0x100;
    [n % 0x100, n1 % 0x100, n2 % 0x100, n2 / 0x100]
  }

  /** `n.to_bytes(width, "big")`, for a number that fits. */
  function Big(n: nat, width: nat): (b: Bytes)
    ensures |b| == width
  {
    if width == 0 then [] else Big(n / 0x100, width - 1) + [n % 0x100]
  }

  /** The number that bytes of any length spell, the high one first. */
  function BigValue(b: Bytes): nat {
    if b == [] then 0 else BigValue(b[..|b| - 1]) * 0x100 + b[|b| - 1]
  }

  /** `Big` spells its number when that fits. */
  lemma {:induction false} BigBack(n: nat, width: nat)
    requires n < Pow2(8 * width)
    ensures BigValue(Big(n, width)) == n
  {
    if width > 0 {
      NextByte(8 * (width - 1));
      BigBack(n / 0x100, width - 1);
      assert Big(n, width)[..width - 1] == Big(n / 0x100, width - 1);
    }
  }

  /** The elements of `parts`, joined in order: `b"".join(parts)`. */
  function Join(parts: seq<Bytes>): Bytes {
    if parts == [] then [] else parts[0] + Join(parts[1..])
  }

  lemma {:induction false} JoinConcat(a: seq<Bytes>, b: seq<Bytes>)
    ensures Join(a + b) == Join(a) + Join(b)
  {
    if a == [] {
      assert a + b == b;
    } else {
      assert (a + b)[0] == a[0] && (a + b)[1..] == a[1..] + b;
      JoinConcat(a[1..], b);
    }
  }

  /** A field that is present and not empty. */
  predicate Filled<T>(field: Option<seq<T>>) {
    field.Some? && |field.value| > 0
  }

  /** `str.encode` and `bytes.decode` as a foreign pair; decoding is None where it raises. */
  datatype Utf8 = Utf8(encode: string -> Bytes, decode: Bytes -> Option<string>) {
    /** Decoding undoes encoding, and accepts no other bytes for a string. */
    ghost predicate Lawful() {
      && (forall s :: decode(encode(s)) == Some(s))
      && (forall b :: decode(b).Some? ==> encode(decode(b).value) == b)
    }
  }

  // ---- powers of two ------------------------------------------------------------------

  function Pow2(n: nat): (p: nat)
    ensures p > 0
  {
    if n == 0 then 1 else 2 * Pow2(n - 1)
  }

  /** `x << n` */
  function ShiftLeft(x: nat, n: nat): nat {
    x * Pow2(n)
  }

  lemma ShiftNothing(x: nat)
    ensures ShiftLeft(x, 0) == x
  {
  }

  lemma NextByte(n: nat)
    ensures Pow2(n + 8) == 0x100 * Pow2(n)
  {
    assert Pow2(n + 2) == 4 * Pow2(n);
    assert Pow2(n + 4) == 4 * Pow2(n + 2);
    assert Pow2(n + 6) == 4 * Pow2(n + 4);
    assert Pow2(n + 8) == 4 * Pow2(n + 6);
  }
}
