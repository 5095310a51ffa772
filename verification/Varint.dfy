/** Protobuf varints of at most six bytes. */
module Varint {
  import opened Common

  const BUDGET: nat := 6

  /** The value and the length of the varint at the front of `d`, if it ends within `budget` bytes. */
  function VarintAt(d: Bytes, budget: nat): (r: Option<(nat, nat)>)
    ensures r.Some? ==> 1 <= r.value.1 <= |d| && r.value.1 <= budget
  {
    if d == [] || budget == 0 then None
    else if d[0] < 0x80 then Some((d[0] as nat, 1))
    else match VarintAt(d[1..], budget - 1)
      case None => None
      case Some((value, size)) => Some((d[0] as int - 0x80 + 0x80 * value, size + 1))
  }

  /** The shortest varint of a value. */
  function VarintBytes(value: nat): (b: Bytes)
    ensures 1 <= |b|
  {
    if value < 0x80 then [value] else [value % 0x80 + 0x80] + VarintBytes(value / 0x80)
  }

  /** Bits above the low seven are shifted by seven more. */
  lemma ShiftParts(low: nat, high: nat, n: nat)
    ensures ShiftLeft(low + 0x80 * high, n) == ShiftLeft(low, n) + ShiftLeft(high, n + 7)
  {
    assert Pow2(n + 2) == 4 * Pow2(n);
    assert Pow2(n + 4) == 4 * Pow2(n + 2);
    assert Pow2(n + 6) == 4 * Pow2(n + 4);
    assert Pow2(n + 7) == 0x80 * Pow2(n);
    Distribute(low, high, Pow2(n));
  }

  lemma Distribute(low: int, high: int, weight: int)
    ensures (low + 0x80 * high) * weight == low * weight + high * (0x80 * weight)
  {
  }

  /** `_decode_varint`: seven bits at a time are put above the bits read so far. */
  method DecodeVarint(data: Bytes, offset: nat) returns (r: Option<(nat, nat)>)
    requires offset <= |data|
    ensures r == VarintAt(data[offset..], BUDGET)
  {
    hide ShiftLeft;
    var value: nat, shift: nat, index: nat := 0, 0, 0;
    ghost var all := VarintAt(data[offset..], BUDGET);
    if all.Some? { ShiftNothing(all.value.0); }
    while offset + index < |data|
      invariant offset + index <= |data| && index < BUDGET && shift == 7 * index
      invariant var rest := VarintAt(data[offset + index..], BUDGET - index);
                all == if rest.None? then None else Some((value + ShiftLeft(rest.value.0, shift), index + rest.value.1))
    {
      var current := data[offset + index];
      ghost var tail := VarintAt(data[offset + index + 1..], BUDGET - index - 1);
      assert data[offset + index..][1..] == data[offset + index + 1..];
      if current >= 0x80 && tail.Some? {
        ShiftParts(current as int - 0x80, tail.value.0, shift);
      }
      value := value + ShiftLeft(current as int % 0x80, shift);
      index := index + 1;
      if current < 0x80 { return Some((value, index)); }
      shift := shift + 7;
      if shift > 35 { return None; }
    }
    return None;
  }

  /** `_encode_varint`: the low 32 bits of the value. */
  method EncodeVarint(value: nat) returns (output: Bytes)
    ensures output == VarintBytes(value % 0x1_0000_0000)
  {
    output := [];
    var remaining: nat := value % 0x1_0000_0000;
    while remaining > 0x7F
      invariant output + VarintBytes(remaining) == VarintBytes(value % 0x1_0000_0000)
    {
      output := output + [remaining % 0x80 + 0x80];
      remaining := remaining / 0x80;
    }
    output := output + [remaining];
  }

  /** Decoding undoes encoding, whatever follows, for values below 2^32. */
  lemma VarintRoundTrip(value: nat, rest: Bytes)
    requires value < 0x1_0000_0000
    ensures |VarintBytes(value)| <= 5
    ensures VarintAt(VarintBytes(value) + rest, BUDGET) == Some((value, |VarintBytes(value)|))
  {
    assert Pow128(3) == 0x20_0000;
    assert Pow128(5) == 0x8_0000_0000;
    VarintBack(value, rest, 5, BUDGET);
  }

  /** A value below 128^n takes at most `n` bytes. */
  lemma {:induction false} VarintBack(value: nat, rest: Bytes, n: nat, budget: nat)
    requires 1 <= n <= budget && value < Pow128(n)
    ensures |VarintBytes(value)| <= n
    ensures VarintAt(VarintBytes(value) + rest, budget) == Some((value, |VarintBytes(value)|))
    decreases n
  {
    var b := VarintBytes(value);
    if value >= 0x80 {
      VarintBack(value / 0x80, rest, n - 1, budget - 1);
      assert (b + rest)[1..] == VarintBytes(value / 0x80) + rest;
    }
  }

  function Pow128(n: nat): nat {
    if n == 0 then 1 else 0x80 * Pow128(n - 1)
  }

  /** Reading a varint does not depend on what follows it. */
  lemma {:induction false} VarintLocal(d: Bytes, rest: Bytes, budget: nat)
    requires VarintAt(d, budget).Some?
    ensures var size := VarintAt(d, budget).value.1;
            VarintAt(d[..size] + rest, budget) == VarintAt(d, budget)
  {
    var size := VarintAt(d, budget).value.1;
    if d[0] >= 0x80 {
      VarintLocal(d[1..], rest, budget - 1);
      assert (d[..size] + rest)[1..] == d[1..][..size - 1] + rest;
    }
  }

  /** No varint of a value is shorter than the encoded one. */
  lemma {:induction false} VarintShortest(d: Bytes, budget: nat)
    requires VarintAt(d, budget).Some?
    ensures |VarintBytes(VarintAt(d, budget).value.0)| <= VarintAt(d, budget).value.1
  {
    if d[0] >= 0x80 {
      VarintShortest(d[1..], budget - 1);
    }
  }

  /** A smaller value does not take more bytes. */
  lemma {:induction false} VarintMonotone(a: nat, b: nat)
    requires a <= b
    ensures |VarintBytes(a)| <= |VarintBytes(b)|
  {
    if a >= 0x80 {
      VarintMonotone(a / 0x80, b / 0x80);
    }
  }
}
