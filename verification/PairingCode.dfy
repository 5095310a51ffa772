/** The base-32 text of a pairing code: the bits of the bytes in order, five to a symbol. */
module PairingCode {
  import opened Common

  const CROCKFORD_CHARACTERS: string := "123456789ABCDEFGHJKLMNPQRSTVWXYZ"

  type Digit = d: int | 0 <= d < 32

  // ---- bits ---------------------------------------------------------------------------

  /** The low `k` bits of `n`, the highest first. */
  function Bits(n: nat, k: nat): (b: seq<nat>)
    ensures |b| == k
  {
    if k == 0 then [] else Bits(n / 2, k - 1) + [n % 2]
  }

  function ShiftRight(n: nat, k: nat): nat {
    if k == 0 then n else ShiftRight(n / 2, k - 1)
  }

  function Zeros(k: nat): seq<nat> {
    seq(k, i => 0)
  }

  function BitsOf(data: Bytes): (b: seq<nat>)
    ensures |b| == 8 * |data|
  {
    if data == [] then [] else BitsOf(data[..|data| - 1]) + Bits(data[|data| - 1], 8)
  }

  function DigitBits(digits: seq<Digit>): (b: seq<nat>)
    ensures |b| == 5 * |digits|
  {
    if digits == [] then [] else DigitBits(digits[..|digits| - 1]) + Bits(digits[|digits| - 1], 5)
  }

  lemma {:induction false} BitsSplit(n: nat, high: nat, low: nat)
    ensures Bits(n, high + low) == Bits(ShiftRight(n, low), high) + Bits(n, low)
  {
    if low > 0 {
      BitsSplit(n / 2, high, low - 1);
    }
  }

  lemma Halved(high: nat, low: nat, k: nat)
    requires k > 0
    ensures (ShiftLeft(high, k) + low) / 2 == ShiftLeft(high, k - 1) + low / 2
    ensures (ShiftLeft(high, k) + low) % 2 == low % 2
  {
    assert high * (2 * Pow2(k - 1)) == 2 * (high * Pow2(k - 1));
  }

  /** A number put on top of `k` bits: those bits stay, and shifting them out gives it back. */
  lemma {:induction false} Stacked(high: nat, low: nat, k: nat)
    requires low < Pow2(k)
    ensures Bits(ShiftLeft(high, k) + low, k) == Bits(low, k)
    ensures ShiftRight(ShiftLeft(high, k) + low, k) == high
  {
    hide ShiftLeft;
    if k == 0 {
      ShiftNothing(high);
    } else {
      Halved(high, low, k);
      Stacked(high, low / 2, k - 1);
    }
  }

  lemma {:induction false} ZeroBits(k: nat)
    ensures Bits(0, k) == Zeros(k)
  {
    if k > 0 {
      ZeroBits(k - 1);
    }
  }

  /** Masking to five bits keeps the low five bits. */
  lemma MaskFive(n: nat)
    ensures Bits(n % 32, 5) == Bits(n, 5)
  {
    assert Pow2(3) == 8 && Pow2(5) == 32;
    Stacked(n / 32, n % 32, 5);
    assert n / 32 * 32 + n % 32 == n;
  }

  /** Pushing a byte under the pending bits. */
  lemma PushByte(value: nat, count: nat, item: Byte)
    ensures Bits(value * 256 + item, count + 8) == Bits(value, count) + Bits(item, 8)
  {
    assert Pow2(3) == 8 && Pow2(5) == 32 && Pow2(7) == 128 && Pow2(8) == 256;
    Stacked(value, item, 8);
    BitsSplit(value * 256 + item, count, 8);
  }

  /** Taking the top five of the pending bits. */
  lemma TakeFive(value: nat, count: nat)
    requires count >= 5
    ensures Bits(ShiftRight(value, count - 5) % 32, 5) + Bits(value, count - 5) == Bits(value, count)
  {
    BitsSplit(value, 5, count - 5);
    MaskFive(ShiftRight(value, count - 5));
  }

  /** Filling up the last symbol with zeros. */
  lemma PadFive(value: nat, count: nat)
    requires count < 5
    ensures Bits(ShiftLeft(value, 5 - count) % 32, 5) == Bits(value, count) + Zeros(5 - count)
  {
    MaskFive(ShiftLeft(value, 5 - count));
    BitsSplit(ShiftLeft(value, 5 - count), count, 5 - count);
    Stacked(value, 0, 5 - count);
    ZeroBits(5 - count);
  }

  // ---- the encoder --------------------------------------------------------------------

  function Symbol(d: Digit): char {
    CROCKFORD_CHARACTERS[d]
  }

  function Symbols(digits: seq<Digit>): (s: string)
    ensures |s| == |digits|
  {
    seq(|digits|, i requires 0 <= i < |digits| => Symbol(digits[i]))
  }

  /** How many zeros fill up the last symbol. */
  function Padding(n: nat): (p: nat)
    ensures p < 5 && (8 * n + p) % 5 == 0
  {
    (5 - 8 * n % 5) % 5
  }

  /** `text` spells the bits of `data` in order, five to a symbol, with zeros at the end. */
  ghost predicate Spells(text: string, data: Bytes) {
    exists digits :: text == Symbols(digits) && DigitBits(digits) == BitsOf(data) + Zeros(Padding(|data|))
  }

  /** `out` and the low `count` bits of `value` together hold exactly the bits `read`. */
  ghost predicate Holds(out: string, digits: seq<Digit>, value: nat, count: nat, read: seq<nat>) {
    out == Symbols(digits) && DigitBits(digits) + Bits(value, count) == read
  }

  lemma Join3(a: seq<nat>, b: seq<nat>, c: seq<nat>)
    ensures (a + b) + c == a + (b + c)
  {
  }

  lemma ReadByte(out: string, digits: seq<Digit>, value: nat, count: nat, data: Bytes, i: nat)
    requires i < |data| && Holds(out, digits, value, count, BitsOf(data[..i]))
    ensures Holds(out, digits, value * 256 + data[i], count + 8, BitsOf(data[..i + 1]))
  {
    hide Bits, DigitBits;
    assert data[..i + 1][..i] == data[..i];
    PushByte(value, count, data[i]);
    Join3(DigitBits(digits), Bits(value, count), Bits(data[i], 8));
  }

  lemma AddDigit(digits: seq<Digit>, digit: Digit)
    ensures DigitBits(digits + [digit]) == DigitBits(digits) + Bits(digit, 5)
    ensures Symbols(digits + [digit]) == Symbols(digits) + [Symbol(digit)]
  {
    assert (digits + [digit])[..|digits|] == digits;
  }

  lemma EmitDigit(out: string, digits: seq<Digit>, value: nat, count: nat, read: seq<nat>, digit: Digit)
    requires count >= 5 && digit == ShiftRight(value, count - 5) % 32
    requires Holds(out, digits, value, count, read)
    ensures Holds(out + [Symbol(digit)], digits + [digit], value, count - 5, read)
  {
    hide Bits, DigitBits, Symbol, Symbols;
    AddDigit(digits, digit);
    TakeFive(value, count);
    Join3(DigitBits(digits), Bits(digit, 5), Bits(value, count - 5));
  }

  lemma EmitLast(out: string, digits: seq<Digit>, value: nat, count: nat, read: seq<nat>, digit: Digit)
    requires count < 5 && digit == ShiftLeft(value, 5 - count) % 32
    requires Holds(out, digits, value, count, read)
    ensures out + [Symbol(digit)] == Symbols(digits + [digit])
    ensures DigitBits(digits + [digit]) == read + Zeros(5 - count)
  {
    hide Bits, DigitBits, Symbol, Symbols;
    AddDigit(digits, digit);
    PadFive(value, count);
    Join3(DigitBits(digits), Bits(value, count), Zeros(5 - count));
  }

  lemma HoldsLength(out: string, digits: seq<Digit>, value: nat, count: nat, data: Bytes)
    requires Holds(out, digits, value, count, BitsOf(data))
    ensures 5 * |digits| + count == 8 * |data| && |out| == |digits|
  {
    hide Bits, BitsOf, DigitBits, Symbol;
    assert |DigitBits(digits) + Bits(value, count)| == |BitsOf(data)|;
  }

  /** Fewer than five bits are left over exactly when the rest of a symbol is the padding. */
  lemma LeftOver(digits: nat, count: nat, n: nat)
    requires count < 5 && 5 * digits + count == 8 * n
    ensures Padding(n) == if count == 0 then 0 else 5 - count
  {
    assert 8 * n % 5 == count;
  }

  lemma Complete(out: string, digits: seq<Digit>, data: Bytes)
    requires out == Symbols(digits) && DigitBits(digits) == BitsOf(data) + Zeros(Padding(|data|))
    ensures Spells(out, data) && |out| == (8 * |data| + 4) / 5
  {
  }

  /** `bytes_to_crockford` */
  method BytesToCrockford(data: Bytes) returns (out: string)
    ensures Spells(out, data)
    ensures |out| == (8 * |data| + 4) / 5
  {
    hide Bits, BitsOf, DigitBits, Symbol, Symbols, ShiftRight, ShiftLeft, Holds, Spells, Padding;
    var value: nat, bitCount: nat := 0, 0;
    out := "";
    ghost var digits: seq<Digit> := [];
    assert Holds(out, digits, value, bitCount, BitsOf(data[..0])) by { Start(data); }
    for i := 0 to |data|
      invariant bitCount < 5
      invariant Holds(out, digits, value, bitCount, BitsOf(data[..i]))
    {
      ReadByte(out, digits, value, bitCount, data, i);
      value := value * 256 + data[i];
      bitCount := bitCount + 8;
      while bitCount >= 5
        invariant Holds(out, digits, value, bitCount, BitsOf(data[..i + 1]))
      {
        var digit: Digit := ShiftRight(value, bitCount - 5) % 32;
        EmitDigit(out, digits, value, bitCount, BitsOf(data[..i + 1]), digit);
        out, digits := out + [Symbol(digit)], digits + [digit];
        bitCount := bitCount - 5;
      }
    }
    assert data[..|data|] == data;
    if bitCount > 0 {
      var digit: Digit := ShiftLeft(value, 5 - bitCount) % 32;
      Finish(out, digits, value, bitCount, data, digit);
      out := out + [Symbol(digit)];
    } else {
      FinishEven(out, digits, value, bitCount, data);
    }
  }

  lemma Start(data: Bytes)
    ensures Holds("", [], 0, 0, BitsOf(data[..0]))
  {
  }

  lemma Finish(out: string, digits: seq<Digit>, value: nat, count: nat, data: Bytes, digit: Digit)
    requires 0 < count < 5 && digit == ShiftLeft(value, 5 - count) % 32
    requires Holds(out, digits, value, count, BitsOf(data))
    ensures Spells(out + [Symbol(digit)], data) && |out| + 1 == (8 * |data| + 4) / 5
  {
    hide Bits, BitsOf, DigitBits, Symbol, Symbols, ShiftRight, ShiftLeft, Spells, Padding, Holds;
    HoldsLength(out, digits, value, count, data);
    EmitLast(out, digits, value, count, BitsOf(data), digit);
    LeftOver(|digits|, count, |data|);
    Complete(out + [Symbol(digit)], digits + [digit], data);
  }

  lemma FinishEven(out: string, digits: seq<Digit>, value: nat, count: nat, data: Bytes)
    requires count == 0 && Holds(out, digits, value, count, BitsOf(data))
    ensures Spells(out, data) && |out| == (8 * |data| + 4) / 5
  {
    hide Bits, DigitBits, BitsOf, Symbol, Symbols, Padding, Spells;
    LeftOver(|digits|, count, |data|);
    assert Bits(value, count) == Zeros(count);
    Complete(out, digits, data);
  }

  // ---- what the text determines -------------------------------------------------------

  /** The position of a character in the alphabet. */
  function DigitOf(c: char): int {
    if '1' <= c <= '9' then c as int - '1' as int
    else if 'A' <= c <= 'H' then c as int - 'A' as int + 9
    else if 'J' <= c <= 'N' then c as int - 'J' as int + 17
    else if 'P' <= c <= 'T' then c as int - 'P' as int + 22
    else if 'V' <= c <= 'Z' then c as int - 'V' as int + 27
    else -1
  }

  /** No two symbols of the alphabet are the same. */
  lemma AlphabetDistinct(d: Digit)
    ensures DigitOf(Symbol(d)) == d
  {
  }

  lemma SymbolsInjective(a: seq<Digit>, b: seq<Digit>)
    requires Symbols(a) == Symbols(b)
    ensures a == b
  {
    forall i | 0 <= i < |a|
      ensures a[i] == b[i]
    {
      assert Symbols(a)[i] == Symbols(b)[i];
      AlphabetDistinct(a[i]);
      AlphabetDistinct(b[i]);
    }
  }

  lemma {:induction false} BitsInjective(a: nat, b: nat, k: nat)
    requires a < Pow2(k) && b < Pow2(k) && Bits(a, k) == Bits(b, k)
    ensures a == b
  {
    if k > 0 {
      assert Bits(a, k)[..k - 1] == Bits(a / 2, k - 1) && Bits(b, k)[..k - 1] == Bits(b / 2, k - 1);
      assert Bits(a, k)[k - 1] == a % 2 && Bits(b, k)[k - 1] == b % 2;
      BitsInjective(a / 2, b / 2, k - 1);
    }
  }

  lemma {:induction false} BitsOfInjective(a: Bytes, b: Bytes)
    requires BitsOf(a) == BitsOf(b)
    ensures a == b
  {
    assert |a| == |b|;
    if a != [] {
      var n := |a| - 1;
      assert BitsOf(a)[..8 * n] == BitsOf(a[..n]) && BitsOf(b)[..8 * n] == BitsOf(b[..n]);
      assert BitsOf(a)[8 * n..] == Bits(a[n], 8) && BitsOf(b)[8 * n..] == Bits(b[n], 8);
      BitsOfInjective(a[..n], b[..n]);
      assert Pow2(4) == 16 && Pow2(8) == 256;
      BitsInjective(a[n], b[n], 8);
      assert a == a[..n] + [a[n]] && b == b[..n] + [b[n]];
    }
  }

  /** A text spells at most one byte string, and a byte string is spelt by at most one text. */
  lemma SpellsUnique(text: string, data: Bytes, text': string, data': Bytes)
    requires Spells(text, data) && Spells(text', data')
    ensures text == text' <==> data == data'
  {
    var a :| text == Symbols(a) && DigitBits(a) == BitsOf(data) + Zeros(Padding(|data|));
    var b :| text' == Symbols(b) && DigitBits(b) == BitsOf(data') + Zeros(Padding(|data'|));
    if text == text' {
      SymbolsInjective(a, b);
      assert |data| == |data'|;
      assert DigitBits(a)[..8 * |data|] == BitsOf(data) && DigitBits(b)[..8 * |data|] == BitsOf(data');
      BitsOfInjective(data, data');
    }
    if data == data' {
      DigitBitsInjective(a, b);
    }
  }

  lemma {:induction false} DigitBitsInjective(a: seq<Digit>, b: seq<Digit>)
    requires DigitBits(a) == DigitBits(b)
    ensures a == b
  {
    assert |a| == |b|;
    if a != [] {
      var n := |a| - 1;
      assert DigitBits(a)[..5 * n] == DigitBits(a[..n]) && DigitBits(b)[..5 * n] == DigitBits(b[..n]);
      assert DigitBits(a)[5 * n..] == Bits(a[n], 5) && DigitBits(b)[5 * n..] == Bits(b[n], 5);
      DigitBitsInjective(a[..n], b[..n]);
      assert Pow2(3) == 8 && Pow2(5) == 32;
      BitsInjective(a[n], b[n], 5);
      assert a == a[..n] + [a[n]] && b == b[..n] + [b[n]];
    }
  }

  /** Five bytes take exactly eight symbols, without padding. */
  lemma FiveBytes(text: string, data: Bytes)
    requires |data| == 5 && Spells(text, data)
    ensures |text| == 8
    ensures exists digits :: text == Symbols(digits) && DigitBits(digits) == BitsOf(data)
  {
    var digits :| text == Symbols(digits) && DigitBits(digits) == BitsOf(data) + Zeros(Padding(|data|));
    assert DigitBits(digits) == BitsOf(data);
  }
}
