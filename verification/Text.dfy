/** The Python string operations that the address and node code relies on. */
module Text {
  import opened Common

  /** What the model does not fix about Python text: which characters beyond ASCII
      `str.isdigit` accepts, what `int()` makes of a string that is not a plain run of
      ASCII digits (signs, blanks, underscores, other digits), and UTF-8. */
  datatype Host = Host(
    wideDigit: char -> bool,
    oddInt: string -> Option<int>,
    utf8: Utf8)
  {
    ghost predicate Lawful() {
      utf8.Lawful()
    }

    /** `char.isdigit()` */
    predicate IsDigit(c: char) {
      AsciiDigit(c) || (128 <= c as int && wideDigit(c))
    }

    /** `int(s)`, None standing for ValueError. Python refuses more than 4300 digits. */
    function ParseInt(s: string): Option<int> {
      if Numeral(s) && |s| <= 4300 then Some(NumeralValue(s))
      else if Numeral(s) then None
      else oddInt(s)
    }
  }

  predicate AsciiDigit(c: char) {
    '0' <= c <= '9'
  }

  /** A non-empty run of ASCII digits. */
  predicate Numeral(s: string) {
    s != "" && forall i :: 0 <= i < |s| ==> AsciiDigit(s[i])
  }

  function NumeralValue(s: string): nat
    requires Numeral(s)
  {
    var last := s[|s| - 1] as int - '0' as int;
    if |s| == 1 then last else 10 * NumeralValue(s[..|s| - 1]) + last
  }

  /** `str(n)` */
  function Decimal(n: nat): (s: string)
    ensures Numeral(s)
    ensures NumeralValue(s) == n
    ensures n < 10 ==> |s| == 1
    ensures n < 1000 ==> |s| <= 3
  {
    if n < 10 then [('0' as int + n) as char]
    else
      var front := Decimal(n / 10);
      var s := front + [('0' as int + n % 10) as char];
      assert s[..|s| - 1] == front;
      s
  }

  /** Where `c` first stands in `s`, or the length of `s`. */
  function Find(s: string, c: char): (i: nat)
    ensures i <= |s|
    ensures i < |s| ==> s[i] == c
    ensures c !in s[..i]
    ensures i < |s| <==> c in s
  {
    if s == "" then 0
    else if s[0] == c then 0
    else
      var i := 1 + Find(s[1..], c);
      assert s[..i] == [s[0]] + s[1..][..i - 1];
      i
  }

  /** Where `c` last stands in `s`, or the length of `s`. */
  function FindLast(s: string, c: char): (i: nat)
    ensures i <= |s|
    ensures i < |s| ==> s[i] == c && c !in s[i + 1..]
    ensures i < |s| <==> c in s
  {
    if s == "" then 0
    else if s[|s| - 1] == c then |s| - 1
    else
      var t := s[..|s| - 1];
      assert s == t + [s[|s| - 1]];
      var i := FindLast(t, c);
      if i == |t| then |s| else
        assert s[i + 1..] == t[i + 1..] + [s[|s| - 1]];
        i
  }

  /** A string cut around the first `c` is cut at that `c`, whatever follows. */
  lemma {:induction false} FindAt(before: string, c: char, after: string)
    requires c !in before
    ensures Find(before + [c] + after, c) == |before|
  {
    var s := before + [c] + after;
    if before != "" {
      assert s[0] == before[0] && s[1..] == before[1..] + [c] + after;
      FindAt(before[1..], c, after);
    }
  }

  /** A string cut around the last `c` is cut at that `c`, whatever precedes. */
  lemma {:induction false} FindLastAt(before: string, c: char, after: string)
    requires c !in after
    ensures FindLast(before + [c] + after, c) == |before|
  {
    var s := before + [c] + after;
    if after != "" {
      var n := |after| - 1;
      assert s[|s| - 1] == after[n] && s[..|s| - 1] == before + [c] + after[..n];
      FindLastAt(before, c, after[..n]);
    }
  }

  /** Two strings cut around their first `c` are equal only piece by piece. */
  lemma CutUnique(a: string, b: string, c: char, x: string, y: string)
    requires c !in a && c !in x
    requires a + [c] + b == x + [c] + y
    ensures a == x && b == y
  {
    FindAt(a, c, b);
    FindAt(x, c, y);
    var s := a + [c] + b;
    assert a == s[..|a|] && x == s[..|x|];
    assert b == s[|a| + 1..] && y == s[|x| + 1..];
  }
}
