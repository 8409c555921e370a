/** Characters, decimal numerals and searching in strings. */
module Text {
  predicate IsDigit(c: char) {
    '0' <= c <= '9'
  }

  function Digit(n: nat): (c: char)
    requires n <= 9
    ensures IsDigit(c) && DigitValue(c) == n
  {
    ('0' as int + n) as char
  }

  function DigitValue(c: char): nat
    requires IsDigit(c)
  {
    c as int - '0' as int
  }

  predicate AllDigits(s: string) {
    forall i :: 0 <= i < |s| ==> IsDigit(s[i])
  }

  /** The canonical decimal numeral of a number. */
  function Decimal(n: nat): (s: string)
    ensures |s| > 0 && AllDigits(s)
  {
    if n < 10 then [Digit(n)] else Decimal(n / 10) + [Digit(n % 10)]
  }

  /** The number a string of digits denotes. */
  function DecimalValue(s: string): nat
    requires AllDigits(s)
  {
    if |s| == 0 then 0 else 10 * DecimalValue(s[..|s| - 1]) + DigitValue(s[|s| - 1])
  }

  lemma {:induction false} DecimalRoundTrip(n: nat)
    ensures DecimalValue(Decimal(n)) == n
  {
    if n < 10 {
      assert Decimal(n)[..0] == "";
    } else {
      DecimalRoundTrip(n / 10);
      assert Decimal(n)[..|Decimal(n)| - 1] == Decimal(n / 10);
    }
  }

  /** The ten digits and their values. */
  lemma DigitsAre(n: nat)
    requires n <= 9
    ensures Digit(n) == "0123456789"[n] && DigitValue("0123456789"[n]) == n
  {
  }

  function PowerOfTen(n: nat): nat {
    if n == 0 then 1 else 10 * PowerOfTen(n - 1)
  }

  lemma LastDigitCounts(s: string)
    requires |s| > 0 && AllDigits(s)
    ensures DecimalValue(s) == 10 * DecimalValue(s[..|s| - 1]) + DigitValue(s[|s| - 1])
  {
  }

  lemma NextPower(n: nat)
    ensures PowerOfTen(0) == 1 && PowerOfTen(n + 1) == 10 * PowerOfTen(n)
  {
  }

  lemma ShiftByOne(x: nat, y: nat, z: nat, d: nat)
    ensures 10 * (x * y + z) + d == x * (10 * y) + (10 * z + d)
  {
  }

  /** Positional notation: digits further left count for a power of ten more. */
  lemma {:induction false} DecimalIsPositional(a: string, b: string)
    requires AllDigits(a) && AllDigits(b)
    ensures AllDigits(a + b)
    ensures DecimalValue(a + b) == DecimalValue(a) * PowerOfTen(|b|) + DecimalValue(b)
    decreases |b|
  {
    if |b| == 0 {
      assert a + b == a;
      NextPower(0);
    } else {
      hide DecimalValue, PowerOfTen;
      var init, last := b[..|b| - 1], b[|b| - 1];
      var s := a + b;
      assert s[..|s| - 1] == a + init && s[|s| - 1] == last;
      DecimalIsPositional(a, init);
      LastDigitCounts(s);
      LastDigitCounts(b);
      NextPower(|init|);
      ShiftByOne(DecimalValue(a), PowerOfTen(|init|), DecimalValue(init), DigitValue(last));
    }
  }

  /** A numeral, written and read. */
  lemma NumeralOf1907()
    ensures Decimal(1907) == "1907" && AllDigits("1907") && DecimalValue("1907") == 1907
  {
    assert Decimal(190) == Decimal(19) + "0";
    DecimalRoundTrip(1907);
  }

  /** The first index of c in s, or the length of s. */
  function IndexOf(s: string, c: char): (k: nat)
    ensures k <= |s| && c !in s[..k] && (k < |s| ==> s[k] == c)
  {
    if |s| == 0 || s[0] == c then 0
    else
      var k := 1 + IndexOf(s[1..], c);
      assert s[..k] == [s[0]] + s[1..][..k - 1];
      k
  }

  lemma {:induction false} IndexOfFirst(a: string, c: char, b: string)
    requires c !in a
    ensures IndexOf(a + [c] + b, c) == |a|
    ensures (a + [c] + b)[..|a|] == a && (a + [c] + b)[|a| + 1..] == b
  {
    var s := a + [c] + b;
    var k := IndexOf(s, c);
    assert s[|a|] == c;
  }

  lemma IndexOfAbsent(a: string, c: char)
    requires c !in a
    ensures IndexOf(a, c) == |a|
  {
    var k := IndexOf(a, c);
  }

  /** All pieces one after the other. */
  function Concat(pieces: seq<string>): string {
    if |pieces| == 0 then "" else Concat(pieces[..|pieces| - 1]) + pieces[|pieces| - 1]
  }

  lemma ConcatSnoc(pieces: seq<string>, last: string)
    ensures Concat(pieces + [last]) == Concat(pieces) + last
  {
    assert (pieces + [last])[..|pieces|] == pieces;
  }

  lemma {:induction false} ConcatCons(first: string, pieces: seq<string>)
    ensures Concat([first] + pieces) == first + Concat(pieces)
    decreases |pieces|
  {
    if |pieces| == 0 {
      assert [first] + pieces == [first] && [first][..0] == [];
    } else {
      var init, last := pieces[..|pieces| - 1], pieces[|pieces| - 1];
      assert pieces == init + [last];
      assert [first] + pieces == ([first] + init) + [last];
      ConcatSnoc([first] + init, last);
      ConcatCons(first, init);
    }
  }
}
