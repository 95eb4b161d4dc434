/**
 * The Python string operations the calculator relies on: `str(n)` and
 * `int(s)` on decimal digits, `str.split(sep)`, `sep.join(parts)`, and the
 * `08b` binary format.
 */
module Text {
  import opened Wrappers
  import opened Arith

  predicate IsDigit(c: char)
  {
    '0' <= c <= '9'
  }

  predicate AllDigits(s: string)
  {
    forall i :: 0 <= i < |s| ==> IsDigit(s[i])
  }

  function DigitChar(d: nat): (c: char)
    requires d < 10
    ensures IsDigit(c)
  {
    (('0' as int) + d) as char
  }

  function DigitValue(c: char): nat
    requires IsDigit(c)
  {
    (c as int) - ('0' as int)
  }

  /** str(n) for a natural number: its decimal digits, without leading zeros. */
  function Decimal(n: nat): (s: string)
    ensures |s| >= 1 && AllDigits(s)
  {
    if n < 10 then [DigitChar(n)] else Decimal(n / 10) + [DigitChar(n % 10)]
  }

  /** The value of a string of decimal digits, most significant first. */
  function DigitsValue(s: string): nat
    requires AllDigits(s)
  {
    if s == [] then 0 else 10 * DigitsValue(s[..|s| - 1]) + DigitValue(s[|s| - 1])
  }

  /** int(s) on a string of ASCII digits; None where Python raises ValueError. */
  function DecimalValue(s: string): Option<nat>
  {
    if |s| > 0 && AllDigits(s) then Some(DigitsValue(s)) else None
  }

  lemma {:induction false} DecimalRoundTrip(n: nat)
    ensures DecimalValue(Decimal(n)) == Some(n)
  {
    var s := Decimal(n);
    if n >= 10 {
      DecimalRoundTrip(n / 10);
      assert s[..|s| - 1] == Decimal(n / 10);
      assert DigitValue(s[|s| - 1]) == n % 10;
    } else {
      assert s == [DigitChar(n)] && s[..|s| - 1] == [];
      assert DigitsValue(s) == 10 * DigitsValue([]) + DigitValue(s[0]);
    }
  }

  lemma DecimalBelow1000(n: nat)
    requires n < 1000
    ensures |Decimal(n)| <= 3
  {
    if n >= 10 {
      assert |Decimal(n)| == |Decimal(n / 10)| + 1;
      if n / 10 >= 10 {
        assert |Decimal(n / 10)| == |Decimal(n / 100)| + 1;
      }
    }
  }

  lemma DigitsHaveNoSeparator(s: string, sep: char)
    requires AllDigits(s) && !IsDigit(sep)
    ensures sep !in s
  {
  }

  /** s.split(sep): the pieces between occurrences of sep; "" splits into [""]. */
  function Split(s: string, sep: char): (parts: seq<string>)
    ensures |parts| >= 1
  {
    if s == [] then [[]]
    else
      var rest := Split(s[1..], sep);
      if s[0] == sep then [[]] + rest else [[s[0]] + rest[0]] + rest[1..]
  }

  /** sep.join(parts) for a non-empty list of parts. */
  function Join(parts: seq<string>, sep: char): string
    requires |parts| >= 1
  {
    if |parts| == 1 then parts[0] else parts[0] + [sep] + Join(parts[1..], sep)
  }

  /** A piece without the separator is glued to the first piece of what follows. */
  lemma {:induction false} SplitPrefix(x: string, y: string, sep: char)
    requires sep !in x
    ensures Split(x + y, sep) == [x + Split(y, sep)[0]] + Split(y, sep)[1..]
  {
    if x != [] {
      assert (x + y)[1..] == x[1..] + y;
      SplitPrefix(x[1..], y, sep);
      assert [x[0]] + (x[1..] + Split(y, sep)[0]) == x + Split(y, sep)[0];
    } else {
      var p := Split(y, sep);
      assert x + y == y;
      assert x + p[0] == p[0];
      assert [p[0]] + p[1..] == p;
    }
  }

  lemma SplitAt(x: string, y: string, sep: char)
    requires sep !in x
    ensures Split(x + [sep] + y, sep) == [x] + Split(y, sep)
  {
    SplitPrefix(x, [sep] + y, sep);
    assert x + [sep] + y == x + ([sep] + y);
    assert ([sep] + y)[1..] == y;
    assert Split([sep] + y, sep) == [[]] + Split(y, sep);
    assert x + [] == x;
  }

  lemma SplitWhole(x: string, sep: char)
    requires sep !in x
    ensures Split(x, sep) == [x]
  {
    SplitPrefix(x, [], sep);
    assert x + [] == x;
  }

  /** Splitting what was joined gives the parts back, when none holds the separator. */
  lemma {:induction false} SplitJoin(parts: seq<string>, sep: char)
    requires |parts| >= 1
    requires forall i :: 0 <= i < |parts| ==> sep !in parts[i]
    ensures Split(Join(parts, sep), sep) == parts
  {
    if |parts| == 1 {
      SplitWhole(parts[0], sep);
    } else {
      SplitJoin(parts[1..], sep);
      SplitAt(parts[0], Join(parts[1..], sep), sep);
      assert [parts[0]] + parts[1..] == parts;
    }
  }

  /** Joining the pieces of a split with the same separator gives the text back. */
  lemma {:induction false} JoinSplit(s: string, sep: char)
    ensures Join(Split(s, sep), sep) == s
  {
    if s != [] {
      var rest := Split(s[1..], sep);
      JoinSplit(s[1..], sep);
      if s[0] == sep {
        assert ([[]] + rest)[1..] == rest;
        assert [sep] + s[1..] == s;
      } else if |rest| == 1 {
        assert [s[0]] + s[1..] == s;
      } else {
        var parts := [[s[0]] + rest[0]] + rest[1..];
        assert parts[1..] == rest[1..];
        assert [s[0]] + s[1..] == s;
      }
    }
  }

  lemma SplitTwo(x: string, y: string, sep: char)
    requires sep !in x && sep !in y
    ensures Split(x + [sep] + y, sep) == [x, y]
  {
    SplitAt(x, y, sep);
    SplitWhole(y, sep);
  }

  /** A string with at least two separators splits into more than two parts. */
  lemma {:induction false} SplitCountsSeparators(s: string, sep: char, i: nat, j: nat)
    requires i < j < |s| && s[i] == sep && s[j] == sep
    ensures |Split(s, sep)| >= 3
  {
    SplitHasSeparator(s[1..], sep, j - 1);
    if i > 0 {
      SplitCountsSeparators(s[1..], sep, i - 1, j - 1);
    } else {
      SplitHasSeparator(s[1..], sep, j - 1);
    }
  }

  lemma {:induction false} SplitHasSeparator(s: string, sep: char, j: nat)
    requires j < |s| && s[j] == sep
    ensures |Split(s, sep)| >= 2
  {
    if j > 0 {
      SplitHasSeparator(s[1..], sep, j - 1);
    }
  }

  function BitChar(b: bool): char
  {
    if b then '1' else '0'
  }

  predicate IsBitChar(c: char)
  {
    c == '0' || c == '1'
  }

  /** The w low binary digits of n, most significant first. */
  function BinaryDigits(n: nat, w: nat): (s: string)
    ensures |s| == w
    ensures forall i :: 0 <= i < |s| ==> IsBitChar(s[i])
  {
    if w == 0 then [] else BinaryDigits(n / 2, w - 1) + [BitChar(n % 2 == 1)]
  }

  /** f"{n:08b}": the binary digits of n, zero-padded to at least eight. */
  function Format08b(n: nat): string
  {
    BinaryDigits(n, if BitLength(n) > 8 then BitLength(n) else 8)
  }

  /** The value of a string of binary digits, most significant first. */
  function BinaryValue(s: string): nat
  {
    if s == [] then 0 else 2 * BinaryValue(s[..|s| - 1]) + (if s[|s| - 1] == '1' then 1 else 0)
  }

  lemma {:induction false} BinaryDigitsValue(n: nat, w: nat)
    requires n < Pow2(w)
    ensures BinaryValue(BinaryDigits(n, w)) == n
  {
    if w > 0 {
      BinaryDigitsValue(n / 2, w - 1);
      var s := BinaryDigits(n, w);
      assert s[..|s| - 1] == BinaryDigits(n / 2, w - 1);
    }
  }

  /** An octet is formatted with exactly eight binary digits. */
  lemma Format08bOctet(n: nat)
    requires n < 256
    ensures Format08b(n) == BinaryDigits(n, 8)
  {
    assert Pow2(8) == 256;
    BitLengthFits(n, 8);
  }

  /** k binary digits have a value below 2^k. */
  lemma {:induction false} BinaryValueBound(s: string)
    ensures BinaryValue(s) < Pow2(|s|)
  {
    if s != [] {
      BinaryValueBound(s[..|s| - 1]);
    }
  }
}
