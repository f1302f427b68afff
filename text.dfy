/**
 * The pieces of Java's string handling the score card relies on: decimal rendering of an
 * integer, Integer.parseInt / Long.parseLong, String.split on a one-character separator
 * (trailing empty pieces dropped), joining with a separator, and String.trim's notion of blank.
 */
module Text {
  import opened Common

  const IntMin := -0x8000_0000
  const IntMax := 0x7fff_ffff
  const LongMin := -0x8000_0000_0000_0000
  const LongMax := 0x7fff_ffff_ffff_ffff

  predicate IsDigit(c: char)
  {
    '0' <= c <= '9'
  }

  predicate AllDigits(s: string)
  {
    forall i :: 0 <= i < |s| ==> IsDigit(s[i])
  }

  function DigitChar(d: int): (c: char)
    requires 0 <= d < 10
    ensures IsDigit(c)
  {
    (48 + d) as char
  }

  /** The decimal digits of n, most significant first, with no leading zero. */
  function NatToString(n: nat): (s: string)
    ensures |s| >= 1 && AllDigits(s)
    decreases n
  {
    if n < 10 then [DigitChar(n)] else NatToString(n / 10) + [DigitChar(n % 10)]
  }

  /** Java's decimal rendering of an int or long: a '-' for negatives, then the digits. */
  function IntToString(n: int): string
  {
    if n < 0 then "-" + NatToString(-n) else NatToString(n)
  }

  /** The value of a run of decimal digits. */
  function DigitsValue(s: string): nat
    requires AllDigits(s)
  {
    if |s| == 0 then 0 else DigitsValue(s[..|s| - 1]) * 10 + (s[|s| - 1] as int - 48)
  }

  /**
   * Integer.parseInt (bounds IntMin..IntMax) or Long.parseLong (LongMin..LongMax) in radix 10:
   * an optional sign, one or more digits, a value within the bounds; None where Java throws.
   */
  function ParseInt(s: string, lo: int, hi: int): (r: Option<int>)
    ensures r.Some? ==> lo <= r.value <= hi
  {
    if |s| == 0 then None
    else
      var digits := if s[0] == '-' || s[0] == '+' then s[1..] else s;
      if |digits| == 0 || !AllDigits(digits) then None
      else
        var v: int := if s[0] == '-' then 0 - (DigitsValue(digits) as int) else DigitsValue(digits);
        if lo <= v <= hi then Some(v) else None
  }

  lemma {:induction false} DigitsValueOfNat(n: nat)
    ensures DigitsValue(NatToString(n)) == n
    decreases n
  {
    if n >= 10 {
      DigitsValueOfNat(n / 10);
      var s := NatToString(n);
      assert s[..|s| - 1] == NatToString(n / 10);
    }
  }

  /** Parsing gives back every rendered value within the bounds. */
  lemma ParseRendered(n: int, lo: int, hi: int)
    requires lo <= n <= hi
    ensures ParseInt(IntToString(n), lo, hi) == Some(n)
  {
    var s := IntToString(n);
    if n < 0 {
      var d := NatToString(-n);
      DigitsValueOfNat(-n);
      assert s == "-" + d;
      assert s[0] == '-' && s[1..] == d;
      assert AllDigits(d) && |d| >= 1;
    } else {
      var d := NatToString(n);
      DigitsValueOfNat(n);
      assert s == d && IsDigit(s[0]);
      assert s[0] != '-' && s[0] != '+';
    }
  }

  /** k zero characters (none when k is not positive). */
  function Zeros(k: int): (z: string)
    ensures |z| == if k > 0 then k else 0
    ensures forall i :: 0 <= i < |z| ==> z[i] == '0'
  {
    seq(if k > 0 then k else 0, _ => '0')
  }

  /**
   * String.format("%0<width>d", n): the decimal digits of n, with zeros after the sign of a
   * negative n, up to `width` characters in all; a longer rendering is not cut.
   */
  function Pad(n: int, width: nat): (p: string)
    ensures |p| >= width
    ensures n >= 0 ==> |p| == if |NatToString(n)| < width then width else |NatToString(n)|
  {
    if n < 0 then
      var d := NatToString(-n);
      "-" + Zeros(width - 1 - |d|) + d
    else
      var d := NatToString(n);
      Zeros(width - |d|) + d
  }

  function Pow10(k: nat): nat
  {
    if k == 0 then 1 else 10 * Pow10(k - 1)
  }

  /** A value below 10^width has at most `width` digits. */
  lemma {:induction false} NatToStringLength(n: nat, width: nat)
    requires 1 <= width && n < Pow10(width)
    ensures |NatToString(n)| <= width
    decreases n
  {
    if n >= 10 {
      assert width >= 2;
      assert n / 10 < Pow10(width - 1);
      NatToStringLength(n / 10, width - 1);
    }
  }

  /** Leading zeros do not change the value of a run of digits. */
  lemma {:induction false} DigitsValueZeros(k: nat, d: string)
    requires AllDigits(d)
    ensures AllDigits(Zeros(k) + d) && DigitsValue(Zeros(k) + d) == DigitsValue(d)
    decreases |d|, k
  {
    var s := Zeros(k) + d;
    assert AllDigits(s) by {
      forall i | 0 <= i < |s|
        ensures IsDigit(s[i])
      {
        if i >= k {
          assert s[i] == d[i - k];
        }
      }
    }
    if |d| > 0 {
      assert s[..|s| - 1] == Zeros(k) + d[..|d| - 1];
      DigitsValueZeros(k, d[..|d| - 1]);
    } else if k > 0 {
      assert s[..|s| - 1] == Zeros(k - 1) + d;
      DigitsValueZeros(k - 1, d);
    }
  }

  /**
   * A value below 10^width fills exactly `width` characters when padded, and parses back.
   */
  lemma PadParses(n: int, width: nat, lo: int, hi: int)
    requires 1 <= width && 0 <= n < Pow10(width) && lo <= n <= hi
    ensures |Pad(n, width)| == width
    ensures ParseInt(Pad(n, width), lo, hi) == Some(n)
  {
    var d := NatToString(n);
    NatToStringLength(n, width);
    var k := width - |d|;
    var s := Pad(n, width);
    assert s == Zeros(k) + d;
    DigitsValueZeros(k, d);
    DigitsValueOfNat(n);
    assert IsDigit(s[0]);
  }

  /** The position of the first `sep` in s. */
  function IndexOf(s: string, sep: char): (i: nat)
    requires sep in s
    ensures i < |s| && s[i] == sep && sep !in s[..i]
  {
    if s[0] == sep then 0
    else
      var j := IndexOf(s[1..], sep);
      assert s[..j + 1] == [s[0]] + s[1..][..j];
      1 + j
  }

  /** The pieces between separators, empty ones included: one more piece than separators. */
  function Pieces(s: string, sep: char): (r: seq<string>)
    ensures |r| >= 1
    decreases |s|
  {
    if sep !in s then [s]
    else
      var i := IndexOf(s, sep);
      [s[..i]] + Pieces(s[i + 1..], sep)
  }

  function DropTrailingEmpty(ps: seq<string>): seq<string>
  {
    if |ps| > 0 && ps[|ps| - 1] == "" then DropTrailingEmpty(ps[..|ps| - 1]) else ps
  }

  /**
   * String.split on a one-character separator: a string without the separator is its own
   * only piece; otherwise the pieces, with trailing empty pieces removed.
   */
  function Split(s: string, sep: char): seq<string>
  {
    if sep !in s then [s] else DropTrailingEmpty(Pieces(s, sep))
  }

  /** The parts with `sep` between consecutive ones. */
  function Join(parts: seq<string>, sep: char): string
  {
    if |parts| == 0 then ""
    else if |parts| == 1 then parts[0]
    else parts[0] + [sep] + Join(parts[1..], sep)
  }

  /** String.trim() leaves nothing: every character is at most a space. */
  predicate IsBlank(s: string)
  {
    forall i :: 0 <= i < |s| ==> s[i] <= ' '
  }

  predicate FreeOf(parts: seq<string>, sep: char)
  {
    forall i :: 0 <= i < |parts| ==> sep !in parts[i]
  }

  lemma {:induction false} JoinSnoc(parts: seq<string>, p: string, sep: char)
    requires |parts| >= 1
    ensures Join(parts + [p], sep) == Join(parts, sep) + [sep] + p
  {
    if |parts| > 1 {
      JoinSnoc(parts[1..], p, sep);
      assert (parts + [p])[1..] == parts[1..] + [p];
    }
  }

  lemma {:induction false} IndexOfAfter(a: string, sep: char, b: string)
    requires sep !in a
    ensures sep in a + [sep] + b && IndexOf(a + [sep] + b, sep) == |a|
  {
    var s := a + [sep] + b;
    assert s[|a|] == sep;
    if |a| > 0 {
      IndexOfAfter(a[1..], sep, b);
      assert s[1..] == a[1..] + [sep] + b;
    }
  }

  lemma JoinHead(parts: seq<string>, sep: char)
    requires |parts| > 0 && |parts[0]| > 0
    ensures |Join(parts, sep)| > 0 && Join(parts, sep)[0] == parts[0][0]
  {
  }

  /** A separator-free first piece is split off whole. */
  lemma PiecesCons(a: string, sep: char, b: string)
    requires sep !in a
    ensures Pieces(a + [sep] + b, sep) == [a] + Pieces(b, sep)
  {
    var s := a + [sep] + b;
    IndexOfAfter(a, sep, b);
    assert s[..|a|] == a;
    assert s[|a| + 1..] == b;
  }

  /** Splitting a join of separator-free parts into pieces gives the parts back. */
  lemma {:induction false} PiecesJoin(parts: seq<string>, sep: char)
    requires |parts| >= 1 && FreeOf(parts, sep)
    ensures Pieces(Join(parts, sep), sep) == parts
  {
    if |parts| == 1 {
      assert Join(parts, sep) == parts[0];
    } else {
      var rest := parts[1..];
      assert Join(parts, sep) == parts[0] + [sep] + Join(rest, sep);
      assert FreeOf(rest, sep) by {
        forall i | 0 <= i < |rest|
          ensures sep !in rest[i]
        {
          assert rest[i] == parts[i + 1];
        }
      }
      assert sep !in parts[0];
      PiecesCons(parts[0], sep, Join(rest, sep));
      PiecesJoin(rest, sep);
      assert parts == [parts[0]] + rest;
    }
  }

  /**
   * String.split undoes Join for separator-free parts whose last part is not empty
   * (a trailing empty part would be dropped).
   */
  lemma SplitJoin(parts: seq<string>, sep: char)
    requires |parts| >= 1 && FreeOf(parts, sep) && parts[|parts| - 1] != ""
    ensures Split(Join(parts, sep), sep) == parts
  {
    PiecesJoin(parts, sep);
    if |parts| > 1 {
      assert Join(parts, sep)[|parts[0]|] == sep;
    }
  }
}
