/**
 String operations of the .NET base library that the tag helpers rely on:
 `char.IsWhiteSpace`, `string.Trim`, `string.Split` on one separator,
 `string.Join`, ordinal case folding, `int.ToString()` and `string.Replace`.
 */
module Strings {
  import opened Wrappers

  /** `char.IsWhiteSpace`: U+0009..U+000D, U+0085 and the Unicode space,
      line and paragraph separators. */
  predicate IsWhiteSpace(c: char) {
    var n := c as int;
    || (9 <= n <= 13)
    || n == 0x20 || n == 0x85 || n == 0xA0 || n == 0x1680
    || (0x2000 <= n <= 0x200A)
    || n == 0x2028 || n == 0x2029 || n == 0x202F || n == 0x205F || n == 0x3000
  }

  /** `IHtmlContent.IsEmptyOrWhiteSpace` / `string.IsNullOrWhiteSpace` on a non-null string. */
  predicate IsEmptyOrWhiteSpace(s: string) {
    forall i | 0 <= i < |s| :: IsWhiteSpace(s[i])
  }

  /** Neither end of `s` is white space. */
  predicate IsTrimmed(s: string) {
    s == [] || (!IsWhiteSpace(s[0]) && !IsWhiteSpace(s[|s| - 1]))
  }

  /** `string.TrimStart()`: drops leading white space. */
  function TrimStart(s: string): (r: string)
    ensures |r| <= |s| && r == s[|s| - |r|..]
    ensures forall i | 0 <= i < |s| - |r| :: IsWhiteSpace(s[i])
    ensures r == [] || !IsWhiteSpace(r[0])
  {
    if |s| > 0 && IsWhiteSpace(s[0]) then TrimStart(s[1..]) else s
  }

  /** `string.TrimEnd()`: drops trailing white space. */
  function TrimEnd(s: string): (r: string)
    ensures |r| <= |s| && r == s[..|r|]
    ensures forall i | |r| <= i < |s| :: IsWhiteSpace(s[i])
    ensures r == [] || !IsWhiteSpace(r[|r| - 1])
  {
    if |s| > 0 && IsWhiteSpace(s[|s| - 1]) then TrimEnd(s[..|s| - 1]) else s
  }

  /** `r` sits in `s` at offset `i` with only white space around it. */
  predicate SliceWithBlankMargins(s: string, r: string, i: int) {
    && 0 <= i <= |s| - |r|
    && r == s[i..i + |r|]
    && (forall k | 0 <= k < i :: IsWhiteSpace(s[k]))
    && (forall k | i + |r| <= k < |s| :: IsWhiteSpace(s[k]))
  }

  /** `string.Trim()`: drops white space at both ends. */
  function Trim(s: string): (r: string)
    ensures IsTrimmed(r)
    ensures r == [] <==> IsEmptyOrWhiteSpace(s)
  {
    TrimEnd(TrimStart(s))
  }

  /** What `Trim` keeps is one slice of its input, and only white space is
      cut off around it. */
  lemma TrimIsSlice(s: string)
    ensures exists i :: SliceWithBlankMargins(s, Trim(s), i)
  {
    TrimMargins(s);
  }

  /** `Trim(s)` starts where `TrimStart` stopped cutting. */
  lemma TrimMargins(s: string)
    ensures SliceWithBlankMargins(s, Trim(s), |s| - |TrimStart(s)|)
  {
    var t := TrimStart(s);
    var r := TrimEnd(t);
    assert Trim(s) == r;
    PrefixOfSuffix(s, t, r);
  }

  /** A prefix `r` of a suffix `t` of `s`, with only white space cut off
      on either side, sits in `s` with blank margins. */
  lemma PrefixOfSuffix(s: string, t: string, r: string)
    requires |t| <= |s| && t == s[|s| - |t|..] && (forall k | 0 <= k < |s| - |t| :: IsWhiteSpace(s[k]))
    requires |r| <= |t| && r == t[..|r|] && (forall k | |r| <= k < |t| :: IsWhiteSpace(t[k]))
    ensures SliceWithBlankMargins(s, r, |s| - |t|)
  {
    var i := |s| - |t|;
    forall k | 0 <= k < |r| ensures r[k] == s[i..i + |r|][k] {
      assert r[k] == t[k] == s[i + k];
    }
    forall k | i + |r| <= k < |s| ensures IsWhiteSpace(s[k]) {
      assert s[k] == t[k - i];
    }
  }

  lemma TrimPreservesTrimmed(s: string)
    requires IsTrimmed(s)
    ensures Trim(s) == s
  {
  }

  /** Every character of `Trim(s)` occurs in `s`. */
  lemma TrimKeepsChars(s: string)
    ensures forall c | c in Trim(s) :: c in s
  {
    TrimIsSlice(s);
    var r := Trim(s);
    var i :| SliceWithBlankMargins(s, r, i);
    forall c | c in r ensures c in s {
      var k :| 0 <= k < |r| && r[k] == c;
      assert s[i + k] == c;
    }
  }

  /** `string.Split(sep)`: the pieces between occurrences of `sep`, empty
      pieces included, so there is always at least one. */
  function Split(s: string, sep: char): (r: seq<string>)
    ensures |r| >= 1
    ensures forall i | 0 <= i < |r| :: sep !in r[i]
  {
    if |s| == 0 then [""]
    else if s[0] == sep then [""] + Split(s[1..], sep)
    else
      var rest := Split(s[1..], sep);
      [[s[0]] + rest[0]] + rest[1..]
  }

  /** `string.Join(sep, xs)`. */
  function Join(xs: seq<string>, sep: char): string {
    if |xs| == 0 then ""
    else if |xs| == 1 then xs[0]
    else xs[0] + [sep] + Join(xs[1..], sep)
  }

  /** Joining a list with one more piece in front puts that piece and a
      separator before the join of the rest. */
  lemma JoinCons(x: string, xs: seq<string>, sep: char)
    requires |xs| >= 1
    ensures Join([x] + xs, sep) == x + [sep] + Join(xs, sep)
  {
    assert ([x] + xs)[1..] == xs;
  }

  /** Prefixing a character to the first piece prefixes it to the join. */
  lemma JoinPrepend(c: char, xs: seq<string>, sep: char)
    requires |xs| >= 1
    ensures Join([[c] + xs[0]] + xs[1..], sep) == [c] + Join(xs, sep)
  {
    var r := [[c] + xs[0]] + xs[1..];
    if |xs| > 1 {
      assert r[1..] == xs[1..];
      assert Join(r, sep) == ([c] + xs[0]) + [sep] + Join(xs[1..], sep);
    }
  }

  /** Joining the pieces of a split gives back the original string. */
  lemma {:induction false} JoinSplit(s: string, sep: char)
    ensures Join(Split(s, sep), sep) == s
  {
    if |s| > 0 {
      JoinSplit(s[1..], sep);
      var rest := Split(s[1..], sep);
      if s[0] == sep {
        JoinCons("", rest, sep);
      } else {
        JoinPrepend(s[0], rest, sep);
      }
      assert [s[0]] + s[1..] == s;
    }
  }

  lemma {:induction false} SplitWithoutSeparator(x: string, sep: char)
    requires sep !in x
    ensures Split(x, sep) == [x]
  {
    if |x| > 0 {
      SplitWithoutSeparator(x[1..], sep);
      assert [x[0]] + x[1..] == x;
    }
  }

  lemma {:induction false} SplitAfterSeparator(x: string, y: string, sep: char)
    requires sep !in x
    ensures Split(x + [sep] + y, sep) == [x] + Split(y, sep)
  {
    var s := x + [sep] + y;
    if |x| == 0 {
      assert s[0] == sep && s[1..] == y;
    } else {
      assert s[0] == x[0] && s[1..] == x[1..] + [sep] + y;
      SplitAfterSeparator(x[1..], y, sep);
      assert [x[0]] + x[1..] == x;
    }
  }

  /** Splitting a join gives back the pieces, provided there is at least
      one and none contains the separator. */
  lemma {:induction false} SplitJoin(xs: seq<string>, sep: char)
    requires |xs| >= 1
    requires forall i | 0 <= i < |xs| :: sep !in xs[i]
    ensures Split(Join(xs, sep), sep) == xs
  {
    if |xs| == 1 {
      SplitWithoutSeparator(xs[0], sep);
    } else {
      SplitJoin(xs[1..], sep);
      SplitAfterSeparator(xs[0], Join(xs[1..], sep), sep);
      assert [xs[0]] + xs[1..] == xs;
    }
  }

  /** Ordinal (ASCII) lower-casing of one character. */
  function LowerChar(c: char): char {
    if 'A' <= c <= 'Z' then (c as int + 32) as char else c
  }

  /** Ordinal lower-casing, used as the folding behind case-insensitive
      names and `string.ToLower()`. */
  function Lower(s: string): string {
    seq(|s|, i requires 0 <= i < |s| => LowerChar(s[i]))
  }

  lemma LowerIdempotent(s: string)
    ensures Lower(Lower(s)) == Lower(s)
  {
  }

  /** `string.Replace(from, to)` for one-character strings. */
  function ReplaceChar(s: string, from: char, to: char): (r: string)
    ensures |r| == |s|
    ensures from != to ==> from !in r
    ensures forall i | 0 <= i < |s| && s[i] == from :: r[i] == to
    ensures forall i | 0 <= i < |s| && s[i] != from :: r[i] == s[i]
  {
    seq(|s|, i requires 0 <= i < |s| => if s[i] == from then to else s[i])
  }

  /** Replacing back undoes a replacement whose target character did not
      occur in the string beforehand. */
  lemma ReplaceCharBack(s: string, from: char, to: char)
    requires to !in s
    ensures ReplaceChar(ReplaceChar(s, from, to), to, from) == s
  {
    var r := ReplaceChar(s, from, to);
    var b := ReplaceChar(r, to, from);
    forall i | 0 <= i < |s| ensures b[i] == s[i] {
      if s[i] == from {
        assert r[i] == to;
      } else {
        assert s[i] != to && r[i] == s[i];
      }
    }
  }

  /** The text between `prefix` and `suffix`, when `line` starts with the
      one and ends with the other. */
  function Between(line: string, prefix: string, suffix: string): Option<string> {
    if |line| >= |prefix| + |suffix| && line[..|prefix|] == prefix && line[|line| - |suffix|..] == suffix
    then Some(line[|prefix|..|line| - |suffix|])
    else None
  }

  /** What is put between a prefix and a suffix reads back from between them. */
  lemma BetweenReadsBack(prefix: string, mid: string, suffix: string)
    ensures Between(prefix + mid + suffix, prefix, suffix) == Some(mid)
  {
    var l := prefix + mid + suffix;
    assert l[..|prefix|] == prefix;
    assert l[|l| - |suffix|..] == suffix;
    assert l[|prefix|..|l| - |suffix|] == mid;
  }

  predicate IsDigit(c: char) {
    '0' <= c <= '9'
  }

  predicate AllDigits(s: string) {
    forall i | 0 <= i < |s| :: IsDigit(s[i])
  }

  function DigitChar(d: nat): (c: char)
    requires d < 10
    ensures IsDigit(c) && c as int - '0' as int == d
  {
    (d + '0' as int) as char
  }

  /** The decimal digits of `n`, without leading zeros. */
  function NatToDecimal(n: nat): (r: string)
    ensures |r| >= 1 && AllDigits(r)
    decreases n
  {
    if n < 10 then [DigitChar(n)] else NatToDecimal(n / 10) + [DigitChar(n % 10)]
  }

  /** `int.ToString()` with the invariant culture's '-' sign. */
  function IntToDecimal(n: int): (r: string)
    ensures |r| >= 1
  {
    if n < 0 then "-" + NatToDecimal(-n) else NatToDecimal(n)
  }

  /** The value of a string of decimal digits. */
  function DecimalToNat(s: string): nat
    requires AllDigits(s)
  {
    if |s| == 0 then 0
    else DecimalToNat(s[..|s| - 1]) * 10 + (s[|s| - 1] as int - '0' as int)
  }

  /** `int.Parse` on an optionally signed digit string. */
  function ParseInt(s: string): Option<int> {
    if |s| > 1 && s[0] == '-' && AllDigits(s[1..]) then
      var v: int := 0 - DecimalToNat(s[1..]) as int;
      Some(v)
    else if |s| > 0 && AllDigits(s) then Some(DecimalToNat(s))
    else None
  }

  lemma {:induction false} NatDecimalRoundTrip(n: nat)
    ensures DecimalToNat(NatToDecimal(n)) == n
    decreases n
  {
    if n >= 10 {
      NatDecimalRoundTrip(n / 10);
      var s := NatToDecimal(n);
      assert s[..|s| - 1] == NatToDecimal(n / 10);
    }
  }

  /** Printing an integer and parsing it back yields the same integer. */
  lemma IntDecimalRoundTrip(n: int)
    ensures ParseInt(IntToDecimal(n)) == Some(n)
  {
    if n < 0 {
      NatDecimalRoundTrip(-n);
      assert IntToDecimal(n)[1..] == NatToDecimal(-n);
    } else {
      NatDecimalRoundTrip(n);
    }
  }
}
