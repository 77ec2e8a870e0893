/**
 The few operations of Go's `strings` and `strconv` packages that the bs code
 relies on, over `string` = `seq<char>`.
 */
module Strings {

  /** `strings.HasPrefix(s, p)` */
  predicate HasPrefix(s: string, p: string)
  {
    |p| <= |s| && s[..|p|] == p
  }

  /** `s` has prefix `p` exactly when it is `p` followed by something. */
  lemma HasPrefixIff(s: string, p: string)
    ensures HasPrefix(s, p) <==> exists t :: s == p + t
  {
    if HasPrefix(s, p) {
      assert s == p + s[|p|..];
    }
  }

  /** Index of the first `c` in `s`, or `|s|` when there is none. */
  function Find(s: string, c: char): (i: nat)
    ensures i <= |s|
    ensures c !in s[..i]
    ensures i < |s| ==> s[i] == c
  {
    if s == [] then 0
    else if s[0] == c then 0
    else 1 + Find(s[1..], c)
  }

  /** Number of occurrences of `c` in `s`. */
  function Count(s: string, c: char): nat
  {
    if s == [] then 0
    else Count(s[..|s| - 1], c) + (if s[|s| - 1] == c then 1 else 0)
  }

  /** `strings.TrimRight(s, [c])`: drops every trailing `c`. */
  function TrimRight(s: string, c: char): (r: string)
    ensures |r| <= |s| && r == s[..|r|]
    ensures r == [] || r[|r| - 1] != c
    ensures forall i :: |r| <= i < |s| ==> s[i] == c
  {
    if |s| > 0 && s[|s| - 1] == c then TrimRight(s[..|s| - 1], c) else s
  }

  /** Concatenation of `parts` with `sep` between consecutive parts. */
  function Join(parts: seq<string>, sep: char): string
  {
    if |parts| == 0 then ""
    else if |parts| == 1 then parts[0]
    else parts[0] + [sep] + Join(parts[1..], sep)
  }

  /** `strings.SplitN(s, [sep], n)` for `n > 0`: split at the first `n - 1`
      separators, the last part keeps the rest unsplit. Only the last part
      may hold a separator, and only when the split used up all `n` parts;
      `SplitNJoin` shows that joining the parts gives `s` back. */
  function SplitN(s: string, sep: char, n: nat): (parts: seq<string>)
    requires n > 0
    ensures 1 <= |parts| <= n
    ensures forall i :: 0 <= i < |parts| - 1 ==> sep !in parts[i]
    ensures |parts| < n ==> sep !in parts[|parts| - 1]
    decreases n
  {
    var i := Find(s, sep);
    if n == 1 || i == |s| then [s]
    else [s[..i]] + SplitN(s[i + 1..], sep, n - 1)
  }

  /** Joining the parts of a split with the separator gives back the string. */
  lemma {:induction false} SplitNJoin(s: string, sep: char, n: nat)
    requires n > 0
    ensures Join(SplitN(s, sep, n), sep) == s
    decreases n
  {
    var i := Find(s, sep);
    if n > 1 && i < |s| {
      var rest := SplitN(s[i + 1..], sep, n - 1);
      SplitNJoin(s[i + 1..], sep, n - 1);
      JoinCons(s[..i], rest, sep);
      Rejoin(s, i, sep);
    } else {
      assert SplitN(s, sep, n) == [s];
    }
  }

  lemma JoinCons(first: string, rest: seq<string>, sep: char)
    requires |rest| >= 1
    ensures Join([first] + rest, sep) == first + [sep] + Join(rest, sep)
  {
    assert ([first] + rest)[1..] == rest;
  }

  lemma Rejoin(s: string, i: nat, c: char)
    requires i < |s| && s[i] == c
    ensures s[..i] + [c] + s[i + 1..] == s
  {
  }

  function DigitChar(d: nat): char
    requires d < 10
  {
    "0123456789"[d]
  }

  /** Value of a digit character, the inverse of `DigitChar`. */
  function DigitValue(c: char): nat
  {
    if '0' <= c <= '9' then (c as int - '0' as int) as nat else 0
  }

  /** Decimal rendering of a natural number, most significant digit first. */
  function NatToString(n: nat): (s: string)
    ensures |s| > 0
    ensures forall i :: 0 <= i < |s| ==> '0' <= s[i] <= '9'
  {
    if n < 10 then [DigitChar(n)] else NatToString(n / 10) + [DigitChar(n % 10)]
  }

  /** `strconv.Itoa(i)`: a negative number is rendered with a leading '-',
      and its digits read back as its magnitude. */
  function IntToString(i: int): (s: string)
    ensures |s| > 0 && (s[0] == '-' <==> i < 0)
    ensures i < 0 ==> ParseDigits(s[1..]) == -i
    ensures i >= 0 ==> ParseDigits(s) == i
  {
    SignedDigits(i);
    if i < 0 then "-" + NatToString(-i) else NatToString(i)
  }

  /** The rendering of a signed number: a '-' exactly for a negative one,
      then digits that read back as its magnitude. */
  lemma SignedDigits(i: int)
    ensures var s := if i < 0 then "-" + NatToString(-i) else NatToString(i);
            |s| > 0 && (s[0] == '-' <==> i < 0) &&
            (i < 0 ==> ParseDigits(s[1..]) == -i) && (i >= 0 ==> ParseDigits(s) == i)
  {
    var n: nat := if i < 0 then -i else i;
    NatToStringRoundTrip(n);
    var digits := NatToString(n);
    assert '0' <= digits[0] <= '9';
    if i < 0 {
      assert ("-" + digits)[1..] == digits;
    }
  }

  /** Value of a string of decimal digits. */
  function ParseDigits(s: string): nat
  {
    if s == [] then 0 else 10 * ParseDigits(s[..|s| - 1]) + DigitValue(s[|s| - 1])
  }

  /** Reading back a rendered number gives the number. */
  lemma {:induction false} NatToStringRoundTrip(n: nat)
    ensures ParseDigits(NatToString(n)) == n
  {
    if n >= 10 {
      NatToStringRoundTrip(n / 10);
      var s := NatToString(n);
      assert s[..|s| - 1] == NatToString(n / 10);
    }
  }
}
