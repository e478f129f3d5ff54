/**
  The Kotlin string operations the BlueNix protocol code relies on, stated over
  Dafny strings (sequences of Unicode scalar values): prefix tests, `indexOf`,
  `contains`, `split(delimiter, limit)`, decimal formatting of integers,
  `toIntOrNull` / `toLongOrNull`, `uppercase`, `isBlank`, `takeLast` and the
  UTF-16 `length` that `StringBuilder` reports.
*/
module Text {

  datatype Option<+T> = None | Some(value: T)

  const INT_MIN: int := -0x8000_0000
  const INT_MAX: int := 0x7FFF_FFFF
  const LONG_MIN: int := -0x8000_0000_0000_0000
  const LONG_MAX: int := 0x7FFF_FFFF_FFFF_FFFF

  predicate StartsWith(s: string, p: string) {
    |p| <= |s| && s[..|p|] == p
  }

  /** `d` occurs in `s` starting at index `i`. */
  predicate OccursAt(s: string, d: string, i: nat) {
    i + |d| <= |s| && s[i..i + |d|] == d
  }

  /** `s.indexOf(d, from)`: the first occurrence of `d` at or after `from`, or -1. */
  function FindFrom(s: string, d: string, from: nat): (r: int)
    requires from <= |s|
    decreases |s| - from
    ensures r == -1 || (from <= r && OccursAt(s, d, r))
    ensures r == -1 ==> forall j: nat :: from <= j ==> !OccursAt(s, d, j)
    ensures r >= 0 ==> forall j: nat :: from <= j < r ==> !OccursAt(s, d, j)
  {
    if OccursAt(s, d, from) then from
    else if from == |s| then -1
    else FindFrom(s, d, from + 1)
  }

  /** `s.indexOf(d)`. */
  function IndexOf(s: string, d: string): int {
    FindFrom(s, d, 0)
  }

  /** `s.contains(d)`, which Kotlin defines as `indexOf(d) >= 0`. */
  predicate Contains(s: string, d: string) {
    IndexOf(s, d) >= 0
  }

  /** `Contains` holds exactly when `d` occurs somewhere in `s`. */
  lemma ContainsIff(s: string, d: string)
    ensures Contains(s, d) <==> exists i: nat :: OccursAt(s, d, i)
  {
    if Contains(s, d) {
      assert OccursAt(s, d, IndexOf(s, d));
    }
  }

  /** An occurrence with none before it is the one `indexOf` reports. */
  lemma IndexOfFirst(s: string, d: string, i: nat)
    requires OccursAt(s, d, i)
    requires forall j: nat :: j < i ==> !OccursAt(s, d, j)
    ensures IndexOf(s, d) == i
  {
  }

  /** A one-character delimiter occurs exactly when the character is in the string. */
  lemma ContainsChar(s: string, c: char)
    ensures Contains(s, [c]) <==> c in s
  {
    ContainsIff(s, [c]);
    if c in s {
      var i :| 0 <= i < |s| && s[i] == c;
      assert OccursAt(s, [c], i);
    }
    if Contains(s, [c]) {
      var i: nat :| OccursAt(s, [c], i);
      assert s[i] == s[i..i + 1][0];
    }
  }

  /** An occurrence inside a prefix is an occurrence in the whole string, and
      one that ends within the prefix is an occurrence in the prefix. */
  lemma OccursInPrefix(s: string, d: string, n: nat, i: nat)
    requires n <= |s|
    ensures i + |d| <= n ==> (OccursAt(s[..n], d, i) <==> OccursAt(s, d, i))
    ensures OccursAt(s[..n], d, i) ==> OccursAt(s, d, i)
  {
    if i + |d| <= n {
      assert s[..n][i..i + |d|] == s[i..i + |d|];
    }
  }

  /** Occurrences in a suffix are occurrences in the whole string, shifted. */
  lemma OccursInSuffix(s: string, d: string, k: nat, i: nat)
    requires k <= |s|
    ensures OccursAt(s[k..], d, i) <==> OccursAt(s, d, k + i)
  {
    if k + i + |d| <= |s| {
      assert s[k..][i..i + |d|] == s[k + i..k + i + |d|];
    }
  }

  /** The part of `s` before the first occurrence of `d` does not contain `d`. */
  lemma PrefixBeforeFirstHasNoDelimiter(s: string, d: string)
    requires |d| > 0 && IndexOf(s, d) >= 0
    ensures !Contains(s[..IndexOf(s, d)], d)
  {
    var i := IndexOf(s, d);
    if Contains(s[..i], d) {
      var j := IndexOf(s[..i], d);
      OccursInPrefix(s, d, i, j);
      assert false;
    }
  }

  /** The parts joined back together with the delimiter. */
  function Join(parts: seq<string>, d: string): string
    requires |parts| > 0
  {
    if |parts| == 1 then parts[0] else parts[0] + d + Join(parts[1..], d)
  }

  /**
    Kotlin's `s.split(d, limit = limit)` for a non-empty delimiter: cut at the
    leftmost occurrences of `d`, at most `limit - 1` times (`limit == 0` means
    no limit); the last part keeps the rest of the string, delimiters included.
  */
  function Split(s: string, d: string, limit: nat): (parts: seq<string>)
    requires |d| > 0
    decreases |s|
    ensures 1 <= |parts| && (limit > 0 ==> |parts| <= limit)
  {
    var i := IndexOf(s, d);
    if i < 0 || limit == 1 then [s]
    else [s[..i]] + Split(s[i + |d|..], d, if limit == 0 then 0 else limit - 1)
  }

  /** One cut of `Split`: the part before the first delimiter, then the split of the rest. */
  lemma SplitStep(s: string, d: string, limit: nat)
    requires |d| > 0 && IndexOf(s, d) >= 0 && limit != 1
    ensures IndexOf(s, d) + |d| <= |s|
    ensures Split(s, d, limit) ==
      [s[..IndexOf(s, d)]] + Split(s[IndexOf(s, d) + |d|..], d, if limit == 0 then 0 else limit - 1)
  {
  }

  /** `Join` of a part put in front of at least one more part. */
  lemma JoinCons(part: string, rest: seq<string>, d: string)
    requires |rest| > 0
    ensures Join([part] + rest, d) == part + d + Join(rest, d)
  {
    assert ([part] + rest)[1..] == rest;
  }

  /** A string is the text before an occurrence of `d`, then `d`, then the text after it. */
  lemma CutAt(s: string, d: string, i: nat)
    requires OccursAt(s, d, i)
    ensures s == s[..i] + d + s[i + |d|..]
  {
    assert s == s[..i] + s[i..i + |d|] + s[i + |d|..];
  }

  /** Joining the parts with the delimiter gives back the string. */
  lemma {:induction false} SplitJoin(s: string, d: string, limit: nat)
    requires |d| > 0
    decreases |s|
    ensures Join(Split(s, d, limit), d) == s
  {
    var i := IndexOf(s, d);
    if i >= 0 && limit != 1 {
      SplitStep(s, d, limit);
      var t := s[i + |d|..];
      var rest := Split(t, d, if limit == 0 then 0 else limit - 1);
      SplitJoin(t, d, if limit == 0 then 0 else limit - 1);
      JoinCons(s[..i], rest, d);
      CutAt(s, d, i);
    } else {
      assert Split(s, d, limit) == [s];
    }
  }

  /** A clean part put in front of parts whose inner ones are clean. */
  lemma ConsClean(part: string, rest: seq<string>, d: string)
    requires !Contains(part, d) && |rest| > 0
    requires forall k :: 0 <= k < |rest| - 1 ==> !Contains(rest[k], d)
    ensures forall k :: 0 <= k < |rest| ==> !Contains(([part] + rest)[k], d)
  {
    forall k | 0 <= k < |rest| ensures !Contains(([part] + rest)[k], d) {
      if k > 0 {
        assert ([part] + rest)[k] == rest[k - 1];
      }
    }
  }

  /** No part but the last holds the delimiter. */
  lemma {:induction false} SplitInnerPartsClean(s: string, d: string, limit: nat)
    requires |d| > 0
    decreases |s|
    ensures forall k :: 0 <= k < |Split(s, d, limit)| - 1 ==> !Contains(Split(s, d, limit)[k], d)
  {
    var i := IndexOf(s, d);
    if i >= 0 && limit != 1 {
      SplitStep(s, d, limit);
      PrefixBeforeFirstHasNoDelimiter(s, d);
      var t := s[i + |d|..];
      SplitInnerPartsClean(t, d, if limit == 0 then 0 else limit - 1);
      ConsClean(s[..i], Split(t, d, if limit == 0 then 0 else limit - 1), d);
    } else {
      assert |Split(s, d, limit)| == 1;
    }
  }

  /** `limit` cuts the split short, or the split's last part holds no delimiter. */
  predicate LastPartClean(s: string, d: string, limit: nat)
    requires |d| > 0
  {
    var parts := Split(s, d, limit);
    (limit == 0 || |parts| < limit) ==> !Contains(parts[|parts| - 1], d)
  }

  /** A cut passes `LastPartClean` from the rest of the string to the whole of it. */
  lemma LastPartCleanStep(s: string, d: string, limit: nat)
    requires |d| > 0 && IndexOf(s, d) >= 0 && limit != 1
    requires IndexOf(s, d) + |d| <= |s|
    requires LastPartClean(s[IndexOf(s, d) + |d|..], d, if limit == 0 then 0 else limit - 1)
    ensures LastPartClean(s, d, limit)
  {
    SplitStep(s, d, limit);
    var i := IndexOf(s, d);
    var rest := Split(s[i + |d|..], d, if limit == 0 then 0 else limit - 1);
    assert ([s[..i]] + rest)[|rest|] == rest[|rest| - 1];
  }

  /** The last part holds no delimiter either, unless the limit cut the split short. */
  lemma {:induction false} SplitLastPartClean(s: string, d: string, limit: nat)
    requires |d| > 0
    decreases |s|
    ensures LastPartClean(s, d, limit)
  {
    var i := IndexOf(s, d);
    if i < 0 || limit == 1 {
      assert Split(s, d, limit) == [s];
    } else {
      assert i + |d| <= |s|;
      SplitLastPartClean(s[i + |d|..], d, if limit == 0 then 0 else limit - 1);
      LastPartCleanStep(s, d, limit);
    }
  }

  /** With limit 2 the split is at the first delimiter, if there is one. */
  lemma SplitTwo(s: string, d: string)
    requires |d| > 0
    ensures IndexOf(s, d) < 0 ==> Split(s, d, 2) == [s]
    ensures IndexOf(s, d) >= 0 ==>
      Split(s, d, 2) == [s[..IndexOf(s, d)], s[IndexOf(s, d) + |d|..]]
  {
  }

  // ---------------------------------------------------------------------
  // Decimal integers
  // ---------------------------------------------------------------------

  predicate IsDigit(c: char) {
    '0' <= c <= '9'
  }

  predicate AllDigits(s: string) {
    forall i :: 0 <= i < |s| ==> IsDigit(s[i])
  }

  function DigitChar(n: nat): (c: char)
    requires n < 10
    ensures IsDigit(c) && c as int - '0' as int == n
  {
    ('0' as int + n) as char
  }

  /** The value of a string of ASCII digits, read most significant first. */
  function DigitsValue(s: string): nat
    requires AllDigits(s)
  {
    if |s| == 0 then 0
    else DigitsValue(s[..|s| - 1]) * 10 + (s[|s| - 1] as int - '0' as int)
  }

  /** The decimal digits of `n` with no leading zero (Kotlin's `n.toString()` for n >= 0). */
  function NatToDecimal(n: nat): (s: string)
    decreases n
    ensures |s| > 0 && AllDigits(s)
  {
    if n < 10 then [DigitChar(n)] else NatToDecimal(n / 10) + [DigitChar(n % 10)]
  }

  /** Kotlin's `Int.toString()` / `Long.toString()`. */
  function IntToDecimal(n: int): string {
    if n < 0 then "-" + NatToDecimal(-n) else NatToDecimal(n)
  }

  lemma {:induction false} NatToDecimalValue(n: nat)
    decreases n
    ensures DigitsValue(NatToDecimal(n)) == n
  {
    if n >= 10 {
      NatToDecimalValue(n / 10);
      var s := NatToDecimal(n);
      assert s[..|s| - 1] == NatToDecimal(n / 10);
    }
  }

  /**
    Kotlin's `toIntOrNull()` (with `lo, hi` = the `Int` range) and
    `toLongOrNull()` (the `Long` range): an optional `+` or `-` followed by at
    least one digit, whose value lies in `[lo, hi]`; anything else is null.
  */
  function ParseInteger(s: string, lo: int, hi: int): Option<int> {
    if |s| == 0 then None
    else if s[0] < '0' then
      if |s| == 1 || (s[0] != '-' && s[0] != '+') || !AllDigits(s[1..]) then None
      else
        var v: int := if s[0] == '-' then -(DigitsValue(s[1..]) as int) else DigitsValue(s[1..]);
        if lo <= v <= hi then Some(v) else None
    else if AllDigits(s) && DigitsValue(s) <= hi then Some(DigitsValue(s))
    else None
  }

  function ParseInt(s: string): Option<int> {
    ParseInteger(s, INT_MIN, INT_MAX)
  }

  function ParseLong(s: string): Option<int> {
    ParseInteger(s, LONG_MIN, LONG_MAX)
  }

  /** Parsing what `toString` printed gives back the number, inside the range. */
  lemma ParseDecimal(n: int, lo: int, hi: int)
    requires lo <= 0 <= hi && lo <= n <= hi
    ensures ParseInteger(IntToDecimal(n), lo, hi) == Some(n)
  {
    var m := if n < 0 then -n else n;
    NatToDecimalValue(m);
    var digits := NatToDecimal(m);
    if n < 0 {
      assert IntToDecimal(n)[1..] == digits;
    }
  }

  /** A parsed value is always inside the requested range. */
  lemma ParseInRange(s: string, lo: int, hi: int)
    requires lo <= 0
    ensures ParseInteger(s, lo, hi).Some? ==> lo <= ParseInteger(s, lo, hi).value <= hi
  {
  }

  // ---------------------------------------------------------------------
  // Case, blanks, lengths
  // ---------------------------------------------------------------------

  function UpperChar(c: char): char {
    if 'a' <= c <= 'z' then (c as int - 32) as char else c
  }

  /** `s.uppercase()`, for the ASCII letters. */
  function Upper(s: string): (u: string)
    ensures |u| == |s|
    ensures forall i :: 0 <= i < |s| ==> u[i] == UpperChar(s[i])
  {
    seq(|s|, i requires 0 <= i < |s| => UpperChar(s[i]))
  }

  /** Upper-casing is idempotent: a canonical address stays canonical. */
  lemma UpperIdempotent(s: string)
    ensures Upper(Upper(s)) == Upper(s)
  {
  }

  /** `s.contains(d, ignoreCase = true)`, comparing ASCII letters without case. */
  predicate ContainsIgnoreCase(s: string, d: string) {
    Contains(Upper(s), Upper(d))
  }

  /** Kotlin's `Char.isWhitespace()`: Java whitespace plus the space separators. */
  predicate IsWhitespace(c: char) {
    ('\t' <= c <= '\r') || ('\U{1C}' <= c <= ' ') || c == '\U{A0}' || c == '\U{1680}'
    || ('\U{2000}' <= c <= '\U{200A}') || c == '\U{2028}' || c == '\U{2029}'
    || c == '\U{202F}' || c == '\U{205F}' || c == '\U{3000}'
  }

  /** `s.isBlank()`: empty or only whitespace. */
  predicate IsBlank(s: string) {
    forall i :: 0 <= i < |s| ==> IsWhitespace(s[i])
  }

  /** The number of UTF-16 code units of `s`: Kotlin's `length`. */
  function Utf16Length(s: string): (n: nat)
    ensures |s| <= n <= 2 * |s|
  {
    if |s| == 0 then 0
    else Utf16Length(s[..|s| - 1]) + (if s[|s| - 1] as int >= 0x10000 then 2 else 1)
  }

  lemma {:induction false} Utf16LengthAppend(a: string, b: string)
    decreases |b|
    ensures Utf16Length(a + b) == Utf16Length(a) + Utf16Length(b)
  {
    if |b| > 0 {
      Utf16LengthAppend(a, b[..|b| - 1]);
      assert (a + b)[..|a + b| - 1] == a + b[..|b| - 1];
    } else {
      assert a + b == a;
    }
  }

  /** `s.takeLast(n)`. */
  function TakeLast(s: string, n: nat): (t: string)
    ensures |t| == if n < |s| then n else |s|
    ensures t == s[|s| - |t|..]
  {
    if n < |s| then s[|s| - n..] else s
  }
}
