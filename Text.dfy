/**
 * String helpers shared by the dashboard client and the server:
 * ASCII case folding, prefix tests, first/last index of a character,
 * Python's `split`/`join` on one separator, `strip` with Python's and
 * JavaScript's whitespace sets, and decimal rendering of integers.
 */
module Text {

  // ---------------------------------------------------------------------
  // Case folding (ASCII letters only)
  // ---------------------------------------------------------------------

  predicate IsAsciiUpper(c: char) {
    'A' <= c <= 'Z'
  }

  function LowerChar(c: char): (r: char)
    ensures !IsAsciiUpper(r)
    ensures !IsAsciiUpper(c) ==> r == c
  {
    if IsAsciiUpper(c) then (c as int + 32) as char else c
  }

  function Lower(s: string): (r: string)
    ensures |r| == |s|
    ensures forall i :: 0 <= i < |s| ==> r[i] == LowerChar(s[i])
  {
    seq(|s|, i requires 0 <= i < |s| => LowerChar(s[i]))
  }

  /** Lower-casing twice is lower-casing once. */
  lemma LowerIdempotent(s: string)
    ensures Lower(Lower(s)) == Lower(s)
  {
    var once := Lower(s);
    assert forall i :: 0 <= i < |s| ==> !IsAsciiUpper(once[i]);
  }

  /** A string with no upper-case ASCII letter is its own lower-case form. */
  lemma LowerOfLowered(s: string)
    requires forall i :: 0 <= i < |s| ==> !IsAsciiUpper(s[i])
    ensures Lower(s) == s
  {
  }

  lemma LowerAppend(a: string, b: string)
    ensures Lower(a + b) == Lower(a) + Lower(b)
  {
  }

  // ---------------------------------------------------------------------
  // Prefixes and searching
  // ---------------------------------------------------------------------

  predicate StartsWith(s: string, prefix: string) {
    |prefix| <= |s| && s[..|prefix|] == prefix
  }

  predicate EndsWith(s: string, suffix: string) {
    |suffix| <= |s| && s[|s| - |suffix|..] == suffix
  }

  /** A text whose first character is not `c` does not start with `c`. */
  lemma NotStartsWithChar(s: string, c: char)
    requires s != [] && s[0] != c
    ensures !StartsWith(s, [c])
  {
    assert s[..1][0] == s[0];
  }

  lemma EndsWithTrans(a: string, b: string, c: string)
    requires EndsWith(a, b) && EndsWith(b, c)
    ensures EndsWith(a, c)
  {
    assert a[|a| - |c|..] == b[|b| - |c|..];
  }

  lemma EndsWithAppend(a: string, b: string, t: string)
    requires EndsWith(a, b)
    ensures EndsWith(a + t, b + t)
  {
    assert (a + t)[|a| - |b|..] == a[|a| - |b|..] + t;
  }

  /** `sub` occurs somewhere in `s` (Python `sub in s`, JavaScript `s.includes(sub)`). */
  predicate HasSubstring(s: string, sub: string)
    decreases |s|
  {
    StartsWith(s, sub) || (s != [] && HasSubstring(s[1..], sub))
  }

  /** Index of the first `c` in `s`, or `|s|` when there is none. */
  function IndexOf(s: string, c: char): (i: nat)
    ensures i <= |s|
    ensures c !in s[..i]
    ensures i < |s| ==> s[i] == c
    decreases |s|
  {
    if s == [] then 0
    else if s[0] == c then 0
    else
      var j := IndexOf(s[1..], c);
      assert s[..j + 1] == [s[0]] + s[1..][..j];
      1 + j
  }

  /** Index of the last `c` in `s`, or -1 (JavaScript `lastIndexOf`). */
  function LastIndexOf(s: string, c: char): (i: int)
    ensures -1 <= i < |s|
    ensures forall k :: i < k < |s| ==> s[k] != c
    ensures i >= 0 ==> s[i] == c
    decreases |s|
  {
    if s == [] then -1
    else if s[|s| - 1] == c then |s| - 1
    else
      var t := s[..|s| - 1];
      var j := LastIndexOf(t, c);
      assert forall k :: j < k < |t| ==> s[k] == t[k];
      j
  }

  /** The text before the first `c` (JavaScript `s.split(c)[0]`). */
  function BeforeFirst(s: string, c: char): (r: string)
    ensures c !in r
    ensures StartsWith(s, r)
    ensures c in s <==> |r| < |s|
  {
    var i := IndexOf(s, c);
    if i < |s| then assert c in s; s[..i] else s[..i]
  }

  /** The text after the first `c`, or `s` when there is none. */
  function AfterFirst(s: string, c: char): (r: string)
    ensures c in s ==> s == BeforeFirst(s, c) + [c] + r
    ensures c !in s ==> r == s
  {
    var i := IndexOf(s, c);
    if i < |s| then s[i + 1..] else s
  }

  // ---------------------------------------------------------------------
  // Python split / join on a single-character separator
  // ---------------------------------------------------------------------

  /** Python `s.split(sep)`: the maximal separator-free pieces, always at least one. */
  function Split(s: string, sep: char): (parts: seq<string>)
    ensures |parts| >= 1
    ensures forall k :: 0 <= k < |parts| ==> sep !in parts[k]
    decreases |s|
  {
    var i := IndexOf(s, sep);
    if i == |s| then [s] else [s[..i]] + Split(s[i + 1..], sep)
  }

  /** Python `sep.join(parts)`. */
  function Join(parts: seq<string>, sep: char): string
    decreases |parts|
  {
    if parts == [] then ""
    else if |parts| == 1 then parts[0]
    else parts[0] + [sep] + Join(parts[1..], sep)
  }

  /** Splitting undoes joining when no piece holds the separator. */
  lemma {:induction false} SplitJoin(parts: seq<string>, sep: char)
    requires |parts| >= 1
    requires forall k :: 0 <= k < |parts| ==> sep !in parts[k]
    ensures Split(Join(parts, sep), sep) == parts
    decreases |parts|
  {
    var s := Join(parts, sep);
    if |parts| == 1 {
      assert IndexOf(s, sep) == |s|;
    } else {
      var p := parts[0];
      assert s == p + [sep] + Join(parts[1..], sep);
      IndexOfPrefix(p, Join(parts[1..], sep), sep);
      assert s[..|p|] == p;
      assert s[|p| + 1..] == Join(parts[1..], sep);
      SplitJoin(parts[1..], sep);
      assert parts == [p] + parts[1..];
    }
  }

  /** Joining undoes splitting. */
  lemma {:induction false} JoinSplit(s: string, sep: char)
    ensures Join(Split(s, sep), sep) == s
    decreases |s|
  {
    var i := IndexOf(s, sep);
    if i < |s| {
      JoinSplit(s[i + 1..], sep);
      var rest := Split(s[i + 1..], sep);
      assert Split(s, sep) == [s[..i]] + rest;
      assert ([s[..i]] + rest)[1..] == rest;
      assert s == s[..i] + [sep] + s[i + 1..];
    }
  }

  lemma IndexOfPrefix(p: string, rest: string, c: char)
    requires c !in p
    ensures IndexOf(p + [c] + rest, c) == |p|
  {
    var s := p + [c] + rest;
    assert s[..|p|] == p;
    assert s[|p|] == c;
  }

  /** The first `c` of `p + [c] + rest` is the one right after `p`. */
  lemma SplitAtFirst(p: string, c: char, rest: string)
    requires c !in p
    ensures c in p + [c] + rest
    ensures BeforeFirst(p + [c] + rest, c) == p
    ensures AfterFirst(p + [c] + rest, c) == rest
  {
    var s := p + [c] + rest;
    IndexOfPrefix(p, rest, c);
    assert s[|p|] == c;
    assert s[..|p|] == p;
    assert s[|p| + 1..] == rest;
  }

  lemma IndexOfIs(s: string, c: char, k: nat)
    requires k < |s| && s[k] == c && c !in s[..k]
    ensures IndexOf(s, c) == k
  {
  }

  lemma IndexOfAbsent(s: string, c: char)
    requires c !in s
    ensures IndexOf(s, c) == |s|
  {
  }

  /** The last `c` is at `k` when `s[k]` is `c` and no later character is. */
  lemma LastIndexOfIs(s: string, c: char, k: nat)
    requires k < |s| && s[k] == c && c !in s[k + 1..]
    ensures LastIndexOf(s, c) == k
  {
  }

  lemma LastIndexOfAbsent(s: string, c: char)
    requires c !in s
    ensures LastIndexOf(s, c) == -1
  {
  }

  // ---------------------------------------------------------------------
  // Stripping characters at both ends
  // ---------------------------------------------------------------------

  /** Python `str.isspace` for one character. */
  predicate IsPySpace(c: char) {
    ('\t' <= c <= '\r') || ('\U{1C}' <= c <= ' ') || c == '\U{85}' || c == '\U{A0}'
    || c == '\U{1680}' || ('\U{2000}' <= c <= '\U{200A}') || c == '\U{2028}' || c == '\U{2029}'
    || c == '\U{202F}' || c == '\U{205F}' || c == '\U{3000}'
  }

  /** The characters JavaScript's `String.prototype.trim` removes. */
  predicate IsJsSpace(c: char) {
    ('\t' <= c <= '\r') || c == ' ' || c == '\U{A0}'
    || c == '\U{1680}' || ('\U{2000}' <= c <= '\U{200A}') || c == '\U{2028}' || c == '\U{2029}'
    || c == '\U{202F}' || c == '\U{205F}' || c == '\U{3000}' || c == '\U{FEFF}'
  }

  /** A set of characters to strip. */
  datatype CharClass = PySpace | JsSpace | Just(ch: char)

  predicate In(k: CharClass, c: char) {
    match k
    case PySpace => IsPySpace(c)
    case JsSpace => IsJsSpace(c)
    case Just(x) => c == x
  }

  /** Every character of `s[lo..hi]` is in `k`. */
  predicate AllIn(k: CharClass, s: string, lo: int, hi: int)
    requires 0 <= lo <= hi <= |s|
  {
    forall i :: lo <= i < hi ==> In(k, s[i])
  }

  /** The text after the longest prefix of characters of `k`. */
  function TrimStart(s: string, k: CharClass): (r: string)
    ensures |r| <= |s| && r == s[|s| - |r|..]
    ensures AllIn(k, s, 0, |s| - |r|)
    ensures r == [] || !In(k, r[0])
    decreases |s|
  {
    if s != [] && In(k, s[0]) then TrimStart(s[1..], k) else s
  }

  /** The text before the longest suffix of characters of `k`. */
  function TrimEnd(s: string, k: CharClass): (r: string)
    ensures |r| <= |s| && r == s[..|r|]
    ensures AllIn(k, s, |r|, |s|)
    ensures r == [] || !In(k, r[|r| - 1])
    decreases |s|
  {
    if s != [] && In(k, s[|s| - 1]) then TrimEnd(s[..|s| - 1], k) else s
  }

  lemma TrimStartStep(s: string, k: CharClass)
    requires s != [] && In(k, s[0])
    ensures TrimStart(s, k) == TrimStart(s[1..], k)
  {
  }

  lemma TrimEndStep(s: string, k: CharClass)
    requires s != [] && In(k, s[|s| - 1])
    ensures TrimEnd(s, k) == TrimEnd(s[..|s| - 1], k)
  {
  }

  lemma TrimStartStops(s: string, k: CharClass)
    requires s == [] || !In(k, s[0])
    ensures TrimStart(s, k) == s
  {
  }

  lemma TrimEndStops(s: string, k: CharClass)
    requires s == [] || !In(k, s[|s| - 1])
    ensures TrimEnd(s, k) == s
  {
  }

  /** `r` is `s` with the characters before `a` and after `a + |r|` cut off, all of them in `k`. */
  predicate StrippedAt(s: string, k: CharClass, a: int, r: string) {
    0 <= a <= |s| - |r| && r == s[a..a + |r|] && AllIn(k, s, 0, a) && AllIn(k, s, a + |r|, |s|)
  }

  /** Python `s.strip(chars)` / JavaScript `s.trim()`: both ends, any number of characters. */
  function Strip(s: string, k: CharClass): (r: string)
    ensures r == [] || (!In(k, r[0]) && !In(k, r[|r| - 1]))
    ensures |r| <= |s|
  {
    TrimEnd(TrimStart(s, k), k)
  }

  /** Stripping cuts only characters of `k`, from both ends: the result is the slice of `s` between the cut characters. */
  lemma StripsOnlyClass(s: string, k: CharClass)
    ensures exists a :: StrippedAt(s, k, a, Strip(s, k))
  {
    var t := TrimStart(s, k);
    TrimmedBothEnds(s, k, t, TrimEnd(t, k));
    assert StrippedAt(s, k, |s| - |t|, Strip(s, k));
  }

  /** Cutting a prefix of `k` characters and then a suffix of `k` characters strips `s` at the cut. */
  lemma TrimmedBothEnds(s: string, k: CharClass, t: string, r: string)
    requires |t| <= |s| && t == s[|s| - |t|..] && AllIn(k, s, 0, |s| - |t|)
    requires |r| <= |t| && r == t[..|r|] && AllIn(k, t, |r|, |t|)
    ensures StrippedAt(s, k, |s| - |t|, r)
  {
    var a := |s| - |t|;
    assert r == s[a..a + |r|];
    forall i | a + |r| <= i < |s|
      ensures In(k, s[i])
    {
      assert s[i] == t[i - a];
    }
  }

  /** A string that does not start or end with a character of `k` is left alone. */
  lemma StripClean(s: string, k: CharClass)
    requires s == [] || (!In(k, s[0]) && !In(k, s[|s| - 1]))
    ensures Strip(s, k) == s
  {
  }

  /** Stripping is idempotent. */
  lemma StripIdempotent(s: string, k: CharClass)
    ensures Strip(Strip(s, k), k) == Strip(s, k)
  {
    StripClean(Strip(s, k), k);
  }

  // ---------------------------------------------------------------------
  // Decimal rendering (Python `str(int)`, JavaScript template literals)
  // ---------------------------------------------------------------------

  function DigitChar(d: nat): (c: char)
    requires d < 10
    ensures '0' <= c <= '9'
  {
    ('0' as int + d) as char
  }

  /** The number a string of decimal digits denotes, most significant digit first. */
  function DigitsValue(s: string): int
    decreases |s|
  {
    if s == [] then 0 else DigitsValue(s[..|s| - 1]) * 10 + (s[|s| - 1] as int - '0' as int)
  }

  function NatToString(n: nat): (s: string)
    ensures |s| >= 1
    ensures forall i :: 0 <= i < |s| ==> '0' <= s[i] <= '9'
    ensures DigitsValue(s) == n
    ensures |s| > 1 ==> s[0] != '0'
    decreases n
  {
    if n < 10 then [DigitChar(n)]
    else
      var s := NatToString(n / 10) + [DigitChar(n % 10)];
      assert s[..|s| - 1] == NatToString(n / 10);
      s
  }

  function IntToString(i: int): (s: string)
    ensures |s| >= 1
    ensures s[0] == '-' <==> i < 0
    ensures i >= 0 ==> DigitsValue(s) == i
    ensures i < 0 ==> DigitsValue(s[1..]) == -i
  {
    if i < 0 then
      var s := "-" + NatToString(-i);
      assert s[1..] == NatToString(-i);
      s
    else NatToString(i)
  }
}
