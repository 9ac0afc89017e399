/** The Python `str` built-ins the service relies on: `lower()`, the `in`
    substring test, `strip()`, `sep.join(parts)` and `str(n)` for a
    non-negative integer. Each is given as a function together with the
    lemmas that say what it computes. */
module Strings {

  // ---------------------------------------------------------------------
  // lower()
  // ---------------------------------------------------------------------

  predicate IsUpper(c: char) {
    'A' <= c <= 'Z'
  }

  /** The case mapping of one character (ASCII letters only). */
  function LowerChar(c: char): char {
    if IsUpper(c) then (c as int + 32) as char else c
  }

  /** `s.lower()` with ASCII case mapping: each character mapped on its own. */
  function Lower(s: string): string {
    seq(|s|, i requires 0 <= i < |s| => LowerChar(s[i]))
  }

  /** Lowering leaves no upper-case letter, and lowering twice is lowering once. */
  lemma LowerIdempotent(s: string)
    ensures forall i :: 0 <= i < |Lower(s)| ==> !IsUpper(Lower(s)[i])
    ensures Lower(Lower(s)) == Lower(s)
  {
    var l := Lower(s);
    forall i | 0 <= i < |l| ensures Lower(l)[i] == l[i] {
      assert !IsUpper(l[i]);
    }
  }

  /** Lowering distributes over concatenation. */
  lemma LowerAppend(a: string, b: string)
    ensures Lower(a + b) == Lower(a) + Lower(b)
  {
    var l, r := Lower(a + b), Lower(a) + Lower(b);
    forall i | 0 <= i < |l| ensures l[i] == r[i] {
      if i < |a| {
        assert (a + b)[i] == a[i];
      } else {
        assert (a + b)[i] == b[i - |a|];
      }
    }
  }

  // ---------------------------------------------------------------------
  // p in s
  // ---------------------------------------------------------------------

  /** The reference meaning of an occurrence: `p` is the slice of `s` at `i`. */
  predicate OccursAt(s: string, p: string, i: nat) {
    i + |p| <= |s| && s[i..i + |p|] == p
  }

  /** The characters `p[k..]` equal those of `s` from index `i + k` on. */
  predicate MatchesFrom(s: string, p: string, i: nat, k: nat)
    decreases |p| - k
  {
    k >= |p| || (i + k < |s| && s[i + k] == p[k] && MatchesFrom(s, p, i, k + 1))
  }

  /** Some start index `j >= i` has an occurrence of `p` in `s`. */
  predicate ContainsFrom(s: string, p: string, i: nat)
    decreases |s| - i
  {
    i + |p| <= |s| && (MatchesFrom(s, p, i, 0) || ContainsFrom(s, p, i + 1))
  }

  /** Python's `p in s` for two strings: a scan over the start positions. */
  predicate Contains(s: string, p: string) {
    ContainsFrom(s, p, 0)
  }

  lemma {:induction false} MatchesFromIff(s: string, p: string, i: nat, k: nat)
    requires k <= |p| && i + |p| <= |s|
    ensures MatchesFrom(s, p, i, k) <==> s[i + k..i + |p|] == p[k..]
    decreases |p| - k
  {
    if k < |p| {
      MatchesFromIff(s, p, i, k + 1);
      assert s[i + k..i + |p|] == [s[i + k]] + s[i + k + 1..i + |p|];
      assert p[k..] == [p[k]] + p[k + 1..];
    }
  }

  lemma {:induction false} ContainsFromIff(s: string, p: string, i: nat)
    ensures ContainsFrom(s, p, i) <==> exists j: nat :: i <= j && OccursAt(s, p, j)
    decreases |s| - i
  {
    if i + |p| <= |s| {
      MatchesFromIff(s, p, i, 0);
      ContainsFromIff(s, p, i + 1);
      assert p[0..] == p;
      if exists j: nat :: i <= j && OccursAt(s, p, j) {
        var j: nat :| i <= j && OccursAt(s, p, j);
        assert j == i || (i + 1 <= j && OccursAt(s, p, j));
      }
      if MatchesFrom(s, p, i, 0) {
        assert OccursAt(s, p, i);
      }
    }
  }

  /** `Contains` holds exactly when `p` occurs as a slice of `s`. */
  lemma ContainsIff(s: string, p: string)
    ensures Contains(s, p) <==> exists j: nat :: OccursAt(s, p, j)
  {
    ContainsFromIff(s, p, 0);
  }

  /** An occurrence of `q` inside an occurrence of `p` is an occurrence in `s`. */
  lemma ContainsTransitive(s: string, p: string, q: string)
    requires Contains(s, p) && Contains(p, q)
    ensures Contains(s, q)
  {
    ContainsIff(s, p);
    ContainsIff(p, q);
    var i: nat :| OccursAt(s, p, i);
    var j: nat :| OccursAt(p, q, j);
    assert s[i..i + |p|] == p;
    forall k | 0 <= k < |q| ensures s[i + j + k] == q[k] {
      assert s[i..i + |p|][j + k] == s[i + j + k];
      assert p[j..j + |q|][k] == p[j + k];
    }
    assert s[i + j..i + j + |q|] == q;
    assert OccursAt(s, q, i + j);
    ContainsIff(s, q);
  }

  /** An occurrence in either part is an occurrence in their concatenation. */
  lemma ContainsConcat(a: string, b: string, p: string)
    requires Contains(a, p) || Contains(b, p)
    ensures Contains(a + b, p)
  {
    ContainsIff(a, p);
    ContainsIff(b, p);
    if Contains(a, p) {
      var j: nat :| OccursAt(a, p, j);
      assert (a + b)[j..j + |p|] == a[j..j + |p|];
      assert OccursAt(a + b, p, j);
    } else {
      var j: nat :| OccursAt(b, p, j);
      assert (a + b)[|a| + j..|a| + j + |p|] == b[j..j + |p|];
      assert OccursAt(a + b, p, |a| + j);
    }
    ContainsIff(a + b, p);
  }

  /** A non-empty pattern without a space occurs in `a + " " + b` exactly
      when it occurs in `a` or in `b`: no occurrence can straddle the space. */
  lemma ContainsAcrossSpace(a: string, b: string, p: string)
    requires p != [] && ' ' !in p
    ensures Contains(a + " " + b, p) <==> Contains(a, p) || Contains(b, p)
  {
    var s := a + " " + b;
    if Contains(a, p) || Contains(b, p) {
      if !Contains(a, p) {
        ContainsConcat(" ", b, p);
      }
      ContainsConcat(a, " " + b, p);
      assert s == a + (" " + b);
    }
    if Contains(s, p) {
      ContainsIff(s, p);
      var j: nat :| OccursAt(s, p, j);
      assert s[|a|] == ' ';
      assert j + |p| <= |a| || j > |a| by {
        if j <= |a| < j + |p| {
          OccurrenceAt(s, p, j, |a| - j);
        }
      }
      if j + |p| <= |a| {
        assert a[j..j + |p|] == s[j..j + |p|];
        assert OccursAt(a, p, j);
        ContainsIff(a, p);
      } else {
        assert b[j - |a| - 1..j - |a| - 1 + |p|] == s[j..j + |p|];
        assert OccursAt(b, p, j - |a| - 1);
        ContainsIff(b, p);
      }
    }
  }

  lemma OccurrenceAt(s: string, p: string, j: nat, k: nat)
    requires OccursAt(s, p, j) && k < |p|
    ensures s[j + k] == p[k]
  {
    assert s[j..j + |p|][k] == s[j + k];
  }

  /** Every string occurs in itself. */
  lemma ContainsSelf(s: string)
    ensures Contains(s, s)
  {
    assert OccursAt(s, s, 0);
    ContainsIff(s, s);
  }

  /** Lower-casing a phrase lower-cases its words and keeps the space. */
  lemma LowerPhrase(a: string, b: string)
    ensures Lower(a + " " + b) == Lower(a) + " " + Lower(b)
  {
    LowerAppend(a + " ", b);
    LowerAppend(a, " ");
  }

  /** A non-empty string never occurs in the empty string. */
  lemma NothingInEmpty(p: string)
    requires p != []
    ensures !Contains("", p)
  {
  }

  // ---------------------------------------------------------------------
  // strip()
  // ---------------------------------------------------------------------

  /** The characters `str.isspace()` accepts, which `str.strip()` removes:
      U+0009..U+000D, U+001C..U+0020, U+0085, U+00A0, U+1680,
      U+2000..U+200A, U+2028, U+2029, U+202F, U+205F and U+3000. */
  predicate IsSpace(c: char) {
    var n := c as int;
    (0x09 <= n <= 0x0D) || (0x1C <= n <= 0x20) || n == 0x85 || n == 0xA0 || n == 0x1680
    || (0x2000 <= n <= 0x200A) || n == 0x2028 || n == 0x2029 || n == 0x202F
    || n == 0x205F || n == 0x3000
  }

  /** Every character of `s` from index `lo` up to `hi` is whitespace. */
  predicate SpaceBetween(s: string, lo: nat, hi: nat)
    requires lo <= hi <= |s|
  {
    forall k :: lo <= k < hi ==> IsSpace(s[k])
  }

  predicate AllSpace(s: string) {
    SpaceBetween(s, 0, |s|)
  }

  /** Where `lstrip()` cuts: the first index at or after `i` that is not
      whitespace, or `|s|`. */
  function LeadingEnd(s: string, i: nat): (j: nat)
    requires i <= |s|
    ensures i <= j <= |s| && SpaceBetween(s, i, j)
    ensures j == |s| || !IsSpace(s[j])
    decreases |s| - i
  {
    if i < |s| && IsSpace(s[i]) then LeadingEnd(s, i + 1) else i
  }

  /** Where `rstrip()` cuts, not going below `lo`: the smallest `e` with
      only whitespace from `e` to `hi`. */
  function TrailingEnd(s: string, lo: nat, hi: nat): (e: nat)
    requires lo <= hi <= |s|
    ensures lo <= e <= hi && SpaceBetween(s, e, hi)
    ensures e == lo || !IsSpace(s[e - 1])
    decreases hi - lo
  {
    if lo < hi && IsSpace(s[hi - 1]) then TrailingEnd(s, lo, hi - 1) else hi
  }

  /** `r` is the slice of `s` at `i`, and everything around it is whitespace. */
  predicate SurroundedBySpace(s: string, r: string, i: nat) {
    i + |r| <= |s| && r == s[i..i + |r|] && SpaceBetween(s, 0, i) && SpaceBetween(s, i + |r|, |s|)
  }

  /** `s.strip()`: a slice of `s` whose surroundings are all whitespace and
      whose own first and last characters are not. */
  function Strip(s: string): (r: string)
    ensures r == [] || (!IsSpace(r[0]) && !IsSpace(r[|r| - 1]))
    ensures exists i: nat :: SurroundedBySpace(s, r, i)
  {
    var b := LeadingEnd(s, 0);
    var e := TrailingEnd(s, b, |s|);
    assert SurroundedBySpace(s, s[b..e], b);
    s[b..e]
  }

  /** A string that neither starts nor ends with whitespace is its own strip. */
  lemma StripUnchanged(s: string)
    requires s == [] || (!IsSpace(s[0]) && !IsSpace(s[|s| - 1]))
    ensures Strip(s) == s
  {
    if s != [] {
      assert LeadingEnd(s, 0) == 0;
      assert TrailingEnd(s, 0, |s|) == |s|;
    }
  }

  /** Stripping twice is stripping once. */
  lemma StripIdempotent(s: string)
    ensures Strip(Strip(s)) == Strip(s)
  {
    StripUnchanged(Strip(s));
  }

  /** Only whitespace strips to the empty string. */
  lemma StripEmptyIff(s: string)
    ensures Strip(s) == [] <==> AllSpace(s)
  {
    if Strip(s) == [] {
      var i: nat :| SurroundedBySpace(s, [], i);
      assert SpaceBetween(s, 0, |s|) by {
        forall k | 0 <= k < |s| ensures IsSpace(s[k]) {
          if k < i { assert SpaceBetween(s, 0, i); } else { assert SpaceBetween(s, i, |s|); }
        }
      }
    }
    if AllSpace(s) {
      assert LeadingEnd(s, 0) == |s|;
    }
  }

  // ---------------------------------------------------------------------
  // sep.join(parts)
  // ---------------------------------------------------------------------

  /** `sep.join(parts)`: the parts in order, with one `sep` between neighbours. */
  function Join(sep: string, parts: seq<string>): string
  {
    if |parts| == 0 then ""
    else if |parts| == 1 then parts[0]
    else parts[0] + sep + Join(sep, parts[1..])
  }

  function TotalLength(parts: seq<string>): nat {
    if parts == [] then 0 else |parts[0]| + TotalLength(parts[1..])
  }

  /** Joining two non-empty lists puts exactly one separator between them. */
  lemma {:induction false} JoinAppend(sep: string, a: seq<string>, b: seq<string>)
    requires |a| > 0 && |b| > 0
    ensures Join(sep, a + b) == Join(sep, a) + sep + Join(sep, b)
    decreases |a|
  {
    if |a| == 1 {
      assert (a + b)[1..] == b;
    } else {
      assert (a + b)[1..] == a[1..] + b;
      JoinAppend(sep, a[1..], b);
    }
  }

  /** The joined string is the parts plus one separator per gap, and nothing else. */
  lemma {:induction false} JoinLength(sep: string, parts: seq<string>)
    requires |parts| > 0
    ensures |Join(sep, parts)| == TotalLength(parts) + |sep| * (|parts| - 1)
    decreases |parts|
  {
    if |parts| > 1 {
      JoinLength(sep, parts[1..]);
    }
  }

  // ---------------------------------------------------------------------
  // str(n)
  // ---------------------------------------------------------------------

  predicate IsDigit(c: char) {
    '0' <= c <= '9'
  }

  function DigitChar(d: nat): char
    requires d < 10
  {
    ('0' as int + d) as char
  }

  /** `str(n)` for `n >= 0`: decimal digits, most significant first, with no
      leading zero. */
  function Decimal(n: nat): (r: string)
    ensures |r| > 0 && forall i :: 0 <= i < |r| ==> IsDigit(r[i])
    ensures |r| > 1 ==> r[0] != '0'
  {
    if n < 10 then [DigitChar(n)] else Decimal(n / 10) + [DigitChar(n % 10)]
  }

  /** The number a string of decimal digits denotes (the inverse of `Decimal`). */
  function DecimalValue(s: string): nat
    requires forall i :: 0 <= i < |s| ==> IsDigit(s[i])
  {
    if s == [] then 0
    else
      assert IsDigit(s[|s| - 1]);
      10 * DecimalValue(s[..|s| - 1]) + (s[|s| - 1] as int - '0' as int)
  }

  lemma {:induction false} DecimalRoundTrip(n: nat)
    ensures DecimalValue(Decimal(n)) == n
    decreases n
  {
    if n >= 10 {
      DecimalRoundTrip(n / 10);
      var d := Decimal(n);
      assert d[..|d| - 1] == Decimal(n / 10);
    }
  }

  // ---------------------------------------------------------------------
  // "%.<n>s" in CPython's PyUnicode_FromFormat
  // ---------------------------------------------------------------------

  /** The number of bytes UTF-8 encodes `c` with. */
  function Utf8Width(c: char): (w: nat)
    ensures 1 <= w <= 4
    ensures w == 1 <==> (c as int) < 0x80
  {
    if (c as int) < 0x80 then 1
    else if (c as int) < 0x800 then 2
    else if (c as int) < 0x1_0000 then 3
    else 4
  }

  /** The length of the UTF-8 encoding of `s`. */
  function Utf8Size(s: string): nat {
    if s == [] then 0 else Utf8Width(s[0]) + Utf8Size(s[1..])
  }

  lemma {:induction false} Utf8SizeAppend(a: string, b: string)
    ensures Utf8Size(a + b) == Utf8Size(a) + Utf8Size(b)
    decreases |a|
  {
    if a == [] {
      assert a + b == b;
    } else {
      assert (a + b)[0] == a[0];
      assert (a + b)[1..] == a[1..] + b;
      Utf8SizeAppend(a[1..], b);
    }
  }

  /** The number of leading characters of `s` whose encoding fits in `n`
      bytes: their encoding fits, and one more character would not. */
  function Fitting(s: string, n: nat): (k: nat)
    ensures k <= |s| && Utf8Size(s[..k]) <= n
    ensures k < |s| ==> Utf8Size(s[..k + 1]) > n
    decreases |s|
  {
    if s == [] then 0
    else if Utf8Width(s[0]) > n then
      assert s[..1][1..] == [];
      0
    else
      var k := Fitting(s[1..], n - Utf8Width(s[0]));
      assert s[..k + 1][1..] == s[1..][..k];
      assert k + 1 < |s| ==> s[..k + 2][1..] == s[1..][..k + 1];
      k + 1
  }

  /** `"%.<n>s"` applied to `s` by `PyUnicode_FromFormat` in CPython 3.10:
      the UTF-8 encoding of `s` is cut after `n` bytes and decoded with
      replacement. The characters that fit whole are kept, and a character
      cut part-way becomes one U+FFFD. */
  function CutToBytes(s: string, n: nat): (r: string)
    ensures Utf8Size(s) <= n ==> r == s
    ensures Utf8Size(s) > n ==>
      exists k :: 0 <= k < |s| && Utf8Size(s[..k]) <= n < Utf8Size(s[..k + 1])
        && r == s[..k] + (if Utf8Size(s[..k]) < n then "\U{FFFD}" else "")
  {
    var k := Fitting(s, n);
    if k < |s| then
      assert s == s[..k + 1] + s[k + 1..];
      Utf8SizeAppend(s[..k + 1], s[k + 1..]);
      s[..k] + (if Utf8Size(s[..k]) < n then "\U{FFFD}" else "")
    else
      assert s[..k] == s;
      s
  }

  predicate IsAscii(s: string) {
    forall i :: 0 <= i < |s| ==> (s[i] as int) < 0x80
  }

  lemma {:induction false} AsciiSize(s: string)
    requires IsAscii(s)
    ensures Utf8Size(s) == |s|
    decreases |s|
  {
    if s != [] {
      AsciiSize(s[1..]);
    }
  }

  /** An ASCII string is cut to its first `n` characters. */
  lemma CutAscii(s: string, n: nat)
    requires IsAscii(s)
    ensures CutToBytes(s, n) == if |s| <= n then s else s[..n]
  {
    AsciiSize(s);
    var k := Fitting(s, n);
    AsciiSize(s[..k]);
    if k < |s| {
      AsciiSize(s[..k + 1]);
    }
  }

  lemma {:induction false} TwoByteSize(s: string)
    requires forall i :: 0 <= i < |s| ==> s[i] == '\U{E9}'
    ensures Utf8Size(s) == 2 * |s|
    decreases |s|
  {
    if s != [] {
      TwoByteSize(s[1..]);
    }
  }

  /** A name of 41 copies of `é` (82 bytes) keeps 40 of them: the 80 bytes
      end on a character boundary. */
  lemma CutWholeCharacters()
    ensures CutToBytes(seq(41, _ => '\U{E9}'), 80) == seq(40, _ => '\U{E9}')
  {
    var s := seq(41, _ => '\U{E9}');
    TwoByteSize(s);
    var k := Fitting(s, 80);
    TwoByteSize(s[..k]);
    TwoByteSize(s[..k + 1]);
    assert k == 40;
    TwoByteSize(s[..40]);
    assert s[..40] == seq(40, _ => '\U{E9}');
  }

  /** `a` followed by 40 copies of `é` (81 bytes) keeps `a` and 39 of them,
      and the `é` whose first byte is the 80th becomes U+FFFD. */
  lemma CutReplacesSplitCharacter()
    ensures CutToBytes("a" + seq(40, _ => '\U{E9}'), 80) == "a" + seq(39, _ => '\U{E9}') + "\U{FFFD}"
  {
    var t := seq(40, _ => '\U{E9}');
    var s := "a" + t;
    Utf8SizeAppend("a", t);
    TwoByteSize(t);
    var k := Fitting(s, 80);
    assert k > 0 by {
      assert Utf8Size(s[..1]) == 1 by { assert s[..1] == "a"; }
    }
    assert s[..k] == "a" + t[..k - 1];
    Utf8SizeAppend("a", t[..k - 1]);
    TwoByteSize(t[..k - 1]);
    if k < |s| {
      assert s[..k + 1] == "a" + t[..k];
      Utf8SizeAppend("a", t[..k]);
      TwoByteSize(t[..k]);
    }
    assert k == 40;
    assert t[..39] == seq(39, _ => '\U{E9}');
  }
}
