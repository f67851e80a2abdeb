/** String helpers shared by the pipeline: Python's `str.strip`, `str.lower`
    and index searches, written over `seq<char>`. */
module Text {

  /** The characters Python's `str.isspace` accepts, which `str.strip()` with
      no argument removes from both ends. */
  predicate IsSpace(c: char) {
    || c == ' '
    || '\t' <= c <= '\r'
    || '\U{1c}' <= c <= '\U{1f}'
    || c == '\U{85}' || c == '\U{a0}' || c == '\U{1680}'
    || '\U{2000}' <= c <= '\U{200a}'
    || c == '\U{2028}' || c == '\U{2029}' || c == '\U{202f}'
    || c == '\U{205f}' || c == '\U{3000}'
  }

  predicate IsUpper(c: char) { 'A' <= c <= 'Z' }

  /** The two character sets the pipeline strips: Python's whitespace, for
      `str.strip()`, and the `_` and space of `strip('_ ')`. */
  datatype StripSet = Whitespace | UnderscoreSpace

  predicate Strips(k: StripSet, c: char) {
    match k
    case Whitespace => IsSpace(c)
    case UnderscoreSpace => c == '_' || c == ' '
  }

  /** True when `strip` would remove every character of `s`. */
  predicate AllStripped(k: StripSet, s: string) {
    forall i :: 0 <= i < |s| ==> Strips(k, s[i])
  }

  /** The first index at or after `i` whose character is not in `k`
      (`lstrip` from `i`). */
  function SkipFrom(s: string, k: StripSet, i: nat): (j: nat)
    requires i <= |s|
    ensures i <= j <= |s|
    ensures forall m :: i <= m < j ==> Strips(k, s[m])
    ensures j == |s| || !Strips(k, s[j])
    decreases |s| - i
  {
    if i < |s| && Strips(k, s[i]) then SkipFrom(s, k, i + 1) else i
  }

  /** The end, at most `j` and at least `lo`, left once the characters of `k`
      before `j` are removed (`rstrip`). */
  function KeepTo(s: string, k: StripSet, lo: nat, j: nat): (e: nat)
    requires lo <= j <= |s|
    ensures lo <= e <= j
    ensures forall m :: e <= m < j ==> Strips(k, s[m])
    ensures e == lo || !Strips(k, s[e - 1])
    decreases j
  {
    if lo < j && Strips(k, s[j - 1]) then KeepTo(s, k, lo, j - 1) else j
  }

  /** How many characters `strip` removes at the front. */
  function Leading(s: string, k: StripSet): (n: nat)
    ensures n <= |s|
    ensures forall m :: 0 <= m < n ==> Strips(k, s[m])
    ensures n == |s| || !Strips(k, s[n])
  {
    SkipFrom(s, k, 0)
  }

  /** Python's `s.strip(chars)` for the character set `k`: what remains is a
      contiguous part of `s` that neither starts nor ends with a character of
      `k`, every character after it is in `k` (as are those before it, by
      `Leading`), and it is empty exactly when every character of `s` is in
      `k`. */
  function Trim(s: string, k: StripSet): (r: string)
    ensures Leading(s, k) + |r| <= |s| && r == s[Leading(s, k)..Leading(s, k) + |r|]
    ensures forall m :: Leading(s, k) + |r| <= m < |s| ==> Strips(k, s[m])
    ensures r == [] || (!Strips(k, r[0]) && !Strips(k, r[|r| - 1]))
    ensures r == [] <==> AllStripped(k, s)
    ensures (s == [] || (!Strips(k, s[0]) && !Strips(k, s[|s| - 1]))) ==> r == s
  {
    var lo := SkipFrom(s, k, 0);
    var hi := KeepTo(s, k, lo, |s|);
    assert lo < hi ==> !Strips(k, s[lo]);
    s[lo..hi]
  }

  /** Python's `str.strip()`. */
  function Strip(s: string): string {
    Trim(s, Whitespace)
  }

  /** `str.strip()` removes the whitespace at both ends and nothing else. */
  lemma StripEnds(s: string)
    ensures var r, lo := Strip(s), Leading(s, Whitespace);
      && lo + |r| <= |s| && r == s[lo..lo + |r|]
      && (forall m :: 0 <= m < lo ==> IsSpace(s[m]))
      && (forall m :: lo + |r| <= m < |s| ==> IsSpace(s[m]))
      && (r == [] || (!IsSpace(r[0]) && !IsSpace(r[|r| - 1])))
  {
  }

  function LowerChar(c: char): char {
    if IsUpper(c) then (c as int + 32) as char else c
  }

  /** `str.lower()` on ASCII letters. */
  function Lower(s: string): (r: string)
    ensures |r| == |s|
    ensures forall i :: 0 <= i < |s| ==> r[i] == LowerChar(s[i])
    ensures forall i :: 0 <= i < |r| ==> !IsUpper(r[i])
  {
    if s == [] then [] else [LowerChar(s[0])] + Lower(s[1..])
  }

  /** Lowercasing neither adds nor removes a character below `A`, such as
      `.`, `/` or `?`. */
  lemma LowerKeepsSymbol(s: string, c: char)
    requires c < 'A'
    ensures c in Lower(s) <==> c in s
  {
    var r := Lower(s);
    if c in s {
      var i :| 0 <= i < |s| && s[i] == c;
      assert r[i] == c;
    }
    if c in r {
      var i :| 0 <= i < |r| && r[i] == c;
      assert s[i] == c;
    }
  }

  /** `s.rfind(c)`: the index of the last `c` in `s`, or -1. */
  function LastIndexOf(s: string, c: char): (i: int)
    ensures -1 <= i < |s|
    ensures i >= 0 ==> s[i] == c
    ensures forall j :: i < j < |s| ==> s[j] != c
  {
    if s == [] then -1
    else if s[|s| - 1] == c then |s| - 1
    else LastIndexOf(s[..|s| - 1], c)
  }

  /** `s.split(c)[0]`: everything before the first `c`. */
  function Before(s: string, c: char): (r: string)
    ensures |r| <= |s| && r == s[..|r|]
    ensures c !in r
    ensures |r| < |s| ==> s[|r|] == c
  {
    if s == [] || s[0] == c then [] else [s[0]] + Before(s[1..], c)
  }

  /** `rfind` finds the `c` that has no `c` after it. */
  lemma {:induction false} LastIndexAt(a: string, c: char, b: string)
    requires c !in b
    ensures LastIndexOf(a + [c] + b, c) == |a|
    decreases |b|
  {
    var s := a + [c] + b;
    if b != [] {
      var b' := b[..|b| - 1];
      assert s[|s| - 1] == b[|b| - 1];
      assert s[..|s| - 1] == a + [c] + b';
      LastIndexAt(a, c, b');
    }
  }

  /** `split(c)[0]` stops at the first `c`. */
  lemma {:induction false} BeforeAt(a: string, c: char, b: string)
    requires c !in a
    ensures Before(a + ([c] + b), c) == a
  {
    var s := a + ([c] + b);
    if a != [] {
      assert s[0] == a[0];
      assert s[1..] == a[1..] + ([c] + b);
      BeforeAt(a[1..], c, b);
      assert [a[0]] + a[1..] == a;
    }
  }
}
