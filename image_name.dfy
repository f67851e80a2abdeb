/** Naming of downloaded product images: `make_image_filename` (smart.py:60-69),
    the extension taken from the image URL (smart.py:179 and 245) and the
    `.png` rename applied to WebP images (smart.py:186-189). */
module ImageName {
  import opened Text

  /** The characters of the class `[A-Za-z0-9 _\-]`, which sanitising keeps. */
  predicate IsSafe(c: char) {
    'A' <= c <= 'Z' || 'a' <= c <= 'z' || '0' <= c <= '9' || c == ' ' || c == '_' || c == '-'
  }

  /** The characters `strip('_ ')` removes. */
  predicate IsPad(c: char) { Strips(UnderscoreSpace, c) }

  /** Every character of `s` is safe or one of `extra`. */
  predicate Within(s: string, extra: string) {
    forall i :: 0 <= i < |s| ==> IsSafe(s[i]) || s[i] in extra
  }

  /** `strip('_ ')` on `s`. */
  function StripPads(s: string): string {
    Trim(s, UnderscoreSpace)
  }

  predicate AllPads(s: string) { AllStripped(UnderscoreSpace, s) }

  ghost predicate NoDoubleUnderscore(s: string) {
    forall i, j :: 0 <= i < j < |s| && j == i + 1 ==> s[i] != '_' || s[j] != '_'
  }

  /** What a sanitised part looks like: no `__`, and no `_` or space at either end. */
  ghost predicate Tidy(s: string) {
    NoDoubleUnderscore(s) && (s == [] || (!IsPad(s[0]) && !IsPad(s[|s| - 1])))
  }

  /** `re.sub(r'[^A-Za-z0-9 _\-]+', '_', s)`: every maximal run of unsafe
      characters becomes one `_`. */
  function ReplaceUnsafeRuns(s: string): (r: string)
    ensures Within(r, "")
    ensures |r| <= |s|
    ensures s != [] ==> r != [] && r[0] == (if IsSafe(s[0]) then s[0] else '_')
  {
    if s == [] then []
    else if IsSafe(s[0]) then [s[0]] + ReplaceUnsafeRuns(s[1..])
    else if |s| > 1 && !IsSafe(s[1]) then ReplaceUnsafeRuns(s[1..])
    else "_" + ReplaceUnsafeRuns(s[1..])
  }

  /** Safe characters pass through unchanged; with `t` empty, a string of
      safe characters is left as it is. */
  lemma {:induction false} ReplaceSafePrefix(a: string, t: string)
    requires Within(a, "")
    ensures ReplaceUnsafeRuns(a + t) == a + ReplaceUnsafeRuns(t)
    decreases |a|
  {
    if a == [] {
      assert a + t == t;
    } else {
      var s := a + t;
      assert a == [a[0]] + a[1..];
      WithinCons(a[0], a[1..], "");
      assert s[0] == a[0];
      assert s[1..] == a[1..] + t;
      ReplaceSafePrefix(a[1..], t);
      assert ReplaceUnsafeRuns(s) == [a[0]] + ReplaceUnsafeRuns(s[1..]);
      ConcatAssoc([a[0]], a[1..], ReplaceUnsafeRuns(t));
    }
  }

  lemma ReplaceLoneUnsafe(c: char, t: string)
    requires !IsSafe(c) && (t == [] || IsSafe(t[0]))
    ensures ReplaceUnsafeRuns([c] + t) == "_" + ReplaceUnsafeRuns(t)
  {
    assert ([c] + t)[1..] == t;
  }

  /** Every character of `u` is outside the class `[A-Za-z0-9 _\-]`. */
  predicate AllUnsafe(u: string) {
    forall i :: 0 <= i < |u| ==> !IsSafe(u[i])
  }

  /** A maximal run of unsafe characters at the front becomes one `_`. */
  lemma {:induction false} UnsafeRunHead(u: string, t: string)
    requires u != [] && AllUnsafe(u) && (t == [] || IsSafe(t[0]))
    ensures ReplaceUnsafeRuns(u + t) == "_" + ReplaceUnsafeRuns(t)
    decreases |u|
  {
    if |u| == 1 {
      assert u == [u[0]];
      ReplaceLoneUnsafe(u[0], t);
    } else {
      var s := u + t;
      assert s[0] == u[0] && s[1] == u[1];
      assert s[1..] == u[1..] + t;
      UnsafeRunHead(u[1..], t);
    }
  }

  /** The whole substitution, run by run: safe characters stay in place and
      each maximal run of unsafe characters, however long, becomes one `_`
      (`a!?b` gives `a_b`). Any string splits into such pieces, so this and
      `ReplaceSafePrefix` fix the result of every input. */
  lemma ReplaceUnsafeRun(a: string, u: string, t: string)
    requires Within(a, "") && u != [] && AllUnsafe(u) && (t == [] || IsSafe(t[0]))
    ensures ReplaceUnsafeRuns(a + u + t) == a + "_" + ReplaceUnsafeRuns(t)
  {
    calc {
      ReplaceUnsafeRuns(a + u + t);
      { ConcatAssoc(a, u, t); }
      ReplaceUnsafeRuns(a + (u + t));
      { ReplaceSafePrefix(a, u + t); }
      a + ReplaceUnsafeRuns(u + t);
      { UnsafeRunHead(u, t); }
      a + ("_" + ReplaceUnsafeRuns(t));
      { ConcatAssoc(a, "_", ReplaceUnsafeRuns(t)); }
      a + "_" + ReplaceUnsafeRuns(t);
    }
  }

  /** `re.sub(r'_+', '_', s)`: every run of `_` becomes one `_`. */
  function CollapseUnderscores(s: string): (r: string)
    ensures NoDoubleUnderscore(r)
    ensures |r| <= |s|
    ensures s != [] ==> r != [] && r[0] == s[0] && r[|r| - 1] == s[|s| - 1]
    ensures NoDoubleUnderscore(s) ==> r == s
  {
    if s == [] then []
    else if |s| > 1 && s[0] == '_' && s[1] == '_' then CollapseUnderscores(s[1..])
    else
      assert NoDoubleUnderscore(s) ==> NoDoubleUnderscore(s[1..]) by {
        if NoDoubleUnderscore(s) {
          forall i, j | 0 <= i && j == i + 1 && j < |s[1..]| ensures s[1..][i] != '_' || s[1..][j] != '_' {
            assert s[1..][i] == s[i + 1] && s[1..][j] == s[j + 1];
          }
        }
      }
      [s[0]] + CollapseUnderscores(s[1..])
  }

  predicate AllUnderscores(u: string) {
    forall i :: 0 <= i < |u| ==> u[i] == '_'
  }

  /** A part with no `__` that does not end in `_` passes through collapsing
      unchanged. */
  lemma {:induction false} CollapseKeepsPrefix(a: string, t: string)
    requires NoDoubleUnderscore(a) && (a == [] || a[|a| - 1] != '_')
    ensures CollapseUnderscores(a + t) == a + CollapseUnderscores(t)
    decreases |a|
  {
    if a == [] {
      assert a + t == t;
    } else {
      var s := a + t;
      assert s[0] == a[0];
      assert s[1..] == a[1..] + t;
      if |a| > 1 {
        assert s[1] == a[1];
      }
      NoDoubleSlice(a, 1, |a|);
      assert a[1..|a|] == a[1..];
      CollapseKeepsPrefix(a[1..], t);
      assert CollapseUnderscores(s) == [a[0]] + CollapseUnderscores(s[1..]);
      ConcatAssoc([a[0]], a[1..], CollapseUnderscores(t));
      assert [a[0]] + a[1..] == a;
    }
  }

  /** A maximal run of `_` at the front becomes one `_`. */
  lemma {:induction false} UnderscoreRunHead(u: string, t: string)
    requires u != [] && AllUnderscores(u) && (t == [] || t[0] != '_')
    ensures CollapseUnderscores(u + t) == "_" + CollapseUnderscores(t)
    decreases |u|
  {
    var s := u + t;
    assert s[0] == '_';
    if |u| == 1 {
      assert s[1..] == t;
      assert |s| > 1 ==> s[1] == t[0];
    } else {
      assert s[1] == u[1];
      assert s[1..] == u[1..] + t;
      UnderscoreRunHead(u[1..], t);
    }
  }

  /** The whole substitution, run by run: every character other than `_`
      stays in place and each maximal run of `_` becomes one `_`
      (`a__b__c` gives `a_b_c`). */
  lemma UnderscoreRun(a: string, u: string, t: string)
    requires NoDoubleUnderscore(a) && (a == [] || a[|a| - 1] != '_')
    requires u != [] && AllUnderscores(u) && (t == [] || t[0] != '_')
    ensures CollapseUnderscores(a + u + t) == a + "_" + CollapseUnderscores(t)
  {
    calc {
      CollapseUnderscores(a + u + t);
      { ConcatAssoc(a, u, t); }
      CollapseUnderscores(a + (u + t));
      { CollapseKeepsPrefix(a, u + t); }
      a + CollapseUnderscores(u + t);
      { UnderscoreRunHead(u, t); }
      a + ("_" + CollapseUnderscores(t));
      { ConcatAssoc(a, "_", CollapseUnderscores(t)); }
      a + "_" + CollapseUnderscores(t);
    }
  }

  lemma WithinCons(c: char, t: string, extra: string)
    ensures Within([c] + t, extra) <==> (IsSafe(c) || c in extra) && Within(t, extra)
  {
    var s := [c] + t;
    assert s[0] == c;
    if (IsSafe(c) || c in extra) && Within(t, extra) {
      forall i | 0 < i < |s| ensures IsSafe(s[i]) || s[i] in extra {
        assert s[i] == t[i - 1];
      }
    }
    if Within(s, extra) {
      forall i | 0 <= i < |t| ensures IsSafe(t[i]) || t[i] in extra {
        assert t[i] == s[i + 1];
      }
    }
  }

  lemma PadsCons(c: char, t: string)
    ensures AllPads([c] + t) <==> IsPad(c) && AllPads(t)
  {
    var s := [c] + t;
    assert s[0] == c;
    if IsPad(c) && AllPads(t) {
      forall i | 0 < i < |s| ensures IsPad(s[i]) {
        assert s[i] == t[i - 1];
      }
    }
    if AllPads(s) {
      forall i | 0 <= i < |t| ensures IsPad(t[i]) {
        assert t[i] == s[i + 1];
      }
    }
  }

  /** Collapsing only removes underscores, so characters drawn from a set
      stay drawn from it. */
  lemma {:induction false} CollapseWithin(s: string, extra: string)
    requires Within(s, extra)
    ensures Within(CollapseUnderscores(s), extra)
    decreases |s|
  {
    if s != [] {
      assert s == [s[0]] + s[1..];
      WithinCons(s[0], s[1..], extra);
      CollapseWithin(s[1..], extra);
      if !(|s| > 1 && s[0] == '_' && s[1] == '_') {
        WithinCons(s[0], CollapseUnderscores(s[1..]), extra);
      }
    }
  }

  /** A character other than `_` or space survives collapsing. */
  lemma {:induction false} CollapsePads(s: string)
    ensures AllPads(CollapseUnderscores(s)) <==> AllPads(s)
    decreases |s|
  {
    if s != [] {
      assert s == [s[0]] + s[1..];
      CollapsePads(s[1..]);
      PadsCons(s[0], s[1..]);
      if !(|s| > 1 && s[0] == '_' && s[1] == '_') {
        PadsCons(s[0], CollapseUnderscores(s[1..]));
      }
    }
  }

  lemma NoDoubleSlice(s: string, lo: nat, hi: nat)
    requires lo <= hi <= |s| && NoDoubleUnderscore(s)
    ensures NoDoubleUnderscore(s[lo..hi])
  {
    forall i, j | 0 <= i && j == i + 1 && j < hi - lo ensures s[lo..hi][i] != '_' || s[lo..hi][j] != '_' {
      assert s[lo..hi][i] == s[lo + i] && s[lo..hi][j] == s[lo + j];
    }
  }

  lemma NoDoubleConcat(a: string, b: string)
    requires NoDoubleUnderscore(a) && NoDoubleUnderscore(b)
    requires a == [] || b == [] || a[|a| - 1] != '_' || b[0] != '_'
    ensures NoDoubleUnderscore(a + b)
  {
    var s := a + b;
    forall i, j | 0 <= i && j == i + 1 && j < |s| ensures s[i] != '_' || s[j] != '_' {
      if j < |a| {
        assert s[i] == a[i] && s[j] == a[j];
      } else if j == |a| {
        assert s[i] == a[|a| - 1] && s[j] == b[0];
      } else {
        assert s[i] == b[i - |a|] && s[j] == b[j - |a|];
      }
    }
  }

  /** `strip('_ ')` keeps the absence of `__`. */
  lemma StripPadsNoDouble(s: string)
    requires NoDoubleUnderscore(s)
    ensures NoDoubleUnderscore(StripPads(s))
  {
    var lo := Leading(s, UnderscoreSpace);
    NoDoubleSlice(s, lo, lo + |StripPads(s)|);
  }

  /** `strip('_ ')` keeps characters drawn from a set drawn from it. */
  lemma StripPadsWithin(s: string, extra: string)
    requires Within(s, extra)
    ensures Within(StripPads(s), extra)
  {
    var lo := Leading(s, UnderscoreSpace);
    var r := StripPads(s);
    assert forall i :: 0 <= i < |r| ==> r[i] == s[lo + i];
  }

  /** One sanitised part of the file name: lines 63-64 for the brand and 65-66
      for the product name. */
  function Sanitize(s: string): (r: string)
    ensures Tidy(r) && Within(r, "")
  {
    var replaced := ReplaceUnsafeRuns(s);
    var collapsed := CollapseUnderscores(replaced);
    CollapseWithin(replaced, "");
    StripPadsNoDouble(collapsed);
    StripPadsWithin(collapsed, "");
    StripPads(collapsed)
  }

  /** When the joined name is empty, which is exactly when both parts sanitise
      to nothing and the extension is made only of `_` and spaces. */
  predicate UsesFallback(brand: string, name: string, ext: string) {
    Sanitize(brand) == [] && Sanitize(name) == [] && AllPads(ext)
  }

  lemma OnlyPadding(b: string, n: string, ext: string)
    requires Tidy(b) && Tidy(n)
    ensures AllPads(b + "_" + n + ext) <==> (b == [] && n == [] && AllPads(ext))
  {
    var x := b + "_" + n + ext;
    if b != [] {
      assert x[0] == b[0];
    } else if n != [] {
      assert x[1] == n[0];
    } else {
      assert x == ['_'] + ext;
      PadsCons('_', ext);
    }
  }

  lemma AllParts(b: string, n: string, ext: string)
    requires Within(b, "") && Within(n, "")
    ensures Within(b + "_" + n + ext, ext)
  {
    var x := b + "_" + n + ext;
    forall i | 0 <= i < |x| ensures IsSafe(x[i]) || x[i] in ext {
      if i < |b| {
        assert x[i] == b[i];
      } else if i == |b| {
        assert x[i] == '_';
      } else if i < |b| + 1 + |n| {
        assert x[i] == n[i - |b| - 1];
      } else {
        assert x[i] == ext[i - |b| - 1 - |n|];
      }
    }
  }

  /** Lines 67-68: the two parts joined by `_` around the extension, collapsed
      and stripped again. The result holds no `__`, neither starts nor ends
      with `_` or a space, and is empty exactly when the joined string is
      made only of `_` and spaces. */
  function Joined(b: string, n: string, ext: string): (r: string)
    ensures NoDoubleUnderscore(r)
    ensures r == [] || (!IsPad(r[0]) && !IsPad(r[|r| - 1]))
    ensures r == [] <==> AllPads(b + "_" + n + ext)
  {
    var x := b + "_" + n + ext;
    CollapsePads(x);
    StripPadsNoDouble(CollapseUnderscores(x));
    StripPads(CollapseUnderscores(x))
  }

  lemma JoinedShape(b: string, n: string, ext: string)
    requires Tidy(b) && Tidy(n)
    ensures Joined(b, n, ext) == [] <==> (b == [] && n == [] && AllPads(ext))
    ensures Tidy(Joined(b, n, ext))
  {
    var x := b + "_" + n + ext;
    OnlyPadding(b, n, ext);
    CollapsePads(x);
    StripPadsNoDouble(CollapseUnderscores(x));
  }

  lemma JoinedChars(b: string, n: string, ext: string)
    requires Within(b, "") && Within(n, "")
    ensures Within(Joined(b, n, ext), ext)
  {
    var x := b + "_" + n + ext;
    AllParts(b, n, ext);
    CollapseWithin(x, ext);
    StripPadsWithin(CollapseUnderscores(x), ext);
  }

  /** `make_image_filename(brand, product_name, ext)`, with an absent brand or
      name given as the empty string. */
  function MakeImageFilename(brand: string, name: string, ext: string): (r: string)
    ensures UsesFallback(brand, name, ext) ==> r == "unknown" + ext
    ensures !UsesFallback(brand, name, ext) ==> r != [] && Tidy(r)
    ensures Within(r, ext)
  {
    var b, n := Sanitize(brand), Sanitize(name);
    JoinedShape(b, n, ext);
    JoinedChars(b, n, ext);
    var joined := Joined(b, n, ext);
    FallbackWithin(ext);
    if joined == [] then "unknown" + ext else joined
  }

  lemma FallbackWithin(ext: string)
    ensures Within("unknown" + ext, ext)
  {
    var s := "unknown" + ext;
    assert Within("unknown", "");
    forall i | 0 <= i < |s| ensures IsSafe(s[i]) || s[i] in ext {
      if i < 7 {
        assert s[i] == "unknown"[i];
      } else {
        assert s[i] == ext[i - 7];
      }
    }
  }

  /** An extension that the joining steps leave alone: it does not start or
      end with `_` or a space and holds no `__` (as `.jpg` or `.webp`). */
  ghost predicate PlainExtension(ext: string) {
    ext != [] && !IsPad(ext[0]) && !IsPad(ext[|ext| - 1]) && NoDoubleUnderscore(ext)
  }

  lemma TrimPlain(x: string)
    requires x != [] && !IsPad(x[0]) && !IsPad(x[|x| - 1])
    ensures StripPads("_" + x) == x
  {
    assert ("_" + x)[1..] == x;
    assert Leading("_" + x, UnderscoreSpace) == 1;
  }

  lemma JoinHasNoDoubleUnderscore(b: string, n: string, ext: string)
    requires Tidy(b) && Tidy(n) && PlainExtension(ext)
    ensures NoDoubleUnderscore(b + "_" + n + ext)
  {
    NoDoubleConcat("_", n);
    NoDoubleConcat("_" + n, ext);
    NoDoubleConcat(b, "_" + n + ext);
    assert b + "_" + n + ext == b + ("_" + n + ext);
  }

  lemma JoinKeepsSingleUnderscores(b: string, n: string, ext: string)
    requires Tidy(b) && Tidy(n) && PlainExtension(ext)
    ensures CollapseUnderscores(b + "_" + n + ext) == b + "_" + n + ext
  {
    JoinHasNoDoubleUnderscore(b, n, ext);
  }

  lemma JoinWithBrand(b: string, n: string, ext: string)
    requires Tidy(b) && Tidy(n) && PlainExtension(ext) && b != []
    ensures Joined(b, n, ext) == b + "_" + n + ext
  {
    JoinKeepsSingleUnderscores(b, n, ext);
    var x := b + "_" + n + ext;
    assert x[0] == b[0] && x[|x| - 1] == ext[|ext| - 1];
  }

  lemma JoinWithoutBrand(n: string, ext: string)
    requires Tidy(n) && PlainExtension(ext)
    ensures Joined([], n, ext) == n + ext
  {
    var x := n + ext;
    assert x[|x| - 1] == ext[|ext| - 1];
    assert x[0] == if n == [] then ext[0] else n[0];
    calc {
      Joined([], n, ext);
      StripPads(CollapseUnderscores([] + "_" + n + ext));
      { JoinKeepsSingleUnderscores([], n, ext); }
      StripPads([] + "_" + n + ext);
      { assert [] + "_" == "_"; ConcatAssoc("_", n, ext); }
      StripPads("_" + x);
      { TrimPlain(x); }
      x;
    }
  }

  lemma JoinBrandOnly(b: string, ext: string)
    requires Tidy(b) && PlainExtension(ext) && b != []
    ensures Joined(b, [], ext) == b + "_" + ext
  {
    JoinWithBrand(b, [], ext);
    assert b + "_" + [] + ext == b + "_" + ext;
  }

  lemma {:induction false} JoinedLayout(b: string, n: string, ext: string)
    requires Tidy(b) && Tidy(n) && PlainExtension(ext)
    ensures Joined(b, n, ext) ==
      if b != [] && n != [] then b + "_" + n + ext
      else if b != [] then b + "_" + ext
      else if n != [] then n + ext
      else ext
  {
    if b != [] && n != [] {
      JoinWithBrand(b, n, ext);
    } else if b != [] {
      JoinBrandOnly(b, ext);
    } else {
      JoinWithoutBrand(n, ext);
      assert n == [] ==> n + ext == ext;
    }
  }

  /** What precedes a plain extension in the file name: `brand_name`,
      `brand_`, `name` or nothing, by which parts survive sanitising. */
  function Stem(brand: string, name: string): string {
    var b, n := Sanitize(brand), Sanitize(name);
    if b != [] && n != [] then b + "_" + n else if b != [] then b + "_" else n
  }

  /** With a plain extension the file name is the stem followed by the
      extension, and the `unknown` fallback never applies. */
  lemma {:induction false} FilenameLayout(brand: string, name: string, ext: string)
    requires PlainExtension(ext)
    ensures MakeImageFilename(brand, name, ext) == Stem(brand, name) + ext
  {
    var b, n := Sanitize(brand), Sanitize(name);
    JoinedLayout(b, n, ext);
    if b != [] && n != [] {
      assert b + "_" + n + ext == (b + "_" + n) + ext;
    } else if b != [] {
      assert b + "_" + ext == (b + "_") + ext;
    }
  }

  /** Empty brand and name with `.jpg` give `.jpg`, not `unknown.jpg`. */
  lemma EmptyPartsKeepExtension()
    ensures MakeImageFilename("", "", ".jpg") == ".jpg"
  {
    assert Stem("", "") == "";
    FilenameLayout("", "", ".jpg");
  }

  /** A brand or name already made of safe characters, with no `__` and no
      `_` or space at either end, survives sanitising unchanged: inner
      spaces are kept. */
  lemma SanitizeKeepsTidy(s: string)
    requires Tidy(s) && Within(s, "")
    ensures Sanitize(s) == s
  {
    ReplaceSafePrefix(s, []);
    assert s + [] == s;
    TidyIsFixed(s);
  }

  /** A word of safe characters that sanitising leaves alone. */
  ghost predicate SafeWord(w: string) {
    w != [] && Tidy(w) && Within(w, "")
  }

  /** An unsafe character between two spaced words becomes `_` and the spaces
      stay: `Ben & Jerry` gives `Ben _ Jerry`, not `Ben_Jerry`. */
  lemma SpacedUnsafeKeepsSpaces(w1: string, c: char, w2: string)
    requires SafeWord(w1) && SafeWord(w2) && !IsSafe(c)
    ensures Sanitize(w1 + " " + [c] + " " + w2) == w1 + " _ " + w2
  {
    SpacedReplace(w1, c, w2);
    SpacedTidy(w1, w2);
    TidyIsFixed(w1 + " _ " + w2);
  }

  lemma SpacedReplace(w1: string, c: char, w2: string)
    requires Within(w1, "") && Within(w2, "") && !IsSafe(c)
    ensures ReplaceUnsafeRuns(w1 + " " + [c] + " " + w2) == w1 + " _ " + w2
  {
    var head, tail := w1 + " ", " " + w2;
    assert Within(head, "") && Within(tail, "");
    calc {
      ReplaceUnsafeRuns(w1 + " " + [c] + " " + w2);
      { ConcatAssoc(head + [c], " ", w2); }
      ReplaceUnsafeRuns(head + [c] + tail);
      { ConcatAssoc(head, [c], tail); }
      ReplaceUnsafeRuns(head + ([c] + tail));
      { ReplaceSafePrefix(head, [c] + tail); }
      head + ReplaceUnsafeRuns([c] + tail);
      { ReplaceLoneUnsafe(c, tail); ReplaceSafePrefix(tail, []); assert tail + [] == tail; }
      head + ("_" + tail);
      { ConcatAssoc(head, "_", tail); }
      head + "_" + tail;
      { ConcatAssoc(head + "_", " ", w2); }
      head + "_" + " " + w2;
      { ConcatAssoc(w1, " ", "_"); ConcatAssoc(w1, " _", " "); assert " " + "_" + " " == " _ "; }
      w1 + " _ " + w2;
    }
  }

  lemma SpacedTidy(w1: string, w2: string)
    requires SafeWord(w1) && SafeWord(w2)
    ensures Tidy(w1 + " _ " + w2)
  {
    var y := w1 + " _ " + w2;
    NoDoubleConcat(w1, " _ ");
    NoDoubleConcat(w1 + " _ ", w2);
    assert y[0] == w1[0] && y[|y| - 1] == w2[|w2| - 1];
  }

  lemma TidyIsFixed(s: string)
    requires Tidy(s)
    ensures StripPads(CollapseUnderscores(s)) == s
  {
  }

  /** Sanitising twice is sanitising once. */
  lemma SanitizeIdempotent(s: string)
    ensures Sanitize(Sanitize(s)) == Sanitize(s)
  {
    SanitizeKeepsTidy(Sanitize(s));
  }

  /** `PurePath(p).name`: the last component that is neither empty nor `.`. */
  function PathName(p: string): (r: string)
    ensures '/' !in r && r != "."
    decreases |p|
  {
    var i := LastIndexOf(p, '/');
    var last := p[i + 1..];
    if last != "" && last != "." then last
    else if i < 0 then ""
    else PathName(p[..i])
  }

  /** `PurePath.suffix` of a file name: from its last `.` on, when that dot is
      neither the first nor the last character; otherwise empty. */
  function NameSuffix(name: string): (r: string)
    ensures r == [] || (2 <= |r| < |name| && r == name[|name| - |r|..] && r[0] == '.' && '.' !in r[1..])
  {
    var i := LastIndexOf(name, '.');
    if 0 < i < |name| - 1 then name[i..] else []
  }

  /** A file name has no suffix exactly when no dot other than its first or
      last character is the last dot. */
  lemma NoSuffixExactly(name: string)
    ensures NameSuffix(name) == [] <==> !(exists i :: 0 < i < |name| - 1 && name[i] == '.' && '.' !in name[i + 1..])
  {
    var k := LastIndexOf(name, '.');
    if 0 < k < |name| - 1 {
      var tail := name[k + 1..];
      forall j | 0 <= j < |tail| ensures tail[j] != '.' {
        assert tail[j] == name[k + 1 + j];
      }
    } else {
      forall i | 0 < i < |name| - 1 && name[i] == '.' ensures '.' in name[i + 1..] {
        assert k > i;
        assert name[i + 1..][k - i - 1] == name[k];
      }
    }
  }

  function PathSuffix(url: string): (r: string)
    ensures '/' !in r
  {
    NameSuffix(PathName(url))
  }

  /** `Path(url).suffix.split('?')[0].lower() or '.jpg'`. */
  function ImageExtension(url: string): (ext: string)
    ensures ext != [] && ext[0] == '.'
    ensures '?' !in ext && '/' !in ext && forall i :: 0 <= i < |ext| ==> !IsUpper(ext[i])
    ensures PathSuffix(url) == [] ==> ext == ".jpg"
    ensures var sfx := PathSuffix(url);
      sfx != [] ==> |ext| <= |sfx| && ext == Lower(sfx[..|ext|]) && (|ext| == |sfx| || sfx[|ext|] == '?')
  {
    var sfx := PathSuffix(url);
    var b := Before(sfx, '?');
    LowerKeepsSymbol(b, '?');
    LowerKeepsSymbol(b, '/');
    assert sfx != [] ==> sfx[0] == b[0] == '.';
    var e := Lower(b);
    if e == [] then ".jpg" else e
  }

  /** A path with no `/` is its own name, unless it is `.`. */
  lemma PathNameNoSlash(p: string)
    requires '/' !in p && p != "."
    ensures PathName(p) == p
  {
    assert LastIndexOf(p, '/') == -1;
    assert p[0..] == p;
  }

  /** `PurePath('.').name` is empty. */
  lemma PathNameDot()
    ensures PathName(".") == ""
  {
    assert LastIndexOf(".", '/') == -1;
  }

  /** A trailing `/` is ignored: `a.png/` is named `a.png`. */
  lemma PathNameTrailingSlash(d: string)
    ensures PathName(d + "/") == PathName(d)
  {
    var p := d + "/";
    assert LastIndexOf(p, '/') == |d|;
    assert p[|d| + 1..] == "";
    assert p[..|d|] == d;
  }

  /** A trailing `/.` is ignored too. */
  lemma PathNameTrailingDot(d: string)
    ensures PathName(d + "/.") == PathName(d)
  {
    var p := d + "/.";
    LastIndexAt(d, '/', ".");
    assert d + ['/'] + "." == p;
    assert p[|d| + 1..] == ".";
    assert p[..|d|] == d;
  }

  lemma PathNameOfFile(dir: string, file: string)
    requires '/' !in file && file != "" && file != "."
    ensures PathName(dir + "/" + file) == file
  {
    LastIndexAt(dir, '/', file);
    assert (dir + "/" + file)[|dir| + 1..] == file;
  }

  lemma ConcatAssoc(a: string, b: string, c: string)
    ensures a + b + c == a + (b + c)
  {
  }

  lemma SliceAfterFirst(a: string, b: string)
    requires a != []
    ensures (a + b)[1..] == a[1..] + b
  {
  }

  /** For a URL whose last component is `<stem><e>?<q>`, where `e` is the
      only dotted part, the extension is `e` lowercased and the query is cut
      off (`a.JPG?w=2` gives `.jpg`). */
  lemma ExtensionBeforeQuery(dir: string, stem: string, e: string, q: string)
    requires stem != [] && |e| >= 2 && e[0] == '.' && '.' !in e[1..] && '?' !in e && '.' !in q
    requires '/' !in stem && '/' !in e && '/' !in q
    ensures ImageExtension(dir + "/" + (stem + (e + ("?" + q)))) == Lower(e)
  {
    var tail := e + ("?" + q);
    SliceAfterFirst(e, "?" + q);
    PathNameOfFile(dir, stem + tail);
    SuffixAfterStem(stem, tail);
    BeforeAt(e, '?', q);
  }

  /** A URL whose last component has no dot gets `.jpg`. */
  lemma ExtensionDefaultsToJpg(dir: string, file: string)
    requires '/' !in file && '.' !in file && file != ""
    ensures ImageExtension(dir + "/" + file) == ".jpg"
  {
    PathNameOfFile(dir, file);
    assert LastIndexOf(file, '.') == -1;
  }

  lemma DottedQueryName()
    ensures PathName("http://x/a.png?v=1.2") == "a.png?v=1.2"
    ensures NameSuffix("a.png?v=1.2") == ".2"
  {
    assert "http://x/a.png?v=1.2" == "http://x" + "/" + "a.png?v=1.2";
    PathNameOfFile("http://x", "a.png?v=1.2");
    assert "a.png?v=1.2" == "a.png?v=1" + ".2";
    SuffixAfterStem("a.png?v=1", ".2");
  }

  /** The suffix is taken before the query is cut off, so a dot inside the
      query wins: `a.png?v=1.2` is given the extension `.2`. */
  lemma ExtensionOfDottedQuery()
    ensures ImageExtension("http://x/a.png?v=1.2") == ".2"
  {
    DottedQueryName();
    assert Before(".2", '?') == ".2";
    assert Lower(".2") == ".2";
  }

  /** An extension can end in `_`: `http://h/a.x_` gives `.x_`. */
  lemma PaddedExtension()
    ensures ImageExtension("http://h/a.x_") == ".x_"
  {
    PaddedSuffix();
    assert Before(".x_", '?') == ".x_";
    assert Lower(".x_") == ".x_";
  }

  lemma PaddedSuffix()
    ensures PathSuffix("http://h/a.x_") == ".x_"
  {
    assert "http://h/a.x_" == "http://h" + "/" + "a.x_";
    PathNameOfFile("http://h", "a.x_");
    assert "a.x_" == "a" + ".x_";
    SuffixAfterStem("a", ".x_");
  }

  /** Such an extension is not kept verbatim: with a brand and name that
      sanitise to nothing, `.x_` gives the file name `.x`. */
  lemma PaddedFileName(brand: string, name: string)
    requires Sanitize(brand) == [] && Sanitize(name) == []
    ensures MakeImageFilename(brand, name, ".x_") == ".x"
  {
    JoinedPadded();
  }

  lemma JoinedPadded()
    ensures Joined([], [], ".x_") == ".x"
  {
    var x := "_.x_";
    assert [] + "_" + [] + ".x_" == x;
    assert NoDoubleUnderscore(x);
    assert CollapseUnderscores(x) == x;
    assert Leading(x, UnderscoreSpace) == 1;
    assert StripPads(x) == ".x";
  }

  /** A suffix that is only a dot before the query leaves `.` as the
      extension. */
  lemma DotBeforeQuery()
    ensures ImageExtension("http://x/a.?v=1") == "."
  {
    assert "http://x/a.?v=1" == "http://x" + "/" + "a.?v=1";
    PathNameOfFile("http://x", "a.?v=1");
    assert "a.?v=1" == "a" + ".?v=1";
    SuffixAfterStem("a", ".?v=1");
    assert Before(".?v=1", '?') == ".";
    assert Lower(".") == ".";
  }

  /** With a brand and name that sanitise to nothing and the extension `.`,
      the file name is `.`. */
  lemma DotFileName(brand: string, name: string)
    requires Sanitize(brand) == [] && Sanitize(name) == []
    ensures MakeImageFilename(brand, name, ".") == "."
  {
    assert [] + "_" + [] + "." == "_.";
    assert CollapseUnderscores("_.") == "_.";
    assert Leading("_.", UnderscoreSpace) == 1;
    assert Joined([], [], ".") == ".";
  }

  /** `PurePath.with_suffix(sfx)` on a file name: the suffix, if any, is
      replaced by `sfx`, so the result ends with `sfx` and what precedes
      `sfx` followed by the old suffix is the name again. */
  function WithSuffix(name: string, sfx: string): (r: string)
    ensures |sfx| <= |r| && r[|r| - |sfx|..] == sfx
    ensures r[..|r| - |sfx|] + NameSuffix(name) == name
  {
    var stem := name[..|name| - |NameSuffix(name)|];
    assert (stem + sfx)[..|stem|] == stem;
    stem + sfx
  }

  /** The stored file name: a WebP image is written as PNG under the same
      stem (lines 186-189); every other image keeps its file name. */
  function DestinationName(fileName: string, ext: string): (r: string)
    ensures ext == ".webp" ==> |r| >= 4 && r[|r| - 4..] == ".png"
    ensures ext != ".webp" ==> r == fileName
  {
    if ext == ".webp" then WithSuffix(fileName, ".png") else fileName
  }

  lemma SuffixAfterStem(stem: string, ext: string)
    requires |ext| >= 2 && ext[0] == '.' && '.' !in ext[1..]
    ensures NameSuffix(stem + ext) == if stem == [] then [] else ext
  {
    var s := stem + ext;
    var i := LastIndexOf(s, '.');
    assert s[|stem|] == '.';
    forall j | |stem| < j < |s| ensures s[j] != '.' {
      assert s[j] == ext[1..][j - |stem| - 1];
    }
    assert i == |stem|;
    if stem != [] {
      assert s[i..] == ext;
    }
  }

  /** What `with_suffix('.png')` makes of `<stem>.webp`: `<stem>.png`, except
      that `.webp` alone has no suffix, so it becomes `.webp.png`. */
  lemma WebpStemToPng(stem: string)
    ensures DestinationName(stem + ".webp", ".webp") == if stem == [] then ".webp.png" else stem + ".png"
  {
    SuffixAfterStem(stem, ".webp");
    assert (stem + ".webp")[..|stem|] == stem;
  }

  /** A WebP image's file name is `<stem>.webp` and it is stored as
      `<stem>.png`; when brand and name both sanitise to nothing the file
      name is `.webp` and the stored name `.webp.png`. */
  lemma WebpStoredAsPng(brand: string, name: string)
    ensures var stem := Stem(brand, name);
      && MakeImageFilename(brand, name, ".webp") == stem + ".webp"
      && DestinationName(stem + ".webp", ".webp") == if stem == [] then ".webp.png" else stem + ".png"
  {
    FilenameLayout(brand, name, ".webp");
    WebpStemToPng(Stem(brand, name));
  }

  lemma WithSuffixFlat(fileName: string, sfx: string)
    requires '/' !in fileName && '/' !in sfx
    ensures '/' !in WithSuffix(fileName, sfx)
  {
    var k := |fileName| - |NameSuffix(fileName)|;
    var stored := fileName[..k] + sfx;
    forall i | 0 <= i < |stored| ensures stored[i] != '/' {
      if i < k {
        assert stored[i] == fileName[i];
      } else {
        assert stored[i] == sfx[i - k];
      }
    }
  }

  /** The stored file name never holds a path separator, so it never names
      a file in a subdirectory of the image directory. */
  lemma StoredNameIsFlat(brand: string, name: string, url: string)
    ensures var ext := ImageExtension(url);
      '/' !in DestinationName(MakeImageFilename(brand, name, ext), ext)
  {
    var ext := ImageExtension(url);
    var fn := MakeImageFilename(brand, name, ext);
    WithinIsFlat(fn, ext);
    WithSuffixFlat(fn, ".png");
  }

  /** Every extension the sheets derive starts with `.`, so the `unknown`
      fallback never applies to them: a product with no usable brand or name
      gets a file named by its extension, stripped of any trailing `_` and
      spaces and with `__` collapsed (`.jpg` stays `.jpg`, `.x_` gives
      `.x`). */
  lemma FallbackNeverApplies(brand: string, name: string, url: string)
    ensures !UsesFallback(brand, name, ImageExtension(url))
    ensures Sanitize(brand) == [] && Sanitize(name) == [] ==>
      MakeImageFilename(brand, name, ImageExtension(url)) != "unknown" + ImageExtension(url)
  {
    var ext := ImageExtension(url);
    assert !IsPad(ext[0]);
    var r := MakeImageFilename(brand, name, ext);
    if Sanitize(brand) == [] && Sanitize(name) == [] {
      JoinedShape([], [], ext);
      assert r == Joined([], [], ext);
      assert |r| <= |ext| + 1;
    }
  }

  lemma WithinIsFlat(s: string, extra: string)
    requires Within(s, extra) && '/' !in extra
    ensures '/' !in s
  {
    forall i | 0 <= i < |s| ensures s[i] != '/' {
      assert IsSafe(s[i]) || s[i] in extra;
    }
  }
}
