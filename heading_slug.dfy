/** Heading identifiers. Both converters lower-case the heading text, turn
    every run of characters outside the allow-set into one `-` and trim `-`
    from both ends (convert-to-html.js `renderer.heading`,
    convert-to-html-improved.js `renderer.heading`); the improved converter
    first removes everything that looks like a tag. */
module HeadingSlug {
  import opened JsString

  /** `\w` of a JavaScript regular expression without the `u` flag. */
  predicate IsWordChar(c: char) {
    'a' <= c <= 'z' || 'A' <= c <= 'Z' || '0' <= c <= '9' || c == '_'
  }

  /** The characters the slug pattern `[^\w぀-ゟ゠-ヿ一-龯]`
      leaves alone: word characters, hiragana, katakana and CJK ideographs. */
  predicate IsSlugChar(c: char) {
    IsWordChar(c)
    || '\U{3040}' <= c <= '\U{309F}'
    || '\U{30A0}' <= c <= '\U{30FF}'
    || '\U{4E00}' <= c <= '\U{9FAF}'
  }

  predicate IsUpperAscii(c: char) {
    'A' <= c <= 'Z'
  }

  function LowerAscii(c: char): char {
    if IsUpperAscii(c) then (c as int + 32) as char else c
  }

  /** `toLowerCase()`, for the ASCII letters. */
  function ToLowerAscii(s: string): (r: string)
    ensures |r| == |s|
    ensures forall i :: 0 <= i < |r| ==> !IsUpperAscii(r[i])
    ensures forall i :: 0 <= i < |r| ==> (IsSlugChar(r[i]) <==> IsSlugChar(s[i]))
  {
    if s == [] then [] else [LowerAscii(s[0])] + ToLowerAscii(s[1..])
  }

  /** No `<` in `s` has a `>` anywhere after it, so no text of the form
      `<...>` is left. */
  predicate NoTag(s: string) {
    forall i, j :: 0 <= i < j < |s| && s[i] == '<' ==> s[j] != '>'
  }

  /** `s.replace(/<[^>]*>/g, '')`: from left to right, a `<` that has a `>`
      somewhere after it is removed together with everything up to and
      including the first such `>`; a `<` with no `>` after it stays. */
  function StripTags(s: string): (r: string)
    decreases |s|
    ensures |r| <= |s|
    ensures '<' !in s ==> r == s
    ensures NoTag(r)
    ensures forall i :: 0 <= i < |r| ==> r[i] in s
  {
    if s == [] then []
    else if s[0] == '<' && '>' in s[1..] then
      StripTags(s[FirstIndexOfChar(s[1..], '>') + 2..])
    else
      var rest := StripTags(s[1..]);
      assert s[0] == '<' ==> '>' !in rest;
      [s[0]] + rest
  }

  /** A tag in front of any text is removed whole, and the rest is stripped
      on its own. */
  lemma StripTagsRemovesTag(name: string, rest: string)
    requires '>' !in name
    ensures StripTags("<" + name + ">" + rest) == StripTags(rest)
  {
    var s := "<" + name + ">" + rest;
    assert s[1..] == name + ">" + rest;
    assert s[1..][|name|] == '>';
    assert '>' in s[1..];
    var k := FirstIndexOfChar(s[1..], '>');
    assert k == |name|;
    assert s[k + 2..] == rest;
  }

  /** Text before the first `<` is kept as it is. */
  lemma {:induction false} StripTagsKeepsText(x: string, rest: string)
    requires '<' !in x
    ensures StripTags(x + rest) == x + StripTags(rest)
  {
    if x != [] {
      var s := x + rest;
      assert s[0] == x[0] && s[1..] == x[1..] + rest;
      StripTagsStep(s);
      StripTagsKeepsText(x[1..], rest);
      assert x == [x[0]] + x[1..];
    } else {
      assert x + rest == rest;
    }
  }

  /** A `<` with no `>` anywhere after it stays, and so does everything
      after it: text without `>` holds no tag. */
  lemma {:induction false} StripTagsKeepsUnclosed(s: string)
    requires '>' !in s
    ensures StripTags(s) == s
  {
    if s != [] {
      assert '>' !in s[1..];
      StripTagsStep(s);
      StripTagsKeepsUnclosed(s[1..]);
      assert s == [s[0]] + s[1..];
    }
  }

  /** A character that does not open a tag is kept. */
  lemma StripTagsStep(s: string)
    requires s != [] && !(s[0] == '<' && '>' in s[1..])
    ensures StripTags(s) == [s[0]] + StripTags(s[1..])
  {
  }

  /** Drops the run of characters outside the allow-set at the front of `s`. */
  function DropDisallowed(s: string): (r: string)
    ensures |r| <= |s|
    ensures r == s[|s| - |r|..]
    ensures r == [] || IsSlugChar(r[0])
  {
    if s != [] && !IsSlugChar(s[0]) then DropDisallowed(s[1..]) else s
  }

  /** `s.replace(/[^\w぀-...]+/g, '-')`: every maximal run of characters
      outside the allow-set becomes a single `-`. */
  function CollapseRuns(s: string): (r: string)
    decreases |s|
  {
    if s == [] then []
    else if IsSlugChar(s[0]) then [s[0]] + CollapseRuns(s[1..])
    else "-" + CollapseRuns(DropDisallowed(s[1..]))
  }

  function TrimLeadingHyphens(s: string): (r: string)
    ensures |r| <= |s| && r == s[|s| - |r|..]
    ensures r == [] || r[0] != '-'
    ensures forall i :: 0 <= i < |s| - |r| ==> s[i] == '-'
  {
    if s != [] && s[0] == '-' then TrimLeadingHyphens(s[1..]) else s
  }

  function TrimTrailingHyphens(s: string): (r: string)
    ensures |r| <= |s| && r == s[..|r|]
    ensures r == [] || r[|r| - 1] != '-'
    ensures forall i :: |r| <= i < |s| ==> s[i] == '-'
  {
    if s != [] && s[|s| - 1] == '-' then TrimTrailingHyphens(s[..|s| - 1]) else s
  }

  /** `s.replace(/^-+|-+$/g, '')` */
  function TrimHyphens(s: string): string {
    TrimTrailingHyphens(TrimLeadingHyphens(s))
  }

  /** The slug pipeline the two converters share. */
  function Slugify(text: string): string {
    TrimHyphens(CollapseRuns(ToLowerAscii(text)))
  }

  /** The heading id of the improved converter: tags stripped first. */
  function HeadingId(text: string): string {
    Slugify(StripTags(text))
  }

  /** The heading id of the original converter: slugged from the raw text. */
  function OriginalHeadingId(text: string): string {
    Slugify(text)
  }

  // ---------------------------------------------------------------------
  // What a slug looks like

  /** Only lower-case word characters, the three Japanese ranges and `-`. */
  predicate SlugAlphabet(s: string) {
    forall i :: 0 <= i < |s| ==> s[i] == '-' || (IsSlugChar(s[i]) && !IsUpperAscii(s[i]))
  }

  predicate NoDoubleHyphen(s: string) {
    forall i :: 0 <= i < |s| - 1 ==> !(s[i] == '-' && s[i + 1] == '-')
  }

  predicate NoEdgeHyphen(s: string) {
    s == [] || (s[0] != '-' && s[|s| - 1] != '-')
  }

  predicate IsSlug(s: string) {
    SlugAlphabet(s) && NoDoubleHyphen(s) && NoEdgeHyphen(s)
  }

  lemma {:induction false} CollapseRunsShape(s: string)
    requires forall i :: 0 <= i < |s| ==> !IsUpperAscii(s[i])
    ensures SlugAlphabet(CollapseRuns(s)) && NoDoubleHyphen(CollapseRuns(s))
    ensures var r := CollapseRuns(s); r != [] && r[0] == '-' ==> |r| == 1 || r[1] != '-'
    decreases |s|
  {
    if s != [] {
      if IsSlugChar(s[0]) {
        CollapseRunsShape(s[1..]);
        var t := CollapseRuns(s[1..]);
        assert CollapseRuns(s) == [s[0]] + t;
        PrependSlugChar(s[0], t);
      } else {
        var d := DropDisallowed(s[1..]);
        assert forall i :: 0 <= i < |d| ==> d[i] == s[1..][|s[1..]| - |d| + i];
        CollapseRunsShape(d);
        var t := CollapseRuns(d);
        assert t != [] ==> t[0] == d[0] by {
          if d != [] {
            assert IsSlugChar(d[0]);
          }
        }
        assert CollapseRuns(s) == "-" + t;
        PrependHyphen(t);
      }
    }
  }

  lemma PrependSlugChar(c: char, t: string)
    requires IsSlugChar(c) && !IsUpperAscii(c) && SlugAlphabet(t) && NoDoubleHyphen(t)
    ensures SlugAlphabet([c] + t) && NoDoubleHyphen([c] + t) && ([c] + t)[0] != '-'
  {
    var r := [c] + t;
    forall i | 1 <= i < |r| - 1 ensures !(r[i] == '-' && r[i + 1] == '-') {
      assert r[i] == t[i - 1] && r[i + 1] == t[i];
    }
  }

  lemma PrependHyphen(t: string)
    requires SlugAlphabet(t) && NoDoubleHyphen(t) && (t == [] || t[0] != '-')
    ensures SlugAlphabet("-" + t) && NoDoubleHyphen("-" + t)
    ensures |"-" + t| == 1 || ("-" + t)[1] != '-'
  {
    var r := "-" + t;
    forall i | 1 <= i < |r| - 1 ensures !(r[i] == '-' && r[i + 1] == '-') {
      assert r[i] == t[i - 1] && r[i + 1] == t[i];
    }
  }

  lemma SliceKeepsShape(s: string, a: nat, b: nat)
    requires a <= b <= |s|
    requires SlugAlphabet(s) && NoDoubleHyphen(s)
    ensures SlugAlphabet(s[a..b]) && NoDoubleHyphen(s[a..b])
  {
    var t := s[a..b];
    forall i | 0 <= i < |t| - 1 ensures !(t[i] == '-' && t[i + 1] == '-') {
      assert t[i] == s[a + i] && t[i + 1] == s[a + i + 1];
    }
    forall i | 0 <= i < |t| ensures t[i] == '-' || (IsSlugChar(t[i]) && !IsUpperAscii(t[i])) {
      assert t[i] == s[a + i];
    }
  }

  /** Every slug uses only `[a-z0-9_]`, hiragana, katakana, CJK ideographs
      and `-`, never holds `--`, and never starts or ends with `-`. */
  lemma SlugifyIsSlug(text: string)
    ensures IsSlug(Slugify(text))
  {
    var c := CollapseRuns(ToLowerAscii(text));
    CollapseRunsShape(ToLowerAscii(text));
    var l := TrimLeadingHyphens(c);
    SliceKeepsShape(c, |c| - |l|, |c|);
    var t := TrimTrailingHyphens(l);
    SliceKeepsShape(l, 0, |t|);
    assert t == [] || t[0] == l[0];
  }

  lemma HeadingIdIsSlug(text: string)
    ensures IsSlug(HeadingId(text))
  {
    SlugifyIsSlug(StripTags(text));
  }

  lemma OriginalHeadingIdIsSlug(text: string)
    ensures IsSlug(OriginalHeadingId(text))
  {
    SlugifyIsSlug(text);
  }

  /** In particular a slug can never close the `id="..."` attribute it is
      written into, nor open or close a tag. */
  lemma SlugIsAttributeSafe(s: string)
    requires IsSlug(s)
    ensures '"' !in s && '<' !in s && '>' !in s
  {
  }

  // ---------------------------------------------------------------------
  // What a slug keeps

  /** The allowed characters of `s`, in order. */
  function Kept(s: string): string {
    if s == [] then []
    else (if IsSlugChar(s[0]) then [s[0]] else []) + Kept(s[1..])
  }

  lemma {:induction false} KeptConcat(a: string, b: string)
    ensures Kept(a + b) == Kept(a) + Kept(b)
  {
    if a == [] {
      assert a + b == b;
    } else {
      var head := if IsSlugChar(a[0]) then [a[0]] else [];
      assert (a + b)[0] == a[0];
      assert (a + b)[1..] == a[1..] + b;
      calc {
        Kept(a + b);
        head + Kept(a[1..] + b);
        { KeptConcat(a[1..], b); }
        head + (Kept(a[1..]) + Kept(b));
        (head + Kept(a[1..])) + Kept(b);
      }
    }
  }

  lemma {:induction false} KeptDropDisallowed(s: string)
    ensures Kept(DropDisallowed(s)) == Kept(s)
  {
    if s != [] && !IsSlugChar(s[0]) {
      KeptDropDisallowed(s[1..]);
    }
  }

  lemma {:induction false} KeptCollapseRuns(s: string)
    ensures Kept(CollapseRuns(s)) == Kept(s)
    decreases |s|
  {
    if s != [] {
      if IsSlugChar(s[0]) {
        KeptConcat([s[0]], CollapseRuns(s[1..]));
        KeptCollapseRuns(s[1..]);
        assert Kept([s[0]]) == [s[0]];
      } else {
        var d := DropDisallowed(s[1..]);
        KeptConcat("-", CollapseRuns(d));
        KeptCollapseRuns(d);
        KeptDropDisallowed(s[1..]);
        assert Kept("-") == [];
      }
    }
  }

  lemma {:induction false} KeptTrimLeading(s: string)
    ensures Kept(TrimLeadingHyphens(s)) == Kept(s)
  {
    if s != [] && s[0] == '-' {
      KeptTrimLeading(s[1..]);
      TrimLeadingStep(s);
      KeptSkipsHyphen(s);
    }
  }

  lemma TrimLeadingStep(s: string)
    requires s != [] && s[0] == '-'
    ensures TrimLeadingHyphens(s) == TrimLeadingHyphens(s[1..])
  {
  }

  lemma KeptSkipsHyphen(s: string)
    requires s != [] && s[0] == '-'
    ensures Kept(s) == Kept(s[1..])
  {
    assert !IsSlugChar(s[0]);
  }

  lemma {:induction false} KeptTrimTrailing(s: string)
    ensures Kept(TrimTrailingHyphens(s)) == Kept(s)
    decreases |s|
  {
    if s != [] && s[|s| - 1] == '-' {
      var p := s[..|s| - 1];
      KeptTrimTrailing(p);
      assert s == p + "-";
      KeptConcat(p, "-");
      assert Kept("-") == [];
    }
  }

  /** A slug drops only characters outside the allow-set: its allowed
      characters are exactly those of the lower-cased text, in order. */
  lemma SlugifyKeepsAllowed(text: string)
    ensures Kept(Slugify(text)) == Kept(ToLowerAscii(text))
  {
    var c := CollapseRuns(ToLowerAscii(text));
    KeptCollapseRuns(ToLowerAscii(text));
    KeptTrimLeading(c);
    KeptTrimTrailing(TrimLeadingHyphens(c));
  }

  // ---------------------------------------------------------------------
  // Where the hyphens go

  predicate AllSlugChars(s: string) {
    forall i :: 0 <= i < |s| ==> IsSlugChar(s[i])
  }

  predicate NoSlugChars(s: string) {
    forall i :: 0 <= i < |s| ==> !IsSlugChar(s[i])
  }

  /** A run of disallowed characters in front of an allowed one (or of
      nothing) is dropped whole. */
  lemma {:induction false} DropRun(d: string, y: string)
    requires NoSlugChars(d) && (y == [] || IsSlugChar(y[0]))
    ensures DropDisallowed(d + y) == y
  {
    if d == [] {
      assert d + y == y;
    } else {
      var s := d + y;
      assert s[0] == d[0] && s[1..] == d[1..] + y;
      DropRun(d[1..], y);
    }
  }

  /** Dropping stops inside `a` when `a` ends with an allowed character. */
  lemma {:induction false} DropBeforeSlug(a: string, z: string)
    requires a != [] && IsSlugChar(a[|a| - 1])
    ensures DropDisallowed(a) != []
    ensures DropDisallowed(a + z) == DropDisallowed(a) + z
  {
    var s := a + z;
    assert s[0] == a[0];
    if !IsSlugChar(a[0]) {
      assert s[1..] == a[1..] + z;
      assert a[1..][|a| - 2] == a[|a| - 1];
      DropBeforeSlug(a[1..], z);
    }
  }

  lemma CollapseSlugStep(s: string)
    requires s != [] && IsSlugChar(s[0])
    ensures CollapseRuns(s) == [s[0]] + CollapseRuns(s[1..])
  {
  }

  lemma CollapseRunStep(s: string)
    requires s != [] && !IsSlugChar(s[0])
    ensures CollapseRuns(s) == "-" + CollapseRuns(DropDisallowed(s[1..]))
  {
  }

  lemma PrefixGlue(p: string, a: string, b: string, ab: string)
    requires ab == a + b
    ensures p + ab == (p + a) + b
  {
  }

  /** Collapsing works piece by piece when the first piece ends with an
      allowed character, since no run then crosses the cut. */
  lemma {:induction false} CollapseRunsConcat(x: string, z: string)
    requires x == [] || IsSlugChar(x[|x| - 1])
    ensures CollapseRuns(x + z) == CollapseRuns(x) + CollapseRuns(z)
    decreases |x|
  {
    if x == [] {
      assert x + z == z;
    } else {
      var s := x + z;
      var a := x[1..];
      assert s[0] == x[0] && s[1..] == a + z;
      if IsSlugChar(x[0]) {
        if a != [] {
          assert a[|a| - 1] == x[|x| - 1];
        }
        CollapseSlugStep(s);
        CollapseSlugStep(x);
        CollapseRunsConcat(a, z);
        PrefixGlue([x[0]], CollapseRuns(a), CollapseRuns(z), CollapseRuns(a + z));
      } else {
        assert a[|a| - 1] == x[|x| - 1];
        DropBeforeSlug(a, z);
        var d := DropDisallowed(a);
        assert d[|d| - 1] == a[|a| - 1];
        CollapseRunStep(s);
        CollapseRunStep(x);
        CollapseRunsConcat(d, z);
        PrefixGlue("-", CollapseRuns(d), CollapseRuns(z), CollapseRuns(d + z));
      }
    }
  }

  /** Allowed characters are copied one for one. */
  lemma {:induction false} CollapseRunsWord(w: string)
    requires AllSlugChars(w)
    ensures CollapseRuns(w) == w
  {
    if w != [] {
      CollapseRunsWord(w[1..]);
      assert w == [w[0]] + w[1..];
    }
  }

  /** A maximal run of disallowed characters becomes exactly one `-` in its
      place, and the text on either side is collapsed on its own. */
  lemma CollapseRunsAtRun(x: string, d: string, y: string)
    requires x == [] || IsSlugChar(x[|x| - 1])
    requires d != [] && NoSlugChars(d)
    requires y == [] || IsSlugChar(y[0])
    ensures CollapseRuns(x + d + y) == CollapseRuns(x) + "-" + CollapseRuns(y)
  {
    var z := d + y;
    assert x + d + y == x + z;
    CollapseRunsConcat(x, z);
    assert CollapseRuns(x + d + y) == CollapseRuns(x) + CollapseRuns(z);
    CollapseRunsRun(d, y);
    assert CollapseRuns(z) == "-" + CollapseRuns(y);
    HyphenGlue(CollapseRuns(x), CollapseRuns(z), CollapseRuns(y));
  }

  lemma HyphenGlue(a: string, b: string, c: string)
    requires b == "-" + c
    ensures a + b == a + "-" + c
  {
  }

  lemma CollapseRunsRun(d: string, y: string)
    requires d != [] && NoSlugChars(d)
    requires y == [] || IsSlugChar(y[0])
    ensures CollapseRuns(d + y) == "-" + CollapseRuns(y)
  {
    var s := d + y;
    assert s[0] == d[0] && s[1..] == d[1..] + y;
    DropRun(d[1..], y);
  }

  lemma {:induction false} ToLowerConcat(a: string, b: string)
    ensures ToLowerAscii(a + b) == ToLowerAscii(a) + ToLowerAscii(b)
  {
    if a == [] {
      assert a + b == b;
    } else {
      assert (a + b)[0] == a[0] && (a + b)[1..] == a[1..] + b;
      ToLowerConcat(a[1..], b);
    }
  }

  /** Lower-casing keeps each character's class. */
  lemma LowerKeepsClasses(s: string)
    ensures AllSlugChars(s) ==> AllSlugChars(ToLowerAscii(s))
    ensures NoSlugChars(s) ==> NoSlugChars(ToLowerAscii(s))
  {
  }

  lemma TrimUnhyphenated(c: string)
    requires NoEdgeHyphen(c)
    ensures TrimHyphens(c) == c
  {
    TrimLeadingNone(c);
    TrimTrailingNone(c);
  }

  lemma TrimLeadingNone(s: string)
    requires s == [] || s[0] != '-'
    ensures TrimLeadingHyphens(s) == s
  {
  }

  lemma TrimTrailingNone(s: string)
    requires s == [] || s[|s| - 1] != '-'
    ensures TrimTrailingHyphens(s) == s
  {
  }

  lemma LowerThree(a: string, b: string, c: string)
    ensures ToLowerAscii(a + b + c) == ToLowerAscii(a) + ToLowerAscii(b) + ToLowerAscii(c)
  {
    ToLowerConcat(a + b, c);
    ToLowerConcat(a, b);
  }

  lemma CollapseWords(l1: string, ld: string, l2: string)
    requires l1 != [] && l2 != [] && AllSlugChars(l1) && AllSlugChars(l2)
    requires ld != [] && NoSlugChars(ld)
    ensures CollapseRuns(l1 + ld + l2) == l1 + "-" + l2
    ensures NoEdgeHyphen(l1 + "-" + l2)
  {
    CollapseRunsAtRun(l1, ld, l2);
    CollapseRunsWord(l1);
    CollapseRunsWord(l2);
    var c := l1 + "-" + l2;
    assert c[0] == l1[0] && c[|c| - 1] == l2[|l2| - 1];
  }

  /** Two words separated by any run of disallowed characters are slugged
      to the lower-cased words joined by one `-`. */
  lemma SlugifyJoinsWords(w1: string, d: string, w2: string)
    requires w1 != [] && w2 != [] && AllSlugChars(w1) && AllSlugChars(w2)
    requires d != [] && NoSlugChars(d)
    ensures Slugify(w1 + d + w2) == ToLowerAscii(w1) + "-" + ToLowerAscii(w2)
  {
    var l1, ld, l2 := ToLowerAscii(w1), ToLowerAscii(d), ToLowerAscii(w2);
    LowerThree(w1, d, w2);
    LowerKeepsClasses(w1);
    LowerKeepsClasses(d);
    LowerKeepsClasses(w2);
    CollapseWords(l1, ld, l2);
    TrimUnhyphenated(l1 + "-" + l2);
  }

  // ---------------------------------------------------------------------
  // Slugging a slug changes nothing

  lemma {:induction false} CollapseRunsOfSlugShape(s: string)
    requires SlugAlphabet(s) && NoDoubleHyphen(s)
    requires s != [] && s[0] == '-' ==> |s| == 1 || s[1] != '-'
    ensures CollapseRuns(s) == s
    decreases |s|
  {
    if s != [] {
      var t := s[1..];
      SliceKeepsShape(s, 1, |s|);
      if |s| > 2 {
        assert t[0] == s[1] && t[1] == s[2];
      }
      if IsSlugChar(s[0]) {
        CollapseRunsOfSlugShape(t);
        assert CollapseRuns(s) == [s[0]] + CollapseRuns(t);
      } else {
        assert s[0] == '-';
        assert t == [] || IsSlugChar(t[0]);
        assert DropDisallowed(t) == t;
        CollapseRunsOfSlugShape(t);
        assert CollapseRuns(s) == "-" + CollapseRuns(t);
        assert s == "-" + t;
      }
    }
  }

  lemma {:induction false} LowerOfLower(s: string)
    requires forall i :: 0 <= i < |s| ==> !IsUpperAscii(s[i])
    ensures ToLowerAscii(s) == s
  {
    if s != [] {
      LowerOfLower(s[1..]);
    }
  }

  /** Slugging is idempotent: a slug is its own slug. */
  lemma SlugifyIdempotent(text: string)
    ensures Slugify(Slugify(text)) == Slugify(text)
  {
    var s := Slugify(text);
    SlugifyIsSlug(text);
    LowerOfLower(s);
    CollapseRunsOfSlugShape(s);
  }

  lemma HeadingIdIdempotent(text: string)
    ensures HeadingId(HeadingId(text)) == HeadingId(text)
  {
    var h := HeadingId(text);
    HeadingIdIsSlug(text);
    SlugIsAttributeSafe(h);
    assert StripTags(h) == h;
    SlugifyIdempotent(StripTags(text));
  }

  // ---------------------------------------------------------------------
  // The two generations compared

  /** On text without `<` the two converters give the same id; they differ
      only in how tags are treated: the original keeps the letters of tag
      names (see `SlugifyKeepsAllowed`), the improved one drops them first. */
  lemma HeadingIdsAgreeWithoutTags(text: string)
    requires '<' !in text
    ensures HeadingId(text) == OriginalHeadingId(text)
  {
  }
}
