/** The JavaScript string primitives that the converters and the shell injector
    are built from: `includes`, `startsWith`, `indexOf`, `substring`,
    `replace` with a string pattern, and the decimal form of a number as a
    template literal prints it. Strings are sequences of `char`, each a
    Unicode scalar value; JavaScript counts UTF-16 code units instead, and
    the two agree on the Basic Multilingual Plane. */
module JsString {

  datatype Option<T> = None | Some(value: T)

  /** `s.startsWith(p)` */
  predicate StartsWith(s: string, p: string) {
    |p| <= |s| && s[..|p|] == p
  }

  /** `s.endsWith(p)` */
  predicate EndsWith(s: string, p: string) {
    |p| <= |s| && s[|s| - |p|..] == p
  }

  /** `pat` occurs in `s` starting at index `i`. */
  predicate OccursAt(s: string, pat: string, i: int) {
    0 <= i && i + |pat| <= |s| && s[i..i + |pat|] == pat
  }

  /** `s.includes(pat)` */
  predicate Contains(s: string, pat: string) {
    exists i :: 0 <= i <= |s| && OccursAt(s, pat, i)
  }

  /** `i` is the leftmost index at which `pat` occurs in `s`. */
  predicate IsFirstOccurrence(s: string, pat: string, i: int) {
    OccursAt(s, pat, i) && forall j :: 0 <= j < i ==> !OccursAt(s, pat, j)
  }

  function IndexOfFrom(s: string, pat: string, from: nat): (r: int)
    decreases |s| - from
    ensures r == -1 || (from <= r && OccursAt(s, pat, r))
    ensures r == -1 ==> forall j :: from <= j ==> !OccursAt(s, pat, j)
    ensures r != -1 ==> forall j :: from <= j < r ==> !OccursAt(s, pat, j)
  {
    if from + |pat| > |s| then -1
    else if s[from..from + |pat|] == pat then from
    else IndexOfFrom(s, pat, from + 1)
  }

  /** `s.indexOf(pat)`: the leftmost occurrence, or -1 when there is none. */
  function IndexOf(s: string, pat: string): (r: int)
    ensures r == -1 <==> !Contains(s, pat)
    ensures r != -1 ==> IsFirstOccurrence(s, pat, r)
  {
    IndexOfFrom(s, pat, 0)
  }

  /** `s.indexOf(c)` for a character that occurs in `s`. */
  function FirstIndexOfChar(s: string, c: char): (k: nat)
    requires c in s
    ensures k < |s| && s[k] == c
    ensures c !in s[..k]
  {
    if s[0] == c then 0 else FirstIndexOfChar(s[1..], c) + 1
  }

  /** JavaScript's clamping of a `substring` argument into `[0, n]`. */
  function Clamp(i: int, n: nat): (r: nat)
    ensures r <= n
    ensures 0 <= i <= n ==> r == i
  {
    if i < 0 then 0 else if i > n then n else i
  }

  /** `s.substring(start, end)`: both bounds are clamped into the string and
      swapped when they come in the wrong order. */
  function Substring(s: string, start: int, end: int): (r: string)
    ensures 0 <= start <= end <= |s| ==> r == s[start..end]
    ensures start <= 0 && |s| <= end ==> r == s
    ensures Contains(s, r)
  {
    var a, b := Clamp(start, |s|), Clamp(end, |s|);
    var r := if a <= b then s[a..b] else s[b..a];
    assert OccursAt(s, r, if a <= b then a else b);
    r
  }

  /** `s.substring(start)` */
  function SubstringFrom(s: string, start: int): (r: string)
    ensures 0 <= start <= |s| ==> r == s[start..]
    ensures start <= 0 ==> r == s
  {
    Substring(s, start, |s|)
  }

  /** Cutting a string anywhere, even at a negative index such as the -1 of a
      failed `indexOf`, and putting the two pieces back together gives it back. */
  lemma SubstringSplit(s: string, k: int)
    ensures Substring(s, 0, k) + SubstringFrom(s, k) == s
  {
    if k < 0 {
      assert Substring(s, 0, k) == [];
    } else if k > |s| {
      assert SubstringFrom(s, k) == [];
    } else {
      assert s[..k] + s[k..] == s;
    }
  }

  /** `s.replace(pat, rep)` for a string `pat`: only the leftmost occurrence is
      replaced, and a string without an occurrence comes back unchanged. */
  function ReplaceFirst(s: string, pat: string, rep: string): (r: string)
    ensures !Contains(s, pat) ==> r == s
    ensures Contains(s, pat) ==>
      exists i :: IsFirstOccurrence(s, pat, i) && r == s[..i] + rep + s[i + |pat|..]
  {
    var i := IndexOf(s, pat);
    if i == -1 then s else s[..i] + rep + s[i + |pat|..]
  }

  /** A string that does not contain the pattern is returned unchanged. */
  lemma ReplaceFirstAbsent(s: string, pat: string, rep: string)
    requires !Contains(s, pat)
    ensures ReplaceFirst(s, pat, rep) == s
  {
  }

  /** Otherwise the result is `pre + rep + suf` where `s == pre + pat + suf`
      and `pat` starts nowhere inside `pre`, so `pre` has no occurrence of a
      non-empty `pat`. */
  lemma ReplaceFirstSplit(s: string, pat: string, rep: string) returns (pre: string, suf: string)
    requires Contains(s, pat)
    ensures s == pre + pat + suf && |pre| == IndexOf(s, pat)
    ensures ReplaceFirst(s, pat, rep) == pre + rep + suf
    ensures forall j :: 0 <= j < |pre| ==> !OccursAt(s, pat, j)
    ensures |pat| > 0 ==> !Contains(pre, pat)
  {
    var i := IndexOf(s, pat);
    assert IsFirstOccurrence(s, pat, i);
    pre, suf := s[..i], s[i + |pat|..];
    assert s == pre + pat + suf by {
      assert s[i..i + |pat|] == pat;
      assert s == s[..i] + s[i..i + |pat|] + s[i + |pat|..];
    }
    forall j | 0 <= j <= |pre| && |pat| > 0
      ensures !OccursAt(pre, pat, j)
    {
      if OccursAt(pre, pat, j) {
        assert s[j..j + |pat|] == pre[j..j + |pat|];
        assert OccursAt(s, pat, j);
      }
    }
  }

  /** A replacement that finds its pattern changes the length by exactly
      `|rep| - |pat|`. */
  lemma ReplaceFirstLength(s: string, pat: string, rep: string)
    requires Contains(s, pat)
    ensures |ReplaceFirst(s, pat, rep)| == |s| - |pat| + |rep|
  {
    var pre, suf := ReplaceFirstSplit(s, pat, rep);
  }

  /** Whatever occurs in a piece occurs in every string built around it. */
  lemma ContainsInMiddle(a: string, b: string, c: string, pat: string)
    requires Contains(b, pat)
    ensures Contains(a + b + c, pat)
  {
    var i :| 0 <= i <= |b| && OccursAt(b, pat, i);
    assert i + |pat| <= |b| && b[i..i + |pat|] == pat;
    assert (a + b + c)[|a| + i..|a| + i + |pat|] == b[i..i + |pat|];
    assert OccursAt(a + b + c, pat, |a| + i);
  }

  lemma ContainsSelf(s: string)
    ensures Contains(s, s)
  {
    assert OccursAt(s, s, 0);
  }

  lemma StartsWithAppend(a: string, b: string)
    ensures StartsWith(a + b, a)
  {
    assert (a + b)[..|a|] == a;
  }

  lemma EndsWithAppend(a: string, b: string)
    ensures EndsWith(a + b, b)
  {
    assert (a + b)[|a|..] == b;
  }

  lemma StartsWithExtend(a: string, b: string, p: string)
    requires StartsWith(a, p)
    ensures StartsWith(a + b, p)
  {
    assert (a + b)[..|p|] == a[..|p|];
  }

  lemma StartsWithPrepend(x: string, s: string, p: string)
    requires StartsWith(s, p)
    ensures StartsWith(x + s, x + p)
  {
    assert (x + s)[..|x + p|] == x + s[..|p|];
  }

  lemma EndsWithExtend(a: string, b: string, p: string)
    requires EndsWith(b, p)
    ensures EndsWith(a + b, p)
  {
    assert (a + b)[|a + b| - |p|..] == b[|b| - |p|..];
  }

  lemma ConcatRegroup(a: string, b: string, c: string, d: string, e: string)
    ensures a + b + c + d + e == a + b + (c + d + e)
  {
  }

  lemma ContainsLeft(a: string, b: string, pat: string)
    requires Contains(a, pat)
    ensures Contains(a + b, pat)
  {
    ContainsInMiddle("", a, b, pat);
    assert "" + a + b == a + b;
  }

  lemma ContainsRight(a: string, b: string, pat: string)
    requires Contains(b, pat)
    ensures Contains(a + b, pat)
  {
    ContainsInMiddle(a, b, "", pat);
    assert a + b + "" == a + b;
  }

  /** A pattern holding a character that `s` lacks does not occur in `s`. */
  lemma NotContainsByChar(s: string, pat: string, c: char)
    requires c in pat && c !in s
    ensures !Contains(s, pat)
  {
    var k :| 0 <= k < |pat| && pat[k] == c;
    forall i | 0 <= i <= |s|
      ensures !OccursAt(s, pat, i)
    {
      if i + |pat| <= |s| {
        assert s[i..i + |pat|][k] == s[i + k];
      }
    }
  }

  /** `pat` cannot straddle the seam of `a + b` when the character before
      the seam is absent from `pat` or is `pat`'s last character and occurs
      nowhere else in it, or the character after the seam is absent from
      `pat` or is its first character and occurs nowhere else in it. Tags
      end in `>` and begin with `<`, so a tag pattern never straddles a seam
      between two pieces of markup. */
  predicate Separated(a: string, b: string, pat: string) {
    (a != [] && (a[|a| - 1] !in pat
                 || (pat != [] && a[|a| - 1] == pat[|pat| - 1] && a[|a| - 1] !in pat[..|pat| - 1])))
    || (b != [] && (b[0] !in pat || (pat != [] && b[0] == pat[0] && b[0] !in pat[1..])))
  }

  /** No occurrence straddles a separated seam. */
  lemma NoStraddle(a: string, b: string, pat: string, i: int)
    requires Separated(a, b, pat)
    requires 0 <= i < |a| < i + |pat| <= |a| + |b|
    ensures (a + b)[i..i + |pat|] != pat
  {
    var w := (a + b)[i..i + |pat|];
    var m := |a| - i;
    assert w[m - 1] == a[|a| - 1];
    assert w[m] == b[0];
    assert pat[m - 1] == pat[..|pat| - 1][m - 1];
    assert pat[m] == pat[1..][m - 1];
    assert w[m - 1] != pat[m - 1] || w[m] != pat[m];
  }

  lemma ContainsConcat(a: string, b: string, pat: string)
    requires Separated(a, b, pat)
    ensures Contains(a + b, pat) <==> Contains(a, pat) || Contains(b, pat)
  {
    var s := a + b;
    if Contains(a, pat) {
      var i :| 0 <= i <= |a| && OccursAt(a, pat, i);
      assert s[i..i + |pat|] == a[i..i + |pat|];
      assert OccursAt(s, pat, i);
    }
    if Contains(b, pat) {
      var i :| 0 <= i <= |b| && OccursAt(b, pat, i);
      assert s[|a| + i..|a| + i + |pat|] == b[i..i + |pat|];
      assert OccursAt(s, pat, |a| + i);
    }
    if Contains(s, pat) {
      var i :| 0 <= i <= |s| && OccursAt(s, pat, i);
      if i + |pat| <= |a| {
        assert a[i..i + |pat|] == s[i..i + |pat|];
        assert OccursAt(a, pat, i);
      } else if i >= |a| {
        assert b[i - |a|..i - |a| + |pat|] == s[i..i + |pat|];
        assert OccursAt(b, pat, i - |a|);
      } else {
        NoStraddle(a, b, pat, i);
        assert false;
      }
    }
  }

  /** Two strings that agree up to the end of the leftmost occurrence in
      the first have that occurrence leftmost in the second too. */
  lemma IndexOfKeptPrefix(s: string, t: string, pat: string)
    requires IndexOf(s, pat) != -1
    requires IndexOf(s, pat) + |pat| <= |t|
    requires s[..IndexOf(s, pat) + |pat|] == t[..IndexOf(s, pat) + |pat|]
    ensures IndexOf(t, pat) == IndexOf(s, pat)
  {
    var i := IndexOf(s, pat);
    var n := i + |pat|;
    assert forall k :: 0 <= k < n ==> s[k] == t[k] by {
      forall k | 0 <= k < n ensures s[k] == t[k] {
        assert s[k] == s[..n][k] && t[k] == t[..n][k];
      }
    }
    assert t[i..n] == s[i..n];
    assert OccursAt(t, pat, i);
    var j := IndexOf(t, pat);
    assert j <= i;
    assert s[j..j + |pat|] == t[j..j + |pat|];
    assert OccursAt(s, pat, j);
  }

  /** When the first character of `pat` does not occur in `a`, the leftmost
      occurrence of `pat` in `a + pat + b` is the one right after `a`. */
  lemma IndexOfAfterFreePrefix(a: string, pat: string, b: string)
    requires |pat| > 0 && pat[0] !in a
    ensures IndexOf(a + pat + b, pat) == |a|
  {
    var s := a + pat + b;
    assert s[|a|..|a| + |pat|] == pat;
    assert OccursAt(s, pat, |a|);
    forall j | 0 <= j < |a|
      ensures !OccursAt(s, pat, j)
    {
      if j + |pat| <= |s| {
        assert s[j..j + |pat|][0] == a[j];
      }
    }
  }

  /** When `a` holds no `pat` and no occurrence straddles its end, the
      leftmost occurrence of `pat` in `a + pat + b` is the one right after
      `a`. */
  lemma IndexOfAfterSeparated(a: string, pat: string, b: string)
    requires |pat| > 0 && !Contains(a, pat) && Separated(a, pat + b, pat)
    ensures IndexOf(a + pat + b, pat) == |a|
  {
    var s := a + pat + b;
    assert s[|a|..|a| + |pat|] == pat;
    assert OccursAt(s, pat, |a|);
    forall j | 0 <= j < |a|
      ensures !OccursAt(s, pat, j)
    {
      if j + |pat| <= |a| {
        assert s[j..j + |pat|] == a[j..j + |pat|];
        assert !OccursAt(a, pat, j);
      } else {
        assert s == a + (pat + b);
        NoStraddle(a, pat + b, pat, j);
      }
    }
  }

  /** Replacing at a known first occurrence. */
  lemma ReplaceFirstAt(a: string, pat: string, b: string, rep: string)
    requires IndexOf(a + pat + b, pat) == |a|
    ensures ReplaceFirst(a + pat + b, pat, rep) == a + rep + b
  {
    var s := a + pat + b;
    assert s[..|a|] == a;
    assert s[|a| + |pat|..] == b;
  }

  lemma OccursAtSuffix(s: string, pat: string, from: nat, j: nat)
    requires from <= |s|
    ensures OccursAt(s[from..], pat, j) <==> OccursAt(s, pat, from + j)
  {
    if j + |pat| <= |s| - from {
      assert s[from..][j..j + |pat|] == s[from + j..from + j + |pat|];
    }
  }

  /** Searching a suffix of `s` is searching `s` from where the suffix
      starts. */
  lemma IndexOfSuffix(s: string, pat: string, from: nat)
    requires from <= |s|
    ensures IndexOf(s[from..], pat)
         == (if IndexOfFrom(s, pat, from) == -1 then -1 else IndexOfFrom(s, pat, from) - from)
  {
    var t := s[from..];
    var r := IndexOfFrom(s, pat, from);
    var q := IndexOf(t, pat);
    if r != -1 {
      OccursAtSuffix(s, pat, from, r - from);
      assert q != -1 && q <= r - from;
      OccursAtSuffix(s, pat, from, q);
    } else if q != -1 {
      OccursAtSuffix(s, pat, from, q);
      assert false;
    }
  }

  predicate IsDigit(c: char) {
    '0' <= c <= '9'
  }

  function DigitChar(d: nat): (c: char)
    requires d < 10
    ensures IsDigit(c) && c as int - '0' as int == d
  {
    ('0' as int + d) as char
  }

  function DigitValue(c: char): (d: nat)
    requires IsDigit(c)
    ensures d < 10 && DigitChar(d) == c
  {
    c as int - '0' as int
  }

  /** The decimal text of a non-negative integer, as `${n}` prints it. */
  function DecimalString(n: nat): (r: string)
    ensures |r| >= 1
    ensures forall i :: 0 <= i < |r| ==> IsDigit(r[i])
    ensures r[0] == '0' ==> r == "0"
  {
    if n < 10 then [DigitChar(n)] else DecimalString(n / 10) + [DigitChar(n % 10)]
  }

  /** Reads a string of decimal digits back as a number. */
  function ParseDecimal(s: string): (n: nat)
    requires forall i :: 0 <= i < |s| ==> IsDigit(s[i])
  {
    if s == [] then 0
    else ParseDecimal(s[..|s| - 1]) * 10 + DigitValue(s[|s| - 1])
  }

  /** The decimal text determines the number: reading it back gives `n`. */
  lemma {:induction false} ParseDecimalString(n: nat)
    ensures ParseDecimal(DecimalString(n)) == n
  {
    if n >= 10 {
      var s := DecimalString(n);
      assert s[..|s| - 1] == DecimalString(n / 10);
      ParseDecimalString(n / 10);
    }
  }

  /** Different numbers print differently. */
  lemma DecimalStringInjective(m: nat, n: nat)
    requires DecimalString(m) == DecimalString(n)
    ensures m == n
  {
    ParseDecimalString(m);
    ParseDecimalString(n);
  }
}
