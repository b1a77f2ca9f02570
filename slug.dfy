/**
 * The name slug of strava/strava.go: the name is lower-cased, every maximal run of characters
 * outside [a-z0-9] becomes one '-' (the regular expression `[^a-z0-9]+`), and leading and trailing
 * '-' are trimmed.
 */
module Slug {
  import opened Text

  predicate IsLowerAlnum(c: char) { 'a' <= c <= 'z' || '0' <= c <= '9' }

  predicate IsSlugChar(c: char) { IsLowerAlnum(c) || c == '-' }

  function ToLowerAscii(c: char): (d: char)
    ensures 'A' <= c <= 'Z' ==> 'a' <= d <= 'z'
    ensures !('A' <= c <= 'Z') ==> d == c
  {
    if 'A' <= c <= 'Z' then (c as int + 32) as char else c
  }

  /** `strings.ToLower`, restricted to the ASCII letters. */
  function Lower(s: string): (r: string)
    ensures |r| == |s|
  {
    if s == [] then [] else [ToLowerAscii(s[0])] + Lower(s[1..])
  }

  /** The rest of `s` after its leading characters outside [a-z0-9]. */
  function SkipRun(s: string): (r: string)
    ensures |r| <= |s|
    ensures r == [] || IsLowerAlnum(r[0])
    ensures s != [] && !IsLowerAlnum(s[0]) ==> |r| < |s|
  {
    if s != [] && !IsLowerAlnum(s[0]) then SkipRun(s[1..]) else s
  }

  /** SkipRun drops a prefix, and only characters outside [a-z0-9]. */
  lemma {:induction false} SkipRunDrops(s: string)
    ensures var r := SkipRun(s);
      r == s[|s| - |r|..] && forall i :: 0 <= i < |s| - |r| ==> !IsLowerAlnum(s[i])
    decreases |s|
  {
    if s != [] && !IsLowerAlnum(s[0]) {
      SkipRunDrops(s[1..]);
    }
  }

  /** `regexp.MustCompile("[^a-z0-9]+").ReplaceAllString(s, "-")`: each maximal run becomes one '-'. */
  function ReplaceRuns(s: string): string
    decreases |s|
  {
    if s == [] then []
    else if IsLowerAlnum(s[0]) then [s[0]] + ReplaceRuns(s[1..])
    else "-" + ReplaceRuns(SkipRun(s))
  }

  function Slugify(name: string): string
  {
    Trim(ReplaceRuns(Lower(name)), '-')
  }

  predicate SlugChars(s: string) { forall i :: 0 <= i < |s| ==> IsSlugChar(s[i]) }

  predicate NoDoubleDash(s: string) { forall i :: 0 <= i < |s| - 1 ==> !(s[i] == '-' && s[i + 1] == '-') }

  /** What a slug looks like: [a-z0-9] groups separated by single '-', no '-' at either end. */
  predicate IsSlug(s: string)
  {
    SlugChars(s) && NoDoubleDash(s) && (s == [] || (s[0] != '-' && s[|s| - 1] != '-'))
  }

  /** The characters of `s` in [a-z0-9], in order. */
  function AlnumOnly(s: string): string
  {
    if s == [] then [] else (if IsLowerAlnum(s[0]) then [s[0]] else []) + AlnumOnly(s[1..])
  }

  /** `s` with every '-' deleted. */
  function RemoveDashes(s: string): string
  {
    if s == [] then [] else (if s[0] == '-' then [] else [s[0]]) + RemoveDashes(s[1..])
  }

  lemma {:induction false} RemoveDashesAppend(a: string, b: string)
    ensures RemoveDashes(a + b) == RemoveDashes(a) + RemoveDashes(b)
    decreases |a|
  {
    if a != [] {
      var head := if a[0] == '-' then [] else [a[0]];
      assert (a + b)[0] == a[0];
      assert (a + b)[1..] == a[1..] + b;
      assert RemoveDashes(a + b) == head + RemoveDashes(a[1..] + b);
      RemoveDashesAppend(a[1..], b);
      assert RemoveDashes(a) == head + RemoveDashes(a[1..]);
    } else {
      assert a + b == b;
    }
  }

  lemma {:induction false} RemoveDashesAllDashes(s: string)
    requires forall i :: 0 <= i < |s| ==> s[i] == '-'
    ensures RemoveDashes(s) == []
    decreases |s|
  {
    if s != [] {
      RemoveDashesAllDashes(s[1..]);
    }
  }

  lemma {:induction false} AlnumOnlySkipRun(s: string)
    ensures AlnumOnly(SkipRun(s)) == AlnumOnly(s)
    decreases |s|
  {
    if s != [] && !IsLowerAlnum(s[0]) {
      AlnumOnlySkipRun(s[1..]);
    }
  }

  lemma {:induction false} ReplaceRunsShape(s: string)
    ensures SlugChars(ReplaceRuns(s)) && NoDoubleDash(ReplaceRuns(s))
    ensures s != [] && IsLowerAlnum(s[0]) ==> ReplaceRuns(s)[0] == s[0]
    ensures RemoveDashes(ReplaceRuns(s)) == AlnumOnly(s)
    decreases |s|
  {
    if s != [] {
      if IsLowerAlnum(s[0]) {
        var t := ReplaceRuns(s[1..]);
        ReplaceRunsShape(s[1..]);
        RemoveDashesAppend([s[0]], t);
        assert ReplaceRuns(s) == [s[0]] + t;
      } else {
        var k := SkipRun(s);
        var t := ReplaceRuns(k);
        ReplaceRunsShape(k);
        AlnumOnlySkipRun(s);
        RemoveDashesAppend("-", t);
        assert ReplaceRuns(s) == "-" + t;
        assert t != [] ==> t[0] != '-';
      }
    }
  }

  /** A string already made of groups and single dashes is not changed by the replacement. */
  lemma {:induction false} ReplaceRunsFixed(s: string)
    requires SlugChars(s) && NoDoubleDash(s)
    ensures ReplaceRuns(s) == s
    decreases |s|
  {
    if s != [] {
      assert SlugChars(s[1..]) && NoDoubleDash(s[1..]);
      ReplaceRunsFixed(s[1..]);
      if !IsLowerAlnum(s[0]) {
        assert s[0] == '-';
        assert |s| > 1 ==> IsLowerAlnum(s[1]);
        assert SkipRun(s) == s[1..];
      }
      assert [s[0]] + s[1..] == s;
    }
  }

  lemma {:induction false} LowerFixed(s: string)
    requires SlugChars(s)
    ensures Lower(s) == s
    decreases |s|
  {
    if s != [] {
      assert SlugChars(s[1..]);
      LowerFixed(s[1..]);
      assert [s[0]] + s[1..] == s;
    }
  }

  /** Lowercasing leaves a string without upper-case ASCII letters unchanged. */
  lemma {:induction false} LowerNoUpper(s: string)
    requires forall i :: 0 <= i < |s| ==> !('A' <= s[i] <= 'Z')
    ensures Lower(s) == s
    decreases |s|
  {
    if s != [] {
      LowerNoUpper(s[1..]);
      assert [s[0]] + s[1..] == s;
    }
  }

  /** A run of characters outside [a-z0-9] is skipped up to the word after it. */
  lemma {:induction false} SkipRunPast(sep: string, w: string)
    requires forall i :: 0 <= i < |sep| ==> !IsLowerAlnum(sep[i])
    requires w == [] || IsLowerAlnum(w[0])
    ensures SkipRun(sep + w) == w
    decreases |sep|
  {
    if sep == [] {
      assert sep + w == w;
    } else {
      assert (sep + w)[0] == sep[0];
      assert (sep + w)[1..] == sep[1..] + w;
      SkipRunPast(sep[1..], w);
    }
  }

  /** Lowercasing works character by character, so it distributes over concatenation. */
  lemma {:induction false} LowerAppend(a: string, b: string)
    ensures Lower(a + b) == Lower(a) + Lower(b)
    decreases |a|
  {
    if a == [] {
      assert a + b == b;
    } else {
      assert (a + b)[1..] == a[1..] + b;
      LowerAppend(a[1..], b);
    }
  }

  /** A leading run of [a-z0-9] passes through the replacement unchanged. */
  lemma {:induction false} ReplaceRunsWord(w: string, x: string)
    requires forall i :: 0 <= i < |w| ==> IsLowerAlnum(w[i])
    ensures ReplaceRuns(w + x) == w + ReplaceRuns(x)
    decreases |w|
  {
    if w == [] {
      assert w + x == x;
    } else {
      assert (w + x)[1..] == w[1..] + x;
      ReplaceRunsWord(w[1..], x);
      assert [w[0]] + w[1..] == w;
    }
  }

  /** A piece cut out of a string of groups and single dashes is made the same way. */
  lemma SliceShape(t: string, k: nat, n: nat)
    requires k + n <= |t|
    requires SlugChars(t) && NoDoubleDash(t)
    ensures SlugChars(t[k..k + n]) && NoDoubleDash(t[k..k + n])
  {
    var r := t[k..k + n];
    forall i | 0 <= i < |r| ensures IsSlugChar(r[i]) {
      assert r[i] == t[k + i];
    }
    forall i | 0 <= i < |r| - 1 ensures !(r[i] == '-' && r[i + 1] == '-') {
      assert r[i] == t[k + i] && r[i + 1] == t[k + i + 1];
    }
  }

  /** Trimming dashes deletes nothing but dashes. */
  lemma RemoveDashesTrim(t: string)
    ensures RemoveDashes(Trim(t, '-')) == RemoveDashes(t)
  {
    TrimSlice(t, '-');
    var k := |t| - |TrimLeft(t, '-')|;
    var r := Trim(t, '-');
    var front, back := t[..k], t[k + |r|..];
    assert t == front + r + back;
    forall i | 0 <= i < |front| ensures front[i] == '-' {
      assert front[i] == t[i];
    }
    forall i | 0 <= i < |back| ensures back[i] == '-' {
      assert back[i] == t[k + |r| + i];
    }
    RemoveDashesAppend(front + r, back);
    RemoveDashesAppend(front, r);
    RemoveDashesAllDashes(front);
    RemoveDashesAllDashes(back);
  }

  /** Every slug is a well-formed slug: [a-z0-9-] only, so never a '/', no "--", no '-' at an end. */
  lemma SlugifyIsSlug(name: string)
    ensures IsSlug(Slugify(name))
    ensures '/' !in Slugify(name)
  {
    var t := ReplaceRuns(Lower(name));
    ReplaceRunsShape(Lower(name));
    TrimSlice(t, '-');
    var k := |t| - |TrimLeft(t, '-')|;
    SliceShape(t, k, |Trim(t, '-')|);
  }

  /** Deleting the dashes of the slug leaves the [a-z0-9] characters of the lower-cased name. */
  lemma SlugifyKeepsAlnum(name: string)
    ensures RemoveDashes(Slugify(name)) == AlnumOnly(Lower(name))
  {
    ReplaceRunsShape(Lower(name));
    RemoveDashesTrim(ReplaceRuns(Lower(name)));
  }

  lemma {:induction false} AlnumOnlyEmpty(s: string)
    requires AlnumOnly(s) == []
    ensures forall i :: 0 <= i < |s| ==> !IsLowerAlnum(s[i])
    decreases |s|
  {
    if s != [] {
      AlnumOnlyEmpty(s[1..]);
    }
  }

  lemma {:induction false} RemoveDashesEmpty(s: string)
    requires RemoveDashes(s) == []
    ensures forall i :: 0 <= i < |s| ==> s[i] == '-'
    decreases |s|
  {
    if s != [] {
      RemoveDashesEmpty(s[1..]);
    }
  }

  /** The slug is empty exactly when the name has no letter or digit. */
  lemma SlugifyEmpty(name: string)
    ensures Slugify(name) == [] <==> AlnumOnly(Lower(name)) == []
  {
    var r := Slugify(name);
    SlugifyKeepsAlnum(name);
    SlugifyIsSlug(name);
    if AlnumOnly(Lower(name)) == [] {
      RemoveDashesEmpty(r);
    }
  }

  /** A string that is already a slug is its own slug. */
  lemma SlugifyFixesSlugs(s: string)
    requires IsSlug(s)
    ensures Slugify(s) == s
  {
    LowerFixed(s);
    ReplaceRunsFixed(s);
    TrimFixed(s, '-');
  }

  lemma SlugifyIdempotent(name: string)
    ensures Slugify(Slugify(name)) == Slugify(name)
  {
    SlugifyIsSlug(name);
    SlugifyFixesSlugs(Slugify(name));
  }

  /** An ASCII letter of either case or a digit. */
  predicate IsAsciiAlnum(c: char) { 'A' <= c <= 'Z' || IsLowerAlnum(c) }

  /** Lowercasing a word of ASCII letters and digits gives a word of [a-z0-9]. */
  lemma {:induction false} LowerAlnumWord(w: string)
    requires forall i :: 0 <= i < |w| ==> IsAsciiAlnum(w[i])
    ensures forall i :: 0 <= i < |Lower(w)| ==> IsLowerAlnum(Lower(w)[i])
    decreases |w|
  {
    if w != [] {
      LowerAlnumWord(w[1..]);
      assert Lower(w) == [ToLowerAscii(w[0])] + Lower(w[1..]);
    }
  }

  /** Lowercasing two words around a separator run without upper-case letters keeps the run. */
  lemma LowerWords(w1: string, sep: string, w2: string)
    requires forall i :: 0 <= i < |sep| ==> !('A' <= sep[i] <= 'Z')
    ensures Lower(w1 + sep + w2) == Lower(w1) + sep + Lower(w2)
  {
    LowerAppend(w1 + sep, w2);
    LowerAppend(w1, sep);
    LowerNoUpper(sep);
  }

  /** A separator run before an [a-z0-9] word becomes one '-'. */
  lemma ReplaceRunWord(sep: string, w: string)
    requires sep != []
    requires forall i :: 0 <= i < |w| ==> IsLowerAlnum(w[i])
    requires forall i :: 0 <= i < |sep| ==> !IsLowerAlnum(sep[i])
    ensures ReplaceRuns(sep + w) == "-" + w
  {
    assert (sep + w)[0] == sep[0];
    SkipRunPast(sep, w);
    assert SlugChars(w) && NoDoubleDash(w);
    ReplaceRunsFixed(w);
  }

  /** The separator run between two [a-z0-9] words becomes one '-'. */
  lemma ReplaceWords(w1: string, sep: string, w2: string)
    requires sep != []
    requires forall i :: 0 <= i < |w1| ==> IsLowerAlnum(w1[i])
    requires forall i :: 0 <= i < |w2| ==> IsLowerAlnum(w2[i])
    requires forall i :: 0 <= i < |sep| ==> !IsLowerAlnum(sep[i])
    ensures ReplaceRuns(w1 + sep + w2) == w1 + "-" + w2
  {
    ConcatAssoc(w1, sep, w2);
    ConcatAssoc(w1, "-", w2);
    ReplaceRunsWord(w1, sep + w2);
    ReplaceRunWord(sep, w2);
  }

  /** Proof step only, with no counterpart in the code: regrouping a concatenation of three strings. */
  lemma ConcatAssoc(a: string, b: string, c: string)
    ensures a + b + c == a + (b + c)
  {
  }

  /**
   * Two words of ASCII letters and digits around any run of other characters without upper-case
   * letters (spaces, dashes, punctuation) become the two lower-cased words joined by one '-':
   * "NYC Marathon" slugs to "nyc-marathon".
   */
  lemma SlugifyWords(w1: string, sep: string, w2: string)
    requires w1 != [] && sep != [] && w2 != []
    requires forall i :: 0 <= i < |w1| ==> IsAsciiAlnum(w1[i])
    requires forall i :: 0 <= i < |w2| ==> IsAsciiAlnum(w2[i])
    requires forall i :: 0 <= i < |sep| ==> !IsAsciiAlnum(sep[i])
    ensures Slugify(w1 + sep + w2) == Lower(w1) + "-" + Lower(w2)
  {
    var l1, l2 := Lower(w1), Lower(w2);
    LowerWords(w1, sep, w2);
    LowerAlnumWord(w1);
    LowerAlnumWord(w2);
    ReplaceWords(l1, sep, l2);
    var r := l1 + "-" + l2;
    assert r[0] == l1[0] && r[|r| - 1] == l2[|l2| - 1];
    TrimFixed(r, '-');
  }
}
