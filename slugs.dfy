/** `get_friendly_url` (blog.py:96-99): the slug made from a title by three
    regular-expression substitutions applied to the stripped title. */
module Slugs {
  import opened Text

  /** The two character classes whose runs the slug rewrites: `\s+` and `-+`. */
  datatype RunClass = Whitespace | Dashes

  predicate InClass(k: RunClass, c: char) {
    match k
    case Whitespace => IsSpace(c)
    case Dashes => c == '-'
  }

  /** The characters a slug may hold: `\w` and `-`. */
  predicate IsSlugChar(c: char) {
    IsWordChar(c) || c == '-'
  }

  /** The rest of `s` once its leading run of class-`k` characters is gone. */
  function DropRun(s: string, k: RunClass): (r: string)
    ensures |r| <= |s|
    ensures r == [] || !InClass(k, r[0])
    decreases |s|
  {
    if s != [] && InClass(k, s[0]) then DropRun(s[1..], k) else s
  }

  /** What is left after the run is a suffix of the string. */
  lemma {:induction false} DropRunSuffix(s: string, k: RunClass)
    ensures DropRun(s, k) == s[|s| - |DropRun(s, k)|..]
    decreases |s|
  {
    if s != [] && InClass(k, s[0]) {
      DropRunSuffix(s[1..], k);
    }
  }

  /** `re.sub(run+, rep, s)`: scanning left to right, every maximal run of
      class-`k` characters is replaced by the single character `rep`; every
      other character is copied (`ReplaceRunsKeepsOthers`, `ReplaceRunsAppend`
      and `ReplaceWholeRun` say so). */
  function ReplaceRuns(s: string, k: RunClass, rep: char): (r: string)
    ensures |r| <= |s|
    ensures forall i :: 0 <= i < |r| ==> r[i] == rep || !InClass(k, r[i])
    decreases |s|
  {
    if s == [] then []
    else if InClass(k, s[0]) then [rep] + ReplaceRuns(DropRun(s[1..], k), k, rep)
    else [s[0]] + ReplaceRuns(s[1..], k, rep)
  }

  /** `re.sub('[^\w-]', '', s)`: every character other than `\w` and `-` is
      dropped, and a string made only of those is kept as it is. */
  function KeepSlugChars(s: string): (r: string)
    ensures |r| <= |s|
    ensures forall i :: 0 <= i < |r| ==> IsSlugChar(r[i])
    ensures (forall i :: 0 <= i < |s| ==> IsSlugChar(s[i])) ==> r == s
  {
    if s == [] then []
    else if IsSlugChar(s[0]) then [s[0]] + KeepSlugChars(s[1..])
    else KeepSlugChars(s[1..])
  }

  /** When the run takes the whole string, every character is in the class. */
  lemma {:induction false} DropRunAll(s: string, k: RunClass)
    requires DropRun(s, k) == []
    ensures forall i :: 0 <= i < |s| ==> InClass(k, s[i])
  {
    if s != [] {
      DropRunAll(s[1..], k);
      assert forall i :: 1 <= i < |s| ==> s[i] == s[1..][i - 1];
    }
  }

  /** Dropping a run at the front of `x + y` drops it from `x`, unless the
      run takes all of `x` and goes on into `y`. */
  lemma {:induction false} DropRunAppend(x: string, y: string, k: RunClass)
    requires DropRun(x, k) != [] || y == [] || !InClass(k, y[0])
    ensures DropRun(x + y, k) == DropRun(x, k) + y
  {
    if x == [] {
      assert x + y == y;
    } else if InClass(k, x[0]) {
      assert (x + y)[0] == x[0] && (x + y)[1..] == x[1..] + y;
      assert DropRun(x, k) == DropRun(x[1..], k);
      DropRunAppend(x[1..], y, k);
      assert DropRun(x + y, k) == DropRun(x[1..] + y, k);
    } else {
      assert (x + y)[0] == x[0];
    }
  }

  /** One step of the rewrite on `x + y` when `x` starts with a run: the run
      becomes one `rep`. */
  lemma StepAtRun(x: string, y: string, k: RunClass, rep: char)
    requires x != [] && InClass(k, x[0])
    ensures ReplaceRuns(x + y, k, rep) == [rep] + ReplaceRuns(DropRun(x[1..] + y, k), k, rep)
  {
    assert (x + y)[0] == x[0] && (x + y)[1..] == x[1..] + y;
  }

  /** One step of the rewrite on `x + y` when `x` starts with a character
      outside the class: it is copied. */
  lemma StepAtCopy(x: string, y: string, k: RunClass, rep: char)
    requires x != [] && !InClass(k, x[0])
    ensures ReplaceRuns(x + y, k, rep) == [x[0]] + ReplaceRuns(x[1..] + y, k, rep)
  {
    assert (x + y)[0] == x[0] && (x + y)[1..] == x[1..] + y;
  }

  /** Replacing the runs of a string cut where no run is split is replacing
      the runs of each part: the rewrite works run by run. */
  lemma {:induction false} ReplaceRunsAppend(x: string, y: string, k: RunClass, rep: char)
    requires x == [] || y == [] || !InClass(k, x[|x| - 1]) || !InClass(k, y[0])
    ensures ReplaceRuns(x + y, k, rep) == ReplaceRuns(x, k, rep) + ReplaceRuns(y, k, rep)
    decreases |x|, 2
  {
    if x == [] {
      assert x + y == y;
    } else if !InClass(k, x[0]) {
      AppendAfterCopy(x, y, k, rep);
    } else if DropRun(x[1..], k) != [] {
      AppendAfterShortRun(x, y, k, rep);
    } else {
      AppendAfterLongRun(x, y, k, rep);
    }
  }

  /** The case of `ReplaceRunsAppend` where `x` starts with a copied character. */
  lemma {:induction false} AppendAfterCopy(x: string, y: string, k: RunClass, rep: char)
    requires x != [] && !InClass(k, x[0])
    requires y == [] || !InClass(k, x[|x| - 1]) || !InClass(k, y[0])
    ensures ReplaceRuns(x + y, k, rep) == ReplaceRuns(x, k, rep) + ReplaceRuns(y, k, rep)
    decreases |x|, 1
  {
    var t := x[1..];
    var a, b := ReplaceRuns(t, k, rep), ReplaceRuns(y, k, rep);
    assert ReplaceRuns(x + y, k, rep) == [x[0]] + (a + b) by {
      assert ReplaceRuns(t + y, k, rep) == a + b by {
        if t != [] {
          assert t[|t| - 1] == x[|x| - 1];
        }
        ReplaceRunsAppend(t, y, k, rep);
      }
      StepAtCopy(x, y, k, rep);
    }
    assert ReplaceRuns(x, k, rep) == [x[0]] + a;
  }

  /** The case of `ReplaceRunsAppend` where `x` starts with a run that stops
      inside `x`. */
  lemma {:induction false} AppendAfterShortRun(x: string, y: string, k: RunClass, rep: char)
    requires x != [] && InClass(k, x[0]) && DropRun(x[1..], k) != []
    requires y == [] || !InClass(k, x[|x| - 1]) || !InClass(k, y[0])
    ensures ReplaceRuns(x + y, k, rep) == ReplaceRuns(x, k, rep) + ReplaceRuns(y, k, rep)
    decreases |x|, 1
  {
    var t := x[1..];
    var d := DropRun(t, k);
    var a, b := ReplaceRuns(d, k, rep), ReplaceRuns(y, k, rep);
    assert ReplaceRuns(x + y, k, rep) == [rep] + (a + b) by {
      assert ReplaceRuns(d + y, k, rep) == a + b by {
        assert d[|d| - 1] == x[|x| - 1] by {
          DropRunSuffix(t, k);
        }
        ReplaceRunsAppend(d, y, k, rep);
      }
      DropRunAppend(t, y, k);
      StepAtRun(x, y, k, rep);
    }
    assert ReplaceRuns(x, k, rep) == [rep] + a;
  }

  /** The case of `ReplaceRunsAppend` where `x` starts with a run that takes
      all of it. */
  lemma AppendAfterLongRun(x: string, y: string, k: RunClass, rep: char)
    requires x != [] && InClass(k, x[0]) && DropRun(x[1..], k) == []
    requires y == [] || !InClass(k, x[|x| - 1]) || !InClass(k, y[0])
    ensures ReplaceRuns(x + y, k, rep) == ReplaceRuns(x, k, rep) + ReplaceRuns(y, k, rep)
  {
    RunToEnd(x, y, k);
    StepAtRun(x, y, k, rep);
  }

  /** When the run after `x[0]` takes the rest of `x`, it stops where `y` begins. */
  lemma RunToEnd(x: string, y: string, k: RunClass)
    requires x != [] && InClass(k, x[0]) && DropRun(x[1..], k) == []
    requires y == [] || !InClass(k, x[|x| - 1]) || !InClass(k, y[0])
    ensures DropRun(x[1..] + y, k) == y
  {
    var t := x[1..];
    DropRunAll(t, k);
    assert InClass(k, x[|x| - 1]) by {
      if t != [] {
        assert x[|x| - 1] == t[|t| - 1];
      }
    }
    DropRunAppend(t, y, k);
  }

  /** A run of class-`k` characters is dropped whole. */
  lemma {:induction false} DropWholeRun(s: string, k: RunClass)
    requires forall i :: 0 <= i < |s| ==> InClass(k, s[i])
    ensures DropRun(s, k) == []
    decreases |s|
  {
    if s != [] {
      assert forall i :: 0 <= i < |s[1..]| ==> s[1..][i] == s[i + 1];
      DropWholeRun(s[1..], k);
    }
  }

  /** A whole run becomes one `rep`. */
  lemma ReplaceWholeRun(run: string, k: RunClass, rep: char)
    requires run != [] && forall i :: 0 <= i < |run| ==> InClass(k, run[i])
    ensures ReplaceRuns(run, k, rep) == [rep]
  {
    assert forall i :: 0 <= i < |run[1..]| ==> run[1..][i] == run[i + 1];
    DropWholeRun(run[1..], k);
  }

  /** The characters of `s` outside class `k`, in order. */
  function Outside(s: string, k: RunClass): string {
    if s == [] then [] else (if InClass(k, s[0]) then [] else [s[0]]) + Outside(s[1..], k)
  }

  lemma {:induction false} DropRunOutside(s: string, k: RunClass)
    ensures Outside(DropRun(s, k), k) == Outside(s, k)
  {
    if s != [] && InClass(k, s[0]) {
      DropRunOutside(s[1..], k);
    }
  }

  /** Replacing runs keeps every character outside the class, in order. */
  lemma {:induction false} ReplaceRunsKeepsOthers(s: string, k: RunClass, rep: char)
    requires InClass(k, rep)
    ensures Outside(ReplaceRuns(s, k, rep), k) == Outside(s, k)
    decreases |s|
  {
    if s != [] {
      var r := ReplaceRuns(s, k, rep);
      if InClass(k, s[0]) {
        var t := DropRun(s[1..], k);
        ReplaceRunsKeepsOthers(t, k, rep);
        DropRunOutside(s[1..], k);
        assert r[1..] == ReplaceRuns(t, k, rep);
      } else {
        ReplaceRunsKeepsOthers(s[1..], k, rep);
        assert r[1..] == ReplaceRuns(s[1..], k, rep);
      }
    }
  }

  /** Dropping the non-slug characters works character by character: it
      keeps every `\w` and '-' of either part, in order. */
  lemma {:induction false} KeepSlugCharsAppend(x: string, y: string)
    ensures KeepSlugChars(x + y) == KeepSlugChars(x) + KeepSlugChars(y)
  {
    if x == [] {
      assert x + y == y;
    } else {
      assert (x + y)[0] == x[0] && (x + y)[1..] == x[1..] + y;
      KeepSlugCharsAppend(x[1..], y);
    }
  }

  /** A character other than `\w` and '-' is deleted; with
      `KeepSlugCharsAppend` and the identity on slug characters this fixes
      the filter on every string. */
  lemma KeepSlugCharsDrops(c: char)
    requires !IsSlugChar(c)
    ensures KeepSlugChars([c]) == []
  {
    assert [c][1..] == [];
  }

  /** `get_friendly_url(title)`: whatever the title, the slug holds only `\w`
      and '-' and never two dashes in a row. */
  function FriendlyUrl(title: string): (r: string)
    ensures IsSlug(r)
  {
    var t := KeepSlugChars(ReplaceRuns(Strip(title), Whitespace, '-'));
    ReplaceRunsNoAdjacent(t, Dashes, '-');
    ReplaceRunsSlugChars(t, Dashes, '-');
    ReplaceRuns(t, Dashes, '-')
  }

  /** The shape every slug has: only `\w` and `-`, hence no whitespace and no
      '/', and never two dashes in a row. */
  predicate IsSlug(s: string) {
    && (forall i :: 0 <= i < |s| ==> IsSlugChar(s[i]))
    && (forall i :: 0 <= i < |s| - 1 ==> !(s[i] == '-' && s[i + 1] == '-'))
  }

  /** When `rep` is itself of class `k`, the output never holds two class-`k`
      characters in a row. */
  lemma {:induction false} ReplaceRunsNoAdjacent(s: string, k: RunClass, rep: char)
    requires InClass(k, rep)
    ensures forall i :: 0 <= i < |ReplaceRuns(s, k, rep)| - 1 ==>
      !(InClass(k, ReplaceRuns(s, k, rep)[i]) && InClass(k, ReplaceRuns(s, k, rep)[i + 1]))
    decreases |s|
  {
    if s != [] {
      var r := ReplaceRuns(s, k, rep);
      if InClass(k, s[0]) {
        var t := DropRun(s[1..], k);
        ReplaceRunsNoAdjacent(t, k, rep);
        if t != [] {
          assert ReplaceRuns(t, k, rep)[0] == t[0];
        }
        assert r == [rep] + ReplaceRuns(t, k, rep);
      } else {
        ReplaceRunsNoAdjacent(s[1..], k, rep);
        assert r == [s[0]] + ReplaceRuns(s[1..], k, rep);
      }
    }
  }

  /** A string whose every class-`k` character is `rep` and stands alone is
      left unchanged (this covers a string with no class-`k` character). */
  lemma {:induction false} ReplaceRunsUnchanged(s: string, k: RunClass, rep: char)
    requires forall i :: 0 <= i < |s| && InClass(k, s[i]) ==>
               s[i] == rep && (i + 1 == |s| || !InClass(k, s[i + 1]))
    ensures ReplaceRuns(s, k, rep) == s
    decreases |s|
  {
    if s != [] {
      ReplaceRunsUnchanged(s[1..], k, rep);
      if InClass(k, s[0]) {
        assert DropRun(s[1..], k) == s[1..];
      }
      assert s == [s[0]] + s[1..];
    }
  }

  /** Replacing runs by a slug character keeps a string of slug characters
      made of slug characters. */
  lemma {:induction false} ReplaceRunsSlugChars(s: string, k: RunClass, rep: char)
    requires IsSlugChar(rep) && forall i :: 0 <= i < |s| ==> IsSlugChar(s[i])
    ensures forall i :: 0 <= i < |ReplaceRuns(s, k, rep)| ==> IsSlugChar(ReplaceRuns(s, k, rep)[i])
    decreases |s|
  {
    if s != [] {
      var r := ReplaceRuns(s, k, rep);
      if InClass(k, s[0]) {
        var t := DropRun(s[1..], k);
        DropRunSuffix(s[1..], k);
        assert forall i :: 0 <= i < |t| ==> t[i] == s[|s| - |t| + i];
        ReplaceRunsSlugChars(t, k, rep);
        assert r == [rep] + ReplaceRuns(t, k, rep);
      } else {
        ReplaceRunsSlugChars(s[1..], k, rep);
        assert r == [s[0]] + ReplaceRuns(s[1..], k, rep);
      }
    }
  }

  /** A slug contains no whitespace and no '/'. */
  lemma SlugHasNoSpaceOrSlash(s: string)
    requires IsSlug(s)
    ensures forall i :: 0 <= i < |s| ==> !IsSpace(s[i])
    ensures '/' !in s
  {
    forall i | 0 <= i < |s|
      ensures !IsSpace(s[i]) && s[i] != '/'
    {
      assert IsSlugChar(s[i]);
    }
  }

  /** A string of the slug shape is its own slug. */
  lemma SlugUnchanged(s: string)
    requires IsSlug(s)
    ensures FriendlyUrl(s) == s
  {
    SlugHasNoSpaceOrSlash(s);
    assert Strip(s) == s;
    ReplaceRunsUnchanged(s, Whitespace, '-');
    assert KeepSlugChars(s) == s;
    ReplaceRunsUnchanged(s, Dashes, '-');
  }

  /** Making a slug of a slug changes nothing. */
  lemma FriendlyUrlIdempotent(title: string)
    ensures FriendlyUrl(FriendlyUrl(title)) == FriendlyUrl(title)
  {
    SlugUnchanged(FriendlyUrl(title));
  }

  /** Whitespace between two words becomes one dash. */
  lemma SpaceBetweenWords(a: string, ws: string, b: string)
    requires a != [] && AllWordChars(a) && b != [] && AllWordChars(b)
    requires ws != [] && forall i :: 0 <= i < |ws| ==> IsSpace(ws[i])
    ensures ReplaceRuns(a + ws + b, Whitespace, '-') == a + "-" + b
  {
    assert a + ws + b == a + (ws + b);
    assert (ws + b)[0] == ws[0];
    ReplaceRunsAppend(a, ws + b, Whitespace, '-');
    ReplaceRunsAppend(ws, b, Whitespace, '-');
    ReplaceRunsUnchanged(a, Whitespace, '-');
    ReplaceRunsUnchanged(b, Whitespace, '-');
    ReplaceWholeRun(ws, Whitespace, '-');
  }

  /** Two words joined by one dash hold only slug characters and no run of
      dashes. */
  lemma WordsJoinedByDash(a: string, b: string)
    requires AllWordChars(a) && b != [] && AllWordChars(b)
    ensures KeepSlugChars(a + "-" + b) == a + "-" + b
    ensures ReplaceRuns(a + "-" + b, Dashes, '-') == a + "-" + b
  {
    var t := a + "-" + b;
    assert forall i :: 0 <= i < |t| ==> IsSlugChar(t[i]) by {
      forall i | 0 <= i < |t|
        ensures IsSlugChar(t[i])
      {
        if i < |a| {
          assert t[i] == a[i];
        } else if i > |a| {
          assert t[i] == b[i - |a| - 1];
        }
      }
    }
    forall i | 0 <= i < |t|
      ensures InClass(Dashes, t[i]) ==> t[i] == '-' && (i + 1 == |t| || !InClass(Dashes, t[i + 1]))
    {
      if i < |a| {
        assert t[i] == a[i];
      } else if i > |a| {
        assert t[i] == b[i - |a| - 1];
      } else {
        assert t[i + 1] == b[0];
      }
    }
    ReplaceRunsUnchanged(t, Dashes, '-');
  }

  /** Two words separated by whitespace become the words joined by one dash. */
  lemma FriendlyUrlOfWords(a: string, ws: string, b: string)
    requires a != [] && AllWordChars(a) && b != [] && AllWordChars(b)
    requires ws != [] && forall i :: 0 <= i < |ws| ==> IsSpace(ws[i])
    ensures FriendlyUrl(a + ws + b) == a + "-" + b
  {
    var s := a + ws + b;
    assert s[0] == a[0] && s[|s| - 1] == b[|b| - 1];
    assert Strip(s) == s;
    SpaceBetweenWords(a, ws, b);
    WordsJoinedByDash(a, b);
  }
}
