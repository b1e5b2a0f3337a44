/** `slugify()`: the category id derived from a display name. */
module Slug {
  import opened PhpStrings

  /** The characters the pattern `[a-z0-9]` matches. */
  predicate IsSlugChar(c: char)
  {
    'a' <= c <= 'z' || '0' <= c <= '9'
  }

  /** The characters of `s` that match `[a-z0-9]`, in order. */
  function SlugChars(s: string): string
  {
    if s == [] then [] else (if IsSlugChar(s[0]) then [s[0]] else []) + SlugChars(s[1..])
  }

  lemma {:induction false} SlugCharsConcat(a: string, b: string)
    ensures SlugChars(a + b) == SlugChars(a) + SlugChars(b)
  {
    if a == [] {
      assert a + b == b;
    } else {
      var head := if IsSlugChar(a[0]) then [a[0]] else [];
      calc {
        SlugChars(a + b);
        { assert (a + b)[0] == a[0] && (a + b)[1..] == a[1..] + b; }
        head + SlugChars(a[1..] + b);
        { SlugCharsConcat(a[1..], b); }
        head + (SlugChars(a[1..]) + SlugChars(b));
        (head + SlugChars(a[1..])) + SlugChars(b);
        SlugChars(a) + SlugChars(b);
      }
    }
  }

  lemma {:induction false} SlugCharsNone(s: string)
    requires forall k :: 0 <= k < |s| ==> !IsSlugChar(s[k])
    ensures SlugChars(s) == []
  {
    if s != [] {
      SlugCharsNone(s[1..]);
    }
  }

  /** Dropping a leading part with no letter or digit keeps the letters and digits. */
  lemma {:induction false} SlugCharsDropFront(s: string, a: nat)
    requires a <= |s|
    requires forall k :: 0 <= k < a ==> !IsSlugChar(s[k])
    ensures SlugChars(s[a..]) == SlugChars(s)
  {
    if a > 0 {
      var t := s[1..];
      assert t[a - 1..] == s[a..];
      assert forall k :: 0 <= k < a - 1 ==> t[k] == s[k + 1];
      SlugCharsDropFront(t, a - 1);
    }
  }

  /** Dropping a trailing part with no letter or digit keeps the letters and digits. */
  lemma {:induction false} SlugCharsDropBack(s: string, b: nat)
    requires b <= |s|
    requires forall k :: b <= k < |s| ==> !IsSlugChar(s[k])
    ensures SlugChars(s[..b]) == SlugChars(s)
  {
    if b == 0 {
      SlugCharsNone(s);
    } else {
      var t := s[1..];
      assert s[..b][0] == s[0] && s[..b][1..] == t[..b - 1];
      assert forall k :: b - 1 <= k < |t| ==> t[k] == s[k + 1];
      SlugCharsDropBack(t, b - 1);
    }
  }

  /** Cutting away only characters outside `[a-z0-9]` keeps the letters and digits. */
  lemma SlugCharsOfSlice(s: string, a: nat, b: nat)
    requires a <= b <= |s|
    requires forall k :: 0 <= k < |s| && (k < a || b <= k) ==> !IsSlugChar(s[k])
    ensures SlugChars(s[a..b]) == SlugChars(s)
  {
    SlugCharsDropBack(s, b);
    var front := s[..b];
    assert front[a..] == s[a..b];
    assert forall k :: 0 <= k < a ==> front[k] == s[k];
    SlugCharsDropFront(front, a);
  }

  /** A suffix of the tail is a suffix of the whole. */
  lemma SuffixOfTail<T>(s: seq<T>, r: seq<T>)
    requires s != [] && |r| < |s| && r == s[1..][|s| - 1 - |r|..]
    ensures r == s[|s| - |r|..]
  {
    assert forall k :: 0 <= k < |r| ==> r[k] == s[|s| - |r| + k];
  }

  /** Skips a leading run of characters outside `[a-z0-9]`. */
  function DropRun(s: string): (r: string)
    ensures |r| <= |s| && r == s[|s| - |r|..]
    ensures r == [] || IsSlugChar(r[0])
    ensures SlugChars(r) == SlugChars(s)
  {
    if s != [] && !IsSlugChar(s[0]) then
      var r := DropRun(s[1..]);
      SuffixOfTail(s, r);
      r
    else s
  }

  /** `preg_replace('~[^a-z0-9]+~', '-', $s)`: every maximal run outside `[a-z0-9]` becomes one hyphen. */
  function CollapseRuns(s: string): (r: string)
    ensures forall k :: 0 <= k < |r| ==> IsSlugChar(r[k]) || r[k] == '-'
    ensures forall k :: 0 <= k < |r| - 1 ==> r[k] != '-' || r[k + 1] != '-'
    ensures r == [] <==> s == []
    ensures r != [] && IsSlugChar(s[0]) ==> r[0] == s[0]
    ensures r != [] ==> (r[0] == '-' <==> !IsSlugChar(s[0]))
    ensures SlugChars(r) == SlugChars(s)
    decreases |s|
  {
    if s == [] then []
    else if IsSlugChar(s[0]) then [s[0]] + CollapseRuns(s[1..])
    else "-" + CollapseRuns(DropRun(s[1..]))
  }

  /** The text ends with a character outside `[a-z0-9]`. */
  predicate EndsOutside(s: string)
  {
    s != [] && !IsSlugChar(s[|s| - 1])
  }

  /** The text ends with a hyphen. */
  predicate EndsWithHyphen(r: string)
  {
    r != [] && r[|r| - 1] == '-'
  }

  lemma EndsOutsideTail(s: string)
    requires |s| > 1
    ensures EndsOutside(s[1..]) <==> EndsOutside(s)
  {
    assert s[1..][|s| - 2] == s[|s| - 1];
  }

  lemma EndsWithHyphenCons(x: char, t: string)
    ensures EndsWithHyphen([x] + t) <==> if t == [] then x == '-' else EndsWithHyphen(t)
  {
    var r := [x] + t;
    assert r[|r| - 1] == if t == [] then x else t[|t| - 1];
  }

  /**
   * What `DropRun` leaves ends where the text ends; when it leaves nothing,
   * the text ends outside `[a-z0-9]`.
   */
  lemma {:induction false} DropRunLast(s: string)
    requires s != []
    ensures if DropRun(s) == [] then EndsOutside(s) else (EndsOutside(DropRun(s)) <==> EndsOutside(s))
    decreases |s|
  {
    if !IsSlugChar(s[0]) && |s| > 1 {
      DropRunLast(s[1..]);
      EndsOutsideTail(s);
    }
  }

  /** The replacement ends with a hyphen exactly when the text ends outside `[a-z0-9]`. */
  lemma {:induction false} CollapseRunsLast(s: string)
    ensures EndsWithHyphen(CollapseRuns(s)) <==> EndsOutside(s)
    decreases |s|
  {
    if s != [] {
      if IsSlugChar(s[0]) {
        CollapseRunsLastKeep(s);
      } else {
        CollapseRunsLastRun(s);
      }
    }
  }

  lemma {:induction false} CollapseRunsLastKeep(s: string)
    requires s != [] && IsSlugChar(s[0])
    ensures EndsWithHyphen(CollapseRuns(s)) <==> EndsOutside(s)
    decreases |s|, 0
  {
    var t := CollapseRuns(s[1..]);
    assert CollapseRuns(s) == [s[0]] + t;
    EndsWithHyphenCons(s[0], t);
    if |s| > 1 {
      CollapseRunsLast(s[1..]);
      EndsOutsideTail(s);
    }
  }

  lemma {:induction false} CollapseRunsLastRun(s: string)
    requires s != [] && !IsSlugChar(s[0])
    ensures EndsWithHyphen(CollapseRuns(s)) <==> EndsOutside(s)
    decreases |s|, 0
  {
    var u := DropRun(s[1..]);
    var t := CollapseRuns(u);
    assert CollapseRuns(s) == ['-'] + t;
    EndsWithHyphenCons('-', t);
    if |s| > 1 {
      DropRunLast(s[1..]);
      EndsOutsideTail(s);
      if u != [] {
        CollapseRunsLast(u);
      }
    }
  }

  /**
   * `slugify($s)`: lower-case the trimmed name, turn each run of other
   * characters into one hyphen, and strip hyphens from both ends.
   */
  function Slugify(s: string): string
  {
    TrimChars(CollapseRuns(Lower(Trim(s))), {'-'})
  }

  /** Text made of `[a-z0-9]` and single hyphens stays so when its end hyphens are stripped. */
  lemma TrimHyphens(c: string)
    requires forall k :: 0 <= k < |c| ==> IsSlugChar(c[k]) || c[k] == '-'
    requires forall k :: 0 <= k < |c| - 1 ==> c[k] != '-' || c[k + 1] != '-'
    ensures var r := TrimChars(c, {'-'});
      && (forall k :: 0 <= k < |r| ==> IsSlugChar(r[k]) || r[k] == '-')
      && (r == [] || (r[0] != '-' && r[|r| - 1] != '-'))
      && (forall k :: 0 <= k < |r| - 1 ==> r[k] != '-' || r[k + 1] != '-')
  {
    var a, b := TrimIsSlice(c, {'-'});
    var r := c[a..b];
    forall k | 0 <= k < |r|
      ensures IsSlugChar(r[k]) || r[k] == '-'
      ensures k < |r| - 1 ==> r[k] != '-' || r[k + 1] != '-'
    {
      assert r[k] == c[a + k];
      if k < |r| - 1 {
        assert r[k + 1] == c[a + k + 1];
      }
    }
  }

  /** A slug holds only `a-z`, `0-9` and single hyphens, never at either end. */
  lemma SlugifyShape(s: string)
    ensures var r := Slugify(s);
      && (forall k :: 0 <= k < |r| ==> IsSlugChar(r[k]) || r[k] == '-')
      && (r == [] || (r[0] != '-' && r[|r| - 1] != '-'))
      && (forall k :: 0 <= k < |r| - 1 ==> r[k] != '-' || r[k + 1] != '-')
  {
    var c := CollapseRuns(Lower(Trim(s)));
    assert Slugify(s) == TrimChars(c, {'-'});
    TrimHyphens(c);
  }

  /** The letters and digits of the slug are exactly those of the lower-cased name, in order. */
  lemma SlugifyKeepsLettersAndDigits(s: string)
    ensures SlugChars(Slugify(s)) == SlugChars(Lower(s))
  {
    var a, b := TrimIsSlice(s, TrimSet);
    var low := Lower(s);
    assert Trim(s) == s[a..b];
    LowerSlice(s, a, b);
    SlugCharsOfSlice(low, a, b);
    var c := CollapseRuns(low[a..b]);
    assert Slugify(s) == TrimChars(c, {'-'});
    var a', b' := TrimIsSlice(c, {'-'});
    SlugCharsOfSlice(c, a', b');
  }

  /** The slug is empty exactly when the name has no ASCII letter or digit. */
  lemma SlugifyEmpty(s: string)
    ensures Slugify(s) == [] <==> SlugChars(Lower(s)) == []
  {
    SlugifyKeepsLettersAndDigits(s);
    var r := Slugify(s);
    if r != [] {
      assert IsSlugChar(r[0]);
      assert SlugChars(r) == [r[0]] + SlugChars(r[1..]);
    }
  }

  /** The word `cur` under construction, as a list of at most one finished word. */
  function Flush(cur: string): seq<string>
  {
    if cur == [] then [] else [cur]
  }

  /**
   * The maximal runs of `[a-z0-9]` characters of `s`, in order, when `cur`
   * is the run read just before `s`.
   */
  function WordScan(cur: string, s: string): seq<string>
    decreases |s|
  {
    if s == [] then Flush(cur)
    else if IsSlugChar(s[0]) then WordScan(cur + [s[0]], s[1..])
    else Flush(cur) + WordScan([], s[1..])
  }

  /** The words of `s`: its maximal runs of `[a-z0-9]` characters, in order. */
  function Words(s: string): seq<string>
  {
    WordScan([], s)
  }

  /** The words joined by single hyphens. */
  function JoinHyphen(ws: seq<string>): string
  {
    if ws == [] then []
    else if |ws| == 1 then ws[0]
    else ws[0] + "-" + JoinHyphen(ws[1..])
  }

  /** Every word is a non-empty run of `[a-z0-9]` characters. */
  lemma {:induction false} WordScanWords(cur: string, s: string)
    requires forall k :: 0 <= k < |cur| ==> IsSlugChar(cur[k])
    ensures forall i :: 0 <= i < |WordScan(cur, s)| ==> var w := WordScan(cur, s)[i];
      w != [] && forall k :: 0 <= k < |w| ==> IsSlugChar(w[k])
    decreases |s|
  {
    if s != [] {
      if IsSlugChar(s[0]) {
        var c := cur + [s[0]];
        assert forall k :: 0 <= k < |c| ==> c[k] == if k < |cur| then cur[k] else s[0];
        WordScanWords(c, s[1..]);
      } else {
        WordScanWords([], s[1..]);
      }
    }
  }

  lemma WordsAreRuns(s: string)
    ensures forall i :: 0 <= i < |Words(s)| ==>
      Words(s)[i] != [] && forall k :: 0 <= k < |Words(s)[i]| ==> IsSlugChar(Words(s)[i][k])
  {
    WordScanWords([], s);
  }

  /** Leading characters outside `[a-z0-9]` separate no word. */
  lemma {:induction false} WordsDropFront(s: string, a: nat)
    requires a <= |s|
    requires forall k :: 0 <= k < a ==> !IsSlugChar(s[k])
    ensures WordScan([], s[a..]) == WordScan([], s)
  {
    if a > 0 {
      var t := s[1..];
      assert t[a - 1..] == s[a..];
      assert forall k :: 0 <= k < a - 1 ==> t[k] == s[k + 1];
      WordsDropFront(t, a - 1);
    }
  }

  /** Text with no `[a-z0-9]` character only closes the current word. */
  lemma {:induction false} WordScanNone(cur: string, s: string)
    requires forall k :: 0 <= k < |s| ==> !IsSlugChar(s[k])
    ensures WordScan(cur, s) == Flush(cur)
    decreases |s|
  {
    if s != [] {
      WordScanNone([], s[1..]);
    }
  }

  /** Trailing characters outside `[a-z0-9]` separate no word. */
  lemma {:induction false} WordsDropBack(cur: string, s: string, b: nat)
    requires b <= |s|
    requires forall k :: b <= k < |s| ==> !IsSlugChar(s[k])
    ensures WordScan(cur, s[..b]) == WordScan(cur, s)
    decreases |s|
  {
    if b == 0 {
      WordScanNone(cur, s);
    } else {
      var t := s[1..];
      assert s[..b][0] == s[0] && s[..b][1..] == t[..b - 1];
      assert forall k :: b - 1 <= k < |t| ==> t[k] == s[k + 1];
      if IsSlugChar(s[0]) {
        WordsDropBack(cur + [s[0]], t, b - 1);
      } else {
        WordsDropBack([], t, b - 1);
      }
    }
  }

  /** Cutting away only characters outside `[a-z0-9]` keeps the words. */
  lemma WordsOfSlice(s: string, a: nat, b: nat)
    requires a <= b <= |s|
    requires forall k :: 0 <= k < |s| && (k < a || b <= k) ==> !IsSlugChar(s[k])
    ensures Words(s[a..b]) == Words(s)
  {
    WordsDropBack([], s, b);
    var front := s[..b];
    assert front[a..] == s[a..b];
    assert forall k :: 0 <= k < a ==> front[k] == s[k];
    WordsDropFront(front, a);
  }

  /** A leading run outside `[a-z0-9]` separates no word from the one before it is closed. */
  lemma {:induction false} WordScanDropRun(s: string)
    ensures WordScan([], DropRun(s)) == WordScan([], s)
    decreases |s|
  {
    if s != [] && !IsSlugChar(s[0]) {
      WordScanDropRun(s[1..]);
    }
  }

  /** Collapsing each run into a hyphen keeps the words. */
  lemma {:induction false} WordScanCollapse(cur: string, s: string)
    ensures WordScan(cur, CollapseRuns(s)) == WordScan(cur, s)
    decreases |s|
  {
    if s != [] {
      var r := CollapseRuns(s);
      if IsSlugChar(s[0]) {
        assert r[0] == s[0] && r[1..] == CollapseRuns(s[1..]);
        WordScanCollapse(cur + [s[0]], s[1..]);
      } else {
        var rest := DropRun(s[1..]);
        assert r[0] == '-' && r[1..] == CollapseRuns(rest);
        WordScanCollapse([], rest);
        WordScanDropRun(s[1..]);
      }
    }
  }

  /** Text made of `[a-z0-9]` and single hyphens, not ending in a hyphen. */
  predicate HyphenText(r: string)
  {
    && (forall k :: 0 <= k < |r| ==> IsSlugChar(r[k]) || r[k] == '-')
    && (forall k :: 0 <= k < |r| - 1 ==> r[k] != '-' || r[k + 1] != '-')
    && (r == [] || r[|r| - 1] != '-')
  }

  lemma HyphenTextTail(r: string)
    requires r != [] && HyphenText(r)
    ensures HyphenText(r[1..])
    ensures r[0] == '-' ==> r[1..] != [] && r[1] != '-'
  {
    var t := r[1..];
    assert forall k :: 0 <= k < |t| ==> t[k] == r[k + 1];
  }

  /**
   * Such text, read after the word `cur` (which it does not start a
   * hyphen after when `cur` is empty), is its words joined by hyphens.
   */
  lemma {:induction false} JoinWordScan(cur: string, r: string)
    requires HyphenText(r)
    requires cur != [] || r == [] || r[0] != '-'
    ensures JoinHyphen(WordScan(cur, r)) == cur + r
    decreases |r|
  {
    if r == [] {
      assert cur + r == cur;
    } else {
      HyphenTextTail(r);
      var t := r[1..];
      if IsSlugChar(r[0]) {
        JoinWordScan(cur + [r[0]], t);
        assert (cur + [r[0]]) + t == cur + r;
      } else {
        JoinWordScan([], t);
        var ws := WordScan([], t);
        assert JoinHyphen(ws) == [] + t;
        assert WordScan(cur, r) == [cur] + ws;
        assert ([cur] + ws)[1..] == ws;
        assert cur + r == cur + "-" + t;
      }
    }
  }

  /** Trimming whitespace before lower-casing keeps the words. */
  lemma WordsIgnoreTrim(s: string)
    ensures Words(Lower(Trim(s))) == Words(Lower(s))
  {
    var a, b := TrimIsSlice(s, TrimSet);
    LowerSlice(s, a, b);
    WordsOfSlice(Lower(s), a, b);
  }

  /** Trimming hyphens keeps the words. */
  lemma WordsIgnoreHyphens(c: string)
    ensures Words(TrimChars(c, {'-'})) == Words(c)
  {
    var a, b := TrimIsSlice(c, {'-'});
    WordsOfSlice(c, a, b);
  }

  /**
   * `slugify($s)` is the words of the lower-cased name joined by single
   * hyphens: every run of other characters between two words becomes one
   * hyphen, and none is left at either end.
   */
  lemma SlugifyJoinsWords(s: string)
    ensures Slugify(s) == JoinHyphen(Words(Lower(s)))
  {
    var t := Lower(Trim(s));
    var c := CollapseRuns(t);
    var r := Slugify(s);
    assert r == TrimChars(c, {'-'});
    SlugifyShape(s);
    JoinWordScan([], r);
    calc {
      JoinHyphen(Words(Lower(s)));
      { WordsIgnoreTrim(s); }
      JoinHyphen(Words(t));
      { WordScanCollapse([], t); }
      JoinHyphen(Words(c));
      { WordsIgnoreHyphens(c); }
      JoinHyphen(Words(r));
      [] + r;
    }
  }
}
