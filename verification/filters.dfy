/** The text normaliser of `epub2audio/preprocess.py`: `str.strip()`, then
    the eleven rewrite rules of `DEFAULT_TEXT_FILTERS` in their order, then
    `str.lower()`. Each rule is a left-to-right scan written as a recursive
    function; a lookbehind in a rule looks at the text before the rewrite,
    so the scans carry a flag about the previous ORIGINAL character. */
module TextFilters {
  import opened Common
  import opened Strings

  /** Every character of `r` comes from `s` or from `extra`. */
  predicate CharsWithin(r: string, s: string, extra: string) {
    forall i :: 0 <= i < |r| ==> r[i] in s || r[i] in extra
  }

  // -----------------------------------------------------------------------
  // str.strip()

  function TrimStart(s: string): (r: string)
    ensures |r| <= |s| && r == s[|s| - |r|..]
    ensures forall i :: 0 <= i < |s| - |r| ==> IsSpace(s[i])
    ensures |r| > 0 ==> !IsSpace(r[0])
  {
    if |s| > 0 && IsSpace(s[0]) then TrimStart(s[1..]) else s
  }

  function TrimEnd(s: string): (r: string)
    ensures |r| <= |s| && r == s[..|r|]
    ensures forall i :: |r| <= i < |s| ==> IsSpace(s[i])
    ensures |r| > 0 ==> !IsSpace(r[|r| - 1])
  {
    if |s| > 0 && IsSpace(s[|s| - 1]) then TrimEnd(s[..|s| - 1]) else s
  }

  /** `r` is the slice of `s` starting at `k`, and everything cut off on
      either side is whitespace. */
  predicate IsSliceCutAtSpace(r: string, s: string, k: nat) {
    && k + |r| <= |s|
    && r == s[k..k + |r|]
    && (forall i :: 0 <= i < k ==> IsSpace(s[i]))
    && (forall i :: k + |r| <= i < |s| ==> IsSpace(s[i]))
  }

  /** `str.strip()`: a slice of `s` cut only through whitespace, that neither
      starts nor ends with whitespace. */
  function Strip(s: string): (r: string)
    ensures IsSliceCutAtSpace(r, s, |s| - |TrimStart(s)|)
    ensures |r| > 0 ==> !IsSpace(r[0]) && !IsSpace(r[|r| - 1])
  {
    TrimsCutAtSpace(s);
    TrimEnd(TrimStart(s))
  }

  lemma TrimsCutAtSpace(s: string)
    ensures IsSliceCutAtSpace(TrimEnd(TrimStart(s)), s, |s| - |TrimStart(s)|)
  {
    var t := TrimStart(s);
    var r := TrimEnd(t);
    assert r == t[..|r|];
    CutsCompose(s, t, r, |s| - |t|);
  }

  /** Cutting whitespace off the front, then off the back, is one cut of
      the original through whitespace. */
  lemma CutsCompose(s: string, t: string, r: string, k: nat)
    requires k <= |s| && t == s[k..] && forall i :: 0 <= i < k ==> IsSpace(s[i])
    requires |r| <= |t| && r == t[..|r|] && forall i :: |r| <= i < |t| ==> IsSpace(t[i])
    ensures IsSliceCutAtSpace(r, s, k)
  {
    assert r == s[k..k + |r|];
    forall i | k + |r| <= i < |s|
      ensures IsSpace(s[i])
    {
      assert s[i] == t[i - k];
    }
  }

  // -----------------------------------------------------------------------
  // Rules 1 and 2: `\bch\.(?=[\s])` and `\bpt\.(?=[\s])`, ignoring case

  /** Replace `<first><second>.` by `expansion` where it starts a word (the
      original previous character is not a word character) and is followed by
      whitespace, which is left in place. */
  function ExpandAbbreviation(s: string, first: char, second: char, expansion: string, afterWord: bool): (r: string)
    ensures CharsWithin(r, s, expansion)
    decreases |s|
  {
    if |s| == 0 then []
    else if && |s| >= 4 && !afterWord
            && LowerChar(s[0]) == first && LowerChar(s[1]) == second
            && s[2] == '.' && IsSpace(s[3])
    then
      var rest := ExpandAbbreviation(s[3..], first, second, expansion, false);
      assert forall c :: c in s[3..] ==> c in s;
      expansion + rest
    else
      var rest := ExpandAbbreviation(s[1..], first, second, expansion, IsWordChar(s[0]));
      assert forall c :: c in s[1..] ==> c in s;
      [s[0]] + rest
  }

  // -----------------------------------------------------------------------
  // Rules 3 and 4: `&` and `%`

  /** Replace every occurrence of `c` by `replacement`. */
  function ReplaceChar(s: string, c: char, replacement: string): (r: string)
    ensures CharsWithin(r, s, replacement)
    ensures c !in replacement ==> c !in r
  {
    if |s| == 0 then []
    else
      var rest := ReplaceChar(s[1..], c, replacement);
      assert forall x :: x in s[1..] ==> x in s;
      (if s[0] == c then replacement else [s[0]]) + rest
  }

  // -----------------------------------------------------------------------
  // Rules 5, 6 and 10: `[!?:;.…]+`, `,+` and `\s+`

  /** Replace every maximal run of characters in the class `member` by the
      single character `rep`. `inRun` says the previous original character
      was in the class, in which case a leading class character is dropped. */
  function CollapseRuns(s: string, member: char -> bool, rep: char, inRun: bool): (r: string)
    ensures CharsWithin(r, s, [rep])
    ensures forall i :: 0 <= i < |r| && member(r[i]) ==> r[i] == rep
    ensures member(rep) ==> forall i :: 0 <= i < |r| - 1 ==> !(member(r[i]) && member(r[i + 1]))
    ensures member(rep) && inRun && |r| > 0 ==> !member(r[0])
    ensures |s| > 0 && |r| > 0 && !inRun && member(s[0]) ==> r[0] == rep
    ensures |s| > 0 && !member(s[0]) ==> |r| > 0 && r[0] == s[0]
    ensures |s| > 0 && (!inRun || !member(s[0])) ==> |r| > 0
  {
    if |s| == 0 then []
    else
      var tail := s[1..];
      assert forall x :: x in tail ==> x in s;
      if member(s[0]) then
        var rest := CollapseRuns(tail, member, rep, true);
        if inRun then rest else [rep] + rest
      else
        [s[0]] + CollapseRuns(tail, member, rep, false)
  }

  predicate IsPunctuation(c: char) {
    c in "!?:;.…"
  }

  predicate IsComma(c: char) {
    c == ','
  }

  // -----------------------------------------------------------------------
  // Rules 7 and 8: `(?<![X])c|c(?![Y])`

  /** Remove each `target` unless the original character before it satisfies
      `before` (that fact is `prevOk`) and the one after it satisfies
      `after`. */
  function RemoveUnflanked(s: string, target: char, before: char -> bool, after: char -> bool, prevOk: bool): (r: string)
    ensures CharsWithin(r, s, [])
    ensures |s| > 0 && s[0] != target ==> |r| > 0 && r[0] == s[0]
  {
    if |s| == 0 then []
    else
      var rest := RemoveUnflanked(s[1..], target, before, after, before(s[0]));
      assert forall x :: x in s[1..] ==> x in s;
      if s[0] == target && !(prevOk && |s| > 1 && after(s[1])) then rest
      else [s[0]] + rest
  }

  /** The lookbehind class of rule 8 as written, `[a-zA-Z0-0]`: letters and
      the digit 0 only. */
  predicate QuoteLookbehind(c: char) {
    IsAsciiLetter(c) || c == '0'
  }

  // -----------------------------------------------------------------------
  // Rule 9: `[()\[\]{}"“”‘’*~_]`

  predicate IsBracket(c: char) {
    c in "()[]{}\"“”‘’*~_"
  }

  function RemoveBrackets(s: string): (r: string)
    ensures CharsWithin(r, s, [])
    ensures forall i :: 0 <= i < |r| ==> !IsBracket(r[i])
  {
    Filter(s, (c: char) => !IsBracket(c))
  }

  // -----------------------------------------------------------------------
  // Rule 11: `^\s+$`

  predicate AllSpace(s: string) {
    forall i :: 0 <= i < |s| ==> IsSpace(s[i])
  }

  function BlankToEmpty(s: string): (r: string)
    ensures r == s || r == ""
    ensures AllSpace(s) ==> r == ""
    ensures !AllSpace(s) ==> r == s
  {
    if |s| > 0 && AllSpace(s) then "" else s
  }

  // -----------------------------------------------------------------------
  // The chain

  /** Rules 1 and 2. */
  function EarlyRules(s: string): string
  {
    ExpandAbbreviation(ExpandAbbreviation(s, 'c', 'h', "chapter", false), 'p', 't', "part", false)
  }

  /** Rules 6 to 11. */
  function LaterRules(s5: string): string
  {
    var s6 := CollapseRuns(s5, IsComma, ',', false);
    var s7 := RemoveUnflanked(s6, '-', IsAsciiAlnum, IsAsciiAlnum, false);
    var s8 := RemoveUnflanked(s7, '\'', QuoteLookbehind, IsAsciiAlnum, false);
    var s9 := RemoveBrackets(s8);
    var s10 := CollapseRuns(s9, IsSpace, ' ', false);
    BlankToEmpty(s10)
  }

  /** The eleven rules in their order, applied to already-stripped text. */
  function ApplyRules(s: string): string
  {
    var s2 := EarlyRules(s);
    var s3 := ReplaceChar(s2, '&', " and ");
    var s4 := ReplaceChar(s3, '%', " percent ");
    var s5 := CollapseRuns(s4, IsPunctuation, '.', false);
    LaterRules(s5)
  }

  /** `ContentPreprocessor._filter_text`. */
  function FilterText(s: string): (r: string)
    ensures forall i :: 0 <= i < |r| ==> !('A' <= r[i] <= 'Z')
  {
    Lower(ApplyRules(Strip(s)))
  }

  // -----------------------------------------------------------------------
  // Hyphens

  /** Every `-` sits between two ASCII alphanumerics. */
  predicate HyphensFlanked(s: string) {
    forall i :: 0 <= i < |s| && s[i] == '-' ==>
      0 < i < |s| - 1 && IsAsciiAlnum(s[i - 1]) && IsAsciiAlnum(s[i + 1])
  }

  /** The same property as a scan: `prevAlnum` says what precedes `s`. */
  predicate HyphensFlankedAfter(s: string, prevAlnum: bool)
  {
    |s| == 0 ||
    ((s[0] == '-' ==> prevAlnum && |s| > 1 && IsAsciiAlnum(s[1]))
     && HyphensFlankedAfter(s[1..], IsAsciiAlnum(s[0])))
  }

  lemma {:induction false} HyphensFlankedAfterWeaken(s: string, p: bool)
    requires HyphensFlankedAfter(s, false)
    ensures HyphensFlankedAfter(s, p)
  {
  }

  /** Position `i` of `s` is not a hyphen, or is one between alphanumerics,
      with `p` standing for what precedes `s`. */
  predicate HyphenFlankedAt(s: string, p: bool, i: nat)
    requires i < |s|
  {
    s[i] == '-' ==>
      (if i == 0 then p else IsAsciiAlnum(s[i - 1])) && i < |s| - 1 && IsAsciiAlnum(s[i + 1])
  }

  /** The positional statement with `p` standing for what precedes `s`. */
  predicate HyphensFlankedFrom(s: string, p: bool) {
    forall i: nat :: i < |s| ==> HyphenFlankedAt(s, p, i)
  }

  /** The scan and the positional statement agree. */
  lemma {:induction false} HyphensFlankedAfterMeans(s: string, p: bool)
    ensures HyphensFlankedAfter(s, p) <==> HyphensFlankedFrom(s, p)
  {
    if |s| > 0 {
      var t := s[1..];
      var a := IsAsciiAlnum(s[0]);
      HyphensFlankedAfterMeans(t, a);
      if HyphensFlankedAfter(s, p) {
        forall i: nat | i < |s|
          ensures HyphenFlankedAt(s, p, i)
        {
          if i > 0 {
            assert HyphenFlankedAt(t, a, i - 1);
          }
        }
      }
      if HyphensFlankedFrom(s, p) {
        assert HyphenFlankedAt(s, p, 0);
        forall j: nat | j < |t|
          ensures HyphenFlankedAt(t, a, j)
        {
          assert HyphenFlankedAt(s, p, j + 1);
        }
      }
    }
  }

  lemma HyphensFlankedIsScan(s: string)
    ensures HyphensFlanked(s) <==> HyphensFlankedAfter(s, false)
  {
    HyphensFlankedAfterMeans(s, false);
    if HyphensFlanked(s) {
      forall i: nat | i < |s| ensures HyphenFlankedAt(s, false, i) { }
    }
    if HyphensFlankedFrom(s, false) {
      forall i | 0 <= i < |s| && s[i] == '-'
        ensures 0 < i < |s| - 1 && IsAsciiAlnum(s[i - 1]) && IsAsciiAlnum(s[i + 1])
      {
        assert HyphenFlankedAt(s, false, i);
      }
    }
  }

  /** Rule 7 leaves only hyphens flanked by alphanumerics. */
  lemma {:induction false} HyphenRuleFlanks(s: string, prevOk: bool)
    ensures HyphensFlankedAfter(RemoveUnflanked(s, '-', IsAsciiAlnum, IsAsciiAlnum, prevOk), prevOk)
  {
    if |s| > 0 {
      var t := s[1..];
      HyphenRuleFlanks(t, IsAsciiAlnum(s[0]));
      var rest := RemoveUnflanked(t, '-', IsAsciiAlnum, IsAsciiAlnum, IsAsciiAlnum(s[0]));
      if s[0] == '-' && !(prevOk && |s| > 1 && IsAsciiAlnum(s[1])) {
        HyphensFlankedAfterWeaken(rest, prevOk);
      }
    }
  }

  /** Removing some copies of a character that is neither alphanumeric nor a
      hyphen keeps every hyphen flanked. */
  lemma {:induction false} RemoveUnflankedKeepsHyphens(s: string, target: char, before: char -> bool, after: char -> bool, prevOk: bool, p: bool)
    requires target != '-' && !IsAsciiAlnum(target)
    requires HyphensFlankedAfter(s, p)
    ensures HyphensFlankedAfter(RemoveUnflanked(s, target, before, after, prevOk), p)
  {
    if |s| > 0 {
      var t := s[1..];
      RemoveUnflankedKeepsHyphens(t, target, before, after, before(s[0]), IsAsciiAlnum(s[0]));
      var rest := RemoveUnflanked(t, target, before, after, before(s[0]));
      if s[0] == target && !(prevOk && |s| > 1 && after(s[1])) {
        HyphensFlankedAfterWeaken(rest, p);
      }
    }
  }

  lemma {:induction false} FilterKeepsHyphens(s: string, keep: char -> bool, p: bool)
    requires forall c :: !keep(c) ==> c != '-' && !IsAsciiAlnum(c)
    requires HyphensFlankedAfter(s, p)
    ensures HyphensFlankedAfter(Filter(s, keep), p)
  {
    if |s| > 0 {
      var t := s[1..];
      FilterKeepsHyphens(t, keep, IsAsciiAlnum(s[0]));
      if !keep(s[0]) {
        HyphensFlankedAfterWeaken(Filter(t, keep), p);
      } else if s[0] == '-' {
        assert keep(t[0]);
      }
    }
  }

  /** Collapsing runs of a class that holds neither alphanumerics nor hyphens
      keeps every hyphen flanked. */
  lemma {:induction false} CollapseRunsKeepsHyphens(s: string, member: char -> bool, rep: char, inRun: bool, p: bool)
    requires forall c :: member(c) ==> c != '-' && !IsAsciiAlnum(c)
    requires rep != '-' && !IsAsciiAlnum(rep)
    requires HyphensFlankedAfter(s, p)
    ensures HyphensFlankedAfter(CollapseRuns(s, member, rep, inRun), p)
  {
    if |s| > 0 {
      var t := s[1..];
      if member(s[0]) {
        CollapseRunsKeepsHyphens(t, member, rep, true, false);
        if inRun {
          HyphensFlankedAfterWeaken(CollapseRuns(t, member, rep, true), p);
        }
      } else {
        CollapseRunsKeepsHyphens(t, member, rep, false, IsAsciiAlnum(s[0]));
      }
    }
  }

  // -----------------------------------------------------------------------
  // What the removing and collapsing rules keep

  /** Rules 7 and 8 delete copies of their target character and nothing else:
      the other characters survive, in order. */
  lemma {:induction false} RemoveUnflankedKeepsOthers(s: string, target: char, before: char -> bool, after: char -> bool, prevOk: bool)
    ensures Filter(RemoveUnflanked(s, target, before, after, prevOk), (c: char) => c != target)
         == Filter(s, (c: char) => c != target)
  {
    if |s| > 0 {
      RemoveUnflankedKeepsOthers(s[1..], target, before, after, before(s[0]));
      var rest := RemoveUnflanked(s[1..], target, before, after, before(s[0]));
      if !(s[0] == target && !(prevOk && |s| > 1 && after(s[1]))) {
        FilterAppend([s[0]], rest, (c: char) => c != target);
        assert s == [s[0]] + s[1..];
        FilterAppend([s[0]], s[1..], (c: char) => c != target);
      } else {
        assert s == [s[0]] + s[1..];
        FilterAppend([s[0]], s[1..], (c: char) => c != target);
      }
    }
  }

  /** Rules 5, 6 and 10 touch only characters of their class: the characters
      outside it survive, in order. */
  lemma {:induction false} CollapseRunsKeepsOthers(s: string, member: char -> bool, rep: char, inRun: bool)
    requires member(rep)
    ensures Filter(CollapseRuns(s, member, rep, inRun), (c: char) => !member(c))
         == Filter(s, (c: char) => !member(c))
  {
    if |s| > 0 {
      var t := s[1..];
      assert s == [s[0]] + t;
      FilterAppend([s[0]], t, (c: char) => !member(c));
      if member(s[0]) {
        CollapseRunsKeepsOthers(t, member, rep, true);
        if !inRun {
          FilterAppend([rep], CollapseRuns(t, member, rep, true), (c: char) => !member(c));
        }
      } else {
        CollapseRunsKeepsOthers(t, member, rep, false);
        FilterAppend([s[0]], CollapseRuns(t, member, rep, false), (c: char) => !member(c));
      }
    }
  }

  /** Whether the last original character of `a` was in the class, or
      `inRun` when `a` is empty. */
  function InRunAfter(a: string, member: char -> bool, inRun: bool): bool {
    if |a| == 0 then inRun else member(a[|a| - 1])
  }

  /** Collapsing works left to right: the text after `a` is collapsed
      knowing only whether `a` ended inside a run. */
  lemma {:induction false} CollapseRunsAppend(a: string, b: string, member: char -> bool, rep: char, inRun: bool)
    ensures CollapseRuns(a + b, member, rep, inRun)
         == CollapseRuns(a, member, rep, inRun) + CollapseRuns(b, member, rep, InRunAfter(a, member, inRun))
    decreases |a|
  {
    if |a| == 0 {
      assert a + b == b;
    } else {
      var s := a + b;
      assert s[0] == a[0];
      assert s[1..] == a[1..] + b;
      CollapseRunsAppend(a[1..], b, member, rep, member(a[0]));
      assert InRunAfter(a[1..], member, member(a[0])) == InRunAfter(a, member, inRun);
    }
  }

  /** A character outside the class stays where it is, and the text on
      either side is collapsed separately: the replacement of a run lands
      on the run's side of it. */
  lemma CollapseRunsSplits(a: string, c: char, b: string, member: char -> bool, rep: char, inRun: bool)
    requires !member(c)
    ensures CollapseRuns(a + [c] + b, member, rep, inRun)
         == CollapseRuns(a, member, rep, inRun) + [c] + CollapseRuns(b, member, rep, false)
  {
    var ac := a + [c];
    CollapseRunsAppend(ac, b, member, rep, inRun);
    assert InRunAfter(ac, member, inRun) == false by {
      assert ac[|ac| - 1] == c;
    }
    CollapseRunsAppend(a, [c], member, rep, inRun);
    assert CollapseRuns([c], member, rep, InRunAfter(a, member, inRun)) == [c] by {
      assert [c][1..] == [];
    }
  }

  /** A run on its own becomes one replacement character, or nothing when it
      continues a run already replaced. */
  lemma {:induction false} CollapseRunsOfRun(s: string, member: char -> bool, rep: char, inRun: bool)
    requires forall i :: 0 <= i < |s| ==> member(s[i])
    ensures CollapseRuns(s, member, rep, inRun) == if |s| > 0 && !inRun then [rep] else []
    decreases |s|
  {
    if |s| > 0 {
      CollapseRunsOfRun(s[1..], member, rep, true);
    }
  }

  /** What rules 7 and 8 keep of the first character. */
  function UnflankedHead(s: string, target: char, after: char -> bool, prevOk: bool): string
    requires |s| > 0
  {
    if s[0] == target && !(prevOk && |s| > 1 && after(s[1])) then [] else [s[0]]
  }

  lemma RemoveUnflankedStep(s: string, target: char, before: char -> bool, after: char -> bool, prevOk: bool)
    requires |s| > 0
    ensures RemoveUnflanked(s, target, before, after, prevOk)
         == UnflankedHead(s, target, after, prevOk) + RemoveUnflanked(s[1..], target, before, after, before(s[0]))
  {
  }

  /** Appending text after a first character that is not a lone target
      leaves what happens to that character unchanged. */
  lemma RemoveUnflankedConsAppend(a: string, b: string, target: char, before: char -> bool, after: char -> bool, prevOk: bool)
    requires |a| > 0 && a[|a| - 1] != target
    ensures RemoveUnflanked(a + b, target, before, after, prevOk)
         == UnflankedHead(a, target, after, prevOk) + RemoveUnflanked(a[1..] + b, target, before, after, before(a[0]))
  {
    var s := a + b;
    assert s[0] == a[0];
    assert s[1..] == a[1..] + b;
    assert UnflankedHead(s, target, after, prevOk) == UnflankedHead(a, target, after, prevOk) by {
      if |a| > 1 {
        assert s[1] == a[1];
      }
    }
    RemoveUnflankedStep(s, target, before, after, prevOk);
  }

  /** Rules 7 and 8 work left to right: after a piece `a` that does not end
      in the target, the rest is handled knowing only whether `a`'s last
      character satisfies the look-behind class. */
  lemma {:induction false} RemoveUnflankedAppend(a: string, b: string, target: char, before: char -> bool, after: char -> bool, prevOk: bool)
    requires |a| == 0 || a[|a| - 1] != target
    ensures RemoveUnflanked(a + b, target, before, after, prevOk)
         == RemoveUnflanked(a, target, before, after, prevOk)
          + RemoveUnflanked(b, target, before, after, if |a| == 0 then prevOk else before(a[|a| - 1]))
    decreases |a|
  {
    if |a| == 0 {
      assert a + b == b;
    } else {
      var t := a[1..];
      var h := UnflankedHead(a, target, after, prevOk);
      var x := RemoveUnflanked(t, target, before, after, before(a[0]));
      var y := RemoveUnflanked(b, target, before, after, before(a[|a| - 1]));
      assert RemoveUnflanked(t + b, target, before, after, before(a[0])) == x + y by {
        assert |t| == 0 || t[|t| - 1] == a[|a| - 1];
        RemoveUnflankedAppend(t, b, target, before, after, before(a[0]));
      }
      RemoveUnflankedConsAppend(a, b, target, before, after, prevOk);
      RemoveUnflankedStep(a, target, before, after, prevOk);
      Common.ShiftAppend(RemoveUnflanked(a + b, target, before, after, prevOk), RemoveUnflanked(t + b, target, before, after, before(a[0])),
                         RemoveUnflanked(a, target, before, after, prevOk), h, x, y);
    }
  }

  /** The converse of the flanking rule: a target with a look-behind
      character before it and a look-ahead character after it stays, and
      the text on either side is handled separately. */
  lemma RemoveUnflankedKeepsFlanked(a: string, x: char, y: char, b: string, target: char, before: char -> bool, after: char -> bool, prevOk: bool)
    requires x != target && before(x) && after(y)
    ensures RemoveUnflanked(a + [x, target, y] + b, target, before, after, prevOk)
         == RemoveUnflanked(a + [x], target, before, after, prevOk) + [target]
          + RemoveUnflanked([y] + b, target, before, after, before(target))
  {
    var rest := [target, y] + b;
    assert a + [x, target, y] + b == (a + [x]) + rest;
    RemoveUnflankedAppend(a + [x], rest, target, before, after, prevOk);
    assert rest[1..] == [y] + b;
  }

  /** A hyphen inside a word survives rule 7. */
  lemma HyphenInWordKept()
    ensures RemoveUnflanked("a-b", '-', IsAsciiAlnum, IsAsciiAlnum, false) == "a-b"
  {
    RemoveUnflankedKeepsFlanked([], 'a', 'b', [], '-', IsAsciiAlnum, IsAsciiAlnum, false);
    assert [] + ['a', '-', 'b'] + [] == "a-b";
  }

  /** Position `i` starts a maximal run of class members: it is a member and
      the character before it is not (before position 0, `inRun` says
      whether the previous original character was). */
  predicate IsRunStart(s: string, member: char -> bool, inRun: bool, i: nat)
    requires i < |s|
  {
    member(s[i]) && if i == 0 then !inRun else !member(s[i - 1])
  }

  /** The number of runs that start among the first `n` positions. */
  function RunStarts(s: string, member: char -> bool, inRun: bool, n: nat): nat
    requires n <= |s|
  {
    if n == 0 then 0
    else RunStarts(s, member, inRun, n - 1) + if IsRunStart(s, member, inRun, n - 1) then 1 else 0
  }

  /** Counting run starts after the first position is counting them in the
      rest, whose `inRun` is whether the first character was a member. */
  lemma {:induction false} RunStartsOfTail(s: string, member: char -> bool, inRun: bool, n: nat)
    requires 1 <= n <= |s|
    ensures RunStarts(s, member, inRun, n)
         == (if IsRunStart(s, member, inRun, 0) then 1 else 0) + RunStarts(s[1..], member, member(s[0]), n - 1)
  {
    if n > 1 {
      RunStartsOfTail(s, member, inRun, n - 1);
      assert IsRunStart(s, member, inRun, n - 1) == IsRunStart(s[1..], member, member(s[0]), n - 2);
    }
  }

  /** Rules 5, 6 and 10 put exactly one replacement character per maximal
      run of the class; `CollapseRunsSplits` and `CollapseRunsOfRun` say
      where it goes. */
  lemma {:induction false} CollapseRunsCountsRuns(s: string, member: char -> bool, rep: char, inRun: bool)
    requires member(rep)
    ensures multiset(CollapseRuns(s, member, rep, inRun))[rep] == RunStarts(s, member, inRun, |s|)
  {
    if |s| > 0 {
      var t := s[1..];
      RunStartsOfTail(s, member, inRun, |s|);
      CollapseRunsCountsRuns(t, member, rep, member(s[0]));
      var rest := CollapseRuns(t, member, rep, member(s[0]));
      var k := if IsRunStart(s, member, inRun, 0) then 1 else 0;
      assert multiset(CollapseRuns(s, member, rep, inRun))[rep] == k + multiset(rest)[rep] by {
        if member(s[0]) && inRun {
          assert CollapseRuns(s, member, rep, inRun) == rest;
        } else {
          var head := if member(s[0]) then rep else s[0];
          assert CollapseRuns(s, member, rep, inRun) == [head] + rest;
          assert multiset([head] + rest) == multiset([head]) + multiset(rest);
          assert head == rep <==> IsRunStart(s, member, inRun, 0);
        }
      }
    }
  }

  /** A run of mixed punctuation becomes a single period. */
  lemma PunctuationRunBecomesPeriod()
    ensures CollapseRuns("a!?b", IsPunctuation, '.', false) == "a.b"
  {
    assert "a!?b"[1..] == "!?b";
    assert "!?b"[1..] == "?b";
    assert "?b"[1..] == "b";
    assert "b"[1..] == "";
  }

  // -----------------------------------------------------------------------
  // What the normaliser guarantees

  /** No character of `s` is in the class `p`. */
  predicate NoneOf(s: string, p: char -> bool) {
    forall i :: 0 <= i < |s| ==> !p(s[i])
  }

  /** A class absent from the input and from the inserted text is absent from
      the output. */
  lemma WithinKeepsNoneOf(r: string, s: string, extra: string, p: char -> bool)
    requires CharsWithin(r, s, extra) && NoneOf(s, p) && NoneOf(extra, p)
    ensures NoneOf(r, p)
  {
    forall i | 0 <= i < |r|
      ensures !p(r[i])
    {
      if r[i] in s {
        var j :| 0 <= j < |s| && s[j] == r[i];
      } else {
        var j :| 0 <= j < |extra| && extra[j] == r[i];
      }
    }
  }

  predicate IsAmpersandOrPercent(c: char) {
    c == '&' || c == '%'
  }

  predicate IsForbiddenPunctuation(c: char) {
    IsAmpersandOrPercent(c) || (IsPunctuation(c) && c != '.')
  }

  /** Rules 3 and 4 leave no `&` and no `%`. */
  lemma NoAmpersandOrPercent(s2: string)
    ensures NoneOf(ReplaceChar(ReplaceChar(s2, '&', " and "), '%', " percent "), IsAmpersandOrPercent)
  {
    var s3 := ReplaceChar(s2, '&', " and ");
    var s4 := ReplaceChar(s3, '%', " percent ");
    assert NoneOf(s3, (c: char) => c == '&');
    WithinKeepsNoneOf(s4, s3, " percent ", (c: char) => c == '&');
  }

  /** Rule 5 then leaves none of `&%!?:;…`. */
  lemma NoForbiddenAfterPunctuationRule(s4: string)
    requires NoneOf(s4, IsAmpersandOrPercent)
    ensures NoneOf(CollapseRuns(s4, IsPunctuation, '.', false), IsForbiddenPunctuation)
  {
    var s5 := CollapseRuns(s4, IsPunctuation, '.', false);
    WithinKeepsNoneOf(s5, s4, ".", IsAmpersandOrPercent);
  }

  /** Rules 6 to 11 bring none of it back, and rule 9 removes the brackets. */
  lemma NoForbiddenAfterLaterRules(s5: string)
    requires NoneOf(s5, IsForbiddenPunctuation)
    ensures NoneOf(LaterRules(s5), IsForbiddenPunctuation)
    ensures NoneOf(LaterRules(s5), IsBracket)
  {
    var s6 := CollapseRuns(s5, IsComma, ',', false);
    var s7 := RemoveUnflanked(s6, '-', IsAsciiAlnum, IsAsciiAlnum, false);
    var s8 := RemoveUnflanked(s7, '\'', QuoteLookbehind, IsAsciiAlnum, false);
    var s9 := RemoveBrackets(s8);
    var s10 := CollapseRuns(s9, IsSpace, ' ', false);
    WithinKeepsNoneOf(s6, s5, ",", IsForbiddenPunctuation);
    WithinKeepsNoneOf(s7, s6, "", IsForbiddenPunctuation);
    WithinKeepsNoneOf(s8, s7, "", IsForbiddenPunctuation);
    WithinKeepsNoneOf(s9, s8, "", IsForbiddenPunctuation);
    WithinKeepsNoneOf(s10, s9, " ", IsForbiddenPunctuation);
    WithinKeepsNoneOf(s10, s9, " ", IsBracket);
  }

  /** Rule 10 leaves no two whitespace characters in a row, and rule 11 keeps
      that. */
  lemma NoDoubleSpaceAfterLaterRules(s5: string)
    ensures var r := LaterRules(s5);
            forall i :: 0 <= i < |r| - 1 ==> !(IsSpace(r[i]) && IsSpace(r[i + 1]))
  {
  }

  /** Neither the bracket class nor whitespace holds a hyphen or an
      alphanumeric. */
  lemma ClassesAvoidHyphenAndAlnum()
    ensures forall c :: IsBracket(c) ==> c != '-' && !IsAsciiAlnum(c)
    ensures forall c :: IsSpace(c) ==> c != '-' && !IsAsciiAlnum(c)
  {
  }

  /** Rules 7 to 11 leave every hyphen between alphanumerics. */
  lemma HyphensFlankedAfterLaterRules(s5: string)
    ensures HyphensFlanked(LaterRules(s5))
  {
    var s6 := CollapseRuns(s5, IsComma, ',', false);
    var s7 := RemoveUnflanked(s6, '-', IsAsciiAlnum, IsAsciiAlnum, false);
    var s8 := RemoveUnflanked(s7, '\'', QuoteLookbehind, IsAsciiAlnum, false);
    var s9 := RemoveBrackets(s8);
    var s10 := CollapseRuns(s9, IsSpace, ' ', false);
    ClassesAvoidHyphenAndAlnum();
    HyphenRuleFlanks(s6, false);
    assert HyphensFlankedAfter(s7, false);
    RemoveUnflankedKeepsHyphens(s7, '\'', QuoteLookbehind, IsAsciiAlnum, false, false);
    assert HyphensFlankedAfter(s8, false);
    FilterKeepsHyphens(s8, (c: char) => !IsBracket(c), false);
    assert HyphensFlankedAfter(s9, false);
    CollapseRunsKeepsHyphens(s9, IsSpace, ' ', false, false);
    assert HyphensFlankedAfter(s10, false);
    HyphensFlankedIsScan(s10);
    assert LaterRules(s5) == BlankToEmpty(s10);
  }

  /** Lower-casing changes only ASCII capitals, so it keeps each of the
      properties above. */
  lemma LowerKeepsProperties(s: string)
    ensures NoneOf(s, IsForbiddenPunctuation) ==> NoneOf(Lower(s), IsForbiddenPunctuation)
    ensures NoneOf(s, IsBracket) ==> NoneOf(Lower(s), IsBracket)
    ensures forall i :: 0 <= i < |s| ==> (IsSpace(Lower(s)[i]) <==> IsSpace(s[i]))
    ensures HyphensFlanked(s) ==> HyphensFlanked(Lower(s))
  {
    var r := Lower(s);
    forall i | 0 <= i < |s|
      ensures r[i] == s[i] || (IsAsciiLetter(s[i]) && IsAsciiLetter(r[i]))
    {
    }
  }

  /** The output of `_filter_text`: no `&`, `%`, `!`, `?`, `:`, `;` or `…`;
      no bracket or other discarded special character; never two whitespace
      characters in a row; every hyphen between two ASCII alphanumerics; and
      no upper-case ASCII letter. */
  lemma FilterTextOutput(s: string)
    ensures var r := FilterText(s);
            && NoneOf(r, IsForbiddenPunctuation)
            && NoneOf(r, IsBracket)
            && (forall i :: 0 <= i < |r| - 1 ==> !(IsSpace(r[i]) && IsSpace(r[i + 1])))
            && HyphensFlanked(r)
            && (forall i :: 0 <= i < |r| ==> !('A' <= r[i] <= 'Z'))
  {
    var s2 := EarlyRules(Strip(s));
    var s4 := ReplaceChar(ReplaceChar(s2, '&', " and "), '%', " percent ");
    var s5 := CollapseRuns(s4, IsPunctuation, '.', false);
    var s11 := LaterRules(s5);
    assert ApplyRules(Strip(s)) == s11;
    NoAmpersandOrPercent(s2);
    NoForbiddenAfterPunctuationRule(s4);
    NoForbiddenAfterLaterRules(s5);
    NoDoubleSpaceAfterLaterRules(s5);
    HyphensFlankedAfterLaterRules(s5);
    LowerKeepsProperties(s11);
  }

  // -----------------------------------------------------------------------
  // Text the rules leave alone

  /** Lower-case ASCII letters and single spaces, not all spaces. */
  predicate IsPlainText(s: string) {
    && (forall i :: 0 <= i < |s| ==> 'a' <= s[i] <= 'z' || s[i] == ' ')
    && (forall i :: 0 <= i < |s| - 1 ==> !(s[i] == ' ' && s[i + 1] == ' '))
    && (|s| == 0 || !AllSpace(s))
  }

  lemma {:induction false} ExpandAbbreviationWithoutDot(s: string, first: char, second: char, expansion: string, afterWord: bool)
    requires forall i :: 0 <= i < |s| ==> s[i] != '.'
    ensures ExpandAbbreviation(s, first, second, expansion, afterWord) == s
    decreases |s|
  {
    if |s| > 0 {
      ExpandAbbreviationWithoutDot(s[1..], first, second, expansion, IsWordChar(s[0]));
      assert !(|s| >= 4 && s[2] == '.');
    }
  }

  lemma {:induction false} ReplaceCharAbsent(s: string, c: char, replacement: string)
    requires forall i :: 0 <= i < |s| ==> s[i] != c
    ensures ReplaceChar(s, c, replacement) == s
  {
    if |s| > 0 {
      ReplaceCharAbsent(s[1..], c, replacement);
    }
  }

  /** Replacement works character by character, so it distributes over
      concatenation. */
  lemma {:induction false} ReplaceCharAppend(a: string, b: string, c: char, replacement: string)
    ensures ReplaceChar(a + b, c, replacement) == ReplaceChar(a, c, replacement) + ReplaceChar(b, c, replacement)
    decreases |a|
  {
    if |a| > 0 {
      assert (a + b)[1..] == a[1..] + b;
      ReplaceCharAppend(a[1..], b, c, replacement);
    } else {
      assert a + b == b;
    }
  }

  /** Each occurrence of `c` becomes exactly `replacement`, with the text on
      either side replaced independently. */
  lemma ReplaceCharSplits(a: string, b: string, c: char, replacement: string)
    ensures ReplaceChar(a + [c] + b, c, replacement)
         == ReplaceChar(a, c, replacement) + replacement + ReplaceChar(b, c, replacement)
  {
    ReplaceCharAppend(a + [c], b, c, replacement);
    ReplaceCharAppend(a, [c], c, replacement);
    assert [c][1..] == [];
  }

  /** At the start of a word, `<first><second>.` in either case followed by
      whitespace becomes `expansion`, and scanning resumes at the whitespace. */
  lemma AbbreviationAtWordStartExpands(x: char, y: char, w: char, t: string, first: char, second: char, expansion: string)
    requires LowerChar(x) == first && LowerChar(y) == second && IsSpace(w)
    ensures ExpandAbbreviation([x, y, '.', w] + t, first, second, expansion, false)
         == expansion + ExpandAbbreviation([w] + t, first, second, expansion, false)
  {
    assert ([x, y, '.', w] + t)[3..] == [w] + t;
  }

  /** Right after a word character nothing is expanded: the character is kept
      and scanning moves on. */
  lemma AbbreviationInsideWordKept(s: string, first: char, second: char, expansion: string)
    requires |s| > 0
    ensures ExpandAbbreviation(s, first, second, expansion, true)
         == [s[0]] + ExpandAbbreviation(s[1..], first, second, expansion, IsWordChar(s[0]))
  {
  }

  /** A capitalised abbreviation at the start of the text expands. */
  lemma CapitalisedChapterExpands()
    ensures ExpandAbbreviation("Ch. 2", 'c', 'h', "chapter", false) == "chapter 2"
  {
    assert "Ch. 2" == ['C', 'h', '.', ' '] + "2";
    AbbreviationAtWordStartExpands('C', 'h', ' ', "2", 'c', 'h', "chapter");
    ExpandAbbreviationWithoutDot(" 2", 'c', 'h', "chapter", false);
  }

  /** A word is copied as it is when it does not start an abbreviation:
      either it follows a word character or its first letter is not the
      abbreviation's. */
  lemma {:induction false} WordKept(w: string, t: string, first: char, second: char, expansion: string, afterWord: bool)
    requires |w| > 0 && forall i :: 0 <= i < |w| ==> IsWordChar(w[i])
    requires afterWord || LowerChar(w[0]) != first
    ensures ExpandAbbreviation(w + t, first, second, expansion, afterWord) == w + ExpandAbbreviation(t, first, second, expansion, true)
    decreases |w|
  {
    var s := w + t;
    assert s[0] == w[0] && IsWordChar(s[0]);
    assert ExpandAbbreviation(s, first, second, expansion, afterWord)
        == [w[0]] + ExpandAbbreviation(s[1..], first, second, expansion, true);
    if |w| > 1 {
      assert s[1..] == w[1..] + t;
      WordKept(w[1..], t, first, second, expansion, true);
      assert w == [w[0]] + w[1..];
    } else {
      assert s[1..] == t && w == [w[0]];
    }
  }

  /** The same letters at the end of a longer word are not an abbreviation. */
  lemma ChapterInsideWordKept()
    ensures ExpandAbbreviation("such. x", 'c', 'h', "chapter", false) == "such. x"
  {
    assert "such. x" == "such" + ". x";
    WordKept("such", ". x", 'c', 'h', "chapter", false);
    AbbreviationInsideWordKept(". x", 'c', 'h', "chapter");
    assert ". x"[1..] == " x";
    ExpandAbbreviationWithoutDot(" x", 'c', 'h', "chapter", false);
  }

  /** Without whitespace after the period the abbreviation stays. */
  lemma ChapterWithoutSpaceKept()
    ensures ExpandAbbreviation("ch.2", 'c', 'h', "chapter", false) == "ch.2"
  {
    ExpandAbbreviationWithoutDot("2", 'c', 'h', "chapter", false);
    AbbreviationInsideWordKept(".2", 'c', 'h', "chapter");
    assert ".2"[1..] == "2";
    AbbreviationInsideWordKept("h.2", 'c', 'h', "chapter");
    assert "h.2"[1..] == ".2";
    assert "ch.2"[1..] == "h.2";
  }

  /** Text whose class members are all `rep` and never adjacent has no run to
      collapse. */
  lemma {:induction false} CollapseRunsWithoutRuns(s: string, member: char -> bool, rep: char, inRun: bool)
    requires forall i :: 0 <= i < |s| && member(s[i]) ==> s[i] == rep
    requires forall i :: 0 <= i < |s| - 1 ==> !(member(s[i]) && member(s[i + 1]))
    requires inRun ==> |s| == 0 || !member(s[0])
    ensures CollapseRuns(s, member, rep, inRun) == s
  {
    if |s| > 0 {
      CollapseRunsWithoutRuns(s[1..], member, rep, member(s[0]));
    }
  }

  lemma {:induction false} RemoveUnflankedAbsent(s: string, target: char, before: char -> bool, after: char -> bool, prevOk: bool)
    requires forall i :: 0 <= i < |s| ==> s[i] != target
    ensures RemoveUnflanked(s, target, before, after, prevOk) == s
  {
    if |s| > 0 {
      RemoveUnflankedAbsent(s[1..], target, before, after, before(s[0]));
    }
  }

  /** What a plain character is not. */
  lemma PlainCharClasses(c: char)
    requires 'a' <= c <= 'z' || c == ' '
    ensures !IsPunctuation(c) && !IsComma(c) && !IsBracket(c)
    ensures c != '.' && c != '&' && c != '%' && c != '-' && c != '\''
    ensures IsSpace(c) <==> c == ' '
  {
  }

  lemma PlainTextUnchangedByLaterRules(s: string)
    requires IsPlainText(s)
    ensures LaterRules(s) == s
  {
    forall i | 0 <= i < |s| ensures !IsComma(s[i]) && !IsBracket(s[i]) && (IsSpace(s[i]) <==> s[i] == ' ') {
      PlainCharClasses(s[i]);
    }
    CollapseRunsWithoutRuns(s, IsComma, ',', false);
    RemoveUnflankedAbsent(s, '-', IsAsciiAlnum, IsAsciiAlnum, false);
    RemoveUnflankedAbsent(s, '\'', QuoteLookbehind, IsAsciiAlnum, false);
    FilterKeepsAll(s, (c: char) => !IsBracket(c));
    CollapseRunsWithoutRuns(s, IsSpace, ' ', false);
    assert !AllSpace(s) || |s| == 0;
  }

  /** Plain text passes through all eleven rules unchanged. */
  lemma PlainTextUnchangedByRules(s: string)
    requires IsPlainText(s)
    ensures ApplyRules(s) == s
  {
    forall i | 0 <= i < |s| ensures !IsPunctuation(s[i]) {
      PlainCharClasses(s[i]);
    }
    ExpandAbbreviationWithoutDot(s, 'c', 'h', "chapter", false);
    ExpandAbbreviationWithoutDot(s, 'p', 't', "part", false);
    ReplaceCharAbsent(s, '&', " and ");
    ReplaceCharAbsent(s, '%', " percent ");
    CollapseRunsWithoutRuns(s, IsPunctuation, '.', false);
    PlainTextUnchangedByLaterRules(s);
  }

  lemma LowerOfPlainText(s: string)
    requires IsPlainText(s)
    ensures Lower(s) == s
  {
  }

  /** Text without whitespace at either end is its own strip. */
  lemma StripOfTrimmed(s: string)
    requires |s| > 0 ==> !IsSpace(s[0]) && !IsSpace(s[|s| - 1])
    ensures Strip(s) == s
  {
    assert TrimStart(s) == s;
  }

  /** Plain text without a space at either end is a fixed point of the whole
      normaliser. */
  lemma PlainTextIsFixed(s: string)
    requires IsPlainText(s)
    requires |s| > 0 ==> s[0] != ' ' && s[|s| - 1] != ' '
    ensures FilterText(s) == s
  {
    if |s| > 0 {
      PlainCharClasses(s[0]);
      PlainCharClasses(s[|s| - 1]);
    }
    StripOfTrimmed(s);
    PlainTextUnchangedByRules(s);
    LowerOfPlainText(s);
  }

  // -----------------------------------------------------------------------
  // Behaviour of the rules as written

  /** `str.strip()` runs before the rules, so whitespace the rules themselves
      produce at the edges stays, and a second pass changes the text again. */
  lemma AndIsPlainText()
    ensures IsPlainText(" and ")
    ensures IsPlainText("and")
  {
    assert !IsSpace(" and "[1]);
    assert !IsSpace("and"[0]);
  }

  lemma EarlyRulesOfAmpersand()
    ensures ReplaceChar(ReplaceChar(EarlyRules("&"), '&', " and "), '%', " percent ") == " and "
  {
    assert EarlyRules("&") == "&";
    assert ReplaceChar("&", '&', " and ") == " and ";
    assert " and "[0] != '%' && " and "[1] != '%' && " and "[2] != '%' && " and "[3] != '%' && " and "[4] != '%';
    ReplaceCharAbsent(" and ", '%', " percent ");
  }

  lemma ApplyRulesOfAmpersand()
    ensures ApplyRules("&") == " and "
  {
    EarlyRulesOfAmpersand();
    AndIsPlainText();
    forall i | 0 <= i < |" and "| ensures !IsPunctuation(" and "[i]) {
      PlainCharClasses(" and "[i]);
    }
    CollapseRunsWithoutRuns(" and ", IsPunctuation, '.', false);
    PlainTextUnchangedByLaterRules(" and ");
  }

  lemma StripOfAmpersand()
    ensures Strip("&") == "&"
  {
    assert !IsSpace('&');
    assert TrimStart("&") == "&";
    assert TrimEnd("&") == "&";
  }

  lemma FilterTextOfAmpersand()
    ensures FilterText("&") == " and "
  {
    StripOfAmpersand();
    ApplyRulesOfAmpersand();
    AndIsPlainText();
    LowerOfPlainText(" and ");
  }

  /** Rule 8's lookbehind admits letters and the digit 0 only, so an
      apostrophe after any other digit is deleted. */
  lemma ApostropheAfterDigit()
    ensures RemoveUnflanked("1's", '\'', QuoteLookbehind, IsAsciiAlnum, false) == "1s"
    ensures RemoveUnflanked("0's", '\'', QuoteLookbehind, IsAsciiAlnum, false) == "0's"
    ensures RemoveUnflanked("a's", '\'', QuoteLookbehind, IsAsciiAlnum, false) == "a's"
  {
    assert "1's"[1..] == "'s" && "'s"[1..] == "s";
    assert "0's"[1..] == "'s";
    assert "a's"[1..] == "'s";
  }

  /** Typographic quotes fall to the bracket rule, not to the quote rule. */
  lemma SmartQuotesRemoved()
    ensures RemoveBrackets("’tis") == "tis"
  {
    assert IsBracket('’');
    assert "’tis"[1..] == "tis";
    FilterKeepsAll("tis", (c: char) => !IsBracket(c));
  }

  lemma TrimStartOfSpacedAnd()
    ensures TrimStart(" and ") == "and "
  {
    assert IsSpace(' ') && !IsSpace('a');
  }

  lemma TrimEndOfAndSpace()
    ensures TrimEnd("and ") == "and"
  {
    assert IsSpace(' ') && !IsSpace('d');
    assert "and "[..3] == "and";
  }

  lemma StripOfSpacedAnd()
    ensures Strip(" and ") == "and"
  {
    TrimStartOfSpacedAnd();
    TrimEndOfAndSpace();
  }

  /** `"&"` normalises to `" and "`, which normalises again to `"and"`. */
  lemma FilterTextNotIdempotent()
    ensures FilterText("&") == " and "
    ensures FilterText(FilterText("&")) == "and"
  {
    FilterTextOfAmpersand();
    StripOfSpacedAnd();
    AndIsPlainText();
    PlainTextIsFixed("and");
  }
}
