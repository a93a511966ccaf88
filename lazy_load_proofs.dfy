/**
 * What the two rewrite passes of `lazy_load_block` compute, stated without
 * the scan: every `>` that ends a tag occurrence, with neither a `>` nor a
 * line feed between the tag and it, gets the marker in front of it, and
 * nothing else changes. The proof runs the text through a small automaton
 * (ScanState) that reads one character at a time.
 */
module LazyLoadProofs {
  import opened Wrappers
  import opened LazyLoad

  /**
   * The tags this rewrite is used with: a `<` followed by characters none of
   * which is `<`, `>`, a space or a line feed.
   */
  predicate WellFormedTag(tag: string) {
    |tag| >= 2 && tag[0] == '<' && forall k :: 1 <= k < |tag| ==> tag[k] != '<' && tag[k] != '>' && tag[k] != ' ' && tag[k] != '\n'
  }

  lemma TagsWellFormed()
    ensures WellFormedTag(ImgTag) && WellFormedTag(IframeTag)
  {
  }

  /** Position `j` is inside a tag: some occurrence of `tag` ends at or before `j` with no `>` or line feed after it up to `j`. */
  ghost predicate Opened(s: string, tag: string, j: nat)
    requires j <= |s|
  {
    exists p: nat :: p + |tag| <= j && TagAt(s, tag, p) && Clean(s, p + |tag|, j)
  }

  /** The `>` at `j` closes a tag, so a rewrite pass puts the marker in front of it. */
  ghost predicate ClosesTag(s: string, tag: string, j: nat)
    requires j < |s|
  {
    s[j] == '>' && Opened(s, tag, j)
  }

  /** The reference result of one pass on `s[i..]`: each character, preceded by the marker when it closes a tag. */
  ghost function Reference(s: string, tag: string, i: nat): string
    requires i <= |s|
    decreases |s| - i
  {
    if i == |s| then []
    else (if ClosesTag(s, tag, i) then Marker else []) + [s[i]] + Reference(s, tag, i + 1)
  }

  /** The reference result of the `<img` pass followed by the `<iframe` pass, in terms of the ORIGINAL text. */
  ghost function ReferenceBoth(s: string, i: nat): string
    requires i <= |s|
    decreases |s| - i
  {
    if i == |s| then []
    else
      (if ClosesTag(s, ImgTag, i) then Marker else [])
      + (if ClosesTag(s, IframeTag, i) then Marker else [])
      + [s[i]] + ReferenceBoth(s, i + 1)
  }

  /** How many `>` in `s[i..]` close a tag. */
  ghost function ClosingCount(s: string, tag: string, i: nat): nat
    requires i <= |s|
    decreases |s| - i
  {
    if i == |s| then 0
    else (if ClosesTag(s, tag, i) then 1 else 0) + ClosingCount(s, tag, i + 1)
  }

  // ---------------------------------------------------------------------
  // The automaton: `matched` is how much of the tag the text read so far
  // ends with, `open` says that a whole tag has been read since the last
  // `>` or line feed.
  // ---------------------------------------------------------------------

  datatype ScanState = ScanState(matched: nat, open: bool)

  const Start := ScanState(0, false)

  function Step(tag: string, st: ScanState, c: char): ScanState {
    var advances := st.matched < |tag| && c == tag[st.matched];
    ScanState(
      if advances && st.matched + 1 < |tag| then st.matched + 1
      else if 1 < |tag| && c == tag[0] then 1
      else 0,
      (advances && st.matched + 1 == |tag|) || (st.open && c != '>' && c != '\n'))
  }

  function Run(tag: string, st: ScanState, s: string): ScanState
    decreases |s|
  {
    if s == [] then st else Run(tag, Step(tag, st, s[0]), s[1..])
  }

  /** The automaton's output for one character. */
  function Unit(st: ScanState, c: char): string {
    if c == '>' && st.open then Marker + [c] else [c]
  }

  function Mark(tag: string, st: ScanState, s: string): string
    decreases |s|
  {
    if s == [] then [] else Unit(st, s[0]) + Mark(tag, Step(tag, st, s[0]), s[1..])
  }

  /** Two automata, one per tag, reading the same text side by side. */
  function MarkBoth(tag1: string, tag2: string, st1: ScanState, st2: ScanState, s: string): string
    decreases |s|
  {
    if s == [] then []
    else
      (if s[0] == '>' && st1.open then Marker else [])
      + (if s[0] == '>' && st2.open then Marker else [])
      + [s[0]]
      + MarkBoth(tag1, tag2, Step(tag1, st1, s[0]), Step(tag2, st2, s[0]), s[1..])
  }

  /**
   * Undo one pass: reading the rewritten text with the automaton, a marker
   * followed by `>` met while a tag is open is the inserted one, and is dropped.
   */
  function Restore(tag: string, st: ScanState, t: string): string
    decreases |t|
  {
    if t == [] then []
    else if st.open && Marker + ">" <= t then ">" + Restore(tag, Step(tag, st, '>'), t[|Marker| + 1..])
    else [t[0]] + Restore(tag, Step(tag, st, t[0]), t[1..])
  }

  // ---------------------------------------------------------------------
  // Automaton lemmas
  // ---------------------------------------------------------------------

  lemma {:induction false} RunConcat(tag: string, st: ScanState, a: string, b: string)
    ensures Run(tag, st, a + b) == Run(tag, Run(tag, st, a), b)
    decreases |a|
  {
    if a != [] {
      assert (a + b)[1..] == a[1..] + b;
      RunConcat(tag, Step(tag, st, a[0]), a[1..], b);
    } else {
      assert a + b == b;
    }
  }

  lemma {:induction false} MarkConcat(tag: string, st: ScanState, a: string, b: string)
    ensures Mark(tag, st, a + b) == Mark(tag, st, a) + Mark(tag, Run(tag, st, a), b)
    decreases |a|
  {
    if a != [] {
      assert (a + b)[1..] == a[1..] + b;
      MarkConcat(tag, Step(tag, st, a[0]), a[1..], b);
    } else {
      assert a + b == b;
    }
  }

  /** Text without `>` passes through unchanged. */
  lemma {:induction false} MarkNoClose(tag: string, st: ScanState, x: string)
    requires forall k :: 0 <= k < |x| ==> x[k] != '>'
    ensures Mark(tag, st, x) == x
    decreases |x|
  {
    if x != [] {
      MarkNoClose(tag, Step(tag, st, x[0]), x[1..]);
    }
  }

  /** Reading a `>` always returns the automaton to its start state. */
  lemma StepClose(tag: string, st: ScanState)
    requires WellFormedTag(tag)
    ensures Step(tag, st, '>') == Start
  {
  }

  /** Reading the rest of the tag from `matched == k` opens a tag. */
  lemma {:induction false} RunTagRest(tag: string, st: ScanState, k: nat)
    requires WellFormedTag(tag) && 1 <= k < |tag| && st.matched == k
    ensures Run(tag, st, tag[k..]).open
    decreases |tag| - k
  {
    var st' := Step(tag, st, tag[k]);
    if k + 1 < |tag| {
      assert tag[k..][1..] == tag[k + 1..];
      RunTagRest(tag, st', k + 1);
    } else {
      assert tag[k..][1..] == [];
    }
  }

  /** Whatever the state, reading a whole tag opens one. */
  lemma RunTagOpens(tag: string, st: ScanState)
    requires WellFormedTag(tag)
    ensures Run(tag, st, tag).open
  {
    var st' := Step(tag, st, tag[0]);
    assert st'.matched == 1;
    RunTagRest(tag, st', 1);
  }

  /** Characters other than `>` and line feed keep a tag open. */
  lemma {:induction false} RunCleanKeepsOpen(tag: string, st: ScanState, x: string)
    requires st.open
    requires forall k :: 0 <= k < |x| ==> x[k] != '>' && x[k] != '\n'
    ensures Run(tag, st, x).open
    decreases |x|
  {
    if x != [] {
      RunCleanKeepsOpen(tag, Step(tag, st, x[0]), x[1..]);
    }
  }

  // ---------------------------------------------------------------------
  // The scan computes what the automaton computes
  // ---------------------------------------------------------------------

  /**
   * What the scan position `i` and the automaton state `st` have in common:
   * `st.matched` counts the characters just before `i` that begin a tag, and
   * an open tag, or a partial one that will complete, is bound to fail at a
   * line feed or at the end of the text before reaching any `>`; otherwise
   * the scan would have matched it.
   */
  ghost predicate InSync(s: string, tag: string, i: nat, st: ScanState)
    requires i <= |s|
  {
    && st.matched < |tag| && st.matched <= i
    && s[i - st.matched..i] == tag[..st.matched]
    && (st.open ==> FindClose(s, i).None?)
    && (st.matched > 0 && TagAt(s, tag, i - st.matched) ==> FindClose(s, i - st.matched + |tag|).None?)
  }

  /** A matched tag, its body and its `>` come out as the body with the marker before the `>`, and reset the automaton. */
  lemma MarkMatch(tag: string, st: ScanState, x: string)
    requires WellFormedTag(tag)
    requires forall k :: 0 <= k < |x| ==> x[k] != '>' && x[k] != '\n'
    ensures Mark(tag, st, tag + x + ">") == tag + x + Marker + ">"
    ensures Run(tag, st, tag + x + ">") == Start
  {
    MarkConcat(tag, st, tag + x, ">");
    RunConcat(tag, st, tag + x, ">");
    RunConcat(tag, st, tag, x);
    RunTagOpens(tag, st);
    RunCleanKeepsOpen(tag, Run(tag, st, tag), x);
    assert forall k :: 0 <= k < |tag + x| ==> (tag + x)[k] != '>' by {
      forall k | 0 <= k < |tag + x| ensures (tag + x)[k] != '>' {
        if k >= |tag| { assert (tag + x)[k] == x[k - |tag|]; }
      }
    }
    MarkNoClose(tag, st, tag + x);
    StepClose(tag, Run(tag, st, tag + x));
  }

  /** After one more character, `matched` still counts the tag characters just read. */
  lemma StepKeepsPrefix(s: string, tag: string, i: nat, st: ScanState)
    requires |tag| >= 2 && i < |s|
    requires st.matched < |tag| && st.matched <= i && s[i - st.matched..i] == tag[..st.matched]
    ensures var st' := Step(tag, st, s[i]);
      st'.matched < |tag| && st'.matched <= i + 1 && s[i + 1 - st'.matched..i + 1] == tag[..st'.matched]
  {
    var m, c := st.matched, s[i];
    var st' := Step(tag, st, c);
    if m < |tag| && c == tag[m] && m + 1 < |tag| {
      assert st'.matched == m + 1;
      assert s[i - m..i + 1] == s[i - m..i] + [c];
      assert tag[..m + 1] == tag[..m] + [tag[m]];
    } else if c == tag[0] {
      assert st'.matched == 1;
      assert s[i..i + 1] == [c];
    } else {
      assert st'.matched == 0;
    }
  }

  /** A tag completed by `s[i]` starts at `i - st.matched`. */
  lemma CompletedTag(s: string, tag: string, i: nat, st: ScanState)
    requires i < |s| && 1 <= st.matched && st.matched + 1 == |tag| && st.matched <= i
    requires s[i - st.matched..i] == tag[..st.matched] && s[i] == tag[st.matched]
    ensures TagAt(s, tag, i - st.matched)
  {
    var m := st.matched;
    assert s[i - m..i + 1] == s[i - m..i] + [s[i]];
    assert tag == tag[..m] + [tag[m]];
  }

  /** The state after one more character is still in sync, when no match starts at `i`. */
  lemma StepInSync(s: string, tag: string, i: nat, st: ScanState)
    requires WellFormedTag(tag) && i < |s| && InSync(s, tag, i, st) && MatchAt(s, tag, i).None?
    ensures InSync(s, tag, i + 1, Step(tag, st, s[i]))
  {
    var m, c := st.matched, s[i];
    var st' := Step(tag, st, c);
    StepKeepsPrefix(s, tag, i, st);
    if st'.open {
      if m < |tag| && c == tag[m] && m + 1 == |tag| {
        CompletedTag(s, tag, i, st);
      } else {
        assert st.open && c != '>' && c != '\n';
        assert FindClose(s, i) == FindClose(s, i + 1);
      }
    }
    if st'.matched > 0 && TagAt(s, tag, i + 1 - st'.matched) {
      if st'.matched == 1 {
        assert TagAt(s, tag, i);
      } else {
        assert st'.matched == m + 1;
      }
    }
  }

  /** From position `i` on, the scan writes what the automaton in state `st` writes. */
  ghost predicate Agree(s: string, tag: string, i: nat, st: ScanState)
    requires i <= |s|
  {
    ReplaceFrom(s, tag, i) == Mark(tag, st, s[i..])
  }

  /** A match at `i`: the scan emits the matched text with the marker before its `>` and resumes after it. */
  lemma ScanMatchReplace(s: string, tag: string, i: nat, j: nat)
    requires i < |s| && MatchAt(s, tag, i) == Some(j)
    ensures ReplaceFrom(s, tag, i) == s[i..j] + Marker + ">" + ReplaceFrom(s, tag, j + 1)
  {
    var r := ReplaceFrom(s, tag, j + 1);
    assert ReplaceFrom(s, tag, i) == s[i..j] + Marker + ">" + r;
  }

  /** The text of a match at `i`: the tag, a body without `>` or line feed, and the `>`. */
  lemma MatchText(s: string, tag: string, i: nat, j: nat)
    requires i < |s| && MatchAt(s, tag, i) == Some(j)
    ensures var x := s[i + |tag|..j];
      && (forall k :: 0 <= k < |x| ==> x[k] != '>' && x[k] != '\n')
      && s[i..j] == tag + x
      && s[i..] == (tag + x + ">") + s[j + 1..]
  {
    var x := s[i + |tag|..j];
    assert s[i..i + |tag|] == tag;
    assert s[i..j] == s[i..i + |tag|] + x;
    assert s[i..j + 1] == s[i..j] + [s[j]];
    assert s[i..] == s[i..j + 1] + s[j + 1..];
  }

  /**
   * A match at `i`: the scan resumes after the match's `>` with the
   * automaton restarted and in sync, and if the scan and the automaton agree
   * from there on, they agree from `i`.
   */
  lemma ScanMatch(s: string, tag: string, i: nat, st: ScanState) returns (k: nat, st': ScanState)
    requires WellFormedTag(tag) && i < |s| && MatchAt(s, tag, i).Some?
    ensures i < k <= |s| && InSync(s, tag, k, st')
    ensures Agree(s, tag, k, st') ==> Agree(s, tag, i, st)
  {
    var j := MatchAt(s, tag, i).value;
    k, st' := j + 1, Start;
    ScanMatchReplace(s, tag, i, j);
    MatchText(s, tag, i, j);
    var x := s[i + |tag|..j];
    MarkMatch(tag, st, x);
    MarkConcat(tag, st, tag + x + ">", s[j + 1..]);
    assert s[j + 1..j + 1] == tag[..0];
  }

  /**
   * No match at `i`: the scan copies `s[i]` and moves on by one with the
   * automaton still in sync, and if the scan and the automaton agree from
   * `i + 1` on, they agree from `i`.
   */
  lemma ScanCopy(s: string, tag: string, i: nat, st: ScanState) returns (k: nat, st': ScanState)
    requires WellFormedTag(tag) && i < |s| && InSync(s, tag, i, st) && MatchAt(s, tag, i).None?
    ensures i < k <= |s| && InSync(s, tag, k, st')
    ensures Agree(s, tag, k, st') ==> Agree(s, tag, i, st)
  {
    k, st' := i + 1, Step(tag, st, s[i]);
    assert s[i..][1..] == s[i + 1..];
    if s[i] == '>' {
      assert FindClose(s, i) == Some(i);
    }
    StepInSync(s, tag, i, st);
  }

  /**
   * One step of the scan from a position in sync: it moves on to `k` with
   * the automaton in sync again, and agreement from `k` on gives agreement
   * from `i`.
   */
  lemma ScanStep(s: string, tag: string, i: nat, st: ScanState) returns (k: nat, st': ScanState)
    requires WellFormedTag(tag) && i < |s| && InSync(s, tag, i, st)
    ensures i < k <= |s| && InSync(s, tag, k, st')
    ensures Agree(s, tag, k, st') ==> Agree(s, tag, i, st)
  {
    if MatchAt(s, tag, i).Some? {
      k, st' := ScanMatch(s, tag, i, st);
    } else {
      k, st' := ScanCopy(s, tag, i, st);
    }
  }

  /** From a position and state in sync, the scan and the automaton produce the same text. */
  lemma {:induction false} ScanIsMark(s: string, tag: string, i: nat, st: ScanState)
    requires WellFormedTag(tag) && i <= |s| && InSync(s, tag, i, st)
    ensures Agree(s, tag, i, st)
    decreases |s| - i
  {
    if i < |s| {
      var k, st' := ScanStep(s, tag, i, st);
      ScanIsMark(s, tag, k, st');
    }
  }

  // ---------------------------------------------------------------------
  // The automaton computes the reference
  // ---------------------------------------------------------------------

  /** With `<` only at the head of the tag, the tag characters just read fix `matched` exactly. */
  lemma StepExact(s: string, tag: string, i: nat, st: ScanState, k: nat)
    requires WellFormedTag(tag) && i < |s| && 0 < k < |tag| && k <= i + 1
    requires forall k' :: 0 < k' < |tag| && k' <= i && s[i - k'..i] == tag[..k'] ==> st.matched == k'
    requires s[i + 1 - k..i + 1] == tag[..k]
    ensures Step(tag, st, s[i]).matched == k
  {
    assert s[i] == tag[k - 1] by {
      assert s[i + 1 - k..i + 1][k - 1] == tag[..k][k - 1];
    }
    if k == 1 {
      assert st.matched < |tag| && s[i] == tag[st.matched] ==> st.matched == 0;
    } else {
      assert s[i - (k - 1)..i] == tag[..k - 1] by {
        assert s[i - (k - 1)..i] == s[i + 1 - k..i + 1][..k - 1];
        assert tag[..k - 1] == tag[..k][..k - 1];
      }
    }
  }

  /**
   * What the automaton's state after `s[..i]` means: `matched` is the length
   * of the longest proper tag prefix that `s[..i]` ends with, and `open` says
   * whether `i` lies inside a tag that `(.*?)` could still close.
   */
  ghost predicate Meaning(s: string, tag: string, i: nat, st: ScanState)
    requires i <= |s|
  {
    && st.matched < |tag| && st.matched <= i && s[i - st.matched..i] == tag[..st.matched]
    && (forall k :: 0 < k < |tag| && k <= i && s[i - k..i] == tag[..k] ==> st.matched == k)
    && (st.open <==> Opened(s, tag, i))
  }

  /** A state the automaton opens on `s[i]` is inside a tag at `i + 1`. */
  lemma StepOpens(s: string, tag: string, i: nat, st: ScanState)
    requires WellFormedTag(tag) && i < |s|
    requires st.matched < |tag| && st.matched <= i && s[i - st.matched..i] == tag[..st.matched]
    requires st.open ==> Opened(s, tag, i)
    requires Step(tag, st, s[i]).open
    ensures Opened(s, tag, i + 1)
  {
    var m, c := st.matched, s[i];
    if m < |tag| && c == tag[m] && m + 1 == |tag| {
      CompletedTag(s, tag, i, st);
      assert (i - m) + |tag| <= i + 1 && TagAt(s, tag, i - m) && Clean(s, (i - m) + |tag|, i + 1);
    } else {
      var p: nat :| p + |tag| <= i && TagAt(s, tag, p) && Clean(s, p + |tag|, i);
      assert p + |tag| <= i + 1 && TagAt(s, tag, p) && Clean(s, p + |tag|, i + 1);
    }
  }

  /** Inside a tag at `i + 1`, the automaton has opened on `s[i]`. */
  lemma OpenedSteps(s: string, tag: string, i: nat, st: ScanState)
    requires WellFormedTag(tag) && i < |s|
    requires forall k' :: 0 < k' < |tag| && k' <= i && s[i - k'..i] == tag[..k'] ==> st.matched == k'
    requires Opened(s, tag, i) ==> st.open
    requires Opened(s, tag, i + 1)
    ensures Step(tag, st, s[i]).open
  {
    var c := s[i];
    var p: nat :| p + |tag| <= i + 1 && TagAt(s, tag, p) && Clean(s, p + |tag|, i + 1);
    if p + |tag| == i + 1 {
      var k := |tag| - 1;
      assert s[i - k..i] == tag[..k] by {
        assert s[i - k..i] == s[p..p + |tag|][..k];
      }
      assert c == tag[k] by {
        assert s[p..p + |tag|][k] == c;
      }
    } else {
      assert Opened(s, tag, i);
    }
  }

  /** Reading `s[i]` carries the meaning of the state from `i` to `i + 1`. */
  lemma StepMeaning(s: string, tag: string, i: nat, st: ScanState)
    requires WellFormedTag(tag) && i < |s| && Meaning(s, tag, i, st)
    ensures Meaning(s, tag, i + 1, Step(tag, st, s[i]))
  {
    var st' := Step(tag, st, s[i]);
    StepKeepsPrefix(s, tag, i, st);
    forall k | 0 < k < |tag| && k <= i + 1 && s[i + 1 - k..i + 1] == tag[..k]
      ensures st'.matched == k
    {
      StepExact(s, tag, i, st, k);
    }
    if st'.open {
      StepOpens(s, tag, i, st);
    }
    if Opened(s, tag, i + 1) {
      OpenedSteps(s, tag, i, st);
    }
  }

  /** The state after reading `s[..i]` has the meaning above. */
  lemma {:induction false} RunMeaning(s: string, tag: string, i: nat)
    requires WellFormedTag(tag) && i <= |s|
    ensures Meaning(s, tag, i, Run(tag, Start, s[..i]))
    decreases i
  {
    if i == 0 {
      assert s[..0] == [];
    } else {
      var j := i - 1;
      RunMeaning(s, tag, j);
      var st := Run(tag, Start, s[..j]);
      assert s[..i] == s[..j] + [s[j]];
      RunConcat(tag, Start, s[..j], [s[j]]);
      assert Run(tag, Start, s[..i]) == Step(tag, st, s[j]);
      StepMeaning(s, tag, j, st);
    }
  }

  /** The automaton marks the `>` at `i` exactly when it closes a tag. */
  lemma UnitIsReference(s: string, tag: string, i: nat)
    requires WellFormedTag(tag) && i < |s|
    ensures var st := Run(tag, Start, s[..i]);
      && Unit(st, s[i]) == (if ClosesTag(s, tag, i) then Marker else []) + [s[i]]
      && Run(tag, Start, s[..i + 1]) == Step(tag, st, s[i])
  {
    RunMeaning(s, tag, i);
    assert s[..i + 1] == s[..i] + [s[i]];
    RunConcat(tag, Start, s[..i], [s[i]]);
  }

  /** Reading on from `s[..i]`, the automaton writes the reference text for `s[i..]`. */
  lemma {:induction false} MarkIsReference(s: string, tag: string, i: nat)
    requires WellFormedTag(tag) && i <= |s|
    ensures Mark(tag, Run(tag, Start, s[..i]), s[i..]) == Reference(s, tag, i)
    decreases |s| - i
  {
    if i < |s| {
      UnitIsReference(s, tag, i);
      assert s[i..][1..] == s[i + 1..];
      MarkIsReference(s, tag, i + 1);
    }
  }

  /**
   * One rewrite pass, as `preg_replace` performs it, puts the marker in front
   * of exactly those `>` that close a tag, and copies every character in order.
   */
  lemma ReplaceIsReference(s: string, tag: string)
    requires WellFormedTag(tag)
    ensures Replace(s, tag) == Reference(s, tag, 0)
  {
    assert s[..0] == [] && s[0..] == s;
    ScanIsMark(s, tag, 0, Start);
    MarkIsReference(s, tag, 0);
  }

  // ---------------------------------------------------------------------
  // Consequences for one pass
  // ---------------------------------------------------------------------

  /** A `>` closes a tag exactly when it is where `(.*?)>` ends for some occurrence of the tag. */
  lemma ClosesTagIff(s: string, tag: string, j: nat)
    requires j < |s|
    ensures ClosesTag(s, tag, j) <==> exists p: nat :: p + |tag| <= j && TagAt(s, tag, p) && FindClose(s, p + |tag|) == Some(j)
  {
    if ClosesTag(s, tag, j) {
      var p: nat :| p + |tag| <= j && TagAt(s, tag, p) && Clean(s, p + |tag|, j);
      assert FindClose(s, p + |tag|) == Some(j);
    }
  }

  lemma {:induction false} ReferenceLength(s: string, tag: string, i: nat)
    requires i <= |s|
    ensures |Reference(s, tag, i)| == |s| - i + |Marker| * ClosingCount(s, tag, i)
    decreases |s| - i
  {
    if i < |s| {
      ReferenceLength(s, tag, i + 1);
    }
  }

  /** A pass makes the text longer by one marker per closed tag. */
  lemma ReplaceLength(s: string, tag: string)
    requires WellFormedTag(tag)
    ensures |Replace(s, tag)| == |s| + 15 * ClosingCount(s, tag, 0)
  {
    ReplaceIsReference(s, tag);
    ReferenceLength(s, tag, 0);
  }

  /** Text in which the tag does not occur passes through a rewrite unchanged. */
  lemma {:induction false} ReplaceFromUntouched(s: string, tag: string, i: nat)
    requires i <= |s| && !Contains(s, tag)
    ensures ReplaceFrom(s, tag, i) == s[i..]
    decreases |s| - i
  {
    if i < |s| {
      assert !TagAt(s, tag, i);
      ReplaceFromUntouched(s, tag, i + 1);
      assert s[i..] == [s[i]] + s[i + 1..];
    }
  }

  /** The characters of the marker after its leading space. */
  lemma MarkerCharacters()
    ensures |Marker| == 15 && Marker[0] == ' '
    ensures forall k :: 1 <= k < |Marker| ==> Marker[k] != ' ' && Marker[k] != '>' && Marker[k] != '\n' && Marker[k] != '<'
  {
    assert Marker == [' ', 'l', 'o', 'a', 'd', 'i', 'n', 'g', '=', '"', 'l', 'a', 'z', 'y', '"'];
  }

  /**
   * While a tag is open, the automaton's output cannot continue with the tail
   * of the marker and a `>`: a `>` read while open gets a marker (which starts
   * with a space) in front of it.
   */
  lemma {:induction false} NoFakeMarker(tag: string, st: ScanState, x: string, k: nat)
    requires st.open && 1 <= k <= |Marker|
    ensures !(Marker[k..] + ">" <= Mark(tag, st, x))
    decreases |Marker| - k
  {
    MarkerCharacters();
    if x != [] {
      var st' := Step(tag, st, x[0]);
      assert Mark(tag, st, x) == Unit(st, x[0]) + Mark(tag, st', x[1..]);
      assert Mark(tag, st, x)[0] == if x[0] == '>' then ' ' else x[0];
      assert (Marker[k..] + ">")[0] == if k < |Marker| then Marker[k] else '>';
      if k < |Marker| && x[0] != '>' && x[0] == Marker[k] {
        assert st'.open;
        NoFakeMarker(tag, st', x[1..], k + 1);
        assert Marker[k..] + ">" == [Marker[k]] + (Marker[k + 1..] + ">");
        assert Mark(tag, st, x) == [x[0]] + Mark(tag, st', x[1..]);
        if Marker[k..] + ">" <= Mark(tag, st, x) {
          PrefixTail(Marker[k], Marker[k + 1..] + ">", x[0], Mark(tag, st', x[1..]));
        }
      }
    }
  }

  lemma PrefixTail<T>(a: T, w: seq<T>, c: T, b: seq<T>)
    requires [a] + w <= [c] + b
    ensures w <= b
  {
    assert w == ([a] + w)[1..];
    assert ([c] + b)[1..|w| + 1] == b[..|w|];
  }

  /** Reading the automaton's output back, `Restore` drops exactly the markers it inserted. */
  lemma {:induction false} RestoreMark(tag: string, st: ScanState, s: string)
    ensures Restore(tag, st, Mark(tag, st, s)) == s
    decreases |s|
  {
    if s != [] {
      var st' := Step(tag, st, s[0]);
      var rest := Mark(tag, st', s[1..]);
      if s[0] == '>' && st.open {
        assert Mark(tag, st, s) == Marker + ">" + rest;
        RestoreInserted(tag, st, rest);
      } else {
        assert Mark(tag, st, s) == [s[0]] + rest;
        RestoreCopied(tag, st, s[0], s[1..]);
      }
      RestoreMark(tag, st', s[1..]);
      assert s == [s[0]] + s[1..];
    }
  }

  /** A marker with its `>`, met while a tag is open, is the inserted one and is dropped. */
  lemma RestoreInserted(tag: string, st: ScanState, rest: string)
    requires st.open
    ensures Restore(tag, st, Marker + ">" + rest) == ">" + Restore(tag, Step(tag, st, '>'), rest)
  {
    var t := Marker + ">" + rest;
    assert Marker + ">" <= t;
    assert t[|Marker| + 1..] == rest;
  }

  /** Any other character the automaton writes is copied back as it is. */
  lemma RestoreCopied(tag: string, st: ScanState, c: char, x: string)
    requires !(c == '>' && st.open)
    ensures var rest := Mark(tag, Step(tag, st, c), x);
      Restore(tag, st, [c] + rest) == [c] + Restore(tag, Step(tag, st, c), rest)
  {
    var st' := Step(tag, st, c);
    var rest := Mark(tag, st', x);
    if st.open && c == ' ' {
      NoFakeMarker(tag, st', x, 1);
      assert Marker + ">" == [' '] + (Marker[1..] + ">");
    } else {
      MarkerCharacters();
    }
    assert ([c] + rest)[1..] == rest;
  }

  /** Deleting the inserted markers gives back the text a pass started from. */
  lemma RestoreReplace(s: string, tag: string)
    requires WellFormedTag(tag)
    ensures Restore(tag, Start, Replace(s, tag)) == s
  {
    assert s[0..] == s;
    ScanIsMark(s, tag, 0, Start);
    RestoreMark(tag, Start, s);
  }

  // ---------------------------------------------------------------------
  // The two passes of lazy_load_block
  // ---------------------------------------------------------------------

  /** The `strpos` guards change nothing: without the tag a pass is the identity. */
  lemma GuardsRedundant(content: string)
    ensures LazyLoadBlock(content) == Replace(Replace(content, ImgTag), IframeTag)
  {
    if !Contains(content, ImgTag) {
      ReplaceFromUntouched(content, ImgTag, 0);
      assert content[0..] == content;
    }
    var afterImg := Replace(content, ImgTag);
    if !Contains(afterImg, IframeTag) {
      ReplaceFromUntouched(afterImg, IframeTag, 0);
      assert afterImg[0..] == afterImg;
    }
  }

  /** Markup holding neither `<img` nor `<iframe` leaves the filter as it came. */
  lemma NoTagsUnchanged(content: string)
    requires !Contains(content, ImgTag) && !Contains(content, IframeTag)
    ensures LazyLoadBlock(content) == content
  {
  }

  /** Text without `<`, `>` or line feed moves the automaton nowhere once no tag prefix is pending. */
  lemma {:induction false} RunPlainText(tag: string, st: ScanState, x: string)
    requires WellFormedTag(tag) && st.matched == 0
    requires forall k :: 0 <= k < |x| ==> x[k] != '<' && x[k] != '>' && x[k] != '\n'
    ensures Run(tag, st, x) == st
    decreases |x|
  {
    if x != [] {
      assert Step(tag, st, x[0]) == st;
      RunPlainText(tag, st, x[1..]);
    }
  }

  /** Reading the marker drops any partial tag and leaves `open` as it was. */
  lemma RunMarker(tag: string, st: ScanState)
    requires WellFormedTag(tag)
    ensures Run(tag, st, Marker) == ScanState(0, st.open)
  {
    MarkerCharacters();
    var st' := Step(tag, st, ' ');
    assert st' == ScanState(0, st.open);
    RunPlainText(tag, st', Marker[1..]);
  }

  /** A marker inserted by the first pass, with its `>`, as the second pass reads it. */
  lemma MarkInsertedMarker(tag: string, st: ScanState)
    requires WellFormedTag(tag)
    ensures Mark(tag, st, Marker + ">") == Marker + Unit(st, '>')
    ensures Run(tag, st, Marker + ">") == Step(tag, st, '>')
  {
    MarkInsertedText(tag, st);
    RunInsertedText(tag, st);
  }

  lemma MarkInsertedText(tag: string, st: ScanState)
    requires WellFormedTag(tag)
    ensures Mark(tag, st, Marker + ">") == Marker + Unit(st, '>')
  {
    MarkerCharacters();
    RunMarker(tag, st);
    MarkBeforeClose(tag, st, Marker);
  }

  /** Text without `>` that leaves `open` as it was, followed by a `>`. */
  lemma MarkBeforeClose(tag: string, st: ScanState, m: string)
    requires forall k :: 0 <= k < |m| ==> m[k] != '>'
    requires Run(tag, st, m).open == st.open
    ensures Mark(tag, st, m + ">") == m + Unit(st, '>')
  {
    MarkConcat(tag, st, m, ">");
    MarkNoClose(tag, st, m);
    var st' := Run(tag, st, m);
    assert Mark(tag, st', ">") == Unit(st', '>') + Mark(tag, Step(tag, st', '>'), []);
  }

  lemma RunInsertedText(tag: string, st: ScanState)
    requires WellFormedTag(tag)
    ensures Run(tag, st, Marker + ">") == Step(tag, st, '>')
  {
    RunConcat(tag, st, Marker, ">");
    RunMarker(tag, st);
    StepClose(tag, ScanState(0, st.open));
    StepClose(tag, st);
  }

  /** One character of the original text, after the first pass, as the second pass reads it. */
  lemma MarkUnit(tag2: string, st1: ScanState, st2: ScanState, c: char)
    requires WellFormedTag(tag2)
    ensures Mark(tag2, st2, Unit(st1, c))
      == (if c == '>' && st1.open then Marker else []) + (if c == '>' && st2.open then Marker else []) + [c]
    ensures Run(tag2, st2, Unit(st1, c)) == Step(tag2, st2, c)
  {
    if c == '>' && st1.open {
      MarkInsertedMarker(tag2, st2);
    } else {
      assert Mark(tag2, st2, [c]) == Unit(st2, c) + Mark(tag2, Step(tag2, st2, c), []);
      assert Run(tag2, st2, [c]) == Run(tag2, Step(tag2, st2, c), []);
    }
  }

  /** The second pass, run on the first pass's output, sees every `>` in the state it would see on the original text. */
  lemma {:induction false} MarkTwice(tag1: string, tag2: string, st1: ScanState, st2: ScanState, s: string)
    requires WellFormedTag(tag2)
    ensures Mark(tag2, st2, Mark(tag1, st1, s)) == MarkBoth(tag1, tag2, st1, st2, s)
    decreases |s|
  {
    if s != [] {
      var c := s[0];
      var u := Unit(st1, c);
      var rest := Mark(tag1, Step(tag1, st1, c), s[1..]);
      assert Mark(tag1, st1, s) == u + rest;
      MarkConcat(tag2, st2, u, rest);
      MarkUnit(tag2, st1, st2, c);
      MarkTwice(tag1, tag2, Step(tag1, st1, c), Step(tag2, st2, c), s[1..]);
    }
  }

  lemma {:induction false} MarkBothIsReference(s: string, i: nat)
    requires i <= |s|
    ensures MarkBoth(ImgTag, IframeTag, Run(ImgTag, Start, s[..i]), Run(IframeTag, Start, s[..i]), s[i..]) == ReferenceBoth(s, i)
    decreases |s| - i
  {
    if i < |s| {
      TagsWellFormed();
      UnitIsReference(s, ImgTag, i);
      UnitIsReference(s, IframeTag, i);
      assert s[i..][1..] == s[i + 1..];
      MarkBothIsReference(s, i + 1);
    }
  }

  /**
   * The whole filter: each `>` of the ORIGINAL markup gets one marker if it
   * closes an `<img` and one more if it closes an `<iframe`; the marker holds
   * no `<`, `>` or line feed, so the first pass neither creates nor hides a
   * tag for the second.
   */
  lemma LazyLoadBlockIsReference(content: string)
    ensures LazyLoadBlock(content) == ReferenceBoth(content, 0)
  {
    TagsWellFormed();
    GuardsRedundant(content);
    var afterImg := Replace(content, ImgTag);
    assert content[0..] == content && content[..0] == [];
    ScanIsMark(content, ImgTag, 0, Start);
    assert afterImg[0..] == afterImg;
    ScanIsMark(afterImg, IframeTag, 0, Start);
    MarkTwice(ImgTag, IframeTag, Start, Start, content);
    MarkBothIsReference(content, 0);
  }

  /** Undoing the `<iframe` pass and then the `<img` pass gives back the block content. */
  lemma RestoreLazyLoadBlock(content: string)
    ensures Restore(ImgTag, Start, Restore(IframeTag, Start, LazyLoadBlock(content))) == content
  {
    TagsWellFormed();
    GuardsRedundant(content);
    RestoreReplace(Replace(content, ImgTag), IframeTag);
    RestoreReplace(content, ImgTag);
  }

  // ---------------------------------------------------------------------
  // Behaviour of the patterns on particular markup
  // ---------------------------------------------------------------------

  /**
   * Markup made of one tag: whatever its attribute text (without `>` or line
   * feed), the marker goes in front of its `>`.
   */
  lemma SingleTag(tag: string, attributes: string)
    requires forall k :: 0 <= k < |attributes| ==> attributes[k] != '>' && attributes[k] != '\n'
    ensures Replace(tag + attributes + ">", tag) == tag + attributes + Marker + ">"
  {
    var s := tag + attributes + ">";
    var j := |tag| + |attributes|;
    assert s[..|tag|] == tag;
    assert TagAt(s, tag, 0);
    assert forall k :: |tag| <= k < j ==> s[k] == attributes[k - |tag|];
    assert Clean(s, |tag|, j) && s[j] == '>';
    assert FindClose(s, |tag|) == Some(j);
    assert s[0..j] == tag + attributes;
    assert ReplaceFrom(s, tag, j + 1) == [];
  }

  /** A self-closing tag gets the marker after its `/`. */
  lemma SelfClosingTag()
    ensures Replace("<img/>", ImgTag) == "<img/ loading=\"lazy\">"
  {
    var input, output := ImgTag + "/" + ">", ImgTag + "/" + Marker + ">";
    SingleTag(ImgTag, "/");
    assert input == "<img/>";
    assert output == "<img/ loading=\"lazy\">";
  }

  /** `<img` is matched as a plain prefix, so any tag name starting with it is rewritten too. */
  lemma LongerTagName()
    ensures Replace("<imgx>", ImgTag) == "<imgx loading=\"lazy\">"
  {
    var input, output := ImgTag + "x" + ">", ImgTag + "x" + Marker + ">";
    SingleTag(ImgTag, "x");
    assert input == "<imgx>";
    assert output == "<imgx loading=\"lazy\">";
  }

  /** An existing `loading` attribute is not looked at: the tag gets a second one. */
  lemma ExistingAttributeDuplicated()
    ensures Replace("<img" + Marker + ">", ImgTag) == "<img" + Marker + Marker + ">"
  {
    MarkerCharacters();
    SingleTag(ImgTag, Marker);
  }

  /** Where no match starts, the scan copies the text as it is. */
  lemma {:induction false} UnmatchedFrom(s: string, tag: string, i: nat)
    requires i <= |s|
    requires forall p :: i <= p < |s| ==> MatchAt(s, tag, p).None?
    ensures ReplaceFrom(s, tag, i) == s[i..]
    decreases |s| - i
  {
    if i < |s| {
      UnmatchedFrom(s, tag, i + 1);
      assert s[i..] == [s[i]] + s[i + 1..];
    }
  }

  /** Text with `<` only at its head and a failing match there passes through unchanged. */
  lemma OnlyTagUnmatched(s: string, tag: string)
    requires WellFormedTag(tag) && |s| > 0
    requires forall p :: 1 <= p < |s| ==> s[p] != '<'
    requires MatchAt(s, tag, 0).None?
    ensures Replace(s, tag) == s
  {
    forall p | 1 <= p < |s|
      ensures MatchAt(s, tag, p).None?
    {
      TagStartsWithLt(s, tag, p);
    }
    UnmatchedFrom(s, tag, 0);
  }

  /** An occurrence of a tag starts with `<`. */
  lemma TagStartsWithLt(s: string, tag: string, p: nat)
    requires WellFormedTag(tag)
    ensures TagAt(s, tag, p) ==> p < |s| && s[p] == '<'
  {
    if TagAt(s, tag, p) {
      assert s[p] == s[p..p + |tag|][0];
    }
  }

  /**
   * A line feed after an occurrence of the tag, with no `>` before it, makes
   * the match there fail: the scan copies the `<` and moves on by one.
   */
  lemma LineFeedStopsMatch(s: string, tag: string, p: nat, k: nat)
    requires TagAt(s, tag, p) && p + |tag| <= k < |s| && s[k] == '\n'
    requires forall m :: p + |tag| <= m < k ==> s[m] != '>'
    ensures MatchAt(s, tag, p).None?
    ensures ReplaceFrom(s, tag, p) == [s[p]] + ReplaceFrom(s, tag, p + 1)
  {
  }

  /**
   * An occurrence of the tag with no `>` anywhere after it is not matched:
   * the scan copies the `<` and moves on by one.
   */
  lemma NoCloseStopsMatch(s: string, tag: string, p: nat)
    requires TagAt(s, tag, p) && p < |s|
    requires forall m :: p + |tag| <= m < |s| ==> s[m] != '>'
    ensures MatchAt(s, tag, p).None?
    ensures ReplaceFrom(s, tag, p) == [s[p]] + ReplaceFrom(s, tag, p + 1)
  {
  }

  /** A line feed before the `>` stops `.`, so the tag is left as it is. */
  lemma LineFeedInTag()
    ensures Replace("<img\n>", ImgTag) == "<img\n>"
  {
    var s := "<img\n>";
    TagsWellFormed();
    assert FindClose(s, 4) == None;
    OnlyTagUnmatched(s, ImgTag);
  }

  /** A tag with no `>` after it is left as it is. */
  lemma UnterminatedTag()
    ensures Replace("<img src=x", ImgTag) == "<img src=x"
  {
    var s := "<img src=x";
    TagsWellFormed();
    assert FindClose(s, 4) == None;
    OnlyTagUnmatched(s, ImgTag);
  }
}
