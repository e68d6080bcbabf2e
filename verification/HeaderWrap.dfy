/** The word wrapper applied to a finished DKIM header, which must not change what is signed. */
module HeaderWrap {
  import opened CString
  import H = HeaderCanon

  const FOLD: string := "\r\n\t"

  /** What is written for `s[i..]`, `count` characters after the last break: every space, and
      every 76th character in a row, is followed by a fold. */
  function Wrapped(s: string, i: nat, count: nat): string
    requires i <= |s|
    decreases |s| - i
  {
    if i == |s| then []
    else if s[i] == ' ' || count == 75 then [s[i]] + FOLD + Wrapped(s, i + 1, 0)
    else [s[i]] + Wrapped(s, i + 1, count + 1)
  }

  /** How many folds that is. */
  function Folds(s: string, i: nat, count: nat): nat
    requires i <= |s|
    decreases |s| - i
  {
    if i == |s| then 0
    else if s[i] == ' ' || count == 75 then 1 + Folds(s, i + 1, 0)
    else Folds(s, i + 1, count + 1)
  }

  lemma {:induction false} WrappedLength(s: string, i: nat, count: nat)
    requires i <= |s|
    ensures |Wrapped(s, i, count)| == |s| - i + 3 * Folds(s, i, count)
    decreases |s| - i
  {
    if i < |s| {
      WrappedLength(s, i + 1, if s[i] == ' ' || count == 75 then 0 else count + 1);
    }
  }

  // ---------- How long the output is ----------

  /** The lengths of the maximal runs between the spaces of `s[i..]`, the first going on from `run`. */
  function RunLengths(s: string, i: nat, run: nat): seq<nat>
    requires i <= |s|
    decreases |s| - i
  {
    if i == |s| then [run]
    else if s[i] == ' ' then [run] + RunLengths(s, i + 1, 0)
    else RunLengths(s, i + 1, run + 1)
  }

  function Spaces(s: string, i: nat): nat
    requires i <= |s|
    decreases |s| - i
  {
    if i == |s| then 0 else (if s[i] == ' ' then 1 else 0) + Spaces(s, i + 1)
  }

  /** How often 76 characters fit into the runs. */
  function FullLines(runs: seq<nat>): nat {
    if runs == [] then 0 else runs[0] / 76 + FullLines(runs[1..])
  }

  lemma {:induction false} FoldsAhead(s: string, i: nat, run: nat)
    requires i <= |s|
    ensures Folds(s, i, run % 76) + run / 76 == Spaces(s, i) + FullLines(RunLengths(s, i, run))
    decreases |s| - i
  {
    if i == |s| {
      assert [run][1..] == [];
    } else if s[i] == ' ' {
      FoldsAhead(s, i + 1, 0);
      assert ([run] + RunLengths(s, i + 1, 0))[1..] == RunLengths(s, i + 1, 0);
    } else {
      FoldsAhead(s, i + 1, run + 1);
      NextInRun(run);
    }
  }

  lemma NextInRun(run: nat)
    ensures if run % 76 == 75 then (run + 1) % 76 == 0 && (run + 1) / 76 == run / 76 + 1
            else (run + 1) % 76 == run % 76 + 1 && (run + 1) / 76 == run / 76
  {
  }

  /** There is a fold for each space, and one for each 76 characters of a run between spaces. */
  lemma {:induction false} FoldsCounted(s: string)
    ensures Folds(s, 0, 0) == Spaces(s, 0) + FullLines(RunLengths(s, 0, 0))
  {
    FoldsAhead(s, 0, 0);
  }

  /** The `3 * len + 1` cells the wrapper allocates leave two extra cells for each character; a fold
      takes three. */
  predicate Fits(s: string) {
    3 * (Spaces(s, 0) + FullLines(RunLengths(s, 0, 0))) <= 2 * |s|
  }

  /** The output and its NUL fit the allocation exactly under `Fits`. */
  lemma {:induction false} WrappedFitsIff(s: string)
    ensures |Wrapped(s, 0, 0)| + 1 <= 3 * |s| + 1 <==> Fits(s)
  {
    WrappedLength(s, 0, 0);
    FoldsCounted(s);
  }

  /** A single space overruns, and so does a value that is more than two thirds spaces. */
  lemma {:induction false} ManySpacesOverrun(s: string)
    ensures 3 * Spaces(s, 0) > 2 * |s| ==> !Fits(s)
    ensures !Fits(" ")
  {
  }

  lemma WrapStep(done: string, s: string, i: nat, count: nat)
    requires i < |s|
    ensures done + Wrapped(s, i, count) ==
            if s[i] == ' ' || count == 75 then done + [s[i], '\r', '\n', '\t'] + Wrapped(s, i + 1, 0)
            else done + [s[i]] + Wrapped(s, i + 1, count + 1)
  {
    assert [s[i]] + FOLD == [s[i], '\r', '\n', '\t'];
  }

  /** `wrap`. Where the source would write past the cells it allocated, the model stops and reports
      the overrun; that happens exactly when the output does not fit. */
  method Wrap(str: array<char>, len: nat, ghost s: string) returns (tmp: array<char>, overrun: bool)
    requires len == |s| && Holds(str, s) && NUL !in s
    ensures fresh(tmp) && tmp.Length == 3 * len + 1
    ensures overrun <==> !Fits(s)
    ensures !overrun ==> NUL in tmp[..] && Text(tmp[..]) == Wrapped(s, 0, 0)
  {
    tmp, overrun := new char[len * 3 + 1], false;
    WrappedFitsIff(s);
    hide Fits;
    var tmpLen, lcount := 0, 0;
    ghost var done := [];
    for i := 0 to len
      invariant tmpLen == |done| && Holds(tmp, done) && NUL !in done
      invariant 0 <= lcount
      invariant done + Wrapped(s, i, lcount) == Wrapped(s, 0, 0)
    {
      WrapStep(done, s, i, lcount);
      if str[i] == ' ' || lcount == 75 {
        if tmpLen + 4 > tmp.Length {
          assert |done + [s[i], '\r', '\n', '\t'] + Wrapped(s, i + 1, 0)| > 3 * len;
          return tmp, true;
        }
        tmp[tmpLen] := str[i];
        tmp[tmpLen + 1] := '\r';
        tmp[tmpLen + 2] := '\n';
        tmp[tmpLen + 3] := '\t';
        tmpLen := tmpLen + 4;
        lcount := 0;
        done := done + [s[i], '\r', '\n', '\t'];
      } else {
        if tmpLen + 1 > tmp.Length {
          assert |done + [s[i]] + Wrapped(s, i + 1, lcount + 1)| > 3 * len;
          return tmp, true;
        }
        tmp[tmpLen] := str[i];
        tmpLen := tmpLen + 1;
        lcount := lcount + 1;
        done := done + [s[i]];
      }
    }
    assert done == Wrapped(s, 0, 0);
    if tmpLen + 1 > tmp.Length {
      return tmp, true;
    }
    Terminate(tmp, tmpLen, done);
  }

  // ---------- Wrapping and canonicalisation ----------

  /** The wrapped text with its CRLFs gone: a tab after every break. */
  function Tabbed(s: string, i: nat, count: nat): string
    requires i <= |s|
    decreases |s| - i
  {
    if i == |s| then []
    else if s[i] == ' ' || count == 75 then [s[i], '\t'] + Tabbed(s, i + 1, 0)
    else [s[i]] + Tabbed(s, i + 1, count + 1)
  }

  lemma {:induction false} UnfoldFold(c: char, rest: string)
    requires c != '\r'
    ensures H.Unfold([c] + FOLD + rest) == [c, '\t'] + H.Unfold(rest)
  {
    var t := [c] + FOLD + rest;
    assert t[1..] == "\r\n\t" + rest;
    assert t[1..][2..] == "\t" + rest;
    assert ("\t" + rest)[1..] == rest;
    assert H.Unfold("\t" + rest) == "\t" + H.Unfold(rest);
    assert [c] + ("\t" + H.Unfold(rest)) == [c, '\t'] + H.Unfold(rest);
  }

  lemma {:induction false} UnfoldWrapped(s: string, i: nat, count: nat)
    requires '\r' !in s && i <= |s|
    ensures H.Unfold(Wrapped(s, i, count)) == Tabbed(s, i, count)
    decreases |s| - i
  {
    if i < |s| {
      if s[i] == ' ' || count == 75 {
        UnfoldWrapped(s, i + 1, 0);
        UnfoldFold(s[i], Wrapped(s, i + 1, 0));
      } else {
        UnfoldWrapped(s, i + 1, count + 1);
        assert Wrapped(s, i, count)[1..] == Wrapped(s, i + 1, count + 1);
      }
    }
  }

  /** No forced break (the 76th character in a row) falls between two non-WSP characters. */
  predicate NoWordSplit(s: string, i: nat, count: nat)
    requires i <= |s|
    decreases |s| - i
  {
    if i == |s| then true
    else if s[i] == ' ' then NoWordSplit(s, i + 1, 0)
    else if count == 75 then
      (i + 1 == |s| || IsWsp(s[i]) || IsWsp(s[i + 1])) && NoWordSplit(s, i + 1, 0)
    else NoWordSplit(s, i + 1, count + 1)
  }

  lemma {:induction false} BreakWords(run: string, c: char, tail: string)
    ensures H.Split(run, [c, '\t'] + tail) ==
            if !IsWsp(c) then [run + [c]] + H.Words(tail) else (if run == [] then [] else [run]) + H.Words(tail)
  {
    assert [c, '\t'] + tail == [c] + (['\t'] + tail);
    H.SplitFront(run, c, ['\t'] + tail);
    H.SplitFront([], '\t', tail);
    H.SplitFront(run + [c], '\t', tail);
  }

  lemma {:induction false} PlainWords(run: string, c: char, rest: string)
    ensures !IsWsp(c) && (rest == [] || IsWsp(rest[0])) ==>
            H.Split(run, [c] + rest) == [run + [c]] + H.Words(rest)
    ensures !IsWsp(c) && rest != [] && !IsWsp(rest[0]) ==> |H.Split(run, [c] + rest)| == |H.Words(rest)|
    ensures IsWsp(c) ==> H.Split(run, [c] + rest) == (if run == [] then [] else [run]) + H.Words(rest)
  {
    H.SplitFront(run, c, rest);
    if !IsWsp(c) {
      if rest == [] || IsWsp(rest[0]) {
        H.CompleteRun(run + [c], rest);
      } else {
        H.RunCount(run + [c], [], rest);
      }
    }
  }

  /** Breaks never merge words; they leave them alone exactly when none splits a word. */
  lemma {:induction false} TabbedWords(s: string, i: nat, count: nat, run: string)
    requires i <= |s|
    ensures var t, u := H.Split(run, Tabbed(s, i, count)), H.Split(run, s[i..]);
            if NoWordSplit(s, i, count) then t == u else |t| > |u|
    decreases |s| - i
  {
    if i < |s| {
      var c, rest := s[i], s[i + 1..];
      assert s[i..] == [c] + rest;
      if c == ' ' || count == 75 {
        BreakWords(run, c, Tabbed(s, i + 1, 0));
        PlainWords(run, c, rest);
        TabbedWords(s, i + 1, 0, []);
      } else {
        H.SplitFront(run, c, rest);
        H.SplitFront(run, c, Tabbed(s, i + 1, count + 1));
        TabbedWords(s, i + 1, count + 1, if IsWsp(c) then [] else run + [c]);
      }
    }
  }

  /** Wrapping keeps the canonical form of a CR-free value exactly when no forced break splits a word. */
  lemma {:induction false} WrapKeepsCanonIff(v: string)
    requires '\r' !in v
    ensures H.CanonValue(Wrapped(v, 0, 0)) == H.CanonValue(v) <==> NoWordSplit(v, 0, 0)
  {
    UnfoldWrapped(v, 0, 0);
    H.UnfoldWithoutCrlf(v);
    TabbedWords(v, 0, 0, []);
    assert v[0..] == v;
    H.SameCanonIffSameWords(Wrapped(v, 0, 0), v);
  }

  predicate HasSpace(s: string, i: nat, j: nat) {
    exists k :: i <= k < j && k < |s| && s[k] == ' '
  }

  /** No 77 characters in a row without a space. */
  predicate RunsFit(s: string) {
    forall i: nat, j: nat :: i + 77 == j <= |s| ==> HasSpace(s, i, j)
  }

  lemma {:induction false} ShortRunsAreNotSplit(s: string, i: nat, count: nat)
    requires RunsFit(s) && count <= 75 && count <= i <= |s|
    requires forall k :: i - count <= k < i ==> s[k] != ' '
    ensures NoWordSplit(s, i, count)
    decreases |s| - i
  {
    if i < |s| {
      if s[i] == ' ' {
        ShortRunsAreNotSplit(s, i + 1, 0);
      } else if count == 75 {
        if i + 1 < |s| {
          assert HasSpace(s, i - 75, i + 2);
        }
        ShortRunsAreNotSplit(s, i + 1, 0);
      } else {
        ShortRunsAreNotSplit(s, i + 1, count + 1);
      }
    }
  }

  /** With no run of more than 76 non-space characters, wrapping never changes the canonical form. */
  lemma {:induction false} WrapKeepsCanon(v: string)
    requires '\r' !in v && RunsFit(v)
    ensures H.CanonValue(Wrapped(v, 0, 0)) == H.CanonValue(v)
  {
    WrapKeepsCanonIff(v);
    ShortRunsAreNotSplit(v, 0, 0);
  }

  /** Inside a run of 77 non-WSP characters from `at` on, at most `at` after the last break. */
  lemma {:induction false} LongRunIsSplit(s: string, i: nat, count: nat, at: nat)
    requires count <= 75 && at <= i <= at + count && at + 77 <= |s|
    requires forall k :: at <= k < at + 77 ==> !IsWsp(s[k])
    ensures !NoWordSplit(s, i, count)
    decreases 75 - count
  {
    if count < 75 {
      LongRunIsSplit(s, i + 1, count + 1, at);
    }
  }

  lemma {:induction false} LongRunAhead(s: string, i: nat, count: nat, at: nat)
    requires count <= 75 && i <= at && at + 77 <= |s|
    requires forall k :: at <= k < at + 77 ==> !IsWsp(s[k])
    ensures !NoWordSplit(s, i, count)
    decreases at - i
  {
    if i < at {
      LongRunAhead(s, i + 1, if s[i] == ' ' || count == 75 then 0 else count + 1, at);
    } else {
      LongRunIsSplit(s, i, count, at);
    }
  }

  /** 76 is exact: a value with 77 non-WSP characters in a row, wherever they stand, changes. */
  lemma {:induction false} LongWordChanges(v: string, at: nat)
    requires '\r' !in v && at + 77 <= |v| && forall k :: at <= k < at + 77 ==> !IsWsp(v[k])
    ensures H.CanonValue(Wrapped(v, 0, 0)) != H.CanonValue(v)
  {
    LongRunAhead(v, 0, 0, at);
    WrapKeepsCanonIff(v);
  }
}
