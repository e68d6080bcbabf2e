/** How `relaxed_body_canon` relates to the relaxed body canonicalisation of
    section 3.4.4 of RFC 4871, and when it is idempotent. */
module BodyCanonRfc {
  import opened CString
  import opened BodyCanon
  import opened RfcBody
  import H = HeaderCanon

  // ---------- The standard, on the lines of the code ----------

  /** How many of the first `n` lines are left once trailing empty lines are ignored. */
  function InkedLen(lines: seq<string>, n: nat): (r: nat)
    requires n <= |lines|
    ensures r <= n
    ensures r > 0 ==> CanonLine(lines[r - 1]) != []
  {
    if n > 0 && CanonLine(lines[n - 1]) == [] then InkedLen(lines, n - 1) else n
  }

  function DropBlankLines(lines: seq<string>): seq<string> {
    lines[..InkedLen(lines, |lines|)]
  }

  function KeptText(lines: seq<string>): string {
    var kept := DropBlankLines(lines);
    if kept == [] then CRLF else Output(kept)
  }

  lemma InkedStep(lines: seq<string>, n: nat)
    requires 0 < n <= |lines|
    ensures InkedLen(lines, n) == if CanonLine(lines[n - 1]) == [] then InkedLen(lines, n - 1) else n
  {
  }

  // ---------- Strings ----------

  lemma StripSuffix(s: string, t: string)
    requires forall i :: 0 <= i < |t| ==> IsLineBreak(t[i])
    ensures Strip(s + t) == Strip(s)
  {
    StripSuffixLen(s, t, |t|);
    StripPrefixLen(s, t, |s|);
  }

  lemma {:induction false} StripSuffixLen(s: string, t: string, n: nat)
    requires n <= |t| && forall i :: 0 <= i < |t| ==> IsLineBreak(t[i])
    ensures StripLen(s + t, |s| + n) == StripLen(s + t, |s|)
  {
    if n > 0 {
      StripSuffixLen(s, t, n - 1);
    }
  }

  lemma {:induction false} StripPrefixLen(s: string, t: string, n: nat)
    requires n <= |s|
    ensures StripLen(s + t, n) == StripLen(s, n)
  {
    if n > 0 && IsLineBreak(s[n - 1]) {
      StripPrefixLen(s, t, n - 1);
    }
  }

  lemma {:induction false} StripAfterLen(s: string, t: string, n: nat)
    requires n <= |t| && StripLen(t, n) > 0
    ensures StripLen(s + t, |s| + n) == |s| + StripLen(t, n)
  {
    if n > 0 && IsLineBreak(t[n - 1]) {
      StripAfterLen(s, t, n - 1);
    }
  }

  lemma StripsToNothing(s: string)
    requires Strip(s) == []
    ensures forall i :: 0 <= i < |s| ==> IsLineBreak(s[i])
  {
  }

  lemma StripAfter(s: string, t: string)
    requires Strip(t) != []
    ensures Strip(s + t) == s + Strip(t)
  {
    StripAfterLen(s, t, |t|);
  }

  // ---------- Lines ----------

  predicate LfFree(lines: seq<string>) {
    forall l :: l in lines ==> '\n' !in l
  }

  lemma {:induction false} LinesAreLfFree(s: string, i: nat)
    requires i <= |s|
    ensures LfFree(LinesFrom(s, i))
    decreases |s| - i
  {
    var k := LfFrom(s, i);
    if k < |s| {
      LinesAreLfFree(s, k + 1);
    }
  }

  lemma {:induction false} SqueezeChars(after: bool, s: string, c: char)
    requires c !in s && c != ' '
    ensures c !in H.Squeeze(after, s)
    decreases |s|
  {
    if s != [] {
      SqueezeChars(IsWsp(s[0]), s[1..], c);
    }
  }

  lemma {:induction false} SqueezeEnd(after: bool, s: string)
    requires s != [] && !IsWsp(s[|s| - 1])
    ensures var r := H.Squeeze(after, s); r != [] && r[|r| - 1] == s[|s| - 1]
    decreases |s|
  {
    if |s| > 1 {
      SqueezeEnd(IsWsp(s[0]), s[1..]);
    }
  }

  /** A canonical line is empty, or ends as the right-trimmed line does. */
  lemma CanonLineEnd(line: string)
    ensures H.RTrim(line) == [] <==> CanonLine(line) == []
    ensures CanonLine(line) != [] ==>
      CanonLine(line)[|CanonLine(line)| - 1] == H.RTrim(line)[|H.RTrim(line)| - 1]
  {
    if H.RTrim(line) != [] {
      SqueezeEnd(false, H.RTrim(line));
    }
  }

  lemma CanonLineLfFree(line: string)
    requires '\n' !in line
    ensures '\n' !in CanonLine(line)
  {
    assert forall c :: c in H.RTrim(line) ==> c in line;
    SqueezeChars(false, H.RTrim(line), '\n');
  }

  lemma OutputLast(lines: seq<string>, n: nat)
    requires 0 < n <= |lines|
    ensures Output(lines[..n]) == Output(lines[..n - 1]) + CanonLine(lines[n - 1]) + CRLF
  {
    assert lines[..n] == lines[..n - 1] + [lines[n - 1]];
    OutputSnoc(lines[..n - 1], lines[n - 1]);
  }

  lemma {:induction false} StripBlankLines(lines: seq<string>, n: nat)
    requires n <= |lines|
    ensures Strip(Output(lines[..n])) == Strip(Output(lines[..InkedLen(lines, n)]))
  {
    hide Strip, Output, CanonLine;
    if n > 0 && CanonLine(lines[n - 1]) == [] {
      hide InkedLen;
      InkedStep(lines, n);
      OutputLast(lines, n);
      assert Output(lines[..n]) == Output(lines[..n - 1]) + CRLF;
      StripSuffix(Output(lines[..n - 1]), CRLF);
      StripBlankLines(lines, n - 1);
    }
  }

  // ---------- The standard on these lines ----------

  lemma {:induction false} FromTheFront(run: string, s: string, j: nat)
    requires j < |s|
    ensures Lines(run, s[j..]) ==
            if s[j] == '\n' then [run] + Lines([], s[j + 1..])
            else if j + 1 < |s| && s[j] == '\r' && s[j + 1] == '\n' then [run] + Lines([], s[j + 2..])
            else Lines(run + [s[j]], s[j + 1..])
  {
    var t := s[j..];
    assert t[1..] == s[j + 1..] && t[0] == s[j];
    if |t| >= 2 {
      assert t[2..] == s[j + 2..] && t[1] == s[j + 1];
      assert t[..2] == CRLF <==> t[0] == '\r' && t[1] == '\n' by {
        assert t[..2][0] == t[0] && t[..2][1] == t[1];
      }
    }
  }

  lemma {:induction false} ByTheSearch(s: string, i: nat, k: nat)
    requires i <= k <= |s| && (forall j :: i <= j < k ==> s[j] != '\n') && (k < |s| ==> s[k] == '\n')
    ensures LinesFrom(s, i) ==
            if k < |s| then [DropCr(s[i..k])] + LinesFrom(s, k + 1) else if i == |s| then [] else [s[i..]]
  {
    hide DropCr, LfFrom;
    var f := LfFrom(s, i);
    assert (f < |s| ==> s[f] == '\n') && (k < |s| ==> s[k] == '\n');
    assert f == k;
  }

  lemma DropCrOfSlice(s: string, i: nat, j: nat)
    requires i <= j < |s|
    ensures s[j] == '\r' ==> DropCr(s[i..j + 1]) == s[i..j]
    ensures i == j || s[j - 1] != '\r' ==> DropCr(s[i..j]) == s[i..j]
  {
    var line, longer := s[i..j], s[i..j + 1];
    assert longer[|longer| - 1] == s[j] && longer[..|longer| - 1] == line;
    assert i < j ==> line[|line| - 1] == s[j - 1];
  }

  lemma {:induction false} AtTheEnd(s: string, i: nat)
    requires i <= |s| && forall k :: i <= k < |s| ==> s[k] != '\n'
    ensures Lines(s[i..], []) == LinesFrom(s, i)
  {
    hide DropCr, LfFrom;
    ByTheSearch(s, i, |s|);
    if i < |s| {
      assert s[i..][0] == s[i];
    } else {
      assert s[i..] == [];
    }
  }

  lemma StillNoLf(s: string, i: nat, j: nat)
    requires i <= j < |s| && (forall k :: i <= k < j ==> s[k] != '\n') && s[j] != '\n'
    ensures forall k :: i <= k < j + 1 ==> s[k] != '\n'
    ensures s[i..j] + [s[j]] == s[i..j + 1]
  {
  }

  /** Reading lines from the front gives those that the search for LFs cuts out. */
  lemma {:induction false} LinesAgree(s: string, i: nat, j: nat)
    requires i <= j <= |s| && (forall k :: i <= k < j ==> s[k] != '\n')
    requires i < j < |s| && s[j - 1] == '\r' ==> s[j] != '\n'
    ensures Lines(s[i..j], s[j..]) == LinesFrom(s, i)
    decreases |s| - j
  {
    hide Lines, LinesFrom, DropCr, LfFrom;
    if j == |s| {
      assert s[i..j] == s[i..] && s[j..] == [];
      AtTheEnd(s, i);
    } else {
      FromTheFront(s[i..j], s, j);
      DropCrOfSlice(s, i, j);
      if s[j] == '\n' {
        ByTheSearch(s, i, j);
        LinesAgree(s, j + 1, j + 1);
        assert s[j + 1..j + 1] == [];
      } else {
        StillNoLf(s, i, j);
        if j + 1 < |s| && s[j] == '\r' && s[j + 1] == '\n' {
          ByTheSearch(s, i, j + 1);
          LinesAgree(s, j + 2, j + 2);
          assert s[j + 2..j + 2] == [];
        } else {
          LinesAgree(s, i, j + 1);
        }
      }
    }
  }

  lemma {:induction false} TrimKeepsWords(s: string, n: nat)
    requires n <= |s|
    ensures H.Words(s[..H.RTrimLen(s, n)]) == H.Words(s[..n])
  {
    if n > 0 && IsWsp(s[n - 1]) {
      assert s[..n] == s[..n - 1] + [s[n - 1]] + [];
      H.SplitAtWsp([], s[..n - 1], s[n - 1], []);
      TrimKeepsWords(s, n - 1);
    }
  }

  lemma {:induction false} LineAgrees(line: string)
    ensures CanonLine(line) == Reduced(line)
  {
    var r := H.RTrim(line);
    assert line[..|line|] == line;
    TrimKeepsWords(line, |line|);
    H.SqueezeShape(false, r);
    if H.Words(r) == [] && r != [] {
      H.AllWsp(r);
    }
    assert H.Trail(r) == "" && (r != [] ==> r[0] == line[0]);
    assert H.Join(H.Words(r)) + "" == H.Join(H.Words(r));
  }

  lemma {:induction false} OutputAgrees(lines: seq<string>)
    ensures Ended(AllReduced(lines)) == Output(lines)
  {
    if lines != [] {
      LineAgrees(lines[0]);
      OutputAgrees(lines[1..]);
      assert AllReduced(lines)[1..] == AllReduced(lines[1..]);
    }
  }

  lemma {:induction false} ReducedPrefix(lines: seq<string>, n: nat)
    requires n <= |lines|
    ensures AllReduced(lines[..n]) == AllReduced(lines)[..n]
  {
    hide Reduced, AllReduced;
    var cs, ds := AllReduced(lines[..n]), AllReduced(lines);
    forall k | 0 <= k < n
      ensures cs[k] == ds[k]
    {
      assert lines[..n][k] == lines[k];
    }
  }

  lemma {:induction false} KeptAgrees(lines: seq<string>, cs: seq<string>, n: nat)
    requires n <= |lines| == |cs| && forall k :: 0 <= k < |cs| ==> cs[k] == CanonLine(lines[k])
    ensures DropEmptyEnd(cs[..n]) == cs[..InkedLen(lines, n)]
  {
    hide CanonLine;
    var front := cs[..n];
    if n > 0 {
      assert front[n - 1] == cs[n - 1];
      if cs[n - 1] == [] {
        assert front[..n - 1] == cs[..n - 1];
        KeptAgrees(lines, cs, n - 1);
      }
    }
  }

  /** The standard's text in terms of the code's lines. */
  lemma {:induction false} RelaxedBodyByLines(body: string)
    ensures RelaxedBody(body) == KeptText(LinesFrom(body, 0))
  {
    hide Lines, LinesFrom, AllReduced, DropEmptyEnd, Ended, Output, CanonLine, Reduced, InkedLen;
    var lines := LinesFrom(body, 0);
    var cs := AllReduced(lines);
    assert Lines([], body) == lines by {
      LinesAgree(body, 0, 0);
      assert body[0..0] == [] && body[0..] == body;
    }
    forall k | 0 <= k < |cs|
      ensures cs[k] == CanonLine(lines[k])
    {
      LineAgrees(lines[k]);
    }
    KeptAgrees(lines, cs, |lines|);
    assert cs[..|lines|] == cs;
    ReducedPrefix(lines, InkedLen(lines, |lines|));
    OutputAgrees(DropBlankLines(lines));
  }

  // ---------- Agreement with the standard ----------

  function LastChar(s: string): char
    requires s != []
  {
    s[|s| - 1]
  }

  /** The last line with anything but WSP in it, right-trimmed, ends in a bare CR. */
  predicate InkEndsInCr(lines: seq<string>) {
    var n := InkedLen(lines, |lines|);
    n > 0 && H.RTrim(lines[n - 1]) != [] && LastChar(H.RTrim(lines[n - 1])) == '\r'
  }

  lemma StripLastLine(head: string, c: string)
    requires c != [] && '\n' !in c
    ensures Strip(head + c + CRLF) == head + Strip(c) || Strip(c) == []
    ensures Strip(head + c + CRLF) == head + c <==> c[|c| - 1] != '\r'
  {
    assert c[|c| - 1] in c;
    StripSuffix(head + c, CRLF);
    if c[|c| - 1] != '\r' {
      assert Strip(c) == c;
    } else {
      assert |Strip(head + c)| < |head + c|;
    }
    if Strip(c) != [] {
      StripAfter(head, c);
    }
  }

  lemma CrlfCancels(s: string, t: string)
    ensures s + CRLF == t + CRLF <==> s == t
  {
    if s + CRLF == t + CRLF {
      assert (s + CRLF)[..|s|] == (t + CRLF)[..|t|];
    }
  }

  lemma AgreementOnLines(lines: seq<string>)
    requires LfFree(lines)
    ensures CanonText(lines) == KeptText(lines) <==> !InkEndsInCr(lines)
  {
    hide CanonLine;
    var n := InkedLen(lines, |lines|);
    assert lines[..|lines|] == lines;
    StripBlankLines(lines, |lines|);
    if n > 0 {
      hide Strip, Output, InkedLen;
      OutputLast(lines, n);
      var head, line := Output(lines[..n - 1]), lines[n - 1];
      CanonLineLfFree(line);
      CanonLineEnd(line);
      StripLastLine(head, CanonLine(line));
      CrlfCancels(Strip(head + CanonLine(line) + CRLF), head + CanonLine(line));
      assert KeptText(lines) == Output(lines[..n]);
      assert CanonText(lines) == Strip(Output(lines[..n])) + CRLF;
    }
  }

  /** The code meets the standard on a body exactly when its last inked line does not end in a bare CR. */
  lemma {:induction false} AgreesWithRfcIff(body: string)
    ensures CanonBody(body) == RelaxedBody(body) <==> !InkEndsInCr(LinesFrom(body, 0))
  {
    LinesAreLfFree(body, 0);
    RelaxedBodyByLines(body);
    AgreementOnLines(LinesFrom(body, 0));
  }

  lemma CrOnlyAtTheEnd(s: string, i: nat, k: nat)
    requires H.OnlyCrlf(s) && i <= k <= |s| && (k < |s| ==> s[k] == '\n')
    requires forall j :: i <= j < k ==> s[j] != '\n'
    ensures '\r' !in if k < |s| then DropCr(s[i..k]) else s[i..]
  {
    forall j | i <= j < k && s[j] == '\r'
      ensures j + 1 == k < |s|
    {
      assert s[j + 1] == '\n';
    }
  }

  lemma {:induction false} CrlfBodiesHaveNoBareCr(s: string, i: nat)
    requires H.OnlyCrlf(s) && i <= |s|
    ensures forall l :: l in LinesFrom(s, i) ==> '\r' !in l
    decreases |s| - i
  {
    var k := LfFrom(s, i);
    if i < |s| {
      var l := LinesFrom(s, i)[0];
      assert '\r' !in l by {
        CrOnlyAtTheEnd(s, i, k);
      }
      if k < |s| {
        CrlfBodiesHaveNoBareCr(s, k + 1);
      }
    }
  }

  lemma CrFreeLines(lines: seq<string>)
    requires forall l :: l in lines ==> '\r' !in l
    ensures !InkEndsInCr(lines)
  {
    var n := InkedLen(lines, |lines|);
    if n > 0 {
      var line := lines[n - 1];
      var r := H.RTrim(line);
      assert r != [] ==> LastChar(r) == line[|r| - 1] && line[|r| - 1] in line;
    }
  }

  /** So on every body in which each CR is immediately followed by LF, the code is the standard. */
  lemma AgreesOnCrlfBodies(body: string)
    requires H.OnlyCrlf(body)
    ensures CanonBody(body) == RelaxedBody(body)
  {
    AgreesWithRfcIff(body);
    CrlfBodiesHaveNoBareCr(body, 0);
    CrFreeLines(LinesFrom(body, 0));
  }

  // ---------- Idempotence ----------

  /** How many of the first `n` lines are left once trailing lines that hold only CRs,
      right-trimmed, are dropped. */
  function SolidLen(lines: seq<string>, n: nat): (r: nat)
    requires n <= |lines|
    ensures r <= n
    ensures r > 0 ==> Strip(CanonLine(lines[r - 1])) != []
  {
    if n > 0 && Strip(CanonLine(lines[n - 1])) == [] then SolidLen(lines, n - 1) else n
  }

  lemma SolidStep(lines: seq<string>, n: nat)
    requires 0 < n <= |lines|
    ensures SolidLen(lines, n) == if Strip(CanonLine(lines[n - 1])) == [] then SolidLen(lines, n - 1) else n
  {
  }

  /** The last line that holds more than CRs once right-trimmed has WSP before its trailing bare CRs. */
  predicate WspBeforeFinalCr(lines: seq<string>) {
    var n := SolidLen(lines, |lines|);
    n > 0 && IsWsp(LastChar(Strip(CanonLine(lines[n - 1]))))
  }

  lemma {:induction false} StripCrLines(lines: seq<string>, n: nat)
    requires n <= |lines|
    ensures Strip(Output(lines[..n])) == Strip(Output(lines[..SolidLen(lines, n)]))
  {
    hide Strip, Output, CanonLine;
    if n > 0 && Strip(CanonLine(lines[n - 1])) == [] {
      hide SolidLen;
      SolidStep(lines, n);
      StripsToNothing(CanonLine(lines[n - 1]));
      var c := CanonLine(lines[n - 1]);
      OutputLast(lines, n);
      assert Output(lines[..n]) == Output(lines[..n - 1]) + (c + CRLF);
      StripSuffix(Output(lines[..n - 1]), c + CRLF);
      StripCrLines(lines, n - 1);
    }
  }

  lemma {:induction false} SqueezeTwice(after: bool, s: string)
    ensures H.Squeeze(after, H.Squeeze(after, s)) == H.Squeeze(after, s)
    decreases |s|
  {
    if s != [] {
      SqueezeTwice(IsWsp(s[0]), s[1..]);
      var rest := H.Squeeze(IsWsp(s[0]), s[1..]);
      if after && IsWsp(s[0]) {
        assert H.Squeeze(after, s) == rest;
      } else {
        assert H.Squeeze(after, s)[1..] == rest;
      }
    }
  }

  lemma {:induction false} SqueezedPrefix(after: bool, s: string, k: nat)
    requires H.Squeeze(after, s) == s && k <= |s|
    ensures H.Squeeze(after, s[..k]) == s[..k]
    decreases k
  {
    if k > 0 {
      assert s[..k][1..] == s[1..][..k - 1];
      assert H.Squeeze(after, s)[1..] == s[1..];
      SqueezedPrefix(IsWsp(s[0]), s[1..], k - 1);
      assert [s[0]] + s[1..][..k - 1] == s[..k];
    }
  }

  /** What is left of a canonical line without its trailing CRs is canonical unless it ends in WSP. */
  lemma CanonStripped(line: string)
    ensures var m := Strip(CanonLine(line));
            if m != [] && IsWsp(m[|m| - 1]) then |CanonLine(m)| < |m| else CanonLine(m) == m
  {
    var c := CanonLine(line);
    var m := Strip(c);
    SqueezeTwice(false, H.RTrim(line));
    SqueezedPrefix(false, c, |m|);
    if m == [] || !IsWsp(m[|m| - 1]) {
      assert H.RTrim(m) == m;
    }
  }

  lemma CanonLineTwice(line: string)
    ensures CanonLine(CanonLine(line)) == CanonLine(line)
  {
    SqueezeTwice(false, H.RTrim(line));
    CanonLineEnd(line);
    var c := CanonLine(line);
    assert H.RTrim(c) == c;
  }

  // Reading back the canonical text line by line.

  /** `t` ends in `s`, which starts at index `n`. */
  predicate EndsIn(t: string, n: nat, s: string) {
    |t| == n + |s| && forall j :: 0 <= j < |s| ==> t[n + j] == s[j]
  }

  lemma {:induction false} LfFromShift(t: string, n: nat, s: string, i: nat)
    requires EndsIn(t, n, s) && i <= |s|
    ensures LfFrom(t, n + i) == n + LfFrom(s, i)
    decreases |s| - i
  {
    if i < |s| && s[i] != '\n' {
      LfFromShift(t, n, s, i + 1);
    }
  }

  lemma SameSlice(t: string, n: nat, s: string, i: nat, k: nat)
    requires EndsIn(t, n, s) && i <= k <= |s|
    ensures |t| == n + |s| && t[n + i..n + k] == s[i..k]
  {
  }

  lemma {:induction false} LinesFromShift(t: string, n: nat, s: string, i: nat)
    requires EndsIn(t, n, s) && i <= |s|
    ensures LinesFrom(t, n + i) == LinesFrom(s, i)
    decreases |s| - i
  {
    hide LfFrom, DropCr, EndsIn;
    LfFromShift(t, n, s, i);
    var k := LfFrom(s, i);
    SameSlice(t, n, s, i, k);
    if k < |s| {
      LinesFromShift(t, n, s, k + 1);
    } else {
      assert t[n + i..] == t[n + i..n + k] && s[i..] == s[i..k];
    }
  }

  lemma {:induction false} LfFromFirst(line: string, rest: string, i: nat)
    requires '\n' !in line && i <= |line| + 1
    ensures LfFrom(line + CRLF + rest, i) == |line| + 1
    decreases |line| + 1 - i
  {
    if i <= |line| {
      assert i < |line| ==> line[i] in line;
      LfFromFirst(line, rest, i + 1);
    }
  }

  lemma {:induction false} FirstLine(line: string, rest: string)
    requires '\n' !in line
    ensures LinesFrom(line + CRLF + rest, 0) == [line] + LinesFrom(rest, 0)
  {
    var s := line + CRLF + rest;
    LfFromFirst(line, rest, 0);
    assert s[0..|line| + 1] == line + "\r";
    LinesFromShift(s, |line| + 2, rest, 0);
  }

  /** The canonical text of some lines splits into their canonical forms. */
  lemma {:induction false} LinesOfOutput(lines: seq<string>, rest: string)
    requires LfFree(lines)
    ensures Output(LinesFrom(Output(lines) + rest, 0)) == Output(lines) + Output(LinesFrom(rest, 0))
  {
    if lines == [] {
      assert Output(lines) + rest == rest;
    } else {
      var c := CanonLine(lines[0]);
      assert lines[0] in lines;
      CanonLineLfFree(lines[0]);
      CanonLineTwice(lines[0]);
      var out, tail := Output(lines[1..]), Output(lines[1..]) + rest;
      assert Output(lines) + rest == c + CRLF + tail;
      FirstLine(c, tail);
      LinesOfOutput(lines[1..], rest);
      OutputFront(c, LinesFrom(tail, 0), out, Output(LinesFrom(rest, 0)));
    }
  }

  lemma {:induction false} OutputFront(c: string, lines: seq<string>, out: string, more: string)
    requires Output(lines) == out + more && CanonLine(c) == c
    ensures Output([c] + lines) == c + CRLF + out + more
  {
    assert ([c] + lines)[1..] == lines;
  }

  lemma {:induction false} SolidLines(head: seq<string>, m: string)
    requires LfFree(head) && '\n' !in m
    ensures Output(LinesFrom(Output(head) + (m + CRLF), 0)) == Output(head) + CanonLine(m) + CRLF
  {
    FirstLine(m, []);
    assert m + CRLF + [] == m + CRLF;
    LinesOfOutput(head, m + CRLF);
    assert LinesFrom([], 0) == [];
    assert Output([m]) == CanonLine(m) + CRLF;
  }

  lemma StripCancels(h: string, c: string, m: string)
    requires m != [] && !IsLineBreak(m[|m| - 1])
    requires c == m || |c| < |m|
    ensures Strip(h + c + CRLF) + CRLF == h + m + CRLF <==> c == m
  {
    StripSuffix(h + c, CRLF);
    CrlfCancels(Strip(h + c), h + m);
    if c == m {
      assert Strip(h + c) == h + c;
    } else {
      assert |Strip(h + c)| <= |h + c| < |h + m|;
    }
  }

  lemma {:induction false} SolidBody(head: seq<string>, m: string, o: string)
    requires LfFree(head) && '\n' !in m && m != [] && !IsLineBreak(m[|m| - 1])
    requires CanonLine(m) == m || |CanonLine(m)| < |m|
    requires o == Output(head) + m + CRLF
    ensures CanonBody(o) == o <==> CanonLine(m) == m
  {
    assert o == Output(head) + (m + CRLF);
    SolidLines(head, m);
    StripCancels(Output(head), CanonLine(m), m);
  }

  lemma NothingLeft()
    ensures Output([]) == Strip([]) == []
  {
  }

  lemma LfFreeAt(lines: seq<string>, k: nat)
    requires LfFree(lines) && k < |lines|
    ensures '\n' !in lines[k]
  {
  }

  lemma {:induction false} CanonOnLines(lines: seq<string>, n: nat)
    requires LfFree(lines) && n == SolidLen(lines, |lines|)
    ensures n == 0 ==> CanonText(lines) == CRLF
    ensures n > 0 ==> CanonText(lines) == Output(lines[..n - 1]) + Strip(CanonLine(lines[n - 1])) + CRLF
  {
    hide CanonLine, Strip, Output, SolidLen, LfFree;
    assert lines[..|lines|] == lines;
    StripCrLines(lines, |lines|);
    NothingLeft();
    if n == 0 {
      assert lines[..0] == [];
    } else {
      assert '\n' !in lines[n - 1] by {
        LfFreeAt(lines, n - 1);
      }
      OutputLast(lines, n);
      CanonLineLfFree(lines[n - 1]);
      StripLastLine(Output(lines[..n - 1]), CanonLine(lines[n - 1]));
    }
  }

  lemma IdempotenceOnLines(lines: seq<string>)
    requires LfFree(lines)
    ensures CanonBody(CanonText(lines)) == CanonText(lines) <==> !WspBeforeFinalCr(lines)
  {
    hide CanonLine, CanonBody, CanonText, SolidLen, Output;
    var n := SolidLen(lines, |lines|);
    CanonOnLines(lines, n);
    if n == 0 {
      EmptyBody();
    } else {
      var head, line := lines[..n - 1], lines[n - 1];
      var m := Strip(CanonLine(line));
      CanonLineLfFree(line);
      assert forall x :: x in m ==> x in CanonLine(line);
      CanonStripped(line);
      SolidBody(head, m, CanonText(lines));
    }
  }

  /** A second pass changes nothing exactly when the last solid line has no WSP before its
      trailing bare CRs. */
  lemma {:induction false} IdempotentIff(body: string)
    ensures CanonBody(CanonBody(body)) == CanonBody(body) <==> !WspBeforeFinalCr(LinesFrom(body, 0))
  {
    LinesAreLfFree(body, 0);
    IdempotenceOnLines(LinesFrom(body, 0));
  }

  lemma EmptyBody()
    ensures CanonBody(CRLF) == CRLF
  {
    FirstLine([], []);
    assert [] + CRLF + [] == CRLF;
    assert LinesFrom([], 0) == [];
    assert CanonLine([]) == [];
    assert Output([[]]) == CRLF;
  }

  /** Idempotence on every body in which each CR is immediately followed by LF. */
  lemma IdempotentOnCrlfBodies(body: string)
    requires H.OnlyCrlf(body)
    ensures CanonBody(CanonBody(body)) == CanonBody(body)
  {
    var lines := LinesFrom(body, 0);
    IdempotentIff(body);
    CrlfBodiesHaveNoBareCr(body, 0);
    var n := SolidLen(lines, |lines|);
    if n > 0 {
      var line := lines[n - 1];
      assert line in lines;
      assert forall c :: c in H.RTrim(line) ==> c in line;
      SqueezeChars(false, H.RTrim(line), '\r');
      LinesAreLfFree(body, 0);
      CanonLineLfFree(line);
      CrFreeLine(line);
    }
  }

  lemma CrFreeLine(line: string)
    requires '\r' !in CanonLine(line) && '\n' !in CanonLine(line) && CanonLine(line) != []
    ensures Strip(CanonLine(line)) == CanonLine(line) && !IsWsp(LastChar(CanonLine(line)))
  {
    CanonLineEnd(line);
    assert LastChar(CanonLine(line)) in CanonLine(line);
  }

  /** The known failure: with a bare CR at the end the code drops a CR the standard keeps ... */
  lemma BareCrBreaksAgreement()
    ensures CanonBody("a \r") == "a \r\n" && RelaxedBody("a \r") == "a \r\r\n"
  {
    RelaxedBodyByLines("a \r");
    hide RelaxedBody;
    assert LfFrom("a \r", 0) == LfFrom("a \r", 1) == LfFrom("a \r", 2) == 3;
    assert LinesFrom("a \r", 0) == ["a \r"];
    assert "a \r"[1..] == " \r" && " \r"[1..] == "\r";
    assert CanonLine("a \r") == "a \r";
    assert Output(["a \r"]) == "a \r\r\n";
    assert StripLen("a \r\r\n", 4) == StripLen("a \r\r\n", 3) == 2;
  }

  /** ... and the space before it survives the first pass only. */
  lemma BareCrBreaksIdempotence()
    ensures CanonBody("a \r\n") == "a\r\n"
  {
    FirstLine("a ", "");
    assert "a " + CRLF + "" == "a \r\n";
    assert H.RTrimLen("a ", 2) == H.RTrimLen("a ", 1) == 1;
    assert CanonLine("a ") == "a";
    assert Output(["a "]) == "a\r\n";
    assert StripLen("a\r\n", 3) == StripLen("a\r\n", 2) == 1;
  }
}
