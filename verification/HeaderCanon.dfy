/** The "relaxed" header canonicalisation: four passes over the copied value,
    three of them in place, with separate read and write indices. */
module HeaderCanon {
  import opened CString

  // ---------- What each pass computes ----------

  /** One left-to-right deletion of every CRLF; a CRLF that the deletion itself brings
      together stays. */
  function Unfold(s: string): (r: string)
    ensures |r| <= |s|
  {
    if s == [] then []
    else if |s| >= 2 && s[0] == '\r' && s[1] == '\n' then Unfold(s[2..])
    else [s[0]] + Unfold(s[1..])
  }

  /** Every run of WSP becomes one space; `after` says whether a space precedes `s`. */
  function Squeeze(after: bool, s: string): (r: string)
    ensures |r| <= |s|
    decreases |s|
  {
    if s == [] then []
    else if IsWsp(s[0]) then (if after then [] else " ") + Squeeze(true, s[1..])
    else [s[0]] + Squeeze(false, s[1..])
  }

  /** How much of the first `n` characters is left once trailing WSP is dropped. */
  function RTrimLen(s: string, n: nat): (r: nat)
    requires n <= |s|
    ensures r <= n
    ensures r > 0 ==> !IsWsp(s[r - 1])
    ensures forall i :: r <= i < n ==> IsWsp(s[i])
  {
    if n > 0 && IsWsp(s[n - 1]) then RTrimLen(s, n - 1) else n
  }

  function RTrim(s: string): string {
    s[..RTrimLen(s, |s|)]
  }

  /** The first index from `n` on that does not hold WSP. */
  function LTrimAt(s: string, n: nat): (r: nat)
    requires n <= |s|
    ensures n <= r <= |s|
    ensures r < |s| ==> !IsWsp(s[r])
    ensures forall i :: n <= i < r ==> IsWsp(s[i])
    decreases |s| - n
  {
    if n < |s| && IsWsp(s[n]) then LTrimAt(s, n + 1) else n
  }

  function LTrim(s: string): string {
    s[LTrimAt(s, 0)..]
  }

  // ---------- What they amount to: the words of the unfolded value ----------

  /** The maximal runs of non-WSP characters, in order. */
  function Words(s: string): seq<string> {
    Split("", s)
  }

  /** The words of `run + s`, where `run` is a word that `s` may still extend. */
  function Split(run: string, s: string): seq<string>
    decreases |s|
  {
    if s == [] then (if run == [] then [] else [run])
    else if IsWsp(s[0]) then (if run == [] then [] else [run]) + Split("", s[1..])
    else Split(run + [s[0]], s[1..])
  }

  /** Words joined by single spaces. */
  function Join(ws: seq<string>): string {
    if ws == [] then []
    else if |ws| == 1 then ws[0]
    else ws[0] + " " + Join(ws[1..])
  }

  function CanonValue(v: string): string {
    Join(Words(Unfold(v)))
  }

  predicate IsWord(w: string) {
    w != [] && forall i :: 0 <= i < |w| ==> !IsWsp(w[i])
  }

  ghost predicate AreWords(ws: seq<string>) {
    forall i :: 0 <= i < |ws| ==> IsWord(ws[i])
  }

  lemma {:induction false} SplitIntoWords(run: string, s: string)
    requires run == [] || IsWord(run)
    ensures AreWords(Split(run, s))
    decreases |s|
  {
    if s != [] {
      SplitIntoWords(if IsWsp(s[0]) then [] else run + [s[0]], s[1..]);
    }
  }

  function Lead(after: bool, s: string): string {
    if s != [] && IsWsp(s[0]) && !after then " " else ""
  }

  function Trail(s: string): string {
    if s != [] && IsWsp(s[|s| - 1]) then " " else ""
  }

  function Inner(s: string): string {
    if Words(s) == [] then "" else Join(Words(s)) + Trail(s)
  }

  lemma {:induction false} SplitFront(run: string, c: char, t: string)
    ensures Split(run, [c] + t) ==
            if IsWsp(c) then (if run == [] then [] else [run]) + Words(t) else Split(run + [c], t)
  {
    assert ([c] + t)[1..] == t;
  }

  /** A word that meets WSP or the end is complete. */
  lemma {:induction false} CompleteRun(run: string, t: string)
    requires run != [] && (t == [] || IsWsp(t[0]))
    ensures Split(run, t) == [run] + Words(t)
  {
  }

  /** Extending a word does not change how many words there are. */
  lemma {:induction false} RunCount(run: string, run': string, t: string)
    requires (t != [] && !IsWsp(t[0])) || (run != [] && run' != [])
    ensures |Split(run, t)| == |Split(run', t)|
    decreases |t|
  {
    if t != [] && !IsWsp(t[0]) {
      RunCount(run + [t[0]], run' + [t[0]], t[1..]);
    }
  }

  /** A WSP separates the words before it from those after it. */
  lemma {:induction false} SplitAtWsp(run: string, x: string, w: char, y: string)
    requires IsWsp(w)
    ensures Split(run, x + [w] + y) == Split(run, x) + Words(y)
    decreases |x|
  {
    if x == [] {
      assert [] + [w] + y == [w] + y;
      SplitFront(run, w, y);
    } else {
      var c, rest := x[0], x[1..];
      assert x == [c] + rest && x + [w] + y == [c] + (rest + [w] + y);
      SplitFront(run, c, rest + [w] + y);
      SplitFront(run, c, rest);
      SplitAtWsp(if IsWsp(c) then [] else run + [c], rest, w, y);
    }
  }

  lemma WordsFront(s: string)
    requires s != []
    ensures Words(s) == if IsWsp(s[0]) then Words(s[1..]) else Split([s[0]], s[1..])
  {
    assert "" + [s[0]] == [s[0]];
  }

  lemma {:induction false} AllWsp(s: string)
    requires Words(s) == [] && s != []
    ensures IsWsp(s[0]) && IsWsp(s[|s| - 1])
  {
    WordsFront(s);
    if !IsWsp(s[0]) {
      RunIsAWord([s[0]], s[1..]);
    } else if |s| > 1 {
      AllWsp(s[1..]);
    }
  }

  lemma {:induction false} RunIsAWord(run: string, s: string)
    requires run != []
    ensures Split(run, s) != []
    decreases |s|
  {
    if s != [] && !IsWsp(s[0]) {
      RunIsAWord(run + [s[0]], s[1..]);
    }
  }

  lemma {:induction false} EndRun(run: string, s: string)
    requires run != [] && s != [] && IsWsp(s[0])
    ensures Join(Split(run, s)) + Trail(s) == run + (" " + Inner(s[1..]))
  {
    var t := s[1..];
    var ws, trail := Words(t), Trail(t);
    assert Split(run, s) == [run] + ws;
    if ws == [] {
      if t != [] {
        AllWsp(t);
      }
      assert [run] + ws == [run];
    } else {
      hide Join, Split, Trail;
      JoinCons(run, ws);
      TrailOfTail(s);
      assert run + " " + Join(ws) + trail == run + (" " + (Join(ws) + trail));
    }
  }

  lemma {:induction false} JoinCons(w: string, ws: seq<string>)
    requires ws != []
    ensures Join([w] + ws) == w + " " + Join(ws)
  {
    assert ([w] + ws)[1..] == ws;
  }

  lemma TrailOfTail(s: string)
    requires s != [] && Words(s[1..]) != []
    ensures Trail(s) == Trail(s[1..])
  {
  }

  /** Squeezing leaves the joined words, plus at most one space on each side. */
  lemma {:induction false} SqueezeShape(after: bool, s: string)
    ensures Squeeze(after, s) == Lead(after, s) + Inner(s)
    decreases |s|
  {
    if s == [] {
    } else {
      WordsFront(s);
      var c, t := s[0], s[1..];
      if IsWsp(c) {
        SqueezeShape(true, t);
        assert Inner(s) == Inner(t);
        assert Squeeze(after, s) == Lead(after, s) + Squeeze(true, t);
      } else {
        SqueezeRun([c], t);
        RunIsAWord([c], t);
        assert Trail(s) == Trail(t);
        assert Squeeze(after, s) == Inner(s);
      }
    }
  }

  lemma {:induction false} SqueezeRun(run: string, s: string)
    requires run != []
    ensures run + Squeeze(false, s) == Join(Split(run, s)) + Trail(s)
    decreases |s|
  {
    if s == [] {
      assert run + [] == run;
    } else {
      var c, t := s[0], s[1..];
      if IsWsp(c) {
        SqueezeShape(true, t);
        EndRun(run, s);
        assert Lead(true, t) + Inner(t) == Inner(t);
        assert Squeeze(false, s) == " " + Inner(t);
      } else {
        SqueezeRun(run + [c], t);
        assert Squeeze(false, s) == [c] + Squeeze(false, t);
        assert run + ([c] + Squeeze(false, t)) == run + [c] + Squeeze(false, t);
        assert Trail(s) == Trail(t);
      }
    }
  }

  lemma {:induction false} JoinEnds(ws: seq<string>)
    requires AreWords(ws) && ws != []
    ensures Join(ws) != []
    ensures !IsWsp(Join(ws)[0]) && !IsWsp(Join(ws)[|Join(ws)| - 1])
  {
    if |ws| > 1 {
      JoinEnds(ws[1..]);
    }
  }

  lemma RTrimStops(s: string, t: string)
    requires s == [] || !IsWsp(s[|s| - 1])
    requires t == "" || t == " "
    ensures RTrim(s + t) == s
  {
    assert (s + t)[..|s|] == s;
    assert RTrimLen(s + t, |s|) == |s|;
  }

  lemma TrimPadded(lead: string, mid: string, trail: string, s: string)
    requires s == lead + (mid + trail)
    requires mid != [] ==> !IsWsp(mid[0]) && !IsWsp(mid[|mid| - 1])
    requires (lead == "" || lead == " ") && (trail == "" || trail == " ")
    requires mid == [] ==> trail == ""
    ensures LTrim(RTrim(s)) == mid
  {
    if mid == [] {
      assert s == lead;
      assert RTrimLen(s, 0) == 0 && LTrim([]) == [];
    } else {
      assert s == lead + mid + trail;
      RTrimStops(lead + mid, trail);
      assert (lead + mid)[|lead|..] == mid;
      assert LTrimAt(lead + mid, |lead|) == |lead|;
    }
  }

  /** Collapse, right trim and left trim together leave the words joined by single spaces. */
  lemma {:induction false} TrimmedSqueezeIsWords(s: string)
    ensures LTrim(RTrim(Squeeze(false, s))) == Join(Words(s))
  {
    CanonEnds(s);
    SqueezeShape(false, s);
    var trail := if Words(s) == [] then "" else Trail(s);
    assert Inner(s) == Join(Words(s)) + trail;
    TrimPadded(Lead(false, s), Join(Words(s)), trail, Squeeze(false, s));
  }

  lemma CanonEnds(s: string)
    ensures var c := Join(Words(s)); c != [] ==> !IsWsp(c[0]) && !IsWsp(c[|c| - 1])
    ensures Words(s) == [] <==> Join(Words(s)) == []
  {
    SplitIntoWords("", s);
    if Words(s) != [] {
      JoinEnds(Words(s));
    }
  }

  // ---------- The words determine the canonical value ----------

  lemma {:induction false} SplitAfterWord(run: string, w: string, rest: string)
    requires run + w != [] && forall i :: 0 <= i < |w| ==> !IsWsp(w[i])
    requires rest == [] || IsWsp(rest[0])
    ensures Split(run, w + rest) == [run + w] + Words(rest)
    decreases |w|
  {
    if w == [] {
      assert w + rest == rest && run + w == run;
    } else {
      assert (w + rest)[1..] == w[1..] + rest;
      SplitAfterWord(run + [w[0]], w[1..], rest);
      assert run + [w[0]] + w[1..] == run + w;
    }
  }

  lemma WordsAfterWord(w: string, rest: string)
    requires IsWord(w)
    requires rest == [] || IsWsp(rest[0])
    ensures Words(w + rest) == [w] + Words(rest)
  {
    SplitAfterWord("", w, rest);
    assert "" + w == w;
  }

  lemma {:induction false} WordsOfJoin(ws: seq<string>)
    requires AreWords(ws)
    ensures Words(Join(ws)) == ws
  {
    if |ws| == 1 {
      assert ws[0] + [] == ws[0];
      WordsAfterWord(ws[0], []);
    } else if |ws| > 1 {
      var rest := " " + Join(ws[1..]);
      assert Join(ws) == ws[0] + rest;
      WordsAfterWord(ws[0], rest);
      assert rest[1..] == Join(ws[1..]);
      WordsOfJoin(ws[1..]);
    }
  }

  /** Two values canonicalise alike exactly when, unfolded, they have the same words. */
  lemma {:induction false} SameCanonIffSameWords(v: string, w: string)
    ensures CanonValue(v) == CanonValue(w) <==> Words(Unfold(v)) == Words(Unfold(w))
  {
    SplitIntoWords("", Unfold(v));
    SplitIntoWords("", Unfold(w));
    WordsOfJoin(Words(Unfold(v)));
    WordsOfJoin(Words(Unfold(w)));
  }

  // ---------- Idempotence ----------

  predicate HasCrlf(s: string) {
    exists i :: 0 <= i < |s| - 1 && s[i] == '\r' && s[i + 1] == '\n'
  }

  lemma {:induction false} UnfoldWithoutCrlf(s: string)
    requires !HasCrlf(s)
    ensures Unfold(s) == s
  {
    if s != [] {
      HasCrlfCons(s);
      UnfoldWithoutCrlf(s[1..]);
    }
  }

  lemma {:induction false} UnfoldShrinks(s: string)
    requires HasCrlf(s)
    ensures |Unfold(s)| < |s|
  {
    var i :| 0 <= i < |s| - 1 && s[i] == '\r' && s[i + 1] == '\n';
    if i > 0 && !(s[0] == '\r' && s[1] == '\n') {
      assert s[1..][i - 1] == '\r' && s[1..][i - 1 + 1] == '\n';
      UnfoldShrinks(s[1..]);
    }
  }

  lemma {:induction false} JoinedWordsFit(s: string)
    ensures |Join(Words(s))| <= |s|
  {
    SqueezeShape(false, s);
  }

  lemma HasCrlfConcat(s: string, t: string)
    requires s == [] || t == [] || IsWsp(t[0])
    ensures HasCrlf(s + t) <==> HasCrlf(s) || HasCrlf(t)
  {
    var st := s + t;
    if HasCrlf(s) {
      var i :| 0 <= i < |s| - 1 && s[i] == '\r' && s[i + 1] == '\n';
      assert st[i] == '\r' && st[i + 1] == '\n';
    }
    if HasCrlf(t) {
      var i :| 0 <= i < |t| - 1 && t[i] == '\r' && t[i + 1] == '\n';
      assert st[|s| + i] == '\r' && st[|s| + i + 1] == '\n';
    }
    if HasCrlf(st) {
      var i :| 0 <= i < |st| - 1 && st[i] == '\r' && st[i + 1] == '\n';
      if i < |s| {
        assert s[i] == '\r' && (i + 1 < |s| ==> s[i + 1] == '\n');
      } else {
        assert t[i - |s|] == '\r' && t[i - |s| + 1] == '\n';
      }
    }
  }

  lemma HasCrlfCons(s: string)
    requires s != []
    ensures HasCrlf(s) <==> (|s| >= 2 && s[0] == '\r' && s[1] == '\n') || HasCrlf(s[1..])
  {
    if HasCrlf(s[1..]) {
      var i :| 0 <= i < |s[1..]| - 1 && s[1..][i] == '\r' && s[1..][i + 1] == '\n';
      assert s[i + 1] == '\r' && s[i + 1 + 1] == '\n';
    }
    if HasCrlf(s) {
      var i :| 0 <= i < |s| - 1 && s[i] == '\r' && s[i + 1] == '\n';
      assert i > 0 ==> s[1..][i - 1] == '\r' && s[1..][i - 1 + 1] == '\n';
    }
  }

  /** A CRLF lies inside a word, so canonicalising keeps it. */
  lemma {:induction false} CrlfSurvivesSqueeze(after: bool, s: string)
    ensures HasCrlf(Squeeze(after, s)) <==> HasCrlf(s)
    decreases |s|
  {
    if s != [] {
      var t := s[1..];
      HasCrlfCons(s);
      if IsWsp(s[0]) {
        CrlfSurvivesSqueeze(true, t);
        if !after {
          HasCrlfCons(Squeeze(after, s));
          assert Squeeze(after, s)[1..] == Squeeze(true, t);
        } else {
          assert Squeeze(after, s) == Squeeze(true, t);
        }
      } else {
        CrlfSurvivesSqueeze(false, t);
        HasCrlfCons(Squeeze(after, s));
        assert Squeeze(after, s)[1..] == Squeeze(false, t);
      }
    }
  }

  lemma CrlfSurvivesJoin(s: string)
    ensures HasCrlf(Join(Words(s))) <==> HasCrlf(s)
  {
    CrlfSurvivesSqueeze(false, s);
    SqueezeShape(false, s);
    var lead, mid := Lead(false, s), Join(Words(s));
    var trail := if Words(s) == [] then "" else Trail(s);
    assert Squeeze(false, s) == lead + mid + trail;
    HasCrlfConcat(lead + mid, trail);
    if lead == " " {
      HasCrlfCons(lead + mid);
      assert (lead + mid)[1..] == mid;
    } else {
      assert lead + mid == mid;
    }
  }

  /** Canonicalising twice changes nothing exactly when the first unfolding leaves no CRLF behind. */
  lemma {:induction false} IdempotentIff(v: string)
    ensures CanonValue(CanonValue(v)) == CanonValue(v) <==> !HasCrlf(Unfold(v))
  {
    var u := Unfold(v);
    var c := CanonValue(v);
    CrlfSurvivesJoin(u);
    if HasCrlf(u) {
      UnfoldShrinks(c);
      JoinedWordsFit(Unfold(c));
    } else {
      UnfoldWithoutCrlf(c);
      SplitIntoWords("", u);
      WordsOfJoin(Words(u));
    }
  }

  /** Each CR is immediately followed by LF. */
  predicate OnlyCrlf(s: string) {
    forall i :: 0 <= i < |s| && s[i] == '\r' ==> i + 1 < |s| && s[i + 1] == '\n'
  }

  lemma {:induction false} UnfoldOnlyCrlf(s: string)
    requires OnlyCrlf(s)
    ensures '\r' !in Unfold(s)
  {
    if s != [] {
      if s[0] == '\r' {
        assert forall i :: 0 <= i < |s| - 2 ==> s[2..][i] == s[i + 2];
        UnfoldOnlyCrlf(s[2..]);
      } else {
        assert forall i :: 0 <= i < |s| - 1 ==> s[1..][i] == s[i + 1];
        UnfoldOnlyCrlf(s[1..]);
      }
    }
  }

  /** So it is idempotent on every value in which each CR is followed by LF. */
  lemma IdempotentOnFoldedValues(v: string)
    requires OnlyCrlf(v)
    ensures CanonValue(CanonValue(v)) == CanonValue(v)
  {
    UnfoldOnlyCrlf(v);
    IdempotentIff(v);
  }

  /** The bare CR that breaks idempotence: deleting the inner CRLF forms a new one. */
  lemma NestedCrlfIsNotIdempotent()
    ensures CanonValue("\r\r\n\n") == "\r\n"
    ensures CanonValue("\r\n") == ""
  {
    assert Unfold("\r\r\n\n") == ['\r'] + Unfold("\r\n\n") == "\r\n" by {
      assert "\r\r\n\n"[1..] == "\r\n\n";
      assert "\r\n\n"[2..] == "\n";
    }
    assert "\r\n"[1..] == "\n";
    WordsAfterWord("\r\n", []);
    assert Unfold("\r\n") == [];
  }

  // ---------- The passes themselves ----------

  lemma {:induction false} UnfoldKeepsNulFree(s: string)
    requires NUL !in s
    ensures NUL !in Unfold(s)
  {
    if s != [] {
      UnfoldKeepsNulFree(s[1..]);
      if |s| >= 2 {
        UnfoldKeepsNulFree(s[2..]);
      }
    }
  }

  lemma {:induction false} SqueezeKeepsNulFree(after: bool, s: string)
    requires NUL !in s
    ensures NUL !in Squeeze(after, s)
    decreases |s|
  {
    if s != [] {
      SqueezeKeepsNulFree(IsWsp(s[0]), s[1..]);
    }
  }

  lemma UnfoldStep(done: string, s: string, e: nat)
    requires e < |s|
    ensures done + Unfold(s[e..]) ==
            if e + 1 < |s| && s[e] == '\r' && s[e + 1] == '\n' then done + Unfold(s[e + 2..])
            else done + [s[e]] + Unfold(s[e + 1..])
  {
    assert s[e..][1..] == s[e + 1..];
    if e + 1 < |s| {
      assert s[e..][2..] == s[e + 2..];
    }
  }

  predicate AfterWsp(s: string, e: nat)
    requires e <= |s|
  {
    e > 0 && IsWsp(s[e - 1])
  }

  /** What character `e` of the value adds to the collapsed text. */
  function Kept(s: string, e: nat): string
    requires e < |s|
  {
    if !IsWsp(s[e]) then [s[e]] else if AfterWsp(s, e) then [] else " "
  }

  lemma SqueezeStep(done: string, s: string, e: nat)
    requires e < |s|
    ensures done + Squeeze(AfterWsp(s, e), s[e..]) == done + Kept(s, e) + Squeeze(AfterWsp(s, e + 1), s[e + 1..])
  {
    assert s[e..][1..] == s[e + 1..];
  }

  /** The first pass: CRLFs are skipped while the characters kept move down to `newLen`. */
  method UnfoldInPlace(a: array<char>)
    requires NUL in a[..]
    modifies a
    ensures NUL in a[..]
    ensures Text(a[..]) == Unfold(old(Text(a[..])))
  {
    assert Unfold([]) == [];
    hide Unfold;
    var valLen := StrLen(a);
    ghost var s, done := a[..valLen], [];
    var newLen, e := 0, 0;
    while e < valLen
      invariant newLen <= e <= valLen < a.Length
      invariant forall k :: e <= k < a.Length ==> a[k] == old(a[k])
      invariant |done| == newLen && forall k :: 0 <= k < newLen ==> a[k] == done[k]
      invariant done + Unfold(s[e..]) == Unfold(s)
    {
      UnfoldStep(done, s, e);
      if !(a[e] == '\r' && a[e + 1] == '\n') {
        a[newLen] := a[e];
        newLen := newLen + 1;
        done := done + [s[e]];
      } else {
        e := e + 1;
      }
      e := e + 1;
    }
    UnfoldKeepsNulFree(s);
    assert done == Unfold(s);
    Terminate(a, newLen, done);
  }

  /** The second pass: tabs become spaces, and a space after a space is not kept. */
  method CollapseInPlace(a: array<char>)
    requires NUL in a[..]
    modifies a
    ensures NUL in a[..]
    ensures Text(a[..]) == Squeeze(false, old(Text(a[..])))
  {
    assert Squeeze(false, []) == Squeeze(true, []) == [];
    hide Squeeze;
    var valLen := StrLen(a);
    ghost var s, done := a[..valLen], [];
    assert s[0..] == s && s[valLen..] == [];
    var newLen, e := 0, 0;
    while e < valLen
      invariant newLen <= e <= valLen < a.Length
      invariant forall k :: e <= k < a.Length ==> a[k] == old(a[k])
      // the cell the next step looks back at has not been overwritten by the compaction
      invariant e > 0 ==> a[e - 1] == if IsWsp(s[e - 1]) then ' ' else s[e - 1]
      invariant |done| == newLen && forall k :: 0 <= k < newLen ==> a[k] == done[k]
      invariant done + Squeeze(AfterWsp(s, e), s[e..]) == Squeeze(false, s)
    {
      SqueezeStep(done, s, e);
      done := done + Kept(s, e);
      if a[e] == '\t' {
        a[e] := ' ';
      }
      if e > 0 {
        if !(a[e - 1] == ' ' && a[e] == ' ') {
          a[newLen] := a[e];
          newLen := newLen + 1;
        }
      } else {
        a[newLen] := a[e];
        newLen := newLen + 1;
      }
      e := e + 1;
    }
    SqueezeKeepsNulFree(false, s);
    assert done == Squeeze(false, s);
    Terminate(a, newLen, done);
  }

  /** `rtrim`. */
  method RTrimInPlace(a: array<char>)
    requires NUL in a[..]
    modifies a
    ensures NUL in a[..]
    ensures Text(a[..]) == RTrim(old(Text(a[..])))
  {
    var len := StrLen(a);
    ghost var s := a[..len];
    while a[0] != NUL && len != 0
      invariant 0 <= len <= |s| < a.Length
      invariant a[len] == NUL && forall k :: 0 <= k < len ==> a[k] == s[k] != NUL
      invariant RTrimLen(s, len) == RTrimLen(s, |s|)
      decreases len
    {
      var end := len - 1;
      if a[end] == ' ' || a[end] == '\t' {
        a[end] := NUL;
      } else {
        break;
      }
      len := StrLen(a);
    }
    assert a[..len] == RTrim(s);
    assert EndsAt(a[..], len);
  }

  /** `ltrim`. */
  method LTrimCopy(a: array<char>) returns (n: array<char>)
    requires NUL in a[..]
    ensures fresh(n) && NUL in n[..]
    ensures Text(n[..]) == LTrim(Text(a[..]))
  {
    var total := StrLen(a);
    ghost var s := a[..total];
    var start, len := 0, total;
    while a[start] != NUL && len != 0
      invariant start <= total < a.Length && len == total - start
      invariant LTrimAt(s, start) == LTrimAt(s, 0)
      decreases total - start
    {
      if a[start] == ' ' || a[start] == '\t' {
        start := start + 1;
      } else {
        break;
      }
      len := total - start;
    }
    assert a[start..start + len] == s[start..] == LTrim(s);
    n := Copy(a, start, len);
  }

  /** The four passes over one copied header value. */
  method CanonicalValue(value: array<char>) returns (n: array<char>)
    requires NUL in value[..]
    modifies value
    ensures fresh(n) && NUL in n[..]
    ensures Text(n[..]) == CanonValue(old(Text(value[..])))
  {
    UnfoldInPlace(value);
    CollapseInPlace(value);
    RTrimInPlace(value);
    n := LTrimCopy(value);
    TrimmedSqueezeIsWords(Unfold(old(Text(value[..]))));
  }

  // ---------- A whole header list ----------

  /** `tolower` in the C locale. */
  function ToLower(c: char): char {
    if 'A' <= c <= 'Z' then (c as int + 32) as char else c
  }

  /** `d` is the small letter for the capital `c`. */
  predicate IsSmallFor(d: char, c: char) {
    exists k :: 0 <= k < |UPPER| && UPPER[k] == c && LOWER[k] == d
  }

  /** `r` is `s` with each capital turned into the small letter at its place in the alphabet, and every
      other character as it was. */
  ghost predicate IsLowered(s: string, r: string) {
    |r| == |s| && forall i :: 0 <= i < |s| ==> if s[i] in UPPER then IsSmallFor(r[i], s[i]) else r[i] == s[i]
  }

  /** The two alphabets, letter by letter. */
  lemma Alphabets(k: nat)
    requires k < |UPPER|
    ensures |LOWER| == |UPPER| == 26
    ensures UPPER[k] as int == 'A' as int + k && LOWER[k] as int == 'a' as int + k
  {
  }

  lemma InUpperIff(c: char)
    ensures c in UPPER <==> 'A' <= c <= 'Z'
  {
    if 'A' <= c <= 'Z' {
      Alphabets(c as int - 'A' as int);
      assert UPPER[c as int - 'A' as int] == c;
    }
    if c in UPPER {
      var k :| 0 <= k < |UPPER| && UPPER[k] == c;
      Alphabets(k);
    }
  }

  lemma LoweredAt(c: char)
    ensures if c in UPPER then IsSmallFor(ToLower(c), c) else ToLower(c) == c
  {
    InUpperIff(c);
    if c in UPPER {
      var k := c as int - 'A' as int;
      Alphabets(k);
      assert UPPER[k] == c && LOWER[k] == ToLower(c);
    }
  }

  /** The same letter, whatever its case. */
  predicate SameLetter(c: char, d: char) {
    c == d || IsSmallFor(c, d) || IsSmallFor(d, c)
  }

  predicate SameLetters(s: string, t: string) {
    |s| == |t| && forall i :: 0 <= i < |s| ==> SameLetter(s[i], t[i])
  }

  /** What a letter is lowered to, without naming how. */
  lemma LoweredCharacter(c: char, d: char)
    requires if c in UPPER then IsSmallFor(d, c) else d == c
    ensures d !in UPPER && SameLetter(c, d)
    ensures 'A' <= c <= 'Z' ==> d as int == c as int + 32
  {
    InUpperIff(c);
    InUpperIff(d);
    if c in UPPER {
      var k :| 0 <= k < |UPPER| && UPPER[k] == c && LOWER[k] == d;
      Alphabets(k);
    }
  }

  lemma SmallForDistance(d: char, c: char)
    requires IsSmallFor(d, c)
    ensures 'A' <= c <= 'Z' && d as int == c as int + 32
  {
    var k :| 0 <= k < |UPPER| && UPPER[k] == c && LOWER[k] == d;
    Alphabets(k);
  }

  predicate NoCapitals(s: string) {
    forall i :: 0 <= i < |s| ==> !('A' <= s[i] <= 'Z')
  }

  /** No capital is left in a lowered name. */
  lemma NoCapitalsLeft(s: string, r: string)
    requires IsLowered(s, r)
    ensures NoCapitals(r)
  {
    hide SameLetter, IsSmallFor;
    forall i | 0 <= i < |r|
      ensures !('A' <= r[i] <= 'Z')
    {
      LoweredCharacter(s[i], r[i]);
      InUpperIff(r[i]);
    }
  }

  /** Two names have the same lowered form exactly if they differ in the case of ASCII letters only. */
  lemma LoweredAlikeIff(s: string, r: string, s': string, r': string)
    requires IsLowered(s, r) && IsLowered(s', r')
    ensures r == r' <==> SameLetters(s, s')
  {
    hide SameLetter, IsSmallFor;
    forall i | 0 <= i < |s| && |s| == |s'|
      ensures r[i] == r'[i] <==> SameLetter(s[i], s'[i])
    {
      LetterAlikeIff(s[i], r[i], s'[i], r'[i]);
    }
    if r == r' {
      assert |s| == |s'| && forall i :: 0 <= i < |s| ==> r[i] == r'[i];
    }
  }

  lemma LetterAlikeIff(c: char, d: char, c': char, d': char)
    requires if c in UPPER then IsSmallFor(d, c) else d == c
    requires if c' in UPPER then IsSmallFor(d', c') else d' == c'
    ensures d == d' <==> SameLetter(c, c')
  {
    hide IsSmallFor;
    LoweredCharacter(c, d);
    LoweredCharacter(c', d');
    InUpperIff(c);
    InUpperIff(c');
    if IsSmallFor(c, c') {
      SmallForDistance(c, c');
    }
    if IsSmallFor(c', c) {
      SmallForDistance(c', c);
    }
    if d == d' && c != c' {
      assert c in UPPER || c' in UPPER;
    }
  }

  /** The pass that lowers the header names. */
  method LowerInPlace(key: array<char>)
    requires NUL in key[..]
    modifies key
    ensures NUL in key[..]
    ensures IsLowered(old(Text(key[..])), Text(key[..]))
  {
    hide IsSmallFor;
    var keyLen := StrLen(key);
    for e := 0 to keyLen
      invariant forall k :: 0 <= k < e ==> key[k] == ToLower(old(key[k]))
      invariant forall k :: e <= k < key.Length ==> key[k] == old(key[k])
    {
      key[e] := ToLower(key[e]);
    }
    assert EndsAt(key[..], keyLen);
    forall i | 0 <= i < keyLen
      ensures var c := old(key[i]); if c in UPPER then IsSmallFor(key[i], c) else key[i] == c
    {
      LoweredAt(old(key[i]));
    }
  }

  /** A header: two C strings. */
  datatype StringPair = StringPair(key: array<char>, value: array<char>)

  ghost predicate Readable(p: StringPair)
    reads p.key, p.value
  {
    NUL in p.key[..] && NUL in p.value[..]
  }

  /** `canon` is the relaxed form of the header `p`. */
  ghost predicate IsRelaxed(p: StringPair, canon: StringPair)
    requires Readable(p) && Readable(canon)
    reads p.key, p.value, canon.key, canon.value
  {
    && IsLowered(Text(p.key[..]), Text(canon.key[..]))
    && Text(canon.value[..]) == CanonValue(Text(p.value[..]))
  }

  /** Two headers have the same relaxed form exactly if their names differ in case only and their values,
      unfolded, have the same words. */
  lemma RelaxedAlikeIff(p: StringPair, canon: StringPair, p': StringPair, canon': StringPair)
    requires Readable(p) && Readable(canon) && IsRelaxed(p, canon)
    requires Readable(p') && Readable(canon') && IsRelaxed(p', canon')
    ensures Text(canon.key[..]) == Text(canon'.key[..]) && Text(canon.value[..]) == Text(canon'.value[..]) <==>
            && SameLetters(Text(p.key[..]), Text(p'.key[..]))
            && Words(Unfold(Text(p.value[..]))) == Words(Unfold(Text(p'.value[..])))
  {
    LoweredAlikeIff(Text(p.key[..]), Text(canon.key[..]), Text(p'.key[..]), Text(canon'.key[..]));
    SameCanonIffSameWords(Text(p.value[..]), Text(p'.value[..]));
  }

  /** The relaxed copy of one header, leaving the header itself alone. */
  method RelaxHeader(p: StringPair) returns (canon: StringPair)
    requires Readable(p)
    ensures fresh(canon.key) && fresh(canon.value)
    ensures Readable(canon) && IsRelaxed(p, canon)
    ensures NoCapitals(Text(canon.key[..]))
  {
    hide IsLowered, CanonValue;
    var keyLen := StrLen(p.key);
    var valLen := StrLen(p.value);
    var key := Copy(p.key, 0, keyLen);
    var value := Copy(p.value, 0, valLen);
    LowerInPlace(key);
    NoCapitalsLeft(Text(p.key[..]), Text(key[..]));
    var trimmed := CanonicalValue(value);
    canon := StringPair(key, trimmed);
  }

  /** `relaxed_header_canon`: the relaxed copies of all headers, in order. */
  method RelaxedHeaderCanon(headers: seq<StringPair>) returns (canon: seq<StringPair>)
    requires forall p :: p in headers ==> Readable(p)
    ensures |canon| == |headers|
    ensures forall i :: 0 <= i < |canon| ==> fresh(canon[i].key) && fresh(canon[i].value)
    ensures forall i :: 0 <= i < |canon| ==>
              Readable(canon[i]) && IsRelaxed(headers[i], canon[i]) && NoCapitals(Text(canon[i].key[..]))
  {
    hide IsLowered, CanonValue, NoCapitals;
    canon := [];
    for i := 0 to |headers|
      invariant |canon| == i
      invariant forall j :: 0 <= j < i ==> fresh(canon[j].key) && fresh(canon[j].value)
      invariant forall j :: 0 <= j < i ==>
                  Readable(canon[j]) && IsRelaxed(headers[j], canon[j]) && NoCapitals(Text(canon[j].key[..]))
    {
      var c := RelaxHeader(headers[i]);
      canon := canon + [c];
    }
  }
}
