/** What the mail parser's way of unfolding, which drops the WSP with the line break, does to a value
    before it is canonicalised. */
module HeaderFold {
  import opened CString
  import H = HeaderCanon
  import M = MailParser

  /** Two words that meet become one. */
  lemma {:induction false} WordsMeet(run: string, x: string, y: string)
    requires y != [] && !IsWsp(y[0]) && (if x == [] then run != [] else !IsWsp(x[|x| - 1]))
    ensures |H.Split(run, x + y)| + 1 == |H.Split(run, x)| + |H.Words(y)|
    decreases |x|
  {
    if x == [] {
      assert [] + y == y;
      H.RunCount(run, [], y);
    } else {
      var c, rest := x[0], x[1..];
      assert x == [c] + rest && x + y == [c] + (rest + y);
      H.SplitFront(run, c, rest + y);
      H.SplitFront(run, c, rest);
      WordsMeet(if IsWsp(c) then [] else run + [c], rest, y);
    }
  }

  /** Where no two words meet, the words of the parts are those of the whole. */
  lemma WordsApart(x: string, y: string)
    requires x == [] || y == [] || IsWsp(x[|x| - 1]) || IsWsp(y[0])
    ensures H.Words(x + y) == H.Words(x) + H.Words(y)
  {
    if x == [] {
      assert [] + y == y;
    } else if y == [] {
      assert x + [] == x;
    } else if IsWsp(y[0]) {
      assert x + y == x + [y[0]] + y[1..] && y == [] + [y[0]] + y[1..];
      H.SplitAtWsp([], x, y[0], y[1..]);
      H.SplitAtWsp([], [], y[0], y[1..]);
    } else {
      var init, last := x[..|x| - 1], x[|x| - 1];
      assert x == init + [last] + [] && x + y == init + [last] + y;
      H.SplitAtWsp([], init, last, y);
      H.SplitAtWsp([], init, last, []);
    }
  }

  lemma {:induction false} UnfoldAtFold(x: string, w: char, y: string)
    requires '\r' !in x && '\r' !in y && IsWsp(w)
    ensures H.Unfold(x + CRLF + [w] + y) == x + [w] + y
    decreases |x|
  {
    if x == [] {
      assert [] + CRLF + [w] + y == CRLF + ([w] + y) && (CRLF + ([w] + y))[2..] == [w] + y;
      H.UnfoldWithoutCrlf([w] + y);
    } else {
      assert (x + CRLF + [w] + y)[1..] == x[1..] + CRLF + [w] + y;
      UnfoldAtFold(x[1..], w, y);
      assert [x[0]] + (x[1..] + [w] + y) == x + [w] + y;
    }
  }

  /** Dropping a fold with its WSP keeps the canonical form exactly if the fold stands at an end of the
      value or beside other WSP; between two words it joins them. */
  lemma DroppedFoldKeepsCanonIff(x: string, w: char, y: string)
    requires '\r' !in x && '\r' !in y && IsWsp(w)
    ensures H.CanonValue(x + y) == H.CanonValue(x + CRLF + [w] + y) <==>
            x == [] || y == [] || IsWsp(x[|x| - 1]) || IsWsp(y[0])
  {
    UnfoldAtFold(x, w, y);
    H.UnfoldWithoutCrlf(x + y);
    H.SameCanonIffSameWords(x + y, x + CRLF + [w] + y);
    H.SplitAtWsp([], x, w, y);
    if x == [] || y == [] || IsWsp(x[|x| - 1]) || IsWsp(y[0]) {
      WordsApart(x, y);
    } else {
      WordsMeet([], x, y);
    }
  }

  lemma PartsWithoutCr(hs: seq<M.Header>, n: nat, k: nat)
    requires M.Good(hs) && n < |hs| && k <= |hs[n].value|
    ensures '\r' !in hs[n].value[..k] && '\r' !in hs[n].value[k..]
  {
    assert M.GoodValue(hs[n].value);
  }

  /** So a signature over a folded header survives the parser exactly if its folds do: the buffer of the
      header folded at `k` holds a value with the canonical form of the folded text if and only if no two
      words meet there. */
  lemma FoldedHeaderSignedAlikeIff(hs: seq<M.Header>, rest: string, n: nat, k: nat, w: char,
      keys: seq<string>, values: seq<string>)
    requires M.Good(hs) && M.EndInLf(hs) && n < |hs| <= M.HEADER_MAX_LEN && k <= |hs[n].value| && IsWsp(w)
    requires M.Sized(M.Fresh(keys, values)) && (rest == [] || !IsWsp(rest[0]))
    requires |hs[n].value| < M.VALUE_MAX_LEN && NUL !in hs[n].value
    ensures var data, pos := M.PrintMail(hs, rest), |M.PrintHeaders(hs[..n])| + |hs[n].key| + 2 + k;
            var v := hs[n].value;
            && pos <= |data|
            && var p := M.Run(data[..pos] + ['\r', '\n', w] + data[pos..], 0, M.Fresh(keys, values)).0;
               M.IsString(p.values[n], v) &&
               (H.CanonValue(v) == H.CanonValue(v[..k] + CRLF + [w] + v[k..]) <==>
                  k == 0 || k == |v| || IsWsp(v[k - 1]) || IsWsp(v[k]))
  {
    hide M.Run, M.PrintMail, M.PrintHeaders, M.Without, M.Good, H.CanonValue;
    var v := hs[n].value;
    M.FoldedMailParsesAlike(hs, rest, n, k, w, keys, values);
    M.RoundTrip(hs, rest, keys, values);
    assert v[..|v|] == v;
    M.NothingDropped(v, |v|, {NUL});
    assert v == v[..k] + v[k..];
    PartsWithoutCr(hs, n, k);
    DroppedFoldKeepsCanonIff(v[..k], w, v[k..]);
  }
}
