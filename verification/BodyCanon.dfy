/** The "relaxed" body canonicalisation. */
module BodyCanon {
  import opened CString
  import H = HeaderCanon

  // ---------- What the code computes ----------

  /** The index of the first LF at or after `i`, or the length. */
  function LfFrom(s: string, i: nat): (k: nat)
    requires i <= |s|
    ensures i <= k <= |s|
    ensures k < |s| ==> s[k] == '\n'
    ensures forall j :: i <= j < k ==> s[j] != '\n'
    decreases |s| - i
  {
    if i == |s| || s[i] == '\n' then i else LfFrom(s, i + 1)
  }

  /** A line without the CR of its CRLF. */
  function DropCr(line: string): string {
    if line != [] && line[|line| - 1] == '\r' then line[..|line| - 1] else line
  }

  /** The lines from index `i` on: each ends at an LF or CRLF, a last one may end the body. */
  function LinesFrom(s: string, i: nat): seq<string>
    requires i <= |s|
    decreases |s| - i
  {
    var k := LfFrom(s, i);
    if i == |s| then []
    else if k == |s| then [s[i..]]
    else [DropCr(s[i..k])] + LinesFrom(s, k + 1)
  }

  function CanonLine(line: string): string {
    H.Squeeze(false, H.RTrim(line))
  }

  /** The lines in canonical form, each ended by CRLF. */
  function Output(lines: seq<string>): string {
    if lines == [] then [] else CanonLine(lines[0]) + CRLF + Output(lines[1..])
  }

  function StripLen(s: string, n: nat): (r: nat)
    requires n <= |s|
    ensures r <= n
    ensures r > 0 ==> !IsLineBreak(s[r - 1])
    ensures forall i :: r <= i < n ==> IsLineBreak(s[i])
  {
    if n > 0 && IsLineBreak(s[n - 1]) then StripLen(s, n - 1) else n
  }

  /** Without its trailing CRs and LFs. */
  function Strip(s: string): string {
    s[..StripLen(s, |s|)]
  }

  function CanonText(lines: seq<string>): string {
    Strip(Output(lines)) + CRLF
  }

  /** What `relaxed_body_canon` returns, for every body. */
  function CanonBody(body: string): string {
    CanonText(LinesFrom(body, 0))
  }

  // ---------- The code ----------

  /** `relaxed_body_canon_line`: trim and collapse one line in place. */
  method CanonLineInPlace(line: array<char>)
    requires NUL in line[..]
    modifies line
    ensures NUL in line[..]
    ensures Text(line[..]) == CanonLine(old(Text(line[..])))
  {
    H.RTrimInPlace(line);
    H.CollapseInPlace(line);
  }

  /** `rtrim_lines`. */
  method StripInPlace(a: array<char>)
    requires NUL in a[..]
    modifies a
    ensures NUL in a[..]
    ensures Text(a[..]) == Strip(old(Text(a[..])))
  {
    var len := StrLen(a);
    ghost var s := a[..len];
    while a[0] != NUL && len != 0
      invariant 0 <= len <= |s| < a.Length
      invariant a[len] == NUL && forall k :: 0 <= k < len ==> a[k] == s[k] != NUL
      invariant StripLen(s, len) == StripLen(s, |s|)
      decreases len
    {
      var end := len - 1;
      if a[end] == '\r' || a[end] == '\n' {
        a[end] := NUL;
      } else {
        break;
      }
      len := StrLen(a);
    }
    assert a[..len] == Strip(s);
    assert EndsAt(a[..], len);
  }

  ghost predicate EmittedUpTo(s: string, done: seq<string>, offset: nat) {
    offset <= |s| && done + LinesFrom(s, offset) == LinesFrom(s, 0)
  }

  lemma {:induction false} OutputSnoc(lines: seq<string>, line: string)
    ensures Output(lines + [line]) == Output(lines) + CanonLine(line) + CRLF
  {
    if lines == [] {
      assert [line][1..] == [];
    } else {
      assert (lines + [line])[1..] == lines[1..] + [line];
      OutputSnoc(lines[1..], line);
    }
  }

  lemma {:induction false} SplitLine(s: string, done: seq<string>, offset: nat, i: nat, line: string)
    requires EmittedUpTo(s, done, offset)
    requires offset <= i < |s| && LfFrom(s, offset) == i
    requires line == DropCr(s[offset..i])
    ensures EmittedUpTo(s, done + [line], i + 1)
  {
    assert done + ([line] + LinesFrom(s, i + 1)) == done + [line] + LinesFrom(s, i + 1);
  }

  /** `memcpy (out+outLen, line, lineLen)`. */
  method AppendText(line: array<char>, lineLen: nat, out: array<char>, outLen: nat,
        ghost text: string, ghost add: string)
    requires line != out && lineLen == |add| && Holds(line, add)
    requires outLen == |text| && Holds(out, text) && outLen + lineLen <= out.Length
    modifies out
    ensures Holds(out, text + add)
  {
    for k := 0 to lineLen
      invariant Holds(line, add)
      invariant Holds(out, text + add[..k])
    {
      out[outLen + k] := line[k];
    }
    assert add[..lineLen] == add;
  }

  /** Canonicalise the line `body[from..to]` and append it and a CRLF to `out`, which holds `text`. */
  method AppendLine(body: array<char>, from: nat, to: nat, out: array<char>, outLen: nat,
        ghost line: string, ghost text: string)
      returns (newLen: nat)
    requires from <= to <= body.Length && body != out && line == body[from..to] && NUL !in line
    requires Holds(out, text) && outLen == |text|
    requires outLen + |line| + 2 <= out.Length
    modifies out
    ensures Holds(out, text + CanonLine(line) + CRLF)
    ensures newLen == |text + CanonLine(line) + CRLF| <= outLen + |line| + 2
  {
    hide CanonLine;
    var l := Copy(body, from, to - from);
    CanonLineInPlace(l);
    var lineLen := StrLen(l);
    ghost var canon := l[..lineLen];
    AppendText(l, lineLen, out, outLen, text, canon);
    out[outLen + lineLen] := '\r';
    out[outLen + lineLen + 1] := '\n';
    newLen := outLen + lineLen + 2;
  }

  /** The body of the splitting loop at the LF `body[i]`: step back over a CR, emit the line, step forward again. */
  method EndLine(body: array<char>, ghost s: string, offset: nat, i0: nat, out: array<char>, outLen: nat,
        ghost text: string)
      returns (i: nat, newLen: nat, ghost line: string)
    requires body != out && Holds(body, s) && NUL !in s
    requires offset <= i0 < |s| && s[i0] == '\n'
    requires offset > 0 ==> s[offset - 1] == '\n'
    requires Holds(out, text) && outLen == |text|
    requires outLen + (i0 - offset) + 2 <= out.Length
    modifies out
    ensures i == i0 && line == DropCr(s[offset..i0])
    ensures Holds(out, text + CanonLine(line) + CRLF)
    ensures newLen == |text + CanonLine(line) + CRLF| <= outLen + (i0 - offset) + 2
  {
    hide CanonLine, LfFrom;
    i := i0;
    var isR := false;
    if i > 0 {
      assert body[i - 1] == s[i - 1];
      if body[i - 1] == '\r' {
        i := i - 1;
        isR := true;
      }
    }
    assert offset <= i;
    line := s[offset..i];
    assert line == body[offset..i];
    newLen := AppendLine(body, offset, i, out, outLen, line, text);
    if isR {
      i := i + 1;
    }
  }

  lemma {:induction false} OutputEnd(lines: seq<string>)
    requires lines != []
    ensures |Output(lines)| >= 2 && Output(lines)[|Output(lines)| - 1] == '\n'
  {
    if |lines| > 1 {
      OutputEnd(lines[1..]);
    }
  }

  lemma {:induction false} LinesAreNulFree(s: string, i: nat)
    requires NUL !in s && i <= |s|
    ensures forall l :: l in LinesFrom(s, i) ==> NUL !in l
    decreases |s| - i
  {
    var k := LfFrom(s, i);
    if k < |s| {
      LinesAreNulFree(s, k + 1);
    }
  }

  lemma {:induction false} OutputIsNulFree(lines: seq<string>)
    requires forall l :: l in lines ==> NUL !in l
    ensures NUL !in Output(lines)
  {
    if lines != [] {
      assert NUL !in lines[0];
      assert forall c :: c in H.RTrim(lines[0]) ==> c in lines[0];
      H.SqueezeKeepsNulFree(false, H.RTrim(lines[0]));
      OutputIsNulFree(lines[1..]);
    }
  }

  /** The splitting loop: everything up to the last LF is emitted, `done` being its lines. */
  method EmitLines(body: array<char>, bodyLen: nat, ghost s: string, newBody: array<char>)
      returns (newBodyLen: nat, offset: nat, ghost done: seq<string>)
    requires body != newBody && Holds(body, s) && bodyLen == |s| && NUL !in s
    requires newBody.Length == 2 * bodyLen + 3
    modifies newBody
    ensures EmittedUpTo(s, done, offset) && LfFrom(s, offset) == |s|
    ensures newBodyLen == |Output(done)| <= 2 * offset
    ensures Holds(newBody, Output(done))
  {
    hide CanonLine, DropCr, LinesFrom;
    var i := 0;
    newBodyLen, offset, done := 0, 0, [];
    while i < bodyLen
      invariant 0 <= offset <= i <= bodyLen
      invariant offset > 0 ==> s[offset - 1] == '\n'
      invariant LfFrom(s, offset) == LfFrom(s, i)
      invariant EmittedUpTo(s, done, offset)
      invariant newBodyLen == |Output(done)| <= 2 * offset
      invariant Holds(newBody, Output(done))
    {
      if body[i] == '\n' {
        ghost var line;
        i, newBodyLen, line := EndLine(body, s, offset, i, newBody, newBodyLen, Output(done));
        OutputSnoc(done, line);
        SplitLine(s, done, offset, i, line);
        done := done + [line];
        offset := i + 1;
      }
      i := i + 1;
    }
  }

  /** The end of `relaxed_body_canon`: drop the trailing empty lines, put one CRLF back. */
  method FinishBody(a: array<char>, ghost text: string, len: nat)
    requires Holds(a, text) && NUL !in text && len == |text|
    requires text != [] ==> text[|text| - 1] == '\n'
    requires len + 1 < a.Length && a.Length > 2
    modifies a
    ensures NUL in a[..] && Text(a[..]) == Strip(text) + CRLF
  {
    Terminate(a, len, text);
    StripInPlace(a);
    var newLen := StrLen(a);
    a[newLen] := '\r';
    a[newLen + 1] := '\n';
    newLen := newLen + 2;
    assert a[..newLen] == Strip(text) + CRLF;
    Terminate(a, newLen, Strip(text) + CRLF);
  }

  /** `relaxed_body_canon`: every write lands in the `2 * bodyLen + 3` cells allocated for the result. */
  method RelaxedBodyCanon(body: array<char>) returns (newBody: array<char>)
    requires NUL in body[..]
    ensures fresh(newBody) && newBody.Length == 2 * |Text(body[..])| + 3
    ensures NUL in newBody[..] && Text(newBody[..]) == CanonBody(Text(body[..]))
  {
    var bodyLen := StrLen(body);
    ghost var s, done := body[..bodyLen], [];
    newBody := new char[2 * bodyLen + 3];
    var newBodyLen, offset;
    newBodyLen, offset, done := EmitLines(body, bodyLen, s, newBody);
    if offset < bodyLen {
      ghost var line := s[offset..];
      assert line == body[offset..bodyLen];
      OutputSnoc(done, line);
      newBodyLen := AppendLine(body, offset, bodyLen, newBody, newBodyLen, line, Output(done));
      done := done + [line];
    }
    assert done == LinesFrom(s, 0);
    LinesAreNulFree(s, 0);
    OutputIsNulFree(done);
    if done != [] {
      OutputEnd(done);
    }
    FinishBody(newBody, Output(done), newBodyLen);
  }
}
