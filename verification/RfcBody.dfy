/** The relaxed body canonicalisation of section 3.4.4 of RFC 4871, written from the front of the body and
    in terms of words; in the reading that a bare LF ends a line too and that a body with nothing left is
    a single CRLF. */
module RfcBody {
  import opened CString
  import H = HeaderCanon

  /** The lines of `run + s`, where `run` is the part of a line that `s` goes on from. */
  function Lines(run: string, s: string): seq<string>
    decreases |s|
  {
    if s == [] then (if run == [] then [] else [run])
    else if s[0] == '\n' then [run] + Lines([], s[1..])
    else if |s| >= 2 && s[..2] == CRLF then [run] + Lines([], s[2..])
    else Lines(run + [s[0]], s[1..])
  }

  /** Reduce WSP within a line to single spaces and ignore it at the end. */
  function Reduced(line: string): string {
    var words := H.Words(line);
    (if words != [] && line != [] && IsWsp(line[0]) then " " else "") + H.Join(words)
  }

  function AllReduced(lines: seq<string>): (r: seq<string>)
    ensures |r| == |lines| && forall k :: 0 <= k < |r| ==> r[k] == Reduced(lines[k])
  {
    if lines == [] then [] else [Reduced(lines[0])] + AllReduced(lines[1..])
  }

  /** Ignore the empty lines at the end. */
  function DropEmptyEnd(lines: seq<string>): seq<string> {
    if lines != [] && lines[|lines| - 1] == [] then DropEmptyEnd(lines[..|lines| - 1]) else lines
  }

  /** End each line with CRLF. */
  function Ended(lines: seq<string>): string {
    if lines == [] then [] else lines[0] + CRLF + Ended(lines[1..])
  }

  function RelaxedBody(body: string): string {
    var kept := DropEmptyEnd(AllReduced(Lines([], body)));
    if kept == [] then CRLF else Ended(kept)
  }
}
