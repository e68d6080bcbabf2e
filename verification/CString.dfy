/** NUL-terminated character buffers, the form in which every C string of the program is held. */
module CString {
  const NUL: char := '\0'
  const CRLF: string := "\r\n"

  const UPPER: string := "ABCDEFGHIJKLMNOPQRSTUVWXYZ"
  const LOWER: string := "abcdefghijklmnopqrstuvwxyz"

  /** The WSP of RFC 4871: space or horizontal tab. */
  predicate IsWsp(c: char) {
    c == ' ' || c == '\t'
  }

  predicate IsLineBreak(c: char) {
    c == '\r' || c == '\n'
  }

  /** `n` is the index of the first NUL. */
  ghost predicate EndsAt(buf: seq<char>, n: nat) {
    n < |buf| && buf[n] == NUL && forall k :: 0 <= k < n ==> buf[k] != NUL
  }

  lemma {:induction false} HasEnd(buf: seq<char>)
    requires NUL in buf
    ensures exists n: nat :: EndsAt(buf, n)
  {
    if buf[0] == NUL {
      assert EndsAt(buf, 0);
    } else {
      assert buf == [buf[0]] + buf[1..];
      HasEnd(buf[1..]);
      var n: nat :| EndsAt(buf[1..], n);
      assert EndsAt(buf, n + 1);
    }
  }

  /** The string a buffer holds: everything before its first NUL. */
  ghost function Text(buf: seq<char>): (s: string)
    requires NUL in buf
    ensures EndsAt(buf, |s|) && s == buf[..|s|]
  {
    HasEnd(buf);
    var n: nat :| EndsAt(buf, n);
    buf[..n]
  }

  /** `part` stands in `s` at index `i`. */
  predicate At(s: string, i: nat, part: string) {
    i + |part| <= |s| && forall k :: 0 <= k < |part| ==> s[i + k] == part[k]
  }

  lemma AtSplit(s: string, i: nat, a: string, b: string)
    ensures At(s, i, a + b) <==> At(s, i, a) && At(s, i + |a|, b)
  {
    var ab := a + b;
    if At(s, i, ab) {
      assert forall k :: 0 <= k < |a| ==> ab[k] == a[k];
      forall k | 0 <= k < |b|
        ensures s[i + |a| + k] == b[k]
      {
        assert ab[|a| + k] == b[k];
      }
    }
  }

  lemma WholeAt(s: string)
    ensures At(s, 0, s)
  {
  }

  lemma AtFits(s: string, i: nat, part: string)
    requires At(s, i, part)
    ensures i + |part| <= |s| && (part != [] ==> s[i] == part[0])
  {
    assert part != [] ==> s[i + 0] == part[0];
  }

  lemma Assoc<T>(a: seq<T>, b: seq<T>, c: seq<T>)
    ensures a + (b + c) == a + b + c
  {
  }

  lemma AssocTwice(a: string, b: string, c: string, d: string)
    ensures a + b + c + d == a + (b + c + d)
  {
  }

  method StrLen(a: array<char>) returns (n: nat)
    requires NUL in a[..]
    ensures EndsAt(a[..], n) && Text(a[..]) == a[..n]
  {
    n := 0;
    while a[n] != NUL
      invariant n < a.Length
      invariant forall k :: 0 <= k < n ==> a[k] != NUL
      decreases a.Length - n
    {
      assert a[..] == a[..n + 1] + a[n + 1..];
      n := n + 1;
    }
  }

  /** `a` starts with `text`. */
  ghost predicate Holds(a: array<char>, text: string)
    reads a
  {
    |text| <= a.Length && forall k :: 0 <= k < |text| ==> a[k] == text[k]
  }

  /** End the string that `a` starts with. */
  method Terminate(a: array<char>, n: nat, ghost text: string)
    requires Holds(a, text) && n == |text| < a.Length && NUL !in text
    modifies a
    ensures NUL in a[..] && Text(a[..]) == text
  {
    a[n] := NUL;
    assert a[..n] == text;
    assert EndsAt(a[..], n);
  }

  /** A fresh string holding `len` characters of `a` from index `from`. */
  method Copy(a: array<char>, from: nat, len: nat) returns (n: array<char>)
    requires from + len <= a.Length && forall k :: from <= k < from + len ==> a[k] != NUL
    ensures fresh(n) && n.Length == len + 1 && NUL in n[..]
    ensures Text(n[..]) == n[..len] == a[from..from + len]
  {
    n := new char[len + 1];
    for k := 0 to len
      invariant forall j :: 0 <= j < k ==> n[j] == a[from + j]
    {
      n[k] := a[from + k];
    }
    n[len] := NUL;
    assert forall k :: 0 <= k < len ==> n[..][k] == a[from + k];
    assert EndsAt(n[..], len);
    assert n[..len] == a[from..from + len];
  }
}
