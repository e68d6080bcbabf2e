/** The request object of a connection: the message bytes it collects and the headers parsed from them. */
module Request {
  import opened CString
  import opened DataPhase
  import M = MailParser

  /** `strncmp (data+i, pattern, strlen(pattern)) == 0`, for text that ends at `len`. */
  predicate Matches(buf: array<char>, i: nat, len: nat, pattern: string)
    requires len <= buf.Length
    reads buf
  {
    i + |pattern| <= len && buf[i..i + |pattern|] == pattern
  }

  lemma MatchesIsAt(buf: array<char>, i: nat, text: string, pattern: string)
    requires Holds(buf, text)
    ensures Matches(buf, i, |text|, pattern) <==> At(text, i, pattern)
  {
    if At(text, i, pattern) {
      assert forall k :: 0 <= k < |pattern| ==> buf[i..i + |pattern|][k] == text[i + k] == pattern[k];
    }
    if Matches(buf, i, |text|, pattern) {
      assert forall k :: 0 <= k < |pattern| ==> pattern[k] == buf[i..i + |pattern|][k] == text[i + k];
    }
  }

  class Request {
    var data: array?<char>
    var dataAlloc: int
    var dataLen: int
    var inData: bool
    var quit: bool
    var process: bool

    const keys: array2<char>
    const values: array2<char>
    var headerCount: int
    var body: array?<char>
    var bodyLen: int

    /** The bytes stored so far. */
    ghost function Stored(): string
      requires data == null ==> dataLen == 0
      requires data != null ==> 0 <= dataLen <= data.Length
      reads this, data
    {
      if data == null then [] else data[..dataLen]
    }

    ghost predicate Valid()
      reads this, data
    {
      && (if data == null then dataAlloc == 0 && dataLen == 0
          else data.Length == dataAlloc && 0 <= dataLen <= dataAlloc)
      && keys != values
      && keys.Length0 == M.HEADER_MAX_LEN && keys.Length1 == M.KEY_MAX_LEN
      && values.Length0 == M.HEADER_MAX_LEN && values.Length1 == M.VALUE_MAX_LEN
    }

    /** The request as the specification of the collector sees it. */
    ghost function Collected(reply: string, tooBig: bool): Collect
      requires Valid()
      reads this, data
    {
      Collect(Stored(), inData, quit, process, reply, tooBig)
    }

    /** `request_init`: the header buffers hold whatever `malloc` left there. */
    constructor ()
      ensures Valid() && fresh(keys) && fresh(values) && data == null && body == null && bodyLen == 0
      ensures !inData && !quit && !process && headerCount == 0
    {
      data, dataAlloc, dataLen := null, 0, 0;
      inData, quit, process := false, false, false;
      keys := new char[M.HEADER_MAX_LEN, M.KEY_MAX_LEN];
      values := new char[M.HEADER_MAX_LEN, M.VALUE_MAX_LEN];
      headerCount, body, bodyLen := 0, null, 0;
    }

    /** Make room for the next byte: grow by 512 bytes when fewer than three are left. */
    method Reserve()
      requires Valid()
      modifies this`data, this`dataAlloc
      ensures Valid() && data != null && dataLen < dataAlloc && Stored() == old(Stored())
      ensures data == old(data) || fresh(data)
    {
      if dataLen + 2 >= dataAlloc {
        dataAlloc := dataLen + 512;
        var tmp := new char[dataAlloc];
        if data != null {
          forall k | 0 <= k < dataLen {
            tmp[k] := data[k];
          }
          assert tmp[..dataLen] == data[..dataLen];
        }
        data := tmp;
      }
    }

    /** The DATA branch for one byte. */
    method StoreByte(cur: char, limit: int, ghost st: Collect, reply0: string) returns (tooBig: bool, reply: string)
      requires Valid() && inData && st == Collected(reply0, false)
      modifies this`data, this`dataAlloc, this`dataLen, this`inData, this`quit, this`process, data
      ensures Valid() && (data == old(data) || fresh(data))
      ensures Collected(reply, tooBig) == Store(st, cur, limit)
    {
      tooBig, reply := false, reply0;
      Reserve();
      if dataLen < limit {
        data[dataLen] := cur;
        dataLen := dataLen + 1;
        assert data[..dataLen] == st.stored + [cur];
        if dataLen > 4 {
          assert data[dataLen - 5..dataLen] == (st.stored + [cur])[dataLen - 5..];
          if data[dataLen - 5..dataLen] == TERMINATOR {
            reply := reply + QUEUED_REPLY;
            data[dataLen - 5] := NUL;
            inData := false;
            process := true;
            quit := true;
          }
        }
      } else {
        tooBig := true;
      }
    }

    /** The command branch for the position `i`; `skip` is what the index jumps over. */
    method ReadCommand(buf: array<char>, i: nat, len: nat, ghost text: string, ghost st: Collect, reply0: string)
        returns (reply: string, skip: nat)
      requires Valid() && !inData && st == Collected(reply0, false)
      requires i < len == |text| && Holds(buf, text)
      modifies this`inData, this`quit
      ensures Valid() && (Collected(reply, false), skip + 1) == Command(st, text, i)
    {
      reply, skip := reply0, 0;
      MatchesIsAt(buf, i, text, "DATA\r\n");
      MatchesIsAt(buf, i, text, "EHLO");
      MatchesIsAt(buf, i, text, "MAIL FROM:");
      MatchesIsAt(buf, i, text, "RCPT TO:");
      MatchesIsAt(buf, i, text, "QUIT");
      if Matches(buf, i, len, "DATA\r\n") {
        reply := reply + DATA_REPLY;
        inData := true;
        skip := 5;
      } else if Matches(buf, i, len, "EHLO") {
        reply := reply + EHLO_REPLY;
      } else if Matches(buf, i, len, "MAIL FROM:") {
        reply := reply + OK_REPLY;
      } else if Matches(buf, i, len, "RCPT TO:") {
        reply := reply + OK_REPLY;
      } else if Matches(buf, i, len, "QUIT") {
        reply := reply + QUIT_REPLY;
        quit := true;
      }
    }

    /** `request_parse_commands`: the whole read buffer, up to an error. */
    method ParseCommands(buf: array<char>, len: nat, ghost text: string, limit: int)
        returns (tooBig: bool, reply: string)
      requires Valid() && len == |text| && Holds(buf, text) && buf != data
      modifies this`data, this`dataAlloc, this`dataLen, this`inData, this`quit, this`process, data
      ensures Valid() && (data == old(data) || fresh(data))
      ensures Collected(reply, tooBig) == Feed(old(Collected("", false)), text, 0, limit)
    {
      hide Command, Store;
      ghost var st0 := Collected("", false);
      tooBig, reply := false, "";
      var i := 0;
      while i < len && !tooBig
        invariant 0 <= i <= len && Valid() && (data == old(data) || fresh(data)) && Holds(buf, text) && buf != data
        invariant Feed(Collected(reply, tooBig), text, i, limit) == Feed(st0, text, 0, limit)
      {
        ghost var st := Collected(reply, tooBig);
        if !inData {
          var skip;
          reply, skip := ReadCommand(buf, i, len, text, st, reply);
          i := i + skip;
        } else {
          tooBig, reply := StoreByte(buf[i], limit, st, reply);
        }
        i := i + 1;
      }
    }

    // ---------- Parsing the stored message ----------

    ghost function KeyRows(): seq<string>
      requires keys.Length0 == M.HEADER_MAX_LEN && keys.Length1 == M.KEY_MAX_LEN
      reads keys
    {
      seq(M.HEADER_MAX_LEN, k requires 0 <= k < M.HEADER_MAX_LEN reads keys =>
        seq(M.KEY_MAX_LEN, j requires 0 <= j < M.KEY_MAX_LEN reads keys => keys[k, j]))
    }

    ghost function ValueRows(): seq<string>
      requires values.Length0 == M.HEADER_MAX_LEN && values.Length1 == M.VALUE_MAX_LEN
      reads values
    {
      seq(M.HEADER_MAX_LEN, k requires 0 <= k < M.HEADER_MAX_LEN reads values =>
        seq(M.VALUE_MAX_LEN, j requires 0 <= j < M.VALUE_MAX_LEN reads values => values[k, j]))
    }

    /** The header buffers hold what the parser's specification says. */
    ghost predicate Mirrors(p: M.Parse)
      requires Valid()
      reads this, data, keys, values
    {
      && M.Sized(p)
      && (forall k, j :: 0 <= k < M.HEADER_MAX_LEN && 0 <= j < M.KEY_MAX_LEN ==> keys[k, j] == p.keys[k][j])
      && (forall k, j :: 0 <= k < M.HEADER_MAX_LEN && 0 <= j < M.VALUE_MAX_LEN ==> values[k, j] == p.values[k][j])
    }

    method PutKey(k: nat, n: nat, c: char, ghost p: M.Parse)
      requires Valid() && Mirrors(p) && p.isKey && k == p.count < M.HEADER_MAX_LEN && n == p.curLen
      modifies keys
      ensures Mirrors(M.PutKey(p, c))
    {
      keys[k, n] := c;
    }

    method PutValue(k: nat, n: nat, c: char, ghost p: M.Parse)
      requires Valid() && Mirrors(p) && k == p.count < M.HEADER_MAX_LEN && n == p.curLen
      modifies values
      ensures Mirrors(M.PutValue(p, c))
    {
      values[k, n] := c;
    }

    /** The last branch of the loop: keep a character of a key or a value. */
    method KeepChar(count: nat, isKey: bool, curLen0: nat, cur: char, ghost p: M.Parse)
        returns (curLen: nat, overrun: bool, ghost q: M.Parse)
      requires Valid() && Mirrors(p) && !p.overrun && count == p.count && isKey == p.isKey && curLen0 == p.curLen
      modifies keys, values
      ensures q == M.Keep(p, cur) && Mirrors(q) && curLen == q.curLen && overrun == q.overrun
    {
      curLen, overrun, q := curLen0, false, M.Keep(p, cur);
      if cur != NUL {
        if isKey {
          if cur != ' ' {
            if curLen < M.KEY_MAX_LEN - 1 {
              if count >= M.HEADER_MAX_LEN {
                return curLen, true, q;
              }
              PutKey(count, curLen, cur, p);
              curLen := curLen + 1;
            }
          }
        } else {
          if curLen < M.VALUE_MAX_LEN - 1 {
            if count >= M.HEADER_MAX_LEN {
              return curLen, true, q;
            }
            PutValue(count, curLen, cur, p);
            curLen := curLen + 1;
          }
        }
      }
    }

    predicate BlankAt(a: array<char>, i: nat, n: nat)
      requires n <= a.Length
      reads a
    {
      i + 3 < n && a[i] == '\r' && a[i + 1] == '\n' && a[i + 2] == '\r' && a[i + 3] == '\n'
    }

    predicate FoldAt(a: array<char>, i: nat, n: nat)
      requires n <= a.Length
      reads a
    {
      i + 2 < n && a[i] == '\r' && a[i + 1] == '\n' && (a[i + 2] == '\t' || a[i + 2] == ' ')
    }

    /** The parser's local variables agree with its specification. */
    ghost predicate Locals(p: M.Parse, count: int, isKey: bool, curLen: int, done: bool, overrun: bool) {
      p.count == count && p.isKey == isKey && p.curLen == curLen && p.done == done && p.overrun == overrun
    }

    /** One turn of the parser's loop. */
    method ParseStep(a: array<char>, n: nat, ghost text: string, i0: nat, count0: nat, isKey0: bool, curLen0: nat,
        ghost p: M.Parse)
        returns (i: nat, count: nat, isKey: bool, curLen: nat, done: bool, overrun: bool, ghost q: M.Parse)
      requires Valid() && a == data && n == |text| && Holds(a, text) && i0 < n
      requires Mirrors(p) && Locals(p, count0, isKey0, curLen0, false, false)
      modifies keys, values
      ensures (q, i + 1) == M.Step(text, i0, p) && Mirrors(q)
      ensures Locals(q, count, isKey, curLen, done, overrun)
    {
      i, count, isKey, curLen, done, overrun := i0, count0, isKey0, curLen0, false, false;
      q := M.Step(text, i0, p).0;
      var cur := a[i];
      if BlankAt(a, i, n) {
        i := i + 2;
        done := true;
      }
      ghost var p' := p.(done := done);
      if cur == ':' && isKey {
        if count >= M.HEADER_MAX_LEN {
          overrun := true;
          i := i + 1;
        } else {
          PutKey(count, curLen, NUL, p');
          isKey := false;
          curLen := 0;
          i := i + 1;
        }
      } else if FoldAt(a, i, n) {
        i := i + 2;
      } else if cur == '\r' {
        if count < M.HEADER_MAX_LEN {
          PutValue(count, curLen, NUL, p');
        }
        curLen := 0;
        isKey := true;
        count := count + 1;
        i := i + 1;
      } else {
        ghost var kept;
        curLen, overrun, kept := KeepChar(count, isKey, curLen, cur, p');
      }
    }

    /** `request_parse_data`. Where the source would write to a header it does not have, the model
        stops and reports the overrun. */
    method ParseData() returns (overrun: bool, ghost p: M.Parse)
      requires Valid() && body == null && bodyLen == 0
      modifies this`headerCount, this`body, this`bodyLen, keys, values
      ensures Valid() && Mirrors(p)
      ensures var r := M.Run(Stored(), 0, M.Fresh(old(KeyRows()), old(ValueRows())));
              && p == r.0 && overrun == p.overrun && headerCount == p.count
              && (!overrun ==> IsBody(M.Body(Stored(), r)))
      ensures Stored() == old(Stored()) && (body == null || fresh(body))
    {
      ghost var start := M.Fresh(KeyRows(), ValueRows());
      ghost var text := Stored();
      p := start;
      var i, count, isKey, curLen, done := 0, 0, true, 0, false;
      overrun := false;
      hide M.Step;
      while i < dataLen && !done && !overrun
        invariant 0 <= i && 0 <= count && 0 <= curLen && Mirrors(p)
        invariant Locals(p, count, isKey, curLen, done, overrun)
        invariant M.Run(text, i, p) == M.Run(text, 0, start)
        decreases dataLen - i
        modifies keys, values
      {
        M.RunOnce(text, i, p);
        i, count, isKey, curLen, done, overrun, p := ParseStep(data, dataLen, text, i, count, isKey, curLen, p);
        i := i + 1;
      }
      assert M.Run(text, i, p) == (p, i);
      headerCount := count;
      if i < dataLen && done {
        CopyBody(i);
      }
    }

    /** The end of `request_parse_data`: the bytes from `i` on, and a NUL. */
    method CopyBody(i: nat)
      requires Valid() && data != null && i < dataLen
      modifies this`body, this`bodyLen
      ensures Valid() && Stored() == old(Stored()) && fresh(body) && IsBody(Stored()[i..])
    {
      bodyLen := dataLen - i;
      body := new char[bodyLen + 1];
      forall k | 0 <= k < bodyLen {
        body[k] := data[i + k];
      }
      body[bodyLen] := NUL;
      assert body[..bodyLen] == Stored()[i..];
    }

    /** The body, as the source keeps it: no buffer at all when it is empty. */
    ghost predicate IsBody(text: string)
      reads this, body
    {
      bodyLen == |text| &&
      if text == [] then body == null
      else body != null && body.Length == bodyLen + 1 && body[..bodyLen] == text && body[bodyLen] == NUL
    }
  }
}
