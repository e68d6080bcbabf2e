/** What `request_parse_commands` makes of the bytes of a read buffer: SMTP commands outside the
    DATA phase, stored message bytes inside it. */
module DataPhase {
  import opened CString

  const TERMINATOR: string := "\r\n.\r\n"

  const DATA_REPLY: string := "354 End data with <CR><LF>.<CR><LF>\r\n"
  const EHLO_REPLY: string := "250 Hi, you have a report for me?\r\n"
  const OK_REPLY: string := "250 Ok\r\n"
  const QUIT_REPLY: string := "221 Bye, see you tomorrow!\r\n"
  const QUEUED_REPLY: string := "250 Ok: queued as nada\r\n"

  /** The part of a request that this function reads and writes, the reply text, and whether
      the data grew too big. */
  datatype Collect = Collect(stored: string, inData: bool, quit: bool, process: bool, reply: string, tooBig: bool)

  predicate EndsWithTerminator(s: string) {
    |s| > 4 && s[|s| - 5..] == TERMINATOR
  }

  /** One byte in the DATA phase. */
  function Store(st: Collect, c: char, limit: int): Collect {
    if |st.stored| >= limit then st.(tooBig := true)
    else
      var s := st.stored + [c];
      if EndsWithTerminator(s) then
        st.(stored := s[|s| - 5 := NUL], inData := false,
            quit := true, process := true, reply := st.reply + QUEUED_REPLY)
      else st.(stored := s)
  }

  /** A command at index `i` outside the DATA phase, and how many bytes it consumes. */
  function Command(st: Collect, buf: string, i: nat): (r: (Collect, nat))
    ensures r.1 == 1 || r.1 == 6
    ensures r.1 == 6 ==> i + 6 <= |buf|
  {
    if At(buf, i, "DATA\r\n") then (st.(inData := true, reply := st.reply + DATA_REPLY), 6)
    else if At(buf, i, "EHLO") then (st.(reply := st.reply + EHLO_REPLY), 1)
    else if At(buf, i, "MAIL FROM:") then (st.(reply := st.reply + OK_REPLY), 1)
    else if At(buf, i, "RCPT TO:") then (st.(reply := st.reply + OK_REPLY), 1)
    else if At(buf, i, "QUIT") then (st.(reply := st.reply + QUIT_REPLY, quit := true), 1)
    else (st, 1)
  }

  /** The read buffer from index `i` on. */
  function Feed(st: Collect, buf: string, i: nat, limit: int): Collect
    requires i <= |buf|
    decreases |buf| - i
  {
    if i == |buf| || st.tooBig then st
    else if st.inData then Feed(Store(st, buf[i], limit), buf, i + 1, limit)
    else
      var (st', n) := Command(st, buf, i);
      Feed(st', buf, i + n, limit)
  }

  // ---------- The DATA phase on its own ----------

  /** Bytes from index `i` on, until the message ends or grows too big. */
  function Data(st: Collect, s: string, i: nat, limit: int): Collect
    requires i <= |s|
    decreases |s| - i
  {
    if i == |s| || st.tooBig || !st.inData then st else Data(Store(st, s[i], limit), s, i + 1, limit)
  }

  /** The message does not end before the last byte of `s`. */
  predicate EndsLate(st: Collect, s: string, i: nat, limit: int)
    requires i <= |s|
    decreases |s| - i
  {
    i == |s| || st.tooBig || (st.inData && EndsLate(Store(st, s[i], limit), s, i + 1, limit))
  }

  lemma {:induction false} FeedIsData(st: Collect, s: string, i: nat, limit: int)
    requires i <= |s| && EndsLate(st, s, i, limit)
    ensures Feed(st, s, i, limit) == Data(st, s, i, limit)
    decreases |s| - i
  {
    hide Store;
    if i < |s| && !st.tooBig {
      FeedIsData(Store(st, s[i], limit), s, i + 1, limit);
    }
  }

  /** Data from `i` to the end is data from `i` to `k`, then the rest. */
  lemma {:induction false} DataSplit(st: Collect, a: string, b: string, i: nat, limit: int)
    requires i <= |a|
    ensures Data(st, a + b, i, limit) == Data(Data(st, a, i, limit), a + b, |a|, limit)
    ensures EndsLate(st, a + b, i, limit) ==>
            b == [] || Data(st, a, i, limit).tooBig || Data(st, a, i, limit).inData
    ensures EndsLate(st, a + b, i, limit) ==>
            EndsLate(st, a, i, limit) && EndsLate(Data(st, a, i, limit), a + b, |a|, limit)
    decreases |a| - i
  {
    if i < |a| && !st.tooBig && st.inData {
      assert (a + b)[i] == a[i];
      DataSplit(Store(st, a[i], limit), a, b, i + 1, limit);
    }
  }

  /** Reading on in `a + b` is reading `b`. */
  lemma {:induction false} DataShift(st: Collect, a: string, b: string, i: nat, limit: int)
    requires i <= |b|
    ensures Data(st, a + b, |a| + i, limit) == Data(st, b, i, limit)
    ensures EndsLate(st, a + b, |a| + i, limit) <==> EndsLate(st, b, i, limit)
    decreases |b| - i
  {
    if i < |b| && !st.tooBig && st.inData {
      assert (a + b)[|a| + i] == b[i];
      DataShift(Store(st, b[i], limit), a, b, i + 1, limit);
    }
  }

  function Concat(chunks: seq<string>): string {
    if chunks == [] then [] else chunks[0] + Concat(chunks[1..])
  }

  /** One call per chunk, as long as the request survives: an error or a quit ends the session. */
  function FeedChunks(st: Collect, chunks: seq<string>, limit: int): Collect
    decreases |chunks|
  {
    if chunks == [] || st.tooBig || st.quit then st
    else FeedChunks(Feed(st, chunks[0], 0, limit), chunks[1..], limit)
  }

  /** Once DATA has begun with nothing asking to quit, how the bytes up to the end of the message
      are cut into reads makes no difference: stored bytes, flags, reply and error are those of one
      read of them all. */
  lemma {:induction false} ChunksDoNotMatter(st: Collect, chunks: seq<string>, limit: int)
    requires !st.quit && EndsLate(st, Concat(chunks), 0, limit)
    ensures FeedChunks(st, chunks, limit) == Feed(st, Concat(chunks), 0, limit)
    decreases |chunks|
  {
    FeedIsData(st, Concat(chunks), 0, limit);
    if chunks != [] && !st.tooBig {
      var a, b := chunks[0], Concat(chunks[1..]);
      var mid := Data(st, a, 0, limit);
      DataSplit(st, a, b, 0, limit);
      FeedIsData(st, a, 0, limit);
      DataShift(mid, a, b, 0, limit);
      QuitMeansEnded(st, a, 0, limit);
      if mid.quit && !mid.tooBig {
        assert b == [];
      } else {
        if !mid.quit {
          ChunksDoNotMatter(mid, chunks[1..], limit);
          FeedIsData(mid, b, 0, limit);
        }
      }
    }
  }

  /** In the DATA phase only the end of the message sets quit. */
  lemma {:induction false} QuitMeansEnded(st: Collect, s: string, i: nat, limit: int)
    requires i <= |s| && !st.quit
    ensures var r := Data(st, s, i, limit); r.quit ==> !r.inData && !r.tooBig && r.process
    decreases |s| - i
  {
    if i < |s| && !st.tooBig && st.inData {
      var next := Store(st, s[i], limit);
      if next.quit {
        assert Data(next, s, i + 1, limit) == next;
      } else {
        QuitMeansEnded(next, s, i + 1, limit);
      }
    }
  }

  lemma StoreReply(st: Collect, said: string, c: char, limit: int)
    ensures var r := Store(st, c, limit); Store(st.(reply := said + st.reply), c, limit) == r.(reply := said + r.reply)
  {
    hide EndsWithTerminator;
    Assoc(said, st.reply, QUEUED_REPLY);
  }

  lemma CommandReply(st: Collect, said: string, buf: string, i: nat)
    ensures var (r, n) := Command(st, buf, i);
            Command(st.(reply := said + st.reply), buf, i) == (r.(reply := said + r.reply), n)
  {
    hide At;
    Assoc(said, st.reply, DATA_REPLY);
    Assoc(said, st.reply, EHLO_REPLY);
    Assoc(said, st.reply, OK_REPLY);
    Assoc(said, st.reply, QUIT_REPLY);
  }

  /** The same for any run of calls: what was already said stays said. */
  lemma {:induction false} ReplyOnlyGrows(st: Collect, said: string, buf: string, i: nat, limit: int)
    requires i <= |buf|
    ensures Feed(st.(reply := said + st.reply), buf, i, limit) ==
            (var r := Feed(st, buf, i, limit); r.(reply := said + r.reply))
    decreases |buf| - i
  {
    hide Store, Command;
    if i < |buf| && !st.tooBig {
      if st.inData {
        var next := Store(st, buf[i], limit);
        StoreReply(st, said, buf[i], limit);
        ReplyOnlyGrows(next, said, buf, i + 1, limit);
      } else {
        var (next, n) := Command(st, buf, i);
        CommandReply(st, said, buf, i);
        ReplyOnlyGrows(next, said, buf, i + n, limit);
      }
    }
  }

  // ---------- Where the message ends ----------

  /** The first `n` bytes of `s` are the shortest prefix that ends with the terminator. */
  predicate FirstEnd(s: string, n: nat) {
    n <= |s| && EndsWithTerminator(s[..n]) && forall k :: 0 <= k < n ==> !EndsWithTerminator(s[..k])
  }

  /** The state of a request when DATA has just begun. */
  function Begun(reply: string): Collect {
    Collect([], true, false, false, reply, false)
  }

  /** Before the first terminator, and within the limit, every byte is stored as it came. */
  lemma {:induction false} StoresEveryByte(s: string, k: nat, reply: string, limit: int)
    requires k <= |s| && k <= limit
    requires forall j :: 0 <= j <= k ==> !EndsWithTerminator(s[..j])
    ensures Data(Begun(reply), s[..k], 0, limit) == Begun(reply).(stored := s[..k])
    ensures EndsLate(Begun(reply), s[..k], 0, limit)
    decreases k
  {
    if k > 0 {
      StoresEveryByte(s, k - 1, reply, limit);
      StoreOne(s, k - 1, reply, limit);
      assert !EndsWithTerminator(s[..k]);
    }
  }

  lemma {:induction false} StoreOne(s: string, k: nat, reply: string, limit: int)
    requires k < |s|
    requires var st := Begun(reply).(stored := s[..k]);
             Data(Begun(reply), s[..k], 0, limit) == st && EndsLate(Begun(reply), s[..k], 0, limit)
    ensures Data(Begun(reply), s[..k + 1], 0, limit) == Store(Begun(reply).(stored := s[..k]), s[k], limit)
    ensures EndsLate(Begun(reply), s[..k + 1], 0, limit)
    ensures s[..k] + [s[k]] == s[..k + 1]
  {
    var st := Begun(reply).(stored := s[..k]);
    assert s[..k] + [s[k]] == s[..k + 1];
    DataSplit(Begun(reply), s[..k], [s[k]], 0, limit);
    DataShift(st, s[..k], [s[k]], 0, limit);
    assert Data(st, [s[k]], 0, limit) == Data(Store(st, s[k], limit), [s[k]], 1, limit) == Store(st, s[k], limit);
    LateSplit(Begun(reply), s[..k], [s[k]], 0, limit);
    assert EndsLate(Store(st, s[k], limit), [s[k]], 1, limit);
  }

  lemma {:induction false} LateSplit(st: Collect, a: string, b: string, i: nat, limit: int)
    requires i <= |a| && EndsLate(st, a, i, limit) && EndsLate(Data(st, a, i, limit), b, 0, limit)
    ensures EndsLate(st, a + b, i, limit)
    decreases |a| - i
  {
    if i < |a| && !st.tooBig {
      assert (a + b)[i] == a[i];
      LateSplit(Store(st, a[i], limit), a, b, i + 1, limit);
    } else {
      DataShift(st, a, b, 0, limit);
    }
  }

  /** DATA ends exactly at the first terminator: then the request is to be processed and to quit,
      and the stored bytes before the terminator are the payload, byte for byte. */
  lemma {:induction false} EndsAtFirstTerminator(s: string, reply: string, limit: int)
    requires FirstEnd(s, |s|) && |s| <= limit
    ensures EndsLate(Begun(reply), s, 0, limit)
    ensures var r := Feed(Begun(reply), s, 0, limit); var n := |s| - 5;
            r == Collect(s[..n] + [NUL] + s[n + 1..], false, true, true, reply + QUEUED_REPLY, false)
  {
    var k := |s| - 1;
    StoresEveryByte(s, k, reply, limit);
    StoreOne(s, k, reply, limit);
    assert s[..k + 1] == s == s[..|s|];
    FeedIsData(Begun(reply), s, 0, limit);
  }

  /** A message that reaches the limit before its terminator is refused, with the bytes stored so far. */
  lemma {:induction false} TooBigIsAnError(s: string, reply: string, limit: nat)
    requires limit < |s| && forall j :: 0 <= j <= limit ==> !EndsWithTerminator(s[..j])
    ensures var r := Data(Begun(reply), s, 0, limit); r.tooBig && r.stored == s[..limit] && !r.process
  {
    StoresEveryByte(s, limit, reply, limit);
    StoreOne(s, limit, reply, limit);
    DataSplit(Begun(reply), s[..limit + 1], s[limit + 1..], 0, limit);
    assert s[..limit + 1] + s[limit + 1..] == s;
  }
}
