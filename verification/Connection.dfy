/** The life of a connection: from the welcome message, through calls that feed the request, to the reset. */
module Connection {
  import opened CString
  import opened Commands
  import opened DataPhase
  import opened RingQueue
  import opened Wrappers
  import M = MailParser
  import R = Request

  const BODY_MAX_LEN: int := 8000

  datatype Status = Started | Reading | Error | Writing | Closed | Inactive

  datatype Config =
      Config(readBufferSize: int, writeBufferSize: int, dataBufferSize: int, hostname: string, serverName: string)

  /** What a worker gets for a connection: whether the other end has hung up, what a read gives, and what
      becomes of each `send` that the call makes. */
  datatype Event = Event(hangUp: bool, read: Read, sends: nat -> Sent)
  datatype Read = Failed | Bytes(bytes: string)
  datatype Sent = Refused | Took(n: nat)

  // ---------- The specification ----------

  /** What a connection carries from one call to the next. */
  datatype View = View(status: Status, request: Option<Collect>)

  const NEW_REQUEST: Collect := Collect([], false, false, false, "", false)

  /** The view after writing the reply to `c`, `ok` telling whether the sends succeeded. */
  function AfterWrite(c: Collect, ok: bool): View {
    if !ok || c.quit then View(Inactive, None)
    else View(Reading, Some(if c.inData then c.(reply := "") else NEW_REQUEST))
  }

  /** One call: the next view. */
  function Next(v: View, cfg: Config, read: Read, ok: bool): View
    requires v.status.Reading? ==> v.request.Some?
  {
    match v.status
    case Started => AfterWrite(NEW_REQUEST, ok)
    case Reading =>
      if cfg.readBufferSize <= 0 || read.Failed? then View(Inactive, None)
      else if read.bytes == [] then v
      else
        var c := Feed(v.request.value, read.bytes, 0, cfg.dataBufferSize);
        if c.tooBig then View(Inactive, None) else AfterWrite(c, ok)
    case _ => View(Inactive, None)
  }

  /** The message a call hands over for queueing, if it completes one. */
  function Completed(v: View, cfg: Config, read: Read): Option<Collect>
    requires v.status.Reading? ==> v.request.Some?
  {
    if v.status.Reading? && cfg.readBufferSize > 0 && read.Bytes? && read.bytes != [] then
      var c := Feed(v.request.value, read.bytes, 0, cfg.dataBufferSize);
      if !c.tooBig && c.process then Some(c) else None
    else None
  }

  /** A view that the code leaves between calls. */
  predicate Settled(v: View) {
    match v.status
    case Started => v.request == Some(NEW_REQUEST)
    case Reading =>
      v.request.Some? &&
      var c := v.request.value; !c.quit && !c.process && !c.tooBig && c.reply == ""
    case Inactive => v.request == None
    case Closed => true
    case _ => false
  }

  /** What the worker does to a connection before it handles an event: a hang-up closes it, and an
      inactive one is started, straight into reading. */
  function Wake(v: View, hangUp: bool): View {
    if hangUp then v.(status := Closed)
    else if v.status.Inactive? then View(Reading, Some(NEW_REQUEST))
    else v
  }

  /** One event, as the call sees it. */
  datatype Call = Call(hangUp: bool, read: Read, ok: bool)

  /** The events of one session, up to the one that ends it: the last view and the messages completed. */
  function Serve(v: View, cfg: Config, calls: seq<Call>): (View, seq<Collect>)
    requires Settled(v)
    decreases |calls|
  {
    if calls == [] then (v, [])
    else
      var u := Wake(v, calls[0].hangUp);
      NextIsSettled(u, cfg, calls[0].read, calls[0].ok);
      var next := Next(u, cfg, calls[0].read, calls[0].ok);
      var messages := match Completed(u, cfg, calls[0].read) case Some(c) => [c] case None => [];
      if next.status.Inactive? then (next, messages)
      else
        var (end, more) := Serve(next, cfg, calls[1..]);
        (end, messages + more)
  }

  /** `process` is only ever set together with `quit`. */
  lemma {:induction false} ProcessComesWithQuit(st: Collect, buf: string, i: nat, limit: int)
    requires i <= |buf| && (st.process ==> st.quit)
    ensures var r := Feed(st, buf, i, limit); r.process ==> r.quit
    decreases |buf| - i
  {
    if i < |buf| && !st.tooBig {
      if st.inData {
        ProcessComesWithQuit(Store(st, buf[i], limit), buf, i + 1, limit);
      } else {
        var (next, n) := Command(st, buf, i);
        ProcessComesWithQuit(next, buf, i + n, limit);
      }
    }
  }

  /** Every call leaves the connection reading or inactive. */
  lemma NextIsSettled(v: View, cfg: Config, read: Read, ok: bool)
    requires Settled(v)
    ensures Settled(Next(v, cfg, read, ok))
    ensures Next(v, cfg, read, ok).status.Reading? || Next(v, cfg, read, ok).status.Inactive?
    ensures Completed(v, cfg, read).Some? ==> Next(v, cfg, read, ok).status.Inactive?
  {
    if v.status.Reading? && read.Bytes? {
      ProcessComesWithQuit(v.request.value, read.bytes, 0, cfg.dataBufferSize);
    }
  }

  /** A session completes at most one message, whatever it reads and whenever the other end hangs up, and
      then it is over. */
  lemma {:induction false} AtMostOneMessage(v: View, cfg: Config, calls: seq<Call>)
    requires Settled(v)
    ensures var (end, messages) := Serve(v, cfg, calls);
            |messages| <= 1 && (messages != [] ==> end.status.Inactive?)
    decreases |calls|
  {
    if calls != [] {
      var u := Wake(v, calls[0].hangUp);
      NextIsSettled(u, cfg, calls[0].read, calls[0].ok);
      var next := Next(u, cfg, calls[0].read, calls[0].ok);
      if !next.status.Inactive? {
        AtMostOneMessage(next, cfg, calls[1..]);
      }
    }
  }

  lemma {:induction false} ServeIsSettled(v: View, cfg: Config, calls: seq<Call>)
    requires Settled(v)
    ensures Settled(Serve(v, cfg, calls).0)
    decreases |calls|
  {
    if calls != [] {
      var u := Wake(v, calls[0].hangUp);
      NextIsSettled(u, cfg, calls[0].read, calls[0].ok);
      var next := Next(u, cfg, calls[0].read, calls[0].ok);
      if !next.status.Inactive? {
        ServeIsSettled(next, cfg, calls[1..]);
      }
    }
  }

  /** A session that is not over goes on with one more event. */
  lemma {:induction false} ServeSnoc(v: View, cfg: Config, calls: seq<Call>, c: Call)
    requires Settled(v) && (calls == [] || !Serve(v, cfg, calls).0.status.Inactive?)
    ensures var (end, messages) := Serve(v, cfg, calls);
            var u := Wake(end, c.hangUp);
            && Settled(end)
            && Serve(v, cfg, calls + [c]) ==
               (Next(u, cfg, c.read, c.ok),
                messages + match Completed(u, cfg, c.read) case Some(m) => [m] case None => [])
    decreases |calls|
  {
    ServeIsSettled(v, cfg, calls);
    var all := calls + [c];
    if calls == [] {
      assert all == [c] && all[1..] == [];
      var u := Wake(v, c.hangUp);
      var messages := match Completed(u, cfg, c.read) case Some(m) => [m] case None => [];
      NextIsSettled(u, cfg, c.read, c.ok);
      NothingServed(Next(u, cfg, c.read, c.ok), cfg);
      assert messages + [] == messages && [] + messages == messages;
      assert Serve(v, cfg, all) == (Next(u, cfg, c.read, c.ok), messages);
    } else {
      assert all[0] == calls[0] && all[1..] == calls[1..] + [c];
      var u := Wake(v, calls[0].hangUp);
      NextIsSettled(u, cfg, calls[0].read, calls[0].ok);
      var next := Next(u, cfg, calls[0].read, calls[0].ok);
      ServeSnoc(next, cfg, calls[1..], c);
      var (end, more) := Serve(next, cfg, calls[1..]);
      assert Completed(u, cfg, calls[0].read).None? && Serve(v, cfg, calls) == (end, [] + more);
      assert [] + more == more;
      var (end', more') := Serve(next, cfg, calls[1..] + [c]);
      assert Serve(v, cfg, all) == (end', [] + more') && [] + more' == more';
    }
  }

  /** A hang-up ends the session, completing nothing. */
  lemma {:induction false} HangUpEnds(v: View, cfg: Config, calls: seq<Call>)
    requires Settled(v) && calls != [] && calls[0].hangUp
    ensures Serve(v, cfg, calls) == (View(Inactive, None), [])
  {
  }

  // ---------- From the wire to the queue ----------

  /** One read per chunk, every send succeeding. */
  function AllGood(chunks: seq<string>): (r: seq<Call>)
    ensures |r| == |chunks|
  {
    if chunks == [] then [] else [Call(false, Bytes(chunks[0]), true)] + AllGood(chunks[1..])
  }

  /** Reading a message in chunks takes the session through the states of the collector. */
  lemma {:induction false} ServeIsFeedChunks(c: Collect, cfg: Config, chunks: seq<string>)
    requires c.inData && !c.quit && !c.process && !c.tooBig && c.reply == "" && cfg.readBufferSize > 0
    requires EndsLate(c, Concat(chunks), 0, cfg.dataBufferSize)
    requires var r := FeedChunks(c, chunks, cfg.dataBufferSize); r.quit && !r.tooBig && r.process
    ensures var (end, messages) := Serve(View(Reading, Some(c)), cfg, AllGood(chunks));
            end.status.Inactive? && |messages| == 1 &&
            messages[0].stored == FeedChunks(c, chunks, cfg.dataBufferSize).stored
    decreases |chunks|
  {
    var limit := cfg.dataBufferSize;
    if chunks != [] {
      var v, read := View(Reading, Some(c)), Bytes(chunks[0]);
      var calls := AllGood(chunks);
      assert calls[0] == Call(false, read, true) && calls[1..] == AllGood(chunks[1..]);
      var r := Feed(c, chunks[0], 0, limit);
      ProcessComesWithQuit(c, chunks[0], 0, limit);
      var a, b := chunks[0], Concat(chunks[1..]);
      DataSplit(c, a, b, 0, limit);
      FeedIsData(c, a, 0, limit);
      DataShift(r, a, b, 0, limit);
      NextIsSettled(v, cfg, read, true);
      if chunks[0] == [] {
        assert a + b == b;
        ServeIsFeedChunks(c, cfg, chunks[1..]);
      } else if r.quit || r.tooBig {
        assert FeedChunks(r, chunks[1..], limit) == r;
      } else {
        LeavingDataQuits(c, a, 0, limit);
        var next := r.(reply := "");
        SameWithoutReply(r, chunks[1..], limit);
        LateWithoutReply(r, b, 0, limit);
        ServeIsFeedChunks(next, cfg, chunks[1..]);
      }
    }
  }

  /** The DATA phase is left by the end of the message only, which quits. */
  lemma {:induction false} LeavingDataQuits(st: Collect, s: string, i: nat, limit: int)
    requires i <= |s| && st.inData
    ensures var r := Data(st, s, i, limit); r.inData || r.quit
    ensures !st.process ==> (var r := Data(st, s, i, limit); r.process ==> r.quit)
    decreases |s| - i
  {
    if i < |s| && !st.tooBig {
      var next := Store(st, s[i], limit);
      if next.inData {
        LeavingDataQuits(next, s, i + 1, limit);
      }
    }
  }

  lemma {:induction false} SameWithoutReply(r: Collect, chunks: seq<string>, limit: int)
    ensures FeedChunks(r.(reply := ""), chunks, limit).(reply := "") == FeedChunks(r, chunks, limit).(reply := "")
    decreases |chunks|
  {
    if chunks != [] && !r.tooBig && !r.quit {
      var bare := r.(reply := "");
      assert bare.(reply := r.reply + bare.reply) == r;
      ReplyOnlyGrows(bare, r.reply, chunks[0], 0, limit);
      SameWithoutReply(Feed(bare, chunks[0], 0, limit), chunks[1..], limit);
      SameWithoutReply(Feed(r, chunks[0], 0, limit), chunks[1..], limit);
      assert Feed(bare, chunks[0], 0, limit).(reply := "") == Feed(r, chunks[0], 0, limit).(reply := "");
    }
  }

  lemma {:induction false} LateWithoutReply(r: Collect, s: string, i: nat, limit: int)
    requires i <= |s|
    ensures EndsLate(r.(reply := ""), s, i, limit) <==> EndsLate(r, s, i, limit)
    decreases |s| - i
  {
    if i < |s| && !r.tooBig && r.inData {
      var a, b := Store(r.(reply := ""), s[i], limit), Store(r, s[i], limit);
      LateWithoutReply(a, s, i + 1, limit);
      LateWithoutReply(b, s, i + 1, limit);
      assert a.(reply := "") == b.(reply := "");
    }
  }

  /** The mail queued for a completed message: raw header buffers as parsed over whatever `keys` and
      `values` were in memory, and the body with its NUL unless it is too large. */
  ghost predicate IsMailOf(m: Mail, c: Collect, keys: seq<string>, values: seq<string>) {
    M.Sized(M.Fresh(keys, values)) &&
    var r := M.Run(c.stored, 0, M.Fresh(keys, values));
    var body := M.Body(c.stored, r);
    && m.headerCount == |m.headers| == r.0.count
    && (r.0.count <= M.HEADER_MAX_LEN ==>
          forall k :: 0 <= k < r.0.count ==> m.headers[k] == (r.0.keys[k], r.0.values[k]))
    && m.body == (if |body| < BODY_MAX_LEN then body else []) + [NUL]
  }

  /** What the source does with a completed message is defined: no 21st header, and a body if there
      are headers. */
  ghost predicate Sound(c: Collect, keys: seq<string>, values: seq<string>)
    requires M.Sized(M.Fresh(keys, values))
  {
    var r := M.Run(c.stored, 0, M.Fresh(keys, values));
    !r.0.overrun && r.0.count <= M.HEADER_MAX_LEN && (r.0.count > 0 ==> M.Body(c.stored, r) != [])
  }

  /** The mail of printed headers and a body: the headers, cut to their buffers, and the body with its NUL,
      or an empty body if it is too large for the queue. */
  ghost predicate Carries(m: Mail, hs: seq<M.Header>, body: string) {
    && m.headerCount == |hs| == |m.headers|
    && (forall k :: 0 <= k < |hs| ==> M.IsHeader(m.headers[k].0, m.headers[k].1, hs[k]))
    && if |body| + 5 < 8000 then |m.body| > |body| && m.body[..|body|] == body && m.body[|body|] == NUL
       else m.body == [NUL]
  }

  /** What is queued for a printed mail: a body that starts with space or tab loses that character and the
      last header with it, and without a header there is no mail. */
  ghost predicate IsQueuedFor(mail: Option<Mail>, hs: seq<M.Header>, body: string)
    requires hs != []
  {
    if body != [] && IsWsp(body[0]) then
      if |hs| == 1 then mail.None? else mail.Some? && Carries(mail.value, hs[..|hs| - 1], body[1..])
    else mail.Some? && Carries(mail.value, hs, body)
  }

  /** End to end: whatever way the network cuts a printed mail and its terminator into reads, the
      session completes one message and ends, nothing undefined happens, and what is queued for it is a
      mail that carries exactly the headers and the body that were sent, but for the one case above. */
  lemma {:induction false} MailIsDelivered(hs: seq<M.Header>, body: string, chunks: seq<string>, cfg: Config,
      mail: Option<Mail>, fault: bool, keys: seq<string>, values: seq<string>)
    requires M.Good(hs) && M.EndInLf(hs) && 0 < |hs| <= 20
    requires Concat(chunks) == M.PrintMail(hs, body) + TERMINATOR
    requires FirstEnd(Concat(chunks), |Concat(chunks)|) && |Concat(chunks)| <= cfg.dataBufferSize
    requires cfg.readBufferSize > 0
    ensures var (end, messages) := Serve(View(Reading, Some(Begun(""))), cfg, AllGood(chunks));
            && end.status.Inactive? && |messages| == 1
            && (IsOutcome(messages[0], mail, fault, keys, values) ==> !fault && IsQueuedFor(mail, hs, body))
  {
    hide Serve, Feed, FeedChunks, EndsLate, Concat, M.Run, M.PrintMail, FirstEnd, IsOutcome, IsQueuedFor, M.Good;
    var all, limit := Concat(chunks), cfg.dataBufferSize;
    EndsAtFirstTerminator(all, "", limit);
    ChunksDoNotMatter(Begun(""), chunks, limit);
    ServeIsFeedChunks(Begun(""), cfg, chunks);
    StoredIsMail(hs, body, all);
    var (end, messages) := Serve(View(Reading, Some(Begun(""))), cfg, AllGood(chunks));
    if IsOutcome(messages[0], mail, fault, keys, values) {
      OutcomeOfMail(hs, body, messages[0], mail, fault, keys, values);
    }
  }

  lemma OutcomeOfMail(hs: seq<M.Header>, body: string, c: Collect, mail: Option<Mail>, fault: bool,
      keys: seq<string>, values: seq<string>)
    requires M.Good(hs) && M.EndInLf(hs) && 0 < |hs| <= 20
    requires c.stored == M.PrintMail(hs, body + [NUL] + "\n.\r\n") && IsOutcome(c, mail, fault, keys, values)
    ensures !fault && IsQueuedFor(mail, hs, body)
  {
    hide M.Run, M.PrintMail, M.Recorded, M.Good, M.Body, IsMailOf, Carries;
    var rest := body + [NUL] + "\n.\r\n";
    M.RoundTrip(hs, rest, keys, values);
    assert rest[0] == if body == [] then NUL else body[0];
    if mail.Some? {
      if body != [] && IsWsp(body[0]) {
        var front := hs[..|hs| - 1];
        assert rest[1..] == body[1..] + [NUL] + "\n.\r\n";
        FirstHeaders(M.Run(c.stored, 0, M.Fresh(keys, values)).0, hs, |hs| - 1);
        MailOfRun(mail.value, c, front, body[1..], keys, values);
      } else {
        MailOfRun(mail.value, c, hs, body, keys, values);
      }
    }
  }

  lemma FirstHeaders(p: M.Parse, hs: seq<M.Header>, n: nat)
    requires M.Sized(p) && n <= |hs| && n <= M.HEADER_MAX_LEN && M.Recorded(p, hs, n)
    ensures M.Recorded(p, hs[..n], n)
  {
  }

  lemma MailOfRun(m: Mail, c: Collect, hs: seq<M.Header>, body: string, keys: seq<string>, values: seq<string>)
    requires IsMailOf(m, c, keys, values) && |hs| <= 20
    requires var r := M.Run(c.stored, 0, M.Fresh(keys, values));
             && r.0.count == |hs| && M.Recorded(r.0, hs, |hs|)
             && M.Body(c.stored, r) == body + [NUL] + "\n.\r\n"
    ensures Carries(m, hs, body) && m.headerCount == |hs|
  {
    hide M.Run, M.IsHeader, M.Body;
    BodyInCells(body);
  }

  lemma BodyInCells(body: string)
    ensures var cells := body + [NUL] + "\n.\r\n" + [NUL];
            |cells| == |body| + 6 && cells[..|body|] == body && cells[|body|] == NUL
  {
  }

  /** The stored bytes are the printed mail with the terminator's first byte made a NUL. */
  lemma StoredIsMail(hs: seq<M.Header>, body: string, all: string)
    requires all == M.PrintMail(hs, body) + TERMINATOR
    ensures var n := |all| - 5;
            all[..n] + [NUL] + all[n + 1..] == M.PrintMail(hs, body + [NUL] + "\n.\r\n")
  {
    var n, p := |all| - 5, M.PrintHeaders(hs) + CRLF;
    assert all[..n] == p + body;
    assert all[n + 1..] == "\n.\r\n";
    assert p + body + [NUL] + "\n.\r\n" == p + (body + [NUL] + "\n.\r\n");
  }

  /** What is stored of the bytes `all` that end with the terminator. */
  function Kept(all: string): string
    requires |all| >= 5
  {
    all[..|all| - 5] + [NUL] + all[|all| - 4..]
  }

  lemma EndCharacters(s: string)
    requires EndsWithTerminator(s)
    ensures var n := |s|;
              s[n - 5] == '\r' && s[n - 4] == '\n' && s[n - 3] == '.' && s[n - 2] == '\r' && s[n - 1] == '\n'
  {
    var t := s[|s| - 5..];
    assert t[0] == s[|s| - 5] && t[1] == s[|s| - 4] && t[2] == s[|s| - 3] && t[3] == s[|s| - 2] && t[4] == s[|s| - 1];
  }

  lemma KeptAfter(head: string, rest: string)
    requires |rest| >= 5
    ensures Kept(head + rest) == head + Kept(rest)
  {
    var all := head + rest;
    assert all[..|all| - 5] == head + rest[..|rest| - 5];
    assert all[|all| - 4..] == rest[|rest| - 4..];
  }

  /** After printed headers and a blank line, the terminator is either that of a text after them, or it
      starts with the CRLF of the blank line. */
  lemma SharedEnd(p: string, rest: string)
    requires |p| >= 2 && p[|p| - 1] == '\n' && |rest| < 5 && EndsWithTerminator(p + CRLF + rest)
    ensures Kept(p + CRLF + rest) == p + M.LOST_BLANK
  {
    var all := p + CRLF + rest;
    EndCharacters(all);
    assert all[|p| - 1] == '\n' && all[|p|] == '\r' && all[|p| + 1] == '\n';
    assert |all| - 5 == |p|;
    assert all[..|p|] == p;
    assert [NUL] + all[|p| + 1..] == M.LOST_BLANK;
  }

  lemma {:induction false} HeadersEndInLf(hs: seq<M.Header>)
    requires hs != [] && M.EndInLf(hs)
    ensures |M.PrintHeaders(hs)| >= 2 && M.PrintHeaders(hs)[|M.PrintHeaders(hs)| - 1] == '\n'
  {
    if |hs| > 1 {
      HeadersEndInLf(hs[1..]);
    }
  }

  lemma {:induction false} ManyHeadersUnsound(hs: seq<M.Header>, after: string, c: Collect,
        keys: seq<string>, values: seq<string>)
    requires M.Good(hs) && |hs| > M.HEADER_MAX_LEN && M.Sized(M.Fresh(keys, values))
    requires c.stored == M.PrintHeaders(hs) + after
    ensures !Sound(c, keys, values)
  {
    hide M.Run;
    M.TooManyHeadersOverrun(hs, after, keys, values);
  }

  lemma SeparateEndSound(hs: seq<M.Header>, rest: string, c: Collect, keys: seq<string>, values: seq<string>)
    requires M.Good(hs) && M.EndInLf(hs) && 0 < |hs| <= M.HEADER_MAX_LEN && M.Sized(M.Fresh(keys, values))
    requires |rest| >= 2 && c.stored == M.PrintMail(hs, rest)
    ensures Sound(c, keys, values)
  {
    hide M.Run, M.Recorded, M.PrintMail, M.Body;
    M.RoundTrip(hs, rest, keys, values);
  }

  lemma {:induction false} SharedEndUnsound(hs: seq<M.Header>, c: Collect, keys: seq<string>, values: seq<string>)
    requires M.Good(hs) && 0 < |hs| <= M.HEADER_MAX_LEN && M.Sized(M.Fresh(keys, values))
    requires c.stored == M.PrintHeaders(hs) + M.LOST_BLANK
    ensures !Sound(c, keys, values)
  {
    hide M.Run;
    M.LostBlankLine(hs, keys, values);
  }

  /** A message of printed headers, a blank line and any rest is defined exactly if there are at most
      20 headers and the terminator does not start with the blank line. */
  lemma {:induction false} SoundIff(hs: seq<M.Header>, rest: string, c: Collect, keys: seq<string>, values: seq<string>)
    requires M.Good(hs) && M.EndInLf(hs) && hs != [] && M.Sized(M.Fresh(keys, values))
    requires var all := M.PrintHeaders(hs) + CRLF + rest; EndsWithTerminator(all) && c.stored == Kept(all)
    ensures Sound(c, keys, values) <==> |hs| <= M.HEADER_MAX_LEN && |rest| >= 5
  {
    hide Sound, Kept, M.PrintHeaders, EndsWithTerminator, M.Good;
    var p := M.PrintHeaders(hs);
    var after := M.LOST_BLANK;
    if |rest| >= 5 {
      after := CRLF + Kept(rest);
      KeptAfter(p + CRLF, rest);
      assert p + CRLF + Kept(rest) == p + (CRLF + Kept(rest));
    } else {
      HeadersEndInLf(hs);
      SharedEnd(p, rest);
    }
    if |hs| > M.HEADER_MAX_LEN {
      ManyHeadersUnsound(hs, after, c, keys, values);
    } else if |rest| >= 5 {
      KeptLength(rest);
      SeparateEndSound(hs, Kept(rest), c, keys, values);
    } else {
      SharedEndUnsound(hs, c, keys, values);
    }
  }

  lemma KeptLength(s: string)
    requires |s| >= 5
    ensures |Kept(s)| == |s|
  {
  }

  /** The same end to end, however the network cuts the message. */
  lemma {:induction false} CompletedIsSoundIff(hs: seq<M.Header>, rest: string, chunks: seq<string>, cfg: Config,
      keys: seq<string>, values: seq<string>)
    requires M.Good(hs) && M.EndInLf(hs) && hs != [] && M.Sized(M.Fresh(keys, values))
    requires Concat(chunks) == M.PrintHeaders(hs) + CRLF + rest
    requires FirstEnd(Concat(chunks), |Concat(chunks)|) && |Concat(chunks)| <= cfg.dataBufferSize
    requires cfg.readBufferSize > 0
    ensures var (end, messages) := Serve(View(Reading, Some(Begun(""))), cfg, AllGood(chunks));
            end.status.Inactive? && |messages| == 1 &&
            (Sound(messages[0], keys, values) <==> |hs| <= M.HEADER_MAX_LEN && |rest| >= 5)
  {
    hide Serve, Feed, FeedChunks, EndsLate, Concat, M.Run, M.PrintHeaders, Sound;
    var all, limit := Concat(chunks), cfg.dataBufferSize;
    assert all[..|all|] == all;
    EndsAtFirstTerminator(all, "", limit);
    ChunksDoNotMatter(Begun(""), chunks, limit);
    ServeIsFeedChunks(Begun(""), cfg, chunks);
    var (_, messages) := Serve(View(Reading, Some(Begun(""))), cfg, AllGood(chunks));
    SoundIff(hs, rest, messages[0], keys, values);
  }

  /** The shortest such message: one header, the blank line and the dot. */
  lemma BlankLineAndDot(c: Collect, keys: seq<string>, values: seq<string>)
    requires M.Sized(M.Fresh(keys, values)) && c.stored == Kept("k: v\r\n\r\n.\r\n")
    ensures !Sound(c, keys, values)
  {
    var hs := [M.Header("k", ' ', "v", '\n')];
    assert hs[1..] == [] && M.PrintHeaders(hs) == "k: v\r\n";
    assert "k: v\r\n" + CRLF + ".\r\n" == "k: v\r\n\r\n.\r\n";
    assert "k: v\r\n\r\n.\r\n"[6..] == TERMINATOR;
    SoundIff(hs, ".\r\n", c, keys, values);
  }

  // ---------- The code ----------

  /** How many sends a reply of `n` bytes takes. */
  function SendCount(n: nat, size: int): nat
    requires size > 0
  {
    if n <= size then 1 else (n + size - 1) / size
  }

  ghost predicate AllSent(n: nat, size: int, sends: nat -> Sent)
    requires size > 0
  {
    forall k :: 0 <= k < SendCount(n, size) ==> sends(k).Took?
  }

  /** How many bytes send number `k` is given. */
  function ChunkLen(n: nat, size: int, k: nat): int
    requires size > 0
  {
    if k * size + size <= n then size else n - k * size
  }

  /** None of the first `count` sends takes less than it is given. */
  ghost predicate NoneShort(n: nat, size: int, sends: nat -> Sent, count: nat)
    requires size > 0
  {
    forall k :: 0 <= k < count && sends(k).Took? ==> sends(k).n >= ChunkLen(n, size, k)
  }

  /** What goes out of `text`: the sends succeed or one is refused; if none takes too little, it is a
      prefix; and after success it is all of the text exactly if none does. */
  ghost predicate IsSent(text: string, size: int, sends: nat -> Sent, ok: bool, sent: string)
    requires size > 0
  {
    var none := NoneShort(|text|, size, sends, SendCount(|text|, size));
    && (ok <==> AllSent(|text|, size, sends))
    && |sent| <= |text| && (none ==> sent <= text)
    && (ok ==> (sent == text <==> none))
  }

  /** The part of a chunk that a send takes. */
  function Taken(chunk: string, s: Sent): string
    requires s.Took?
  {
    if s.n < |chunk| then chunk[..s.n] else chunk
  }

  /** The writing part of `connection_handle`: one send, or chunks of the write buffer size. The chunks
      follow one another whatever count a send returns, so a short count loses the rest of its chunk. */
  method SendReply(text: string, size: int, sends: nat -> Sent) returns (ok: bool, sent: string)
    requires size > 0
    ensures IsSent(text, size, sends, ok, sent)
  {
    ok, sent := true, "";
    if |text| <= size {
      ok := sends(0).Took?;
      if ok {
        sent := Taken(text, sends(0));
      }
    } else {
      var dataSent, k := 0, 0;
      while dataSent < |text|
        invariant ok && 0 <= dataSent <= |text| && |sent| <= dataSent
        invariant if NoneShort(|text|, size, sends, k) then sent == text[..dataSent] else |sent| < dataSent
        invariant 0 <= k && dataSent == (if k * size <= |text| then k * size else |text|)
        invariant dataSent < |text| ==> dataSent == k * size
        invariant forall j :: 0 <= j < k ==> sends(j).Took?
        invariant (k - 1) * size < |text|
      {
        var n := |text| - dataSent;
        if n >= size {
          n := size;
        }
        CountAt(|text|, size, k);
        ShortAt(|text|, size, sends, k);
        if sends(k).Refused? {
          ok := false;
          assert NoneShort(|text|, size, sends, SendCount(|text|, size)) ==> NoneShort(|text|, size, sends, k);
          return;
        }
        sent := sent + Taken(text[dataSent..dataSent + n], sends(k));
        dataSent := dataSent + n;
        k := k + 1;
      }
      CountEnd(|text|, size, k);
    }
  }

  /** The chunks are full but for the last one, which is not longer, and together they are the whole reply. */
  lemma ChunksCover(n: nat, size: int)
    requires size > 0
    ensures SendCount(n, size) > 0
    ensures forall k :: 0 <= k < SendCount(n, size) - 1 ==> ChunkLen(n, size, k) == size
    ensures var last := SendCount(n, size) - 1;
            && last * size + ChunkLen(n, size, last) == n
            && ChunkLen(n, size, last) <= size && (n > 0 ==> ChunkLen(n, size, last) > 0)
  {
    var last := SendCount(n, size) - 1;
    if n > size {
      CountBounds(n, size);
      assert (last + 1) * size == last * size + size;
      forall k | 0 <= k < last
        ensures ChunkLen(n, size, k) == size
      {
        MulMono(k + 1, last, size);
        assert (k + 1) * size == k * size + size;
      }
    } else {
      assert last == 0 && last * size == 0;
    }
  }

  lemma ShortAt(n: nat, size: int, sends: nat -> Sent, k: nat)
    requires size > 0
    ensures NoneShort(n, size, sends, k + 1) <==>
            NoneShort(n, size, sends, k) && (sends(k).Took? ==> sends(k).n >= ChunkLen(n, size, k))
  {
  }

  lemma MulMono(a: int, b: int, size: int)
    requires size > 0
    ensures a <= b ==> a * size <= b * size
  {
  }

  lemma CountBounds(n: nat, size: int)
    requires size > 0 && n > size
    ensures var c := SendCount(n, size); n <= c * size && (c - 1) * size < n
  {
    var c, last := SendCount(n, size), n + size - 1;
    assert last == c * size + last % size;
    assert (c - 1) * size == c * size - size;
  }

  lemma CountAt(n: nat, size: int, k: nat)
    requires size > 0 && n > size && k * size < n
    ensures k < SendCount(n, size)
    ensures (k + 1) * size == k * size + size
  {
    CountBounds(n, size);
    MulMono(SendCount(n, size), k, size);
  }

  lemma CountEnd(n: nat, size: int, k: nat)
    requires size > 0 && n > size && (k - 1) * size < n <= k * size
    ensures k == SendCount(n, size)
  {
    hide SendCount;
    CountBounds(n, size);
    MulMono(SendCount(n, size), k - 1, size);
    MulMono(k, SendCount(n, size) - 1, size);
  }

  /** An inactive connection that is sent "DATA CRLF" begins the DATA phase of an empty message. */
  lemma DataCommandBegins(cfg: Config)
    requires cfg.readBufferSize > 0
    ensures Next(Wake(View(Inactive, None), false), cfg, Bytes("DATA\r\n"), true) == View(Reading, Some(Begun("")))
  {
    assert At("DATA\r\n", 0, "DATA\r\n");
  }

  function Welcome(cfg: Config): string {
    "220 " + cfg.hostname + " SMTP " + cfg.serverName + "\r\n"
  }

  /** The request as a call leaves it before writing. */
  function Parsed(v: View, cfg: Config, read: Read): Collect
    requires v.status.Reading? ==> v.request.Some?
  {
    if v.status.Reading? && read.Bytes? then Feed(v.request.value, read.bytes, 0, cfg.dataBufferSize) else NEW_REQUEST
  }

  /** The text a call writes, if it gets as far as writing. */
  function Reply(v: View, cfg: Config, read: Read): string
    requires v.status.Reading? ==> v.request.Some?
  {
    if v.status.Started? then Welcome(cfg)
    else if v.status.Reading? && read.Bytes? then Feed(v.request.value, read.bytes, 0, cfg.dataBufferSize).reply
    else []
  }

  // ---------- The greeting ----------

  /** The views that the calls of a session see. */
  function Seen(v: View, cfg: Config, calls: seq<Call>): (r: seq<View>)
    requires Settled(v)
    ensures |r| <= |calls| && forall k :: 0 <= k < |r| ==> Settled(r[k])
    decreases |calls|
  {
    if calls == [] then []
    else
      var u := Wake(v, calls[0].hangUp);
      NextIsSettled(u, cfg, calls[0].read, calls[0].ok);
      var next := Next(u, cfg, calls[0].read, calls[0].ok);
      [u] + if next.status.Inactive? then [] else Seen(next, cfg, calls[1..])
  }

  predicate NoGreeting(reply: string) {
    reply == [] || (|reply| > 2 && reply[..3] != "220")
  }

  lemma NoGreetingAfter(reply: string, more: string)
    requires NoGreeting(reply) && more in {DATA_REPLY, EHLO_REPLY, OK_REPLY, QUIT_REPLY, QUEUED_REPLY}
    ensures NoGreeting(reply + more)
  {
    if reply == [] {
      assert reply + more == more;
      assert more[..3][1] == more[1] && more[..3][2] == more[2] && more[..3][0] == more[0];
    } else {
      assert (reply + more)[..3] == reply[..3];
    }
  }

  lemma {:induction false} FeedNeverGreets(st: Collect, buf: string, i: nat, limit: int)
    requires i <= |buf| && NoGreeting(st.reply)
    ensures NoGreeting(Feed(st, buf, i, limit).reply)
    decreases |buf| - i
  {
    if i < |buf| && !st.tooBig {
      NoGreetingAfter(st.reply, DATA_REPLY);
      NoGreetingAfter(st.reply, EHLO_REPLY);
      NoGreetingAfter(st.reply, OK_REPLY);
      NoGreetingAfter(st.reply, QUIT_REPLY);
      NoGreetingAfter(st.reply, QUEUED_REPLY);
      hide NoGreeting, At, EndsWithTerminator;
      if st.inData {
        FeedNeverGreets(Store(st, buf[i], limit), buf, i + 1, limit);
      } else {
        var (next, n) := Command(st, buf, i);
        FeedNeverGreets(next, buf, i + n, limit);
      }
    }
  }

  /** The worker starts a connection straight into reading: no call of a session finds it just started, and
      none replies with the greeting. */
  lemma {:induction false} NeverGreets(v: View, cfg: Config, calls: seq<Call>, k: nat)
    requires Settled(v) && !v.status.Started? && k < |Seen(v, cfg, calls)|
    ensures !Seen(v, cfg, calls)[k].status.Started?
    ensures Reply(Seen(v, cfg, calls)[k], cfg, calls[k].read) != Welcome(cfg)
    decreases |calls|
  {
    var u := Wake(v, calls[0].hangUp);
    NextIsSettled(u, cfg, calls[0].read, calls[0].ok);
    var next := Next(u, cfg, calls[0].read, calls[0].ok);
    if k > 0 {
      NeverGreets(next, cfg, calls[1..], k - 1);
    } else {
      WelcomeStarts(cfg);
      if u.status.Reading? && calls[0].read.Bytes? {
        FeedNeverGreets(u.request.value, calls[0].read.bytes, 0, cfg.dataBufferSize);
      }
    }
  }

  lemma WelcomeStarts(cfg: Config)
    ensures !NoGreeting(Welcome(cfg))
  {
    assert Welcome(cfg)[..3] == "220";
  }

  /** Does a call in state `v` get as far as writing? */
  predicate Writes(v: View, cfg: Config, read: Read)
    requires v.status.Reading? ==> v.request.Some?
  {
    v.status.Started? ||
    (v.status.Reading? && cfg.readBufferSize > 0 && read.Bytes? && read.bytes != [] &&
     !Feed(v.request.value, read.bytes, 0, cfg.dataBufferSize).tooBig)
  }

  // ---------- When a session ends ----------

  /** A call ends the session exactly if the other end has hung up, nothing can be read, or something has
      been read that grows too big, asks to quit, or is not answered because a send is refused. */
  lemma CallEndsIff(v: View, cfg: Config, c: Call)
    requires Settled(v) && (v.status.Reading? || v.status.Inactive?)
    ensures var request := if v.status.Reading? then v.request.value else Collect([], false, false, false, "", false);
            var next := Next(Wake(v, c.hangUp), cfg, c.read, c.ok);
            && (next.status.Inactive? || next.status.Reading?)
            && (next.status.Inactive? <==>
                  || c.hangUp || cfg.readBufferSize <= 0 || c.read.Failed?
                  || (c.read.bytes != [] &&
                      var r := Feed(request, c.read.bytes, 0, cfg.dataBufferSize); r.tooBig || r.quit || !c.ok))
  {
    hide Feed;
  }

  /** A session ends with the first call that has a send refused: what would come after it plays no part. */
  lemma {:induction false} EndsAtRefusal(v: View, cfg: Config, calls: seq<Call>, k: nat)
    requires Settled(v) && k < |Seen(v, cfg, calls)|
    requires Writes(Seen(v, cfg, calls)[k], cfg, calls[k].read) && !calls[k].ok
    ensures |Seen(v, cfg, calls)| == k + 1 && Serve(v, cfg, calls).0 == View(Inactive, None)
    ensures Serve(v, cfg, calls) == Serve(v, cfg, calls[..k + 1])
    decreases |calls|
  {
    hide Feed;
    var u := Wake(v, calls[0].hangUp);
    NextIsSettled(u, cfg, calls[0].read, calls[0].ok);
    var next := Next(u, cfg, calls[0].read, calls[0].ok);
    var front := calls[..k + 1];
    assert front[0] == calls[0];
    if k > 0 {
      assert front[1..] == calls[1..][..k];
      EndsAtRefusal(next, cfg, calls[1..], k - 1);
    }
  }

  // ---------- A session from its start ----------

  /** Lines of commands, in one read, outside the DATA phase: the answers go out in order, and the session
      goes on with a new request, unless one of the lines is a QUIT. */
  lemma {:induction false} LinesAreServed(v: View, cfg: Config, ls: seq<Line>)
    requires Settled(v) && v.status.Reading? && !v.request.value.inData
    requires (forall l :: l in ls ==> Silent(l.rest)) && ls != [] && cfg.readBufferSize > 0
    ensures var read := Bytes(PrintLines(ls));
            && Writes(v, cfg, read) && Reply(v, cfg, read) == Answers(ls) && Completed(v, cfg, read).None?
            && Next(v, cfg, read, true) ==
               if Quits(ls) then View(Inactive, None)
               else View(Reading, Some(Collect([], false, false, false, "", false)))
  {
    hide Feed, At, Silent, Quits, Answers, PrintLine;
    var st, s := v.request.value, PrintLines(ls);
    WholeAt(s);
    LinesAreAnswered(st, s, 0, ls, cfg.dataBufferSize);
    AtTheEnd(st.(reply := st.reply + Answers(ls), quit := st.quit || Quits(ls)), s, cfg.dataBufferSize);
    assert "" + Answers(ls) == Answers(ls);
    LineIsLong(ls[0]);
  }

  lemma LineIsLong(l: Line)
    ensures |PrintLine(l)| >= 2
  {
  }

  /** Lines and the DATA command, in one read: the session goes on inside an empty message. */
  lemma {:induction false} LinesBeginData(v: View, cfg: Config, ls: seq<Line>)
    requires v == View(Reading, Some(NEW_REQUEST))
    requires (forall l :: l in ls ==> Silent(l.rest)) && !Quits(ls) && cfg.readBufferSize > 0
    ensures var read := Bytes(PrintLines(ls) + "DATA\r\n");
            && Writes(v, cfg, read) && Completed(v, cfg, read).None?
            && Reply(v, cfg, read) == Answers(ls) + "354 End data with <CR><LF>.<CR><LF>\r\n"
            && Next(v, cfg, read, true) == View(Reading, Some(Begun("")))
  {
    hide Feed, At, Silent, Quits, Answers, PrintLines;
    var st, a := v.request.value, PrintLines(ls);
    var s := a + "DATA\r\n";
    WholeAt(s);
    AtSplit(s, 0, a, "DATA\r\n");
    LinesAreAnswered(st, s, 0, ls, cfg.dataBufferSize);
    assert "" + Answers(ls) == Answers(ls);
    var said := st.(reply := Answers(ls));
    DataBegins(said, s, |a|, cfg.dataBufferSize);
    AtTheEnd(said.(inData := true, reply := said.reply + "354 End data with <CR><LF>.<CR><LF>\r\n"), s,
             cfg.dataBufferSize);
  }

  /** Groups of lines, each as one read. */
  function Reads(groups: seq<seq<Line>>): (r: seq<string>)
    ensures |r| == |groups|
  {
    if groups == [] then [] else [PrintLines(groups[0])] + Reads(groups[1..])
  }

  /** Lines of a handshake, without QUIT and with no command inside a line. */
  predicate Polite(ls: seq<Line>) {
    !Quits(ls) && forall l :: l in ls ==> Silent(l.rest)
  }

  predicate AllPolite(groups: seq<seq<Line>>) {
    forall g :: g in groups ==> g != [] && Polite(g)
  }

  lemma {:induction false} HandshakeIsServed(cfg: Config, groups: seq<seq<Line>>, ls: seq<Line>, chunks: seq<string>)
    requires AllPolite(groups) && Polite(ls) && cfg.readBufferSize > 0
    ensures Serve(View(Reading, Some(NEW_REQUEST)), cfg,
                  AllGood(Reads(groups) + [PrintLines(ls) + "DATA\r\n"] + chunks)) ==
            Serve(View(Reading, Some(Begun(""))), cfg, AllGood(chunks))
    decreases |groups|
  {
    hide Feed, Silent, Quits, PrintLines, Next, Completed, Answers, Reply, Writes;
    var v := View(Reading, Some(NEW_REQUEST));
    var all := Reads(groups) + [PrintLines(ls) + "DATA\r\n"] + chunks;
    var calls := AllGood(all);
    if groups == [] {
      LinesBeginData(v, cfg, ls);
      assert all[1..] == chunks;
    } else {
      var g := groups[0];
      assert g in groups && forall h :: h in groups[1..] ==> h in groups;
      LinesAreServed(v, cfg, g);
      assert all[1..] == Reads(groups[1..]) + [PrintLines(ls) + "DATA\r\n"] + chunks;
      HandshakeIsServed(cfg, groups[1..], ls, chunks);
    }
    var next := Next(v, cfg, Bytes(all[0]), true);
    assert calls[0] == Call(false, Bytes(all[0]), true) && calls[1..] == AllGood(all[1..]);
    var (end, more) := Serve(next, cfg, calls[1..]);
    assert [] + more == more;
  }

  /** A whole session: a connection that is started, any number of reads with lines of commands, DATA, and
      a printed mail, cut in whatever way. One message is completed, and what is queued for it is what was
      sent. */
  lemma {:induction false} SessionDelivers(groups: seq<seq<Line>>, ls: seq<Line>, hs: seq<M.Header>, body: string,
      chunks: seq<string>, cfg: Config, mail: Option<Mail>, fault: bool, keys: seq<string>, values: seq<string>)
    requires AllPolite(groups) && Polite(ls)
    requires M.Good(hs) && M.EndInLf(hs) && 0 < |hs| <= 20
    requires Concat(chunks) == M.PrintMail(hs, body) + TERMINATOR
    requires FirstEnd(Concat(chunks), |Concat(chunks)|) && |Concat(chunks)| <= cfg.dataBufferSize
    requires cfg.readBufferSize > 0
    ensures var calls := AllGood(Reads(groups) + [PrintLines(ls) + "DATA\r\n"] + chunks);
            var (end, messages) := Serve(View(Inactive, None), cfg, calls);
            && end.status.Inactive? && |messages| == 1
            && (IsOutcome(messages[0], mail, fault, keys, values) ==> !fault && IsQueuedFor(mail, hs, body))
  {
    hide Serve, Feed, Concat, FirstEnd, IsOutcome, M.PrintMail, Polite, AllPolite, IsQueuedFor;
    var all := Reads(groups) + [PrintLines(ls) + "DATA\r\n"] + chunks;
    WakesUp(cfg, AllGood(all));
    HandshakeIsServed(cfg, groups, ls, chunks);
    MailIsDelivered(hs, body, chunks, cfg, mail, fault, keys, values);
  }

  lemma {:induction false} WakesUp(cfg: Config, calls: seq<Call>)
    requires calls != [] && !calls[0].hangUp
    ensures Serve(View(Inactive, None), cfg, calls) == Serve(View(Reading, Some(NEW_REQUEST)), cfg, calls)
  {
  }

  /** What becomes of a completed message: a mail for the queue if it has headers, nothing if it has
      none; `fault` marks what the source leaves undefined. */
  ghost predicate IsOutcome(c: Collect, mail: Option<Mail>, fault: bool, keys: seq<string>, values: seq<string>) {
    && M.Sized(M.Fresh(keys, values)) && (fault <==> !Sound(c, keys, values))
    && (!fault ==>
          if mail.None? then M.Run(c.stored, 0, M.Fresh(keys, values)).0.count == 0
          else IsMailOf(mail.value, c, keys, values) && mail.value.headerCount > 0)
  }

  class Connection {
    var status: Status
    var bufferLen: int
    var readBuffer: array?<char>
    var request: R.Request?
    var response: Option<string>

    /** The objects of the current request. */
    ghost function Footprint(): set<object?>
      reads this, request
    {
      if request == null then {} else {request, request.data, request.keys, request.values}
    }

    ghost predicate RequestValid()
      reads this, request, if request == null then {} else {request.data}
    {
      request != null && request.Valid() && request.body == null && request.bodyLen == 0
    }

    ghost predicate Valid()
      reads this, request, if request == null then {} else {request.data}
    {
      && bufferLen == 0
      && match status
         case Inactive => request == null && response == None && readBuffer == null
         case Closed => request != null ==> request.Valid()
         case _ => RequestValid() && response == Some("") && Settled(Abstract())
    }

    ghost function Abstract(): View
      requires request != null ==> request.Valid()
      reads this, request, if request == null then {} else {request.data}
    {
      View(status, if request == null then None else Some(request.Collected("", false)))
    }

    /** `connection_setup`: an idle connection. */
    constructor ()
      ensures Valid() && status == Inactive
    {
      status, bufferLen, readBuffer, request, response := Inactive, 0, null, null, None;
    }

    /** `connection_start`. */
    method Start()
      requires Valid() && status.Inactive?
      modifies this
      ensures Valid() && Abstract() == View(Started, Some(NEW_REQUEST))
      ensures fresh(Footprint() - {null})
    {
      status := Started;
      bufferLen := 0;
      readBuffer := null;
      response := Some("");
      request := new R.Request();
    }

    /** `connection_reset`. */
    method Reset()
      modifies this
      ensures Valid() && Abstract() == View(Inactive, None)
    {
      bufferLen := 0;
      status := Inactive;
      readBuffer := null;
      request := null;
      response := None;
    }

    /** The end of a successful write: keep the request only in the DATA phase, renew the rest. */
    method Renew()
      requires status.Writing? && request != null && request.Valid() && (request.quit || RequestValid())
      modifies this
      ensures response == Some("") && readBuffer == null && bufferLen == 0
      ensures status == if old(request.quit) then Closed else Reading
      ensures status.Reading? ==> RequestValid()
      ensures request != null && request.Valid()
      ensures request.Collected("", false) ==
        if old(request.inData) then old(request.Collected("", false)) else NEW_REQUEST
      ensures if old(request.inData) then request == old(request) else fresh(Footprint() - {null})
    {
      status := if request.quit then Closed else Reading;
      if !request.inData {
        request := new R.Request();
      }
      response := Some("");
      readBuffer := null;
      bufferLen := 0;
    }

    /** Parse the message and build the mail for the queue. `fault` marks what the source leaves
        undefined: a 21st header, or headers without a body. */
    method Complete(ghost c: Collect)
        returns (mail: Option<Mail>, fault: bool, ghost keys: seq<string>, ghost values: seq<string>)
      requires RequestValid() && c.stored == request.Stored()
      modifies request, request.keys, request.values
      ensures request.Valid() && request.Collected("", false) == old(request.Collected("", false))
        && request.data == old(request.data)
      ensures IsOutcome(c, mail, fault, keys, values)
    {
      keys, values := request.KeyRows(), request.ValueRows();
      ghost var p;
      fault, p := request.ParseData();
      mail := None;
      if fault || request.headerCount > M.HEADER_MAX_LEN {
        fault := true;
        return;
      }
      if request.headerCount > 0 {
        if request.body == null {
          fault := true;
          return;
        }
        var headers := [];
        for i := 0 to request.headerCount
          invariant |headers| == i
          invariant forall k :: 0 <= k < i ==> headers[k] == (p.keys[k], p.values[k])
        {
          var key, value := Row(request.keys, i), Row(request.values, i);
          assert key == p.keys[i] && value == p.values[i];
          headers := headers + [(key, value)];
        }
        var body := (if request.bodyLen < BODY_MAX_LEN then request.body[..request.bodyLen] else []) + [NUL];
        mail := Some(Mail(headers, request.headerCount, body));
      }
    }

    /** The state in the middle of a call: bytes have arrived in the read buffer. */
    ghost predicate HasRead(bytes: string)
      reads this, request, readBuffer, if request == null then {} else {request.data}
    {
      && status.Reading? && RequestValid() && response == Some("") && Settled(Abstract())
      && readBuffer != null && readBuffer != request.data && Holds(readBuffer, bytes) && bufferLen == |bytes|
    }

    /** Parse the bytes just read, and complete the message if they end it. */
    method Receive(cfg: Config, ghost bytes: string)
        returns (mail: Option<Mail>, fault: bool, ghost keys: seq<string>, ghost values: seq<string>)
      requires HasRead(bytes) && bytes != []
      modifies this`status, this`response, request, request.data, request.keys, request.values
      ensures request == old(request) && request != null && request.Valid() && response.Some?
      ensures request.data == old(request.data) || fresh(request.data)
      ensures var c := Feed(old(request.Collected("", false)), bytes, 0, cfg.dataBufferSize);
              var done := !c.tooBig && c.process;
              && c == request.Collected(response.value, c.tooBig)
              && status == (if c.tooBig then Error else if fault then Reading else Writing)
              && (if done then IsOutcome(c, mail, fault, keys, values) else mail.None? && !fault && RequestValid())
    {
      mail, fault, keys, values := None, false, [], [];
      var tooBig, reply := request.ParseCommands(readBuffer, bufferLen, bytes, cfg.dataBufferSize);
      response := Some(response.value + reply);
      assert response.value == reply;
      if tooBig {
        status := Error;
      } else {
        if request.process {
          mail, fault, keys, values := Complete(request.Collected(reply, false));
        }
        if !fault {
          status := Writing;
        }
      }
    }

    /** The reading part of `connection_handle`. */
    method ReadAndParse(cfg: Config, read: Read)
        returns (mail: Option<Mail>, fault: bool, ghost keys: seq<string>, ghost values: seq<string>)
      requires Valid() && status.Reading? && cfg.readBufferSize >= 0
      requires read.Bytes? ==> |read.bytes| <= cfg.readBufferSize
      modifies this`status, this`response, this`readBuffer, this`bufferLen, Footprint()
      ensures request == old(request) && request != null && request.Valid()
      ensures request.data == old(request.data) || fresh(request.data)
      ensures if cfg.readBufferSize == 0 || read.Failed? then status.Error? && mail.None? && !fault
              else if read.bytes == [] then Valid() && Abstract() == old(Abstract()) && mail.None? && !fault
              else
                var c := Feed(old(request.Collected("", false)), read.bytes, 0, cfg.dataBufferSize);
                && response.Some? && c == request.Collected(response.value, c.tooBig)
                && status == (if c.tooBig then Error else if fault then Reading else Writing)
                && (if !c.tooBig && c.process then IsOutcome(c, mail, fault, keys, values)
                    else mail.None? && !fault && RequestValid())
    {
      mail, fault, keys, values := None, false, [], [];
      if bufferLen == 0 {
        readBuffer := new char[cfg.readBufferSize + 1];
      }
      if cfg.readBufferSize - bufferLen > 0 {
        match read {
          case Bytes(bytes) =>
            forall k | 0 <= k < |bytes| {
              readBuffer[k] := bytes[k];
            }
            bufferLen := bufferLen + |bytes|;
          case Failed =>
            status := Error;
        }
      } else {
        status := Error;
      }
      if bufferLen > 0 && !status.Error? {
        mail, fault, keys, values := Receive(cfg, read.bytes);
      }
    }

    /** The first part of `connection_handle`: the greeting of a connection that was just started. */
    method Greet(cfg: Config)
      requires Valid()
      modifies this`status, this`response
      ensures if old(status).Started? then
                status.Writing? && response == Some(Welcome(cfg)) &&
                Welcome(cfg) == "220 " + cfg.hostname + " SMTP " + cfg.serverName + "\r\n"
              else status == old(status) && response == old(response)
    {
      if status.Started? {
        response := Some(response.value + "220 ");
        response := Some(response.value + cfg.hostname);
        response := Some(response.value + " SMTP ");
        response := Some(response.value + cfg.serverName);
        response := Some(response.value + "\r\n");
        assert response.value == Welcome(cfg);
        status := Writing;
      }
    }

    /** The response of a call in state `v` stands ready, and the request is as the call has left it. */
    ghost predicate ReadyToWrite(v: View, cfg: Config, read: Read)
      requires v.status.Reading? ==> v.request.Some?
      reads this, request, if request == null then {} else {request.data}
    {
      && status.Writing? && response == Some(Reply(v, cfg, read)) && request != null && request.Valid()
      && (request.quit || (RequestValid() && !request.process))
      && request.Collected("", false) == Parsed(v, cfg, read).(reply := "")
    }

    /** Everything before the writing part. */
    method Prepare(cfg: Config, read: Read)
        returns (mail: Option<Mail>, fault: bool, ghost keys: seq<string>, ghost values: seq<string>)
      requires Valid() && cfg.readBufferSize >= 0
      requires read.Bytes? ==> |read.bytes| <= cfg.readBufferSize
      modifies this`status, this`response, this`readBuffer, this`bufferLen, Footprint()
      ensures request == old(request) && fresh(Footprint() - old(Footprint()) - {null})
      ensures var done := Completed(old(Abstract()), cfg, read);
              && (done.None? ==> !fault && mail.None?)
              && (done.Some? ==> IsOutcome(done.value, mail, fault, keys, values))
      ensures !fault ==>
                if Writes(old(Abstract()), cfg, read) then ReadyToWrite(old(Abstract()), cfg, read)
                else if status.Reading? then Valid() && Abstract() == Next(old(Abstract()), cfg, read, true)
                else (status.Error? || status.Closed? || status.Inactive?) &&
                     Next(old(Abstract()), cfg, read, true) == View(Inactive, None)
    {
      hide Feed, M.Run, IsOutcome;
      ghost var v := Abstract();
      if v.status.Reading? && read.Bytes? {
        ProcessComesWithQuit(v.request.value, read.bytes, 0, cfg.dataBufferSize);
      }
      mail, fault, keys, values := None, false, [], [];
      Greet(cfg);
      if status.Reading? {
        mail, fault, keys, values := ReadAndParse(cfg, read);
      }
    }

    /** The writing part: send the response, then go on reading or close. */
    method Respond(cfg: Config, sends: nat -> Sent, ghost v: View, ghost read: Read) returns (ok: bool, sent: string)
      requires cfg.writeBufferSize > 0 && (v.status.Reading? ==> v.request.Some?)
      requires ReadyToWrite(v, cfg, read)
      modifies this
      ensures IsSent(Reply(v, cfg, read), cfg.writeBufferSize, sends, ok, sent)
      ensures var next := AfterWrite(Parsed(v, cfg, read), ok);
              if next.status.Reading? then status.Reading? && Valid() && Abstract() == next
              else status.Error? || status.Closed?
      ensures request == old(request) || fresh(Footprint() - {null})
    {
      hide Feed, IsSent;
      ok, sent := SendReply(response.value, cfg.writeBufferSize, sends);
      if !ok {
        status := Error;
      }
      if !status.Error? {
        Renew();
      }
    }

    /** The last part: an error closes the connection, and a closed one is reset. */
    method Finish()
      modifies this
      ensures if old(status).Error? || old(status).Closed? || old(status).Inactive? then
                Valid() && Abstract() == View(Inactive, None)
              else
                status == old(status) && bufferLen == old(bufferLen) && readBuffer == old(readBuffer) &&
                request == old(request) && response == old(response)
    {
      if status.Error? {
        status := Closed;
      }
      if status.Closed? {
        status := Inactive;
      }
      if status.Inactive? {
        Reset();
      }
    }

    /** `connection_handle`. `ok` tells whether every send of the call succeeded, `sent` what went out. */
    method Handle(cfg: Config, ev: Event)
        returns (ok: bool, sent: string, mail: Option<Mail>, fault: bool,
                ghost keys: seq<string>, ghost values: seq<string>)
      requires Valid() && cfg.readBufferSize >= 0 && cfg.writeBufferSize > 0
      requires ev.read.Bytes? ==> |ev.read.bytes| <= cfg.readBufferSize
      modifies this, Footprint()
      ensures var done := Completed(old(Abstract()), cfg, ev.read);
              && (done.None? ==> !fault && mail.None?)
              && (done.Some? ==> IsOutcome(done.value, mail, fault, keys, values))
      ensures !fault ==> Valid() && Abstract() == Next(old(Abstract()), cfg, ev.read, ok)
      ensures !fault && Writes(old(Abstract()), cfg, ev.read) ==>
              IsSent(Reply(old(Abstract()), cfg, ev.read), cfg.writeBufferSize, ev.sends, ok, sent)
      // a refused send ends the connection; without one it goes on reading, unless the request quits
      ensures !fault && Writes(old(Abstract()), cfg, ev.read) ==>
              var count := SendCount(|Reply(old(Abstract()), cfg, ev.read)|, cfg.writeBufferSize);
              if exists k :: 0 <= k < count && ev.sends(k).Refused? then
                status.Inactive? && request == null && response == None && readBuffer == null
              else
                status.Reading? <==> !Parsed(old(Abstract()), cfg, ev.read).quit
      // so does a failed read
      ensures old(status).Reading? && ev.read.Failed? ==>
              !fault && status.Inactive? && request == null && response == None && readBuffer == null
      ensures fresh(Footprint() - old(Footprint()) - {null})
    {
      hide Feed, IsSent, M.Run, IsOutcome, AfterWrite, Reply, Parsed;
      ghost var v := Abstract();
      ok, sent := true, "";
      mail, fault, keys, values := Prepare(cfg, ev.read);
      if fault {
        return;
      }
      NextIsAfterWrite(v, cfg, ev.read);
      if status.Writing? {
        ok, sent := Respond(cfg, ev.sends, v, ev.read);
        OkMeansNoneRefused(Reply(v, cfg, ev.read), cfg.writeBufferSize, ev.sends, ok, sent);
        ReadsOnIff(Parsed(v, cfg, ev.read), ok);
      }
      Finish();
    }
  }

  lemma OkMeansNoneRefused(text: string, size: int, sends: nat -> Sent, ok: bool, sent: string)
    requires size > 0 && IsSent(text, size, sends, ok, sent)
    ensures ok <==> !exists k :: 0 <= k < SendCount(|text|, size) && sends(k).Refused?
  {
    assert AllSent(|text|, size, sends) ==> forall k :: 0 <= k < SendCount(|text|, size) ==> sends(k).Took?;
  }

  lemma ReadsOnIff(c: Collect, ok: bool)
    ensures AfterWrite(c, ok).status.Reading? <==> ok && !c.quit
    ensures AfterWrite(c, ok).status.Reading? || AfterWrite(c, ok) == View(Inactive, None)
  {
  }

  lemma NextIsAfterWrite(v: View, cfg: Config, read: Read)
    requires v.status.Reading? ==> v.request.Some?
    ensures Writes(v, cfg, read) ==> forall ok :: Next(v, cfg, read, ok) == AfterWrite(Parsed(v, cfg, read), ok)
    ensures !Writes(v, cfg, read) ==> forall ok :: Next(v, cfg, read, ok) == Next(v, cfg, read, true)
    ensures forall ok :: AfterWrite(Parsed(v, cfg, read), ok).status.Reading? ||
                         AfterWrite(Parsed(v, cfg, read), ok) == View(Inactive, None)
  {
  }

  /** The contents of one header buffer. */
  function Row(a: array2<char>, k: nat): string
    requires k < a.Length0
    reads a
  {
    seq(a.Length1, j requires 0 <= j < a.Length1 reads a => a[k, j])
  }

  /** One event, as a worker handles it: a hang-up closes the connection and an inactive one is started,
      straight into reading; then it is handled. */
  method HandleEvent(conn: Connection, cfg: Config, ev: Event)
      returns (ok: bool, sent: string, mail: Option<Mail>, fault: bool,
              ghost keys: seq<string>, ghost values: seq<string>)
    requires conn.Valid() && cfg.readBufferSize >= 0 && cfg.writeBufferSize > 0
    requires ev.read.Bytes? ==> |ev.read.bytes| <= cfg.readBufferSize
    modifies conn, conn.Footprint()
    ensures var done := Completed(Wake(old(conn.Abstract()), ev.hangUp), cfg, ev.read);
            && (done.None? ==> !fault && mail.None?)
            && (done.Some? ==> IsOutcome(done.value, mail, fault, keys, values))
    ensures !fault ==>
              var v := Wake(old(conn.Abstract()), ev.hangUp);
              && conn.Valid() && conn.Abstract() == Next(v, cfg, ev.read, ok)
              && (conn.status.Reading? || conn.status.Inactive?)
              && (Writes(v, cfg, ev.read) ==> IsSent(Reply(v, cfg, ev.read), cfg.writeBufferSize, ev.sends, ok, sent))
    ensures fresh(conn.Footprint() - old(conn.Footprint()) - {null})
  {
    hide Feed, IsSent, IsOutcome, Reply;
    if ev.hangUp {
      conn.status := Closed;
    } else if conn.status.Inactive? {
      conn.Start();
      conn.status := Reading;
    }
    ghost var v := conn.Abstract();
    assert v == Wake(old(conn.Abstract()), ev.hangUp);
    ok, sent, mail, fault, keys, values := conn.Handle(cfg, ev);
    NextIsSettled(v, cfg, ev.read, ok);
  }

  /** The calls are those of the first events. */
  ghost predicate AreCalls(calls: seq<Call>, events: seq<Event>) {
    && |calls| <= |events|
    && forall k :: 0 <= k < |calls| ==> calls[k].hangUp == events[k].hangUp && calls[k].read == events[k].read
  }

  /** The mails queued are what becomes of the messages of the session, of which there is at most one. */
  ghost predicate AreMailsOf(mails: seq<Mail>, messages: seq<Collect>, fault: bool,
        keys: seq<string>, values: seq<string>) {
    if messages == [] then mails == [] && !fault
    else
      && |messages| == 1 && |mails| <= 1
      && IsOutcome(messages[0], if mails == [] then None else Some(mails[0]), fault, keys, values)
  }

  /** A session, as a worker drives it, until the connection is inactive again: it is in the view that the
      specification gives for the events, and queues the mail of its message. */
  method RunSession(conn: Connection, cfg: Config, events: seq<Event>)
      returns (mails: seq<Mail>, fault: bool, ghost calls: seq<Call>,
              ghost keys: seq<string>, ghost values: seq<string>)
    requires conn.Valid() && conn.status.Inactive? && cfg.readBufferSize >= 0 && cfg.writeBufferSize > 0
    requires forall i :: 0 <= i < |events| && events[i].read.Bytes? ==> |events[i].read.bytes| <= cfg.readBufferSize
    modifies conn
    ensures AreCalls(calls, events) && |mails| <= 1
    ensures AreMailsOf(mails, Serve(View(Inactive, None), cfg, calls).1, fault, keys, values)
    ensures !fault ==>
              && conn.Valid() && conn.Abstract() == Serve(View(Inactive, None), cfg, calls).0
              && (conn.status.Reading? || conn.status.Inactive?)
              && (conn.status.Reading? ==> |calls| == |events|)
              && (conn.status.Inactive? ==> conn.request == null && conn.response == None && conn.readBuffer == null)
  {
    hide Serve, IsOutcome, Next, Completed, Wake;
    ghost var start := View(Inactive, None);
    mails, fault, calls, keys, values := [], false, [], [], [];
    var i := 0;
    NothingServed(start, cfg);
    while i < |events| && (i == 0 || !conn.status.Inactive?) && !fault
      invariant 0 <= i <= |events| && fresh(conn.Footprint() - {null})
      invariant i == |calls| && AreCalls(calls, events)
      invariant !fault ==> conn.Valid() && (conn.status.Reading? || conn.status.Inactive?)
      invariant !fault ==> conn.Abstract() == Serve(start, cfg, calls).0
      invariant !fault && !conn.status.Inactive? ==> Serve(start, cfg, calls).1 == []
      invariant i == 0 ==> !fault && conn.status.Inactive? && Serve(start, cfg, calls).1 == []
      invariant AreMailsOf(mails, Serve(start, cfg, calls).1, fault, keys, values)
    {
      var ok, sent, mail;
      ok, sent, mail, fault, keys, values := HandleEvent(conn, cfg, events[i]);
      ghost var c := Call(events[i].hangUp, events[i].read, ok);
      ServeSnoc(start, cfg, calls, c);
      AtMostOneMessage(start, cfg, calls + [c]);
      calls := calls + [c];
      FaultQueuesNothing(mail, keys, values);
      if mail.Some? && !fault {
        mails := mails + [mail.value];
      }
      i := i + 1;
    }
  }

  lemma FaultQueuesNothing(mail: Option<Mail>, keys: seq<string>, values: seq<string>)
    ensures forall c :: IsOutcome(c, mail, true, keys, values) ==> IsOutcome(c, None, true, keys, values)
  {
  }

  lemma {:induction false} NothingServed(v: View, cfg: Config)
    requires Settled(v)
    ensures Serve(v, cfg, []) == (v, [])
  {
  }
}
