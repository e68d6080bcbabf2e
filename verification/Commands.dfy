/** Conversations: what the collector answers to lines of commands, and how a message follows them. */
module Commands {
  import opened CString
  import opened DataPhase
  import opened Wrappers

  datatype Verb = Ehlo | MailFrom | RcptTo | Quit

  function Word(v: Verb): (r: string)
    ensures r != []
  {
    match v
    case Ehlo => "EHLO"
    case MailFrom => "MAIL FROM:"
    case RcptTo => "RCPT TO:"
    case Quit => "QUIT"
  }

  /** Each answer is one line with a code: 221 for the goodbye, 250 for everything else. */
  function Answer(v: Verb): (r: string)
    ensures |r| > 5 && r[..4] == (if v.Quit? then "221 " else "250 ") && r[|r| - 2..] == CRLF
  {
    match v
    case Ehlo => "250 Hi, you have a report for me?\r\n"
    case MailFrom => "250 Ok\r\n"
    case RcptTo => "250 Ok\r\n"
    case Quit => "221 Bye, see you tomorrow!\r\n"
  }

  /** A line: a command and the rest of it, or a line that is none. */
  datatype Line = Line(verb: Option<Verb>, rest: string)

  function PrintLine(l: Line): string {
    (if l.verb.Some? then Word(l.verb.value) else "") + l.rest + CRLF
  }

  function PrintLines(ls: seq<Line>): string {
    if ls == [] then [] else PrintLine(ls[0]) + PrintLines(ls[1..])
  }

  function AnswerLine(l: Line): string {
    if l.verb.Some? then Answer(l.verb.value) else ""
  }

  function Answers(ls: seq<Line>): string {
    if ls == [] then [] else AnswerLine(ls[0]) + Answers(ls[1..])
  }

  predicate Quits(ls: seq<Line>) {
    exists k :: 0 <= k < |ls| && ls[k].verb == Some(Quit)
  }

  /** A command stands at index `i`. */
  predicate Starts(s: string, i: nat) {
    At(s, i, "DATA\r\n") || exists v :: At(s, i, Word(v))
  }

  /** No command starts in the rest of a line. */
  predicate Silent(rest: string) {
    forall i :: 0 <= i < |rest| ==> !Starts(rest + CRLF, i)
  }

  /** The state after a line that is answered. */
  function Said(st: Collect, l: Line): Collect {
    st.(reply := st.reply + AnswerLine(l), quit := st.quit || l.verb == Some(Quit))
  }

  // ---------- One position ----------

  /** At most one command stands at a place, and its first letter tells which. */
  lemma FirstLetter(s: string, i: nat)
    ensures At(s, i, "DATA\r\n") ==> i < |s| && s[i] == 'D'
    ensures At(s, i, Word(Ehlo)) ==> i < |s| && s[i] == 'E'
    ensures At(s, i, Word(MailFrom)) ==> i < |s| && s[i] == 'M'
    ensures At(s, i, Word(RcptTo)) ==> i < |s| && s[i] == 'R'
    ensures At(s, i, Word(Quit)) ==> i < |s| && s[i] == 'Q'
  {
    assert i < |s| ==> s[i + 0] == s[i];
    assert "DATA\r\n"[0] == 'D' && "EHLO"[0] == 'E' && "MAIL FROM:"[0] == 'M';
    assert "RCPT TO:"[0] == 'R' && "QUIT"[0] == 'Q';
  }

  lemma CommandIsAnswered(st: Collect, s: string, i: nat, v: Verb)
    requires At(s, i, Word(v))
    ensures Command(st, s, i) == (Said(st, Line(Some(v), "")), 1)
  {
    hide At;
    FirstLetter(s, i);
  }

  lemma DataIsAnswered(st: Collect, s: string, i: nat)
    requires At(s, i, "DATA\r\n")
    ensures Command(st, s, i) == (st.(inData := true, reply := st.reply + "354 End data with <CR><LF>.<CR><LF>\r\n"), 6)
  {
    hide At;
  }

  lemma NoCommand(st: Collect, s: string, i: nat)
    requires !Starts(s, i)
    ensures Command(st, s, i) == (st, 1)
  {
    hide At;
    assert !At(s, i, Word(Ehlo)) && !At(s, i, Word(MailFrom)) && !At(s, i, Word(RcptTo)) && !At(s, i, Word(Quit));
  }

  lemma LettersOf(s: string, i: nat, w: string, k: nat)
    requires At(s, i, w) && k < |w|
    ensures i + k < |s| && s[i + k] == w[k]
  {
  }

  /** No command starts inside the word of another. */
  lemma WordIsSilent(s: string, i: nat, v: Verb, k: nat)
    requires At(s, i, Word(v)) && 0 < k < |Word(v)|
    ensures !Starts(s, i + k)
  {
    hide At;
    LettersOf(s, i, Word(v), k);
    FirstLetter(s, i + k);
    if v.MailFrom? && k == 6 {
      LettersOf(s, i, Word(v), 7);
      if At(s, i + k, Word(RcptTo)) {
        LettersOf(s, i + k, Word(RcptTo), 1);
      }
    } else if v.MailFrom? && k == 8 {
      LettersOf(s, i, Word(v), 9);
      if At(s, i + k, Word(MailFrom)) {
        LettersOf(s, i + k, Word(MailFrom), 1);
      }
    }
  }

  lemma NoneAtLineBreak(s: string, i: nat)
    requires i < |s| && IsLineBreak(s[i])
    ensures !Starts(s, i)
  {
    hide At;
    FirstLetter(s, i);
  }

  /** A part of `s` that ends with a CRLF: what stands at a place of it before that depends on it alone. */
  lemma InsideLine(s: string, i: nat, rest: string, k: nat, w: string)
    requires At(s, i, rest + CRLF) && k < |rest| && w != []
    requires w == "DATA\r\n" || '\r' !in w
    ensures At(s, i + k, w) <==> At(rest + CRLF, k, w)
  {
    var line := rest + CRLF;
    assert forall j :: 0 <= j < |line| ==> s[i + j] == line[j];
    assert line[|rest|] == '\r';
    if At(s, i + k, w) && |rest| - k < |w| {
      LettersOf(s, i + k, w, |rest| - k);
      assert w[|rest| - k] == '\r' && w[|rest| - k] in w;
    }
    if k + |w| <= |line| {
      forall j | 0 <= j < |w|
        ensures s[i + k + j] == w[j] <==> line[k + j] == w[j]
      {
        assert s[i + (k + j)] == line[k + j];
      }
    }
  }

  lemma StartsInsideLine(s: string, i: nat, rest: string, k: nat)
    requires At(s, i, rest + CRLF) && k < |rest|
    ensures Starts(s, i + k) <==> Starts(rest + CRLF, k)
  {
    hide At;
    InsideLine(s, i, rest, k, "DATA\r\n");
    InsideLine(s, i, rest, k, Word(Ehlo));
    InsideLine(s, i, rest, k, Word(MailFrom));
    InsideLine(s, i, rest, k, Word(RcptTo));
    InsideLine(s, i, rest, k, Word(Quit));
    AnyWord(s, i + k);
    AnyWord(rest + CRLF, k);
  }

  lemma AnyWord(s: string, i: nat)
    ensures Starts(s, i) <==>
            At(s, i, "DATA\r\n") || At(s, i, Word(Ehlo)) || At(s, i, Word(MailFrom)) || At(s, i, Word(RcptTo)) ||
            At(s, i, Word(Quit))
  {
    hide At;
  }

  // ---------- Lines ----------

  lemma {:induction false} SkipSilent(st: Collect, s: string, i: nat, j: nat, limit: int)
    requires i <= j <= |s| && !st.inData
    requires forall k :: i <= k < j ==> !Starts(s, k)
    ensures Feed(st, s, i, limit) == Feed(st, s, j, limit)
    decreases j - i
  {
    hide Starts, Command;
    if i < j && !st.tooBig {
      NoCommand(st, s, i);
      SkipSilent(st, s, i + 1, j, limit);
    }
  }

  lemma {:induction false} FeedCommand(st: Collect, s: string, i: nat, limit: int)
    requires i < |s| && !st.inData && !st.tooBig
    ensures var (st', n) := Command(st, s, i); Feed(st, s, i, limit) == Feed(st', s, i + n, limit)
  {
  }

  /** A word is answered once. */
  lemma {:induction false} WordIsAnswered(st: Collect, s: string, i: nat, v: Verb, limit: int)
    requires At(s, i, Word(v)) && !st.inData && !st.tooBig
    ensures i + |Word(v)| <= |s|
    ensures Feed(st, s, i, limit) == Feed(Said(st, Line(Some(v), "")), s, i + |Word(v)|, limit)
  {
    hide Starts, Feed, Command, At, Word;
    AtFits(s, i, Word(v));
    FeedCommand(st, s, i, limit);
    CommandIsAnswered(st, s, i, v);
    forall k | i + 1 <= k < i + |Word(v)|
      ensures !Starts(s, k)
    {
      WordIsSilent(s, i, v, k - i);
    }
    SkipSilent(Said(st, Line(Some(v), "")), s, i + 1, i + |Word(v)|, limit);
  }

  lemma {:induction false} RestIsSilent(st: Collect, s: string, i: nat, rest: string, limit: int)
    requires At(s, i, rest + CRLF) && Silent(rest) && !st.inData
    ensures i + |rest| + 2 <= |s|
    ensures Feed(st, s, i, limit) == Feed(st, s, i + |rest| + 2, limit)
  {
    hide Starts, Feed, At;
    AtFits(s, i, rest + CRLF);
    forall k | i <= k < i + |rest| + 2
      ensures !Starts(s, k)
    {
      if k < i + |rest| {
        StartsInsideLine(s, i, rest, k - i);
      } else {
        LettersOf(s, i, rest + CRLF, k - i);
        NoneAtLineBreak(s, k);
      }
    }
    SkipSilent(st, s, i, i + |rest| + 2, limit);
  }

  /** Behind the word of a line, with the answer given, stands the rest. */
  lemma {:induction false} LineBegins(st: Collect, s: string, i: nat, l: Line, limit: int) returns (j: nat)
    requires At(s, i, PrintLine(l)) && !st.inData && !st.tooBig
    ensures At(s, j, l.rest + CRLF) && j + |l.rest| + 2 == i + |PrintLine(l)| <= |s|
    ensures Feed(st, s, i, limit) == Feed(Said(st, l), s, j, limit)
  {
    hide Feed, At;
    var word := if l.verb.Some? then Word(l.verb.value) else "";
    AtFits(s, i, PrintLine(l));
    Assoc(word, l.rest, CRLF);
    AtSplit(s, i, word, l.rest + CRLF);
    j := i + |word|;
    if l.verb.Some? {
      WordIsAnswered(st, s, i, l.verb.value, limit);
    } else {
      assert st.reply + "" == st.reply;
    }
  }

  lemma {:induction false} LineIsAnswered(st: Collect, s: string, i: nat, l: Line, limit: int)
    requires At(s, i, PrintLine(l)) && Silent(l.rest) && !st.inData && !st.tooBig
    ensures i + |PrintLine(l)| <= |s|
    ensures Feed(st, s, i, limit) == Feed(Said(st, l), s, i + |PrintLine(l)|, limit)
  {
    hide Feed, At, Silent;
    var j := LineBegins(st, s, i, l, limit);
    RestIsSilent(Said(st, l), s, j, l.rest, limit);
  }

  lemma {:induction false} ReplyGrows(st: Collect, s: string, i: nat, limit: int)
    requires i <= |s|
    ensures |Feed(st, s, i, limit).reply| >= |st.reply|
    decreases |s| - i
  {
    hide At, EndsWithTerminator;
    if i < |s| && !st.tooBig {
      if st.inData {
        ReplyGrows(Store(st, s[i], limit), s, i + 1, limit);
      } else {
        var (next, n) := Command(st, s, i);
        ReplyGrows(next, s, i + n, limit);
      }
    }
  }

  /** A command anywhere ahead is answered. */
  lemma {:induction false} CommandIsHeard(st: Collect, s: string, i: nat, k: nat, limit: int)
    requires i <= k < |s| && Starts(s, k) && !st.inData && !st.tooBig
    ensures |Feed(st, s, i, limit).reply| > |st.reply|
    decreases k - i
  {
    hide At, Feed, Command;
    FeedCommand(st, s, i, limit);
    if Starts(s, i) {
      if At(s, i, "DATA\r\n") {
        DataIsAnswered(st, s, i);
      } else {
        var v :| At(s, i, Word(v));
        CommandIsAnswered(st, s, i, v);
      }
      var (next, n) := Command(st, s, i);
      FirstLetter(s, i);
      CommandStays(st, s, i);
      ReplyGrows(next, s, i + n, limit);
    } else {
      NoCommand(st, s, i);
      CommandIsHeard(st, s, i + 1, k, limit);
    }
  }

  lemma CommandStays(st: Collect, s: string, i: nat)
    requires i < |s|
    ensures i + Command(st, s, i).1 <= |s|
  {
  }

  /** A line gets the answer to its command and nothing else happens, exactly if no other command starts in
      the rest of it. */
  lemma {:induction false} LineIsAnsweredIff(st: Collect, l: Line, limit: int)
    requires !st.inData && !st.tooBig
    ensures Feed(st, PrintLine(l), 0, limit) == Said(st, l) <==> Silent(l.rest)
  {
    hide Feed, At, Starts;
    var s := PrintLine(l);
    WholeAt(s);
    if Silent(l.rest) {
      LineIsAnswered(st, s, 0, l, limit);
      AtTheEnd(Said(st, l), s, limit);
    } else {
      var j := LineBegins(st, s, 0, l, limit);
      var k :| 0 <= k < |l.rest| && Starts(l.rest + CRLF, k);
      StartsInsideLine(s, j, l.rest, k);
      CommandIsHeard(Said(st, l), s, j, j + k, limit);
    }
  }

  lemma {:induction false} AtTheEnd(st: Collect, s: string, limit: int)
    ensures Feed(st, s, |s|, limit) == st
  {
  }

  /** Several lines in one read are answered in their order. */
  lemma {:induction false} LinesAreAnswered(st: Collect, s: string, i: nat, ls: seq<Line>, limit: int)
    requires At(s, i, PrintLines(ls)) && !st.inData && !st.tooBig
    requires forall l :: l in ls ==> Silent(l.rest)
    ensures i + |PrintLines(ls)| <= |s|
    ensures Feed(st, s, i, limit) ==
            Feed(st.(reply := st.reply + Answers(ls), quit := st.quit || Quits(ls)), s, i + |PrintLines(ls)|, limit)
    decreases |ls|
  {
    hide Feed, At, Silent, PrintLine, AnswerLine;
    AtFits(s, i, PrintLines(ls));
    if ls == [] {
      assert st.reply + [] == st.reply;
    } else {
      AtSplit(s, i, PrintLine(ls[0]), PrintLines(ls[1..]));
      LineIsAnswered(st, s, i, ls[0], limit);
      LinesAreAnswered(Said(st, ls[0]), s, i + |PrintLine(ls[0])|, ls[1..], limit);
      Assoc(st.reply, AnswerLine(ls[0]), Answers(ls[1..]));
      QuitsFront(ls);
    }
  }

  lemma QuitsFront(ls: seq<Line>)
    requires ls != []
    ensures Quits(ls) <==> ls[0].verb == Some(Quit) || Quits(ls[1..])
  {
    if Quits(ls[1..]) {
      var k :| 0 <= k < |ls[1..]| && ls[1..][k].verb == Some(Quit);
      assert ls[k + 1].verb == Some(Quit);
    }
    if Quits(ls) {
      var k :| 0 <= k < |ls| && ls[k].verb == Some(Quit);
      assert k > 0 ==> ls[1..][k - 1].verb == Some(Quit);
    }
  }

  // ---------- A message between lines ----------

  lemma {:induction false} DataBegins(st: Collect, s: string, i: nat, limit: int)
    requires At(s, i, "DATA\r\n") && !st.inData && !st.tooBig
    ensures i + 6 <= |s|
    ensures Feed(st, s, i, limit) ==
            Feed(st.(inData := true, reply := st.reply + "354 End data with <CR><LF>.<CR><LF>\r\n"), s, i + 6, limit)
  {
    hide Feed, At, Command;
    AtFits(s, i, "DATA\r\n");
    FeedCommand(st, s, i, limit);
    DataIsAnswered(st, s, i);
  }

  /** As long as a message lasts, feeding is storing. */
  lemma {:induction false} MessageInside(st: Collect, s: string, i: nat, m: string, k: nat, limit: int)
    requires At(s, i, m) && k <= |m| && EndsLate(st, m, k, limit)
    ensures i + |m| <= |s|
    ensures Feed(st, s, i + k, limit) == Feed(Data(st, m, k, limit), s, i + |m|, limit)
    decreases |m| - k
  {
    hide Store;
    if k < |m| && !st.tooBig {
      assert s[i + k] == m[k];
      MessageInside(Store(st, m[k], limit), s, i, m, k + 1, limit);
    } else {
      AtFits(s, i, m);
    }
  }

  lemma {:induction false} MessageEnds(s: string, i: nat, m: string, reply: string, limit: int)
    requires At(s, i, m) && FirstEnd(m, |m|) && |m| <= limit
    ensures i + |m| <= |s| && |m| >= 5
    ensures var n := |m| - 5;
            Feed(Begun(reply), s, i, limit) ==
            Feed(Collect(m[..n] + [NUL] + m[n + 1..], false, true, true,
                         reply + "250 Ok: queued as nada\r\n", false), s, i + |m|, limit)
  {
    hide Feed, At, FirstEnd;
    EndsAtFirstTerminator(m, reply, limit);
    FeedIsData(Begun(reply), m, 0, limit);
    MessageInside(Begun(reply), s, i, m, 0, limit);
    assert |m| >= 5 by {
      EndIsLong(m);
    }
  }

  lemma EndIsLong(m: string)
    requires FirstEnd(m, |m|)
    ensures |m| >= 5
  {
    assert m[..|m|] == m;
  }

  lemma QuitAlike(st: Collect, s: string, i: nat, limit: int)
    requires i < |s|
    ensures Store(st.(quit := true), s[i], limit) == Store(st, s[i], limit).(quit := true)
    ensures var (next, n) := Command(st, s, i); Command(st.(quit := true), s, i) == (next.(quit := true), n)
  {
    hide At, EndsWithTerminator;
  }

  lemma {:induction false} QuittingStays(st: Collect, s: string, i: nat, limit: int)
    requires i <= |s|
    ensures Feed(st.(quit := true), s, i, limit) == Feed(st, s, i, limit).(quit := true)
    decreases |s| - i
  {
    hide Store, Command;
    if i < |s| && !st.tooBig {
      QuitAlike(st, s, i, limit);
      if st.inData {
        QuittingStays(Store(st, s[i], limit), s, i + 1, limit);
      } else {
        var (next, n) := Command(st, s, i);
        QuittingStays(next, s, i + n, limit);
      }
    }
  }

  lemma FourParts(a: string, b: string, c: string, d: string)
    ensures var s := a + b + c + d;
            && At(s, 0, a) && At(s, |a|, b) && At(s, |a| + |b|, c) && At(s, |a| + |b| + |c|, d)
            && |s| == |a| + |b| + |c| + |d|
  {
    WholeAt(a + b + c + d);
    AtSplit(a + b + c + d, 0, a + b + c, d);
    AtSplit(a + b + c + d, 0, a + b, c);
    AtSplit(a + b + c + d, 0, a, b);
  }

  /** A whole conversation in one read: lines, the DATA command, a message up to its first terminator, and
      more lines. The message is stored, and the answers come in order. */
  lemma {:induction false} ConversationIsAnswered(before: seq<Line>, m: string, after: seq<Line>, limit: int)
    requires (forall l :: l in before ==> Silent(l.rest)) && (forall l :: l in after ==> Silent(l.rest))
    requires FirstEnd(m, |m|) && |m| <= limit
    ensures |m| >= 5
    ensures var n := |m| - 5;
            Feed(Collect([], false, false, false, "", false),
                 PrintLines(before) + "DATA\r\n" + m + PrintLines(after), 0, limit) ==
            Collect(m[..n] + [NUL] + m[n + 1..], false, true, true,
                    Answers(before) + "354 End data with <CR><LF>.<CR><LF>\r\n" + "250 Ok: queued as nada\r\n" +
                    Answers(after), false)
  {
    hide Feed, At, FirstEnd, Silent, PrintLines, Answers, Quits;
    EndIsLong(m);
    var s, i := PrintLines(before) + "DATA\r\n" + m + PrintLines(after), |PrintLines(before)|;
    FourParts(PrintLines(before), "DATA\r\n", m, PrintLines(after));
    var start := Collect([], false, false, false, "", false);
    LinesAreAnswered(start, s, 0, before, limit);
    assert "" + Answers(before) == Answers(before);
    DataBegins(start.(reply := Answers(before), quit := Quits(before)), s, i, limit);
    var reply := Answers(before) + "354 End data with <CR><LF>.<CR><LF>\r\n";
    var n := |m| - 5;
    var stored := m[..n] + [NUL] + m[n + 1..];
    var ended := Collect(stored, false, true, true, reply + "250 Ok: queued as nada\r\n", false);
    if Quits(before) {
      QuittingStays(Begun(reply), s, i + 6, limit);
    }
    MessageEnds(s, i + 6, m, reply, limit);
    if Quits(before) {
      QuittingStays(ended, s, i + 6 + |m|, limit);
    }
    LinesAreAnswered(ended, s, i + 6 + |m|, after, limit);
    AtTheEnd(ended.(reply := ended.reply + Answers(after)), s, limit);
  }
}
