/** Opening, creating and reopening the file behind the queue. */
module QueueFile {
  import opened RingQueue
  import opened QueueRuns

  /** `sizeof(pq_ref_shared)`: four ints and a long. */
  const HEADER_SIZE: int := 24

  /** `sizeof(mail)`: 20 headers of 128 + 1024 bytes, a count, and 8000 bytes of body. */
  const MAIL_SIZE: int := 20 * (128 + 1024) + 4 + 8000

  const PQ_MEM_MAP_MAPPING_ERROR: int := -1003
  const PQ_MEM_MAP_INACCURATE_MESSAGE_SIZE: int := -1005

  const TWO_31: int := 0x8000_0000
  const TWO_64: int := 0x1_0000_0000_0000_0000

  /** A value of C's `int`. */
  predicate IsInt32(n: int) {
    -TWO_31 <= n < TWO_31
  }

  /** A 64-bit unsigned value: what `size_t` arithmetic makes of any integer. */
  function ToSizeT(n: int): int {
    n % TWO_64
  }

  datatype File = Absent | Present(ring: Ring)

  function FileSize(slotCount: nat): int {
    HEADER_SIZE + MAIL_SIZE * slotCount
  }

  /** The file's size is determined by its number of slots and fits the `int` that holds it. */
  ghost predicate WellFormed(f: File) {
    f.Present? ==> f.ring.messageMaxCount == |f.ring.slots| && FileSize(|f.ring.slots|) < TWO_31
  }

  /** A count for which the creating branch's `int` arithmetic is exact. */
  predicate Creatable(count: int) {
    0 <= count && FileSize(count) < TWO_31
  }

  /** The size test of `pq_open`: `file_size` as an `int` against `size_t` arithmetic on the caller's count. */
  predicate SizeMatches(fileSize: int, count: int) {
    ToSizeT(fileSize) == ToSizeT(HEADER_SIZE + MAIL_SIZE * count)
  }

  /** `pq_init`: create the file when there is none, else open it; the result code and the file. Opening
      maps the slots of the caller's count, and a mapping of length zero is refused. */
  function PqInit(f: File, count: int, blank: Mail): (int, File)
    requires f.Absent? ==> Creatable(count)
    ensures PqInit(f, count, blank).0 == 0 ==> PqInit(f, count, blank).1.Present?
  {
    match f
    case Absent => (0, Present(Ring(0, 0, 0, count, seq(count, _ => blank))))
    case Present(ring) =>
      if !SizeMatches(FileSize(|ring.slots|), count) then (PQ_MEM_MAP_INACCURATE_MESSAGE_SIZE, f)
      else if count == 0 then (PQ_MEM_MAP_MAPPING_ERROR, f)
      else (0, f)
  }

  /** Opening an existing file succeeds exactly when the caller's count is the stored one and not zero,
      for every int the caller may pass, negative ones included. */
  lemma OpenSucceedsIff(f: File, count: int, blank: Mail)
    requires f.Present? && WellFormed(f) && IsInt32(count)
    ensures PqInit(f, count, blank).0 ==
            if count != f.ring.messageMaxCount then -1005 else if count == 0 then -1003 else 0
    ensures PqInit(f, count, blank).1 == f
  {
    var n := HEADER_SIZE + MAIL_SIZE * count;
    var size := FileSize(|f.ring.slots|);
    assert 0 <= size < TWO_31;
    if count < 0 {
      assert n == -1 * TWO_64 + (n + TWO_64);
      assert 0 <= n + TWO_64 < TWO_64;
      assert ToSizeT(n) == n + TWO_64;
    } else {
      assert 0 <= n < TWO_64;
    }
  }

  /** A queue of no slots can be created but never opened again. */
  lemma EmptyQueueFileIsOpenedOnce(count: int, blank: Mail)
    requires IsInt32(count)
    ensures PqInit(Absent, 0, blank).0 == 0 && PqInit(PqInit(Absent, 0, blank).1, count, blank).0 != 0
  {
    if count != 0 {
      OpenSucceedsIff(PqInit(Absent, 0, blank).1, count, blank);
    }
  }

  // ---------- What the two branches map ----------

  /** Slot `w` lies inside a mapping of `mapped` bytes. */
  predicate SlotMapped(w: nat, mapped: int) {
    HEADER_SIZE + MAIL_SIZE * (w + 1) <= mapped
  }

  /** The creating branch maps the 24 bytes of the header and every slot of 31044 bytes; the opening branch
      asks for the size of the slots only, which covers every slot but the last. */
  lemma MappedSlots(count: nat, w: nat)
    ensures SlotMapped(w, 24 + 31044 * count) <==> w < count
    ensures SlotMapped(w, 31044 * count) <==> w + 1 < count
  {
  }

  // ---------- Histories of sessions ----------

  /** A session: a caller's count for `pq_init`, and a run of the processes that share the mapping. */
  datatype Session = Session(count: int, run: Run)

  /** The file as it is when every process has closed the queue between operations. */
  ghost predicate CleanClose(run: Run) {
    forall p :: p in run.s.pcs ==> run.s.pcs[p].Idle?
  }

  /** Sessions on one file, each started by a successful `pq_init` on what the last one left. */
  ghost predicate IsHistory(f: File, sessions: seq<Session>, f': File, blank: Mail)
    decreases |sessions|
  {
    if sessions == [] then f' == f
    else
      var s := sessions[0];
      && IsInt32(s.count) && (f.Absent? ==> Creatable(s.count))
      && PqInit(f, s.count, blank).0 == 0
      && IsRun(s.run) && QuietInits(s.run) && CleanClose(s.run)
      && FirstState(s.run).ring == PqInit(f, s.count, blank).1.ring
      && IsHistory(Present(s.run.s.ring), sessions[1..], f', blank)
  }

  /** The contents of one FIFO that lives through all the sessions. */
  function QueueAfter(q: seq<Mail>, sessions: seq<Session>): seq<Mail>
    decreases |sessions|
  {
    if sessions == [] then q else QueueAfter(Queue(q, sessions[0].run), sessions[1..])
  }

  predicate AllSessionsLegal(q: seq<Mail>, max: int, sessions: seq<Session>)
    decreases |sessions|
  {
    sessions != [] ==>
      AllLegal(q, max, sessions[0].run) && AllSessionsLegal(Queue(q, sessions[0].run), max, sessions[1..])
  }

  function AllAccepted(sessions: seq<Session>): seq<Mail> {
    if sessions == [] then [] else Accepted(sessions[0].run) + AllAccepted(sessions[1..])
  }

  function AllReturned(sessions: seq<Session>): seq<Mail> {
    if sessions == [] then [] else Returned(sessions[0].run) + AllReturned(sessions[1..])
  }

  lemma Chain(q: seq<Mail>, a: seq<Mail>, r: seq<Mail>, q': seq<Mail>, a': seq<Mail>, r': seq<Mail>, q'': seq<Mail>)
    requires q + a == r + q' && q' + a' == r' + q''
    ensures q + (a + a') == r + r' + q''
  {
    assert q + (a + a') == q + a + a';
    assert r + q' + a' == r + (q' + a');
    assert r + (r' + q'') == r + r' + q'';
  }

  /** One session on a ring that stores `q`, closed cleanly. */
  lemma {:induction false} SessionKeepsQueue(s: Session, q: seq<Mail>)
    requires IsRun(s.run) && QuietInits(s.run) && CleanClose(s.run) && Stores(FirstState(s.run).ring, q)
    ensures var max := FirstState(s.run).ring.messageMaxCount;
            && Stores(s.run.s.ring, Queue(q, s.run)) && AllLegal(q, max, s.run)
            && max == |FirstState(s.run).ring.slots| == |s.run.s.ring.slots| == s.run.s.ring.messageMaxCount
    ensures q + Accepted(s.run) == Returned(s.run) + Queue(q, s.run)
  {
    RunKeepsInv(s.run, q);
    RunsRefineFifo(s.run, q);
    DequeuesArePrefixOfEnqueues(s.run, q);
  }

  /** What is legal and what has come and gone over the sessions, from the first session and the others. */
  lemma {:induction false} SessionsStep(sessions: seq<Session>, max: int, q: seq<Mail>)
    requires sessions != []
    requires var run := sessions[0].run;
             AllLegal(q, max, run) && q + Accepted(run) == Returned(run) + Queue(q, run)
    requires var rest, q' := sessions[1..], Queue(q, sessions[0].run);
             AllSessionsLegal(q', max, rest) && q' + AllAccepted(rest) == AllReturned(rest) + QueueAfter(q', rest)
    ensures AllSessionsLegal(q, max, sessions)
    ensures q + AllAccepted(sessions) == AllReturned(sessions) + QueueAfter(q, sessions)
  {
    var run, rest := sessions[0].run, sessions[1..];
    var q' := Queue(q, run);
    Chain(q, Accepted(run), Returned(run), q', AllAccepted(rest), AllReturned(rest), QueueAfter(q', rest));
  }

  /** From an existing file on: every later session finds the queue as the last one left it. */
  lemma {:induction false} ReopenKeepsQueue(f: File, sessions: seq<Session>, f': File, blank: Mail, q: seq<Mail>)
    requires f.Present? && WellFormed(f) && Stores(f.ring, q)
    requires IsHistory(f, sessions, f', blank)
    ensures f'.Present? && Stores(f'.ring, QueueAfter(q, sessions))
    ensures f'.ring.messageMaxCount == f.ring.messageMaxCount
    ensures forall i :: 0 <= i < |sessions| ==> sessions[i].count == f.ring.messageMaxCount
    ensures AllSessionsLegal(q, f.ring.messageMaxCount, sessions)
    ensures q + AllAccepted(sessions) == AllReturned(sessions) + QueueAfter(q, sessions)
    decreases |sessions|
  {
    if sessions == [] {
      assert q + [] == [] + q;
    } else {
      hide PqInit, Stores, Accepted, Returned, Queue, AllLegal, AllAccepted, AllReturned, AllSessionsLegal;
      var s, rest := sessions[0], sessions[1..];
      OpenSucceedsIff(f, s.count, blank);
      SessionKeepsQueue(s, q);
      ReopenKeepsQueue(Present(s.run.s.ring), rest, f', blank, Queue(q, s.run));
      SessionsStep(sessions, f.ring.messageMaxCount, q);
    }
  }

  /** A new file stores the empty queue in as many slots as asked for. */
  lemma Created(count: int, blank: Mail)
    requires Creatable(count)
    ensures var f := PqInit(Absent, count, blank).1;
            WellFormed(f) && Stores(f.ring, []) && f.ring.messageMaxCount == count
  {
  }

  /** From a file created empty on: after any history of sessions and clean reopenings, the file
      holds exactly what one FIFO would hold, in order; every dequeue returned the oldest mail
      left; and every session used the count the file was created with. */
  lemma {:induction false} HistoriesRefineFifo(sessions: seq<Session>, f': File, blank: Mail)
    requires sessions != [] && IsHistory(Absent, sessions, f', blank)
    ensures f'.Present? && Stores(f'.ring, QueueAfter([], sessions))
    ensures AllSessionsLegal([], sessions[0].count, sessions)
    ensures forall i :: 0 <= i < |sessions| ==> sessions[i].count == sessions[0].count
    ensures AllAccepted(sessions) == AllReturned(sessions) + QueueAfter([], sessions)
  {
    hide PqInit, Stores, Accepted, Returned, Queue, AllLegal, AllAccepted, AllReturned, AllSessionsLegal;
    var s, rest := sessions[0], sessions[1..];
    Created(s.count, blank);
    SessionKeepsQueue(s, []);
    ReopenKeepsQueue(Present(s.run.s.ring), rest, f', blank, Queue([], s.run));
    SessionsStep(sessions, s.count, []);
    assert [] + AllAccepted(sessions) == AllAccepted(sessions);
  }
}
