/** Any number of processes enqueue and dequeue through one semaphore. Each operation is a
    sequence of micro-steps that may interleave freely with those of the others. */
module QueueRuns {
  import opened RingQueue
  import opened Wrappers

  // ---------- The protocol ----------

  /** Where a process stands inside `pq_enqueue` or `pq_dequeue`, with its private values. */
  datatype Pc =
    | Idle
    | EnqWait(m: Mail)
    | EnqTest(m: Mail)
    | EnqCopy(m: Mail)
    | EnqBumpOffset(m: Mail)
    | EnqWrapOffset(m: Mail)
    | EnqLoadCount(m: Mail)
    | EnqStoreCount(m: Mail, loaded: int)
    | EnqPost(m: Mail, ok: bool)
    | DeqWait
    | DeqTest
    | DeqCopy
    | DeqBumpOffset(m: Mail)
    | DeqWrapOffset(m: Mail)
    | DeqLoadCount(m: Mail)
    | DeqStoreCount(m: Mail, loaded: int)
    | DeqPost(r: Option<Mail>)

  /** Between `semaphore_wait` and `semaphore_post`. */
  predicate Critical(pc: Pc) {
    !pc.Idle? && !pc.EnqWait? && !pc.DeqWait?
  }

  /** The shared mapping, the semaphore, and every process's place in the code. */
  datatype State = State(ring: Ring, sem: int, pcs: map<nat, Pc>)

  /** What a step shows to the outside: a finished enqueue or dequeue, with its outcome. */
  datatype Event = Silent | Enqueued(m: Mail, ok: bool) | Dequeued(r: Option<Mail>)

  /** One micro-step of a process at `pc`: what may become of the ring, the semaphore and its place.
      A call may start at any time; a copy into a slot may leave anything there before it is done;
      the counters are loaded and stored separately. */
  ghost predicate Micro(ring: Ring, sem: int, pc: Pc, ring': Ring, sem': int, pc': Pc, ev: Event) {
    match pc
    case Idle =>
      ring' == ring && sem' == sem && ev == Silent && (pc'.EnqWait? || pc'.DeqWait?)
    case EnqWait(m) =>
      sem > 0 && ring' == ring && sem' == sem - 1 && ev == Silent && pc' == EnqTest(m)
    case EnqTest(m) =>
      ring' == ring && sem' == sem && ev == Silent &&
      pc' == if ring.messageCount >= ring.messageMaxCount then EnqPost(m, false) else EnqCopy(m)
    case EnqCopy(m) =>
      sem' == sem && ev == Silent && 0 <= ring.writeOffset < |ring.slots| &&
      ((pc' == EnqBumpOffset(m) && ring' == ring.(slots := ring.slots[ring.writeOffset := m])) ||
       (pc' == pc && |ring'.slots| == |ring.slots| &&
        ring' == ring.(slots := ring.slots[ring.writeOffset := ring'.slots[ring.writeOffset]])))
    case EnqBumpOffset(m) =>
      ring' == ring.(writeOffset := ring.writeOffset + 1) && sem' == sem && ev == Silent && pc' == EnqWrapOffset(m)
    case EnqWrapOffset(m) =>
      ring.messageMaxCount != 0 &&
      ring' == ring.(writeOffset := ring.writeOffset % ring.messageMaxCount) &&
      sem' == sem && ev == Silent && pc' == EnqLoadCount(m)
    case EnqLoadCount(m) =>
      ring' == ring && sem' == sem && ev == Silent && pc' == EnqStoreCount(m, ring.messageCount)
    case EnqStoreCount(m, loaded) =>
      ring' == ring.(messageCount := loaded + 1) && sem' == sem && ev == Silent && pc' == EnqPost(m, true)
    case EnqPost(m, ok) =>
      ring' == ring && sem' == sem + 1 && ev == Enqueued(m, ok) && pc' == Idle
    case DeqWait =>
      sem > 0 && ring' == ring && sem' == sem - 1 && ev == Silent && pc' == DeqTest
    case DeqTest =>
      ring' == ring && sem' == sem && ev == Silent &&
      pc' == if ring.messageCount <= 0 then DeqPost(None) else DeqCopy
    case DeqCopy =>
      0 <= ring.readOffset < |ring.slots| &&
      ring' == ring && sem' == sem && ev == Silent && pc' == DeqBumpOffset(ring.slots[ring.readOffset])
    case DeqBumpOffset(m) =>
      ring' == ring.(readOffset := ring.readOffset + 1) && sem' == sem && ev == Silent && pc' == DeqWrapOffset(m)
    case DeqWrapOffset(m) =>
      ring.messageMaxCount != 0 &&
      ring' == ring.(readOffset := ring.readOffset % ring.messageMaxCount) &&
      sem' == sem && ev == Silent && pc' == DeqLoadCount(m)
    case DeqLoadCount(m) =>
      ring' == ring && sem' == sem && ev == Silent && pc' == DeqStoreCount(m, ring.messageCount)
    case DeqStoreCount(m, loaded) =>
      ring' == ring.(messageCount := loaded - 1) && sem' == sem && ev == Silent && pc' == DeqPost(Some(m))
    case DeqPost(r) =>
      ring' == ring && sem' == sem + 1 && ev == Dequeued(r) && pc' == Idle
  }

  /** Process `p` takes a step; nothing else moves. */
  ghost predicate Step(s: State, p: nat, s': State, ev: Event) {
    && p in s.pcs && s'.pcs.Keys == s.pcs.Keys
    && s'.pcs == s.pcs[p := s'.pcs[p]]
    && Micro(s.ring, s.sem, s.pcs[p], s'.ring, s'.sem, s'.pcs[p], ev)
  }

  /** Process `p` joins, or comes back outside any operation, with a `pq_init` on the existing file: the
      ring stays as it is, and `semaphore_init` sets the semaphore to 1 whatever it was. */
  ghost predicate Joins(s: State, p: nat, s': State) {
    (p in s.pcs ==> s.pcs[p].Idle?) && s' == State(s.ring, 1, s.pcs[p := Idle])
  }

  /** The first `pq_init` is done: no process is inside an operation, the semaphore is 1. */
  ghost predicate Start(s: State) {
    s.sem == 1 && forall p :: p in s.pcs ==> s.pcs[p].Idle?
  }

  /** A run: states joined by steps, with the events they show, and by later `pq_init`s. */
  datatype Run = Begin(s: State) | Then(before: Run, p: nat, s: State, ev: Event) | Init(before: Run, p: nat, s: State)

  ghost predicate IsRun(run: Run) {
    match run
    case Begin(s) => Start(s)
    case Then(before, p, s, ev) => IsRun(before) && Step(before.s, p, s, ev)
    case Init(before, p, s) => IsRun(before) && Joins(before.s, p, s)
  }

  ghost predicate NobodyInside(s: State) {
    forall p :: p in s.pcs ==> !Critical(s.pcs[p])
  }

  /** Every later `pq_init` of the run comes while no process is inside an operation. */
  ghost predicate QuietInits(run: Run) {
    match run
    case Begin(_) => true
    case Then(before, _, _, _) => QuietInits(before)
    case Init(before, _, _) => QuietInits(before) && NobodyInside(before.s)
  }

  function FirstState(run: Run): State {
    match run
    case Begin(s) => s
    case Then(before, _, _, _) => FirstState(before)
    case Init(before, _, _) => FirstState(before)
  }

  // ---------- The specification: one bounded FIFO ----------

  /** Does the outcome of an operation on a FIFO of at most `max` mails agree with holding `q`? */
  predicate Legal(q: seq<Mail>, max: int, ev: Event) {
    match ev
    case Silent => true
    case Enqueued(m, ok) => ok <==> |q| < max
    case Dequeued(r) => if q == [] then r == None else r == Some(q[0])
  }

  function Apply(q: seq<Mail>, ev: Event): seq<Mail> {
    match ev
    case Silent => q
    case Enqueued(m, ok) => if ok then q + [m] else q
    case Dequeued(r) => if r.Some? && q != [] then q[1..] else q
  }

  /** What a FIFO holding `q0` at the start of the run holds at its end. */
  function Queue(q0: seq<Mail>, run: Run): seq<Mail> {
    match run
    case Begin(_) => q0
    case Then(before, _, _, ev) => Apply(Queue(q0, before), ev)
    case Init(before, _, _) => Queue(q0, before)
  }

  /** Every outcome the run shows is the one a FIFO would have given. */
  predicate AllLegal(q0: seq<Mail>, max: int, run: Run) {
    match run
    case Begin(_) => true
    case Then(before, _, _, ev) => AllLegal(q0, max, before) && Legal(Queue(q0, before), max, ev)
    case Init(before, _, _) => AllLegal(q0, max, before)
  }

  /** The mails of the successful enqueues of the run, in order. */
  function Accepted(run: Run): seq<Mail> {
    match run
    case Begin(_) => []
    case Then(before, _, _, ev) => Accepted(before) + if ev.Enqueued? && ev.ok then [ev.m] else []
    case Init(before, _, _) => Accepted(before)
  }

  /** The mails that the successful dequeues of the run returned, in order. */
  function Returned(run: Run): seq<Mail> {
    match run
    case Begin(_) => []
    case Then(before, _, _, ev) => Returned(before) + if ev.Dequeued? && ev.r.Some? then [ev.r.value] else []
    case Init(before, _, _) => Returned(before)
  }

  // ---------- The invariant ----------

  /** How the ring stands to the FIFO contents `q` while the process inside is at `pc`. */
  ghost predicate Inside(r: Ring, q: seq<Mail>, pc: Pc) {
    var max := |r.slots|;
    && r.messageMaxCount == max
    && match pc
       case EnqTest(_) => Stores(r, q)
       case EnqCopy(_) => Stores(r, q) && |q| < max
       case EnqBumpOffset(m) => Stores(r, q) && |q| < max && r.slots[r.writeOffset] == m
       case EnqWrapOffset(m) =>
         Stores(r.(writeOffset := r.writeOffset - 1), q) && |q| < max && r.slots[r.writeOffset - 1] == m
       case EnqLoadCount(m) => r.messageCount == |q| < max && Layout(r.slots, r.readOffset, r.writeOffset, q + [m])
       case EnqStoreCount(m, n) => n == |q| < max && Layout(r.slots, r.readOffset, r.writeOffset, q + [m])
       case EnqPost(m, ok) => (ok <==> |q| < max) && Stores(r, if ok then q + [m] else q)
       case DeqTest => Stores(r, q)
       case DeqCopy => Stores(r, q) && q != []
       case DeqBumpOffset(m) => Stores(r, q) && q != [] && m == q[0]
       case DeqWrapOffset(m) => Stores(r.(readOffset := r.readOffset - 1), q) && q != [] && m == q[0]
       case DeqLoadCount(m) =>
         q != [] && m == q[0] && r.messageCount == |q| && Layout(r.slots, r.readOffset, r.writeOffset, q[1..])
       case DeqStoreCount(m, n) =>
         q != [] && m == q[0] && n == |q| && Layout(r.slots, r.readOffset, r.writeOffset, q[1..])
       case DeqPost(res) =>
         if res.Some? then q != [] && res.value == q[0] && Stores(r, q[1..]) else q == [] && Stores(r, q)
       case _ => false
  }

  /** The semaphore counts the free critical section; whoever is inside stands as `Inside` says. */
  ghost predicate Inv(s: State, q: seq<Mail>) {
    if s.sem == 1 then
      Stores(s.ring, q) && forall p :: p in s.pcs ==> !Critical(s.pcs[p])
    else
      && s.sem == 0
      && exists p :: p in s.pcs && Critical(s.pcs[p]) && Inside(s.ring, q, s.pcs[p])
                     && forall p' :: p' in s.pcs && Critical(s.pcs[p']) ==> p' == p
  }

  predicate Enqueuing(pc: Pc) {
    pc.EnqTest? || pc.EnqCopy? || pc.EnqBumpOffset? || pc.EnqWrapOffset? || pc.EnqLoadCount? || pc.EnqStoreCount?
  }

  predicate Dequeuing(pc: Pc) {
    pc.DeqTest? || pc.DeqCopy? || pc.DeqBumpOffset? || pc.DeqWrapOffset? || pc.DeqLoadCount? || pc.DeqStoreCount?
  }

  /** A step of an enqueue inside the critical section, before its post. */
  lemma EnqueueStep(r: Ring, q: seq<Mail>, pc: Pc, r': Ring, sem: int, pc': Pc, ev: Event)
    requires Enqueuing(pc) && Inside(r, q, pc) && Micro(r, sem, pc, r', sem, pc', ev)
    ensures Critical(pc') && Inside(r', q, pc') && ev == Silent && |r'.slots| == |r.slots|
  {
    match pc
    case EnqCopy(m) =>
      var slot := r'.slots[r.writeOffset];
      assert r'.slots == r.slots[r.writeOffset := slot];
      LayoutWrite(r.slots, r.readOffset, r.writeOffset, q, slot);
    case EnqWrapOffset(m) =>
      LayoutPush(r.slots, r.readOffset, r.writeOffset - 1, q, m);
    case _ =>
  }

  /** The same for a dequeue. */
  lemma DequeueStep(r: Ring, q: seq<Mail>, pc: Pc, r': Ring, sem: int, pc': Pc, ev: Event)
    requires Dequeuing(pc) && Inside(r, q, pc) && Micro(r, sem, pc, r', sem, pc', ev)
    ensures Critical(pc') && Inside(r', q, pc') && ev == Silent && |r'.slots| == |r.slots|
  {
    match pc
    case DeqCopy =>
      LayoutPop(r.slots, r.readOffset, r.writeOffset, q);
    case DeqWrapOffset(m) =>
      LayoutPop(r.slots, r.readOffset - 1, r.writeOffset, q);
    case _ =>
  }

  /** The post: the FIFO takes the operation's effect at that moment. */
  lemma PostStep(r: Ring, q: seq<Mail>, pc: Pc, r': Ring, sem: int, pc': Pc, ev: Event)
    requires Inside(r, q, pc) && (pc.EnqPost? || pc.DeqPost?)
    requires Micro(r, sem, pc, r', sem + 1, pc', ev)
    ensures r' == r && !Critical(pc')
    ensures Legal(q, |r.slots|, ev) && Stores(r, Apply(q, ev))
  {
  }

  lemma StepKeepsInv(s: State, p: nat, s': State, ev: Event, q: seq<Mail>)
    requires Inv(s, q) && Step(s, p, s', ev)
    ensures |s'.ring.slots| == |s.ring.slots|
    ensures Legal(q, |s.ring.slots|, ev) && Inv(s', Apply(q, ev))
  {
    var pc, pc' := s.pcs[p], s'.pcs[p];
    if Critical(pc) {
      assert s.sem == 0;
      if pc.EnqPost? || pc.DeqPost? {
        PostStep(s.ring, q, pc, s'.ring, s.sem, pc', ev);
      } else {
        if Enqueuing(pc) {
          EnqueueStep(s.ring, q, pc, s'.ring, s.sem, pc', ev);
        } else {
          DequeueStep(s.ring, q, pc, s'.ring, s.sem, pc', ev);
        }
        assert p in s'.pcs && Critical(s'.pcs[p]) && Inside(s'.ring, q, s'.pcs[p]);
      }
    } else if pc.Idle? {
      if s.sem == 0 {
        var c :| c in s.pcs && Critical(s.pcs[c]) && Inside(s.ring, q, s.pcs[c]);
        assert s'.pcs[c] == s.pcs[c];
      }
    } else {
      assert s.sem == 1 && s'.sem == 0;
      assert p in s'.pcs && Critical(s'.pcs[p]) && Inside(s'.ring, q, s'.pcs[p]);
    }
  }

  lemma {:induction false} RunKeepsInv(run: Run, q0: seq<Mail>)
    requires IsRun(run) && QuietInits(run) && Stores(FirstState(run).ring, q0)
    ensures var max := |FirstState(run).ring.slots|;
            |run.s.ring.slots| == max && AllLegal(q0, max, run) && Inv(run.s, Queue(q0, run))
  {
    match run
    case Begin(s) =>
    case Then(before, p, s, ev) =>
      RunKeepsInv(before, q0);
      StepKeepsInv(before.s, p, s, ev, Queue(q0, before));
    case Init(before, p, s) =>
      RunKeepsInv(before, q0);
  }

  // ---------- What holds of every run ----------

  /** At most one process is ever between its wait and its post, in every run whose inits are quiet. */
  lemma {:induction false} MutualExclusion(run: Run, q0: seq<Mail>, p: nat, p': nat)
    requires IsRun(run) && QuietInits(run) && Stores(FirstState(run).ring, q0)
    requires p in run.s.pcs && p' in run.s.pcs && Critical(run.s.pcs[p]) && Critical(run.s.pcs[p'])
    ensures p == p'
  {
    RunKeepsInv(run, q0);
  }

  /** Every run is a run of one bounded FIFO: each operation's outcome is the FIFO's at its post,
      and whenever no process is inside, the ring holds exactly the FIFO's contents, in the
      `messageCount` slots from `readOffset` on. */
  lemma {:induction false} RunsRefineFifo(run: Run, q0: seq<Mail>)
    requires IsRun(run) && QuietInits(run) && Stores(FirstState(run).ring, q0)
    ensures AllLegal(q0, FirstState(run).ring.messageMaxCount, run)
    ensures (forall p :: p in run.s.pcs ==> !Critical(run.s.pcs[p])) ==>
            run.s.sem == 1 && Stores(run.s.ring, Queue(q0, run))
  {
    RunKeepsInv(run, q0);
  }

  lemma {:induction false} QueueIsWhatIsLeft(run: Run, q0: seq<Mail>, max: int)
    requires AllLegal(q0, max, run)
    ensures q0 + Accepted(run) == Returned(run) + Queue(q0, run)
  {
    match run
    case Begin(_) =>
      assert q0 + [] == [] + q0;
    case Init(before, _, _) =>
      QueueIsWhatIsLeft(before, q0, max);
    case Then(before, _, _, ev) =>
      QueueIsWhatIsLeft(before, q0, max);
      var q, a, r := Queue(q0, before), Accepted(before), Returned(before);
      match ev {
        case Silent =>
          assert a + [] == a && r + [] == r;
        case Enqueued(m, ok) =>
          assert q0 + (a + [m]) == q0 + a + [m] && r + q + [m] == r + (q + [m]);
          assert a + [] == a && r + [] == r;
        case Dequeued(res) =>
          assert a + [] == a && r + [] == r;
          if q != [] {
            assert q == [q[0]] + q[1..];
            assert r + q == r + [q[0]] + q[1..];
          }
      }
  }

  /** No mail is lost, duplicated or reordered: the mails returned by dequeues, in the order of
      their posts, are a prefix of those at the start followed by those accepted. */
  lemma {:induction false} DequeuesArePrefixOfEnqueues(run: Run, q0: seq<Mail>)
    requires IsRun(run) && QuietInits(run) && Stores(FirstState(run).ring, q0)
    ensures Returned(run) <= q0 + Accepted(run)
    ensures q0 + Accepted(run) == Returned(run) + Queue(q0, run)
  {
    RunKeepsInv(run, q0);
    QueueIsWhatIsLeft(run, q0, |FirstState(run).ring.slots|);
  }

  /** In counts alone: an enqueue is refused exactly if as many mails are in the queue as it has slots, and a
      dequeue comes back empty exactly if all accepted mails have been returned. */
  lemma {:induction false} RefusedOnlyAtTheBounds(before: Run, p: nat, s: State, ev: Event, q0: seq<Mail>)
    requires var run := Then(before, p, s, ev);
             IsRun(run) && QuietInits(run) && Stores(FirstState(run).ring, q0)
    ensures |Returned(before)| <= |q0| + |Accepted(before)| <= |Returned(before)| + |FirstState(before).ring.slots|
    ensures ev.Enqueued? ==>
              (ev.ok <==> |q0| + |Accepted(before)| < |Returned(before)| + |FirstState(before).ring.slots|)
    ensures ev.Dequeued? ==> (ev.r.None? <==> |q0| + |Accepted(before)| == |Returned(before)|)
  {
    hide Stores, Step, Inv, IsRun, QuietInits;
    var run := Then(before, p, s, ev);
    StartOfRun(run, q0);
    RunKeepsInv(run, q0);
    DequeuesArePrefixOfEnqueues(before, q0);
    QueueIsBounded(before, q0);
    var all := q0 + Accepted(before);
    assert |all| == |Returned(before)| + |Queue(q0, before)|;
  }

  lemma {:induction false} StartOfRun(run: Run, q0: seq<Mail>)
    requires run.Then? && IsRun(run) && QuietInits(run) && Stores(FirstState(run).ring, q0)
    ensures IsRun(run.before) && QuietInits(run.before) && Stores(FirstState(run.before).ring, q0)
  {
  }

  lemma {:induction false} QueueIsBounded(run: Run, q0: seq<Mail>)
    requires IsRun(run) && QuietInits(run) && Stores(FirstState(run).ring, q0)
    ensures |Queue(q0, run)| <= |FirstState(run).ring.slots|
  {
    match run
    case Begin(s) =>
    case Then(before, p, s, ev) =>
      hide Stores, Step, Inv;
      StartOfRun(run, q0);
      QueueIsBounded(before, q0);
      RunKeepsInv(run, q0);
    case Init(before, p, s) =>
      QueueIsBounded(before, q0);
  }

  // ---------- Nobody gets stuck ----------

  ghost predicate CanStep(s: State, p: nat) {
    exists s', ev :: Step(s, p, s', ev)
  }

  /** The outcome of the step a process inside the critical section takes next. */
  function NextInside(r: Ring, pc: Pc): (Ring, Pc)
    requires pc.EnqCopy? ==> 0 <= r.writeOffset < |r.slots|
    requires pc.DeqCopy? ==> 0 <= r.readOffset < |r.slots|
    requires pc.EnqWrapOffset? || pc.DeqWrapOffset? ==> r.messageMaxCount != 0
  {
    match pc
    case EnqTest(m) => (r, if r.messageCount >= r.messageMaxCount then EnqPost(m, false) else EnqCopy(m))
    case EnqCopy(m) => (r.(slots := r.slots[r.writeOffset := m]), EnqBumpOffset(m))
    case EnqBumpOffset(m) => (r.(writeOffset := r.writeOffset + 1), EnqWrapOffset(m))
    case EnqWrapOffset(m) => (r.(writeOffset := r.writeOffset % r.messageMaxCount), EnqLoadCount(m))
    case EnqLoadCount(m) => (r, EnqStoreCount(m, r.messageCount))
    case EnqStoreCount(m, n) => (r.(messageCount := n + 1), EnqPost(m, true))
    case DeqTest => (r, if r.messageCount <= 0 then DeqPost(None) else DeqCopy)
    case DeqCopy => (r, DeqBumpOffset(r.slots[r.readOffset]))
    case DeqBumpOffset(m) => (r.(readOffset := r.readOffset + 1), DeqWrapOffset(m))
    case DeqWrapOffset(m) => (r.(readOffset := r.readOffset % r.messageMaxCount), DeqLoadCount(m))
    case DeqLoadCount(m) => (r, DeqStoreCount(m, r.messageCount))
    case DeqStoreCount(m, n) => (r.(messageCount := n - 1), DeqPost(Some(m)))
    case _ => (r, Idle)
  }

  lemma InsideCanStep(s: State, p: nat, q: seq<Mail>)
    requires p in s.pcs && Critical(s.pcs[p]) && Inside(s.ring, q, s.pcs[p])
    ensures CanStep(s, p)
  {
    var pc := s.pcs[p];
    var (r', pc') := NextInside(s.ring, pc);
    var ev := match pc case EnqPost(m, ok) => Enqueued(m, ok) case DeqPost(r) => Dequeued(r) case _ => Silent;
    var sem' := if pc.EnqPost? || pc.DeqPost? then s.sem + 1 else s.sem;
    assert Step(s, p, State(r', sem', s.pcs[p := pc']), ev);
  }

  lemma WaitingCanStep(s: State, p: nat)
    requires s.sem == 1 && p in s.pcs && !s.pcs[p].Idle? && !Critical(s.pcs[p])
    ensures CanStep(s, p)
  {
    var pc' := if s.pcs[p].EnqWait? then EnqTest(s.pcs[p].m) else DeqTest;
    assert Step(s, p, State(s.ring, 0, s.pcs[p := pc']), Silent);
  }

  /** In every reachable state where some process is inside an operation, one of them can go on. */
  lemma {:induction false} NoDeadlock(run: Run, q0: seq<Mail>)
    requires IsRun(run) && QuietInits(run) && Stores(FirstState(run).ring, q0)
    requires exists p :: p in run.s.pcs && !run.s.pcs[p].Idle?
    ensures exists p :: p in run.s.pcs && !run.s.pcs[p].Idle? && CanStep(run.s, p)
  {
    hide Inside, CanStep;
    RunKeepsInv(run, q0);
    var s, q := run.s, Queue(q0, run);
    if s.sem == 1 {
      var p :| p in s.pcs && !s.pcs[p].Idle?;
      WaitingCanStep(s, p);
    } else {
      var p :| p in s.pcs && Critical(s.pcs[p]) && Inside(s.ring, q, s.pcs[p]);
      InsideCanStep(s, p, q);
    }
  }

  // ---------- When a late pq_init is safe ----------

  ghost predicate Exclusive(s: State) {
    forall p, p' :: p in s.pcs && p' in s.pcs && Critical(s.pcs[p]) && Critical(s.pcs[p']) ==> p == p'
  }

  /** `run` goes on from `from` by steps alone. */
  ghost predicate GoesOn(from: Run, run: Run) {
    run == from || (run.Then? && GoesOn(from, run.before))
  }

  lemma {:induction false} StepsStayQuiet(from: Run, run: Run)
    requires QuietInits(from) && GoesOn(from, run)
    ensures QuietInits(run) && FirstState(run) == FirstState(from)
  {
    if run != from {
      StepsStayQuiet(from, run.before);
    }
  }

  /** The process that has joined starts an enqueue and enters. */
  ghost function Entering(run: Run, p: nat, m: Mail): Run
    requires p in run.s.pcs
  {
    var s := run.s;
    var waiting := State(s.ring, s.sem, s.pcs[p := EnqWait(m)]);
    Then(Then(run, p, waiting, Silent), p, State(s.ring, s.sem - 1, s.pcs[p := EnqTest(m)]), Silent)
  }

  lemma {:induction false} EntersNext(run: Run, p: nat, m: Mail)
    requires IsRun(run) && p in run.s.pcs && run.s.pcs[p].Idle? && run.s.sem > 0
    ensures var next := Entering(run, p, m);
            IsRun(next) && GoesOn(run, next) && FirstState(next) == FirstState(run) &&
            next.s == State(run.s.ring, run.s.sem - 1, run.s.pcs[p := EnqTest(m)])
  {
    var next := Entering(run, p, m);
    assert Step(run.s, p, next.before.s, Silent);
    assert next.s.pcs == next.before.s.pcs[p := EnqTest(m)];
    assert Step(next.before.s, p, next.s, Silent);
  }

  /** After quiet runs, one more `pq_init` is safe exactly when no process is inside an operation at that
      moment: then no run that goes on from it ever has two processes inside, and otherwise one does. */
  lemma {:induction false} LateInitIsSafeIff(before: Run, p: nat, s: State, q0: seq<Mail>, m: Mail)
    requires IsRun(before) && QuietInits(before) && Stores(FirstState(before).ring, q0)
    requires Joins(before.s, p, s)
    ensures NobodyInside(before.s) <==>
            forall run :: IsRun(run) && GoesOn(Init(before, p, s), run) ==> Exclusive(run.s)
  {
    var start := Init(before, p, s);
    if NobodyInside(before.s) {
      forall run | IsRun(run) && GoesOn(start, run)
        ensures Exclusive(run.s)
      {
        StepsStayQuiet(start, run);
        RunKeepsInv(run, q0);
      }
    } else {
      var c :| c in before.s.pcs && Critical(before.s.pcs[c]);
      EntersNext(start, p, m);
      var bad := Entering(start, p, m);
      assert Critical(bad.s.pcs[p]) && Critical(bad.s.pcs[c]) && c != p;
      assert IsRun(bad) && GoesOn(start, bad) && !Exclusive(bad.s);
    }
  }

  /** From any start with a process, a run reaches a state with two processes inside: one enters, another
      joins late, and enters too. */
  lemma LateInitBreaksExclusion(s: State, p: nat, joiner: nat, m: Mail)
    requires Start(s) && p in s.pcs && joiner != p
    ensures exists run :: IsRun(run) && FirstState(run) == s && !Exclusive(run.s)
  {
    EntersNext(Begin(s), p, m);
    var one := Entering(Begin(s), p, m);
    var joined := State(one.s.ring, 1, one.s.pcs[joiner := Idle]);
    var late := Init(one, joiner, joined);
    assert Joins(one.s, joiner, joined) && IsRun(late) && FirstState(late) == FirstState(one);
    EntersNext(late, joiner, m);
    var two := Entering(late, joiner, m);
    assert Critical(two.s.pcs[p]) && Critical(two.s.pcs[joiner]);
    assert IsRun(two) && FirstState(two) == s && !Exclusive(two.s);
  }
}
