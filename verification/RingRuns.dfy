/** What the ring promises over whole runs: for every schedule of the two threads. */
module RingRuns {
  import opened Arithmetic
  import opened Bits
  import opened IndexStrategy
  import opened RingProtocol
  import opened MachineInts

  datatype Action<T> = Produce(push: PushJob<T>) | Consume(pop: PopJob)

  datatype Run<T> = Run(ring: Ring<T>, history: History<T>, events: seq<Event<T>>)

  predicate Allowed<T>(cfg: Config, a: Action<T>) {
    match a
    case Produce(job) => JobAllowed(cfg, job)
    case Consume(job) => PopAllowed(cfg, job)
  }

  function Start<T>(cfg: Config): (s: Run<T>)
    requires ConfigOk(cfg)
    ensures Inv(s.ring, s.history)
  {
    ModOfWord(0, Cap(cfg));
    Run(Ring(cfg, 0, 0, 0, 0, 0, 0, seq(Cap(cfg), _ => Uninit), PIdle, CIdle), History([], [], 0, 0, 0, 0), [])
  }

  function Step<T>(s: Run<T>, a: Action<T>): (s': Run<T>)
    requires Shape(s.ring)
  {
    match a
    case Produce(job) =>
      var res := ProducerStep(s.ring, job);
      Run(res.0, ProducerHistory(s.ring, s.history), s.events + [res.1])
    case Consume(job) =>
      var res := ConsumerStep(s.ring, job);
      Run(res.0, ConsumerHistory(s.ring, s.history), s.events + [res.1])
  }

  lemma StepKeeps<T>(s: Run<T>, a: Action<T>)
    requires Inv(s.ring, s.history) && Allowed(s.ring.cfg, a)
    ensures Inv(Step(s, a).ring, Step(s, a).history) && Step(s, a).ring.cfg == s.ring.cfg
  {
    match a
    case Produce(job) => ProducerKeeps(s.ring, s.history, job); ProducerKeepsShape(s.ring, job);
    case Consume(job) => ConsumerKeeps(s.ring, s.history, job); ConsumerKeepsShape(s.ring, job);
  }

  predicate AllAllowed<T>(cfg: Config, schedule: seq<Action<T>>) {
    forall i :: 0 <= i < |schedule| ==> Allowed(cfg, schedule[i])
  }

  /** The state after a schedule, with the invariant that every prefix of it keeps. */
  function Execute<T>(cfg: Config, schedule: seq<Action<T>>): (s: Run<T>)
    requires ConfigOk(cfg) && AllAllowed(cfg, schedule)
    ensures Inv(s.ring, s.history) && s.ring.cfg == cfg
  {
    if schedule == [] then Start(cfg)
    else
      var s := Execute(cfg, schedule[..|schedule| - 1]);
      StepKeeps(s, schedule[|schedule| - 1]);
      Step(s, schedule[|schedule| - 1])
  }

  // ---- The ring is a bounded queue ----

  /** What the queue holds: published and not yet released. */
  function Queue<T>(h: History<T>): seq<T>
    requires |h.popped| <= |h.pushed|
  {
    h.pushed[|h.popped|..]
  }

  lemma QueueAppended<T>(h: History<T>, h': History<T>, vals: seq<T>)
    requires |h.popped| <= |h.pushed| && h'.popped == h.popped && h'.pushed == h.pushed + vals
    ensures Queue(h') == Queue(h) + vals
  {}

  lemma QueueRemoved<T>(h: History<T>, h': History<T>, got: seq<Cell<T>>)
    requires |h.popped| + |got| <= |h.pushed| && h'.popped == h.popped + got && h'.pushed == h.pushed
    ensures Queue(h') == Queue(h)[|got|..]
  {}

  /** The step that stores the new head, and the one that stores the new tail. */
  predicate Publishes<T>(r: Ring<T>, a: Action<T>) { a.Produce? && r.p.PWrite? && r.p.i == r.p.n }
  predicate Releases<T>(r: Ring<T>, a: Action<T>) { a.Consume? && r.c.CRead? && |r.c.got| == r.c.n }

  /** Every step leaves the queue alone, appends the values of one push, within the bound, or
      removes from the front exactly the values the pop has read. */
  lemma StepRefinesQueue<T>(s: Run<T>, a: Action<T>)
    requires Inv(s.ring, s.history) && Allowed(s.ring.cfg, a)
    ensures var h, h', r := s.history, Step(s, a).history, s.ring;
            && |h.popped| <= |h.pushed| && |h'.popped| <= |h'.pushed| && |Queue(h')| <= Cap(r.cfg) - 1
            && (Publishes(r, a) ==> r.p.n <= |r.p.job.Values()| && Queue(h') == Queue(h) + r.p.job.Values()[..r.p.n])
            && (Releases(r, a) ==>
                  && |r.c.got| <= |Queue(h)| && Queue(h') == Queue(h)[|r.c.got|..]
                  && forall j :: 0 <= j < |r.c.got| ==> r.c.got[j] == Init(Queue(h)[j]))
            && (!Publishes(r, a) && !Releases(r, a) ==> Queue(h') == Queue(h))
  {
    StepKeeps(s, a);
    var h, h' := s.history, Step(s, a).history;
    if Publishes(s.ring, a) { QueueAppended(h, h', s.ring.p.job.Values()[..s.ring.p.n]); }
    if Releases(s.ring, a) { QueueRemoved(h, h', s.ring.c.got); }
  }

  /** `Full` is returned only if the ring held capacity - 1 elements when the tail was loaded; a
      batch that was cut short got exactly the room there was at that load; and without a
      reload the whole job is accepted. */
  lemma PushDecision<T>(r: Ring<T>, h: History<T>, job: PushJob<T>)
    requires Inv(r, h) && (r.p.PHead? || r.p.PTail?)
    ensures var res := ProducerStep(r, job);
            var room := if r.p.PHead? then Cap(r.cfg) - 1 - (|h.pushed| - h.tc) else Cap(r.cfg) - 1 - h.occT;
            && (res.1 == Full <==> r.p.PTail? && h.occT == Cap(r.cfg) - 1)
            && (res.0.p.PWrite? ==> res.0.p.n == Min(|r.p.job.Values()|, room))
            && (r.p.PHead? && res.0.p.PWrite? ==> res.0.p.n == |r.p.job.Values()|)
  {
    RoomIsExact(r.cfg, r.p.job, |h.pushed|, if r.p.PHead? then h.tc else |h.pushed| - h.occT);
  }

  /** `Empty` is returned only if nothing was held when the head was loaded. */
  lemma PopDecision<T>(r: Ring<T>, h: History<T>, job: PopJob)
    requires Inv(r, h) && (r.c.CTail? || r.c.CHead?)
    ensures var res := ConsumerStep(r, job);
            var avail := if r.c.CTail? then h.hc - |h.popped| else h.occH;
            && (res.1 == Empty <==> r.c.CHead? && h.occH == 0)
            && (res.0.c.CRead? ==> res.0.c.n == Min(r.c.job.Max(), avail))
            && (r.c.CTail? && res.0.c.CRead? ==> res.0.c.n == r.c.job.Max())
  {
    AvailableIsExact(r.cfg, r.c.job, if r.c.CTail? then h.hc else |h.popped| + h.occH, |h.popped|);
  }

  /** The two threads never touch one slot at the same time. */
  lemma NoSlotRace<T>(r: Ring<T>, h: History<T>)
    requires Inv(r, h)
    requires r.p.PWrite? && r.p.i < r.p.n && r.c.CRead? && |r.c.got| < r.c.n
    ensures SlotOf(Cap(r.cfg), r.p.head, r.p.n, r.p.i) != SlotOf(Cap(r.cfg), r.c.tail, r.c.n, |r.c.got|)
  {
    WriteTargetIsFree(r, h);
    SlotOfIsPlus(Cap(r.cfg), |h.popped|, r.c.n, |r.c.got|);
    var j := |h.popped| + |r.c.got|;
    assert j % Cap(r.cfg) == SlotOf(Cap(r.cfg), r.c.tail, r.c.n, |r.c.got|);
  }

  /** A call pushes its own argument: the job taken when idle is carried unchanged, with its
      granted length, to the step that publishes it and to the reported count. */
  lemma CallCarriesItsJob<T>(r: Ring<T>, job: PushJob<T>)
    requires Shape(r)
    ensures var p, p' := r.p, ProducerStep(r, job).0.p;
            && (p.PIdle? && !p'.PIdle? ==> p'.PHead? && p'.job == job && job.Values() != [])
            && (!p.PIdle? && !p.PDone? && !p'.PIdle? && !p'.PDone? ==> p'.job == p.job)
            && (p.PWrite? && p'.PWrite? ==> p'.n == p.n && p'.i == p.i + 1)
            && (p'.PDone? ==> p.PWrite? && p.i == p.n == p'.n)
            && (p.PDone? ==> ProducerStep(r, job).1 == Pushed(p.n))
  {}

  // ---- What the callers see ----

  /** All values returned by pops, in order. */
  function Returned<T>(events: seq<Event<T>>): seq<Cell<T>> {
    if events == [] then []
    else
      var rest := Returned(events[..|events| - 1]);
      match events[|events| - 1]
      case Popped(got) => rest + got
      case _ => rest
  }

  /** How many values pushes have reported as accepted. */
  function Accepted<T>(events: seq<Event<T>>): nat {
    if events == [] then 0
    else
      var rest := Accepted(events[..|events| - 1]);
      match events[|events| - 1]
      case Pushed(n) => rest + n
      case _ => rest
  }

  /** Released but not yet returned, and published but not yet reported. */
  function PopsInFlight<T>(r: Ring<T>): nat { if r.c.CDone? then |r.c.got| else 0 }
  function PushesInFlight<T>(r: Ring<T>): nat { if r.p.PDone? then r.p.n else 0 }

  ghost predicate CallersAgree<T(!new)>(s: Run<T>) {
    && PopsInFlight(s.ring) <= |s.history.popped| && PushesInFlight(s.ring) <= |s.history.pushed|
    && Returned(s.events) == s.history.popped[..|s.history.popped| - PopsInFlight(s.ring)]
    && Accepted(s.events) == |s.history.pushed| - PushesInFlight(s.ring)
  }

  lemma ProducerCallersStep<T(!new)>(s: Run<T>, job: PushJob<T>)
    requires Inv(s.ring, s.history) && CallersAgree(s)
    ensures CallersAgree(Step(s, Produce(job)))
  {
    var t := Step(s, Produce(job));
    assert t.events[..|t.events| - 1] == s.events;
  }

  lemma ConsumerCallersStep<T(!new)>(s: Run<T>, job: PopJob)
    requires Inv(s.ring, s.history) && CallersAgree(s)
    ensures CallersAgree(Step(s, Consume(job)))
  {
    var t := Step(s, Consume(job));
    assert t.events[..|t.events| - 1] == s.events;
    if s.ring.c.CDone? {
      var p, got := s.history.popped, s.ring.c.got;
      assert p[..|p| - |got|] + p[|p| - |got|..] == p;
    }
  }

  /** On every schedule, what the pops have returned is a prefix of what the pushes have put in,
      value by value and in order; nothing is lost, repeated or invented. */
  lemma {:induction false} ReturnedIsPrefix<T(!new)>(cfg: Config, schedule: seq<Action<T>>)
    requires ConfigOk(cfg) && AllAllowed(cfg, schedule)
    ensures var s := Execute(cfg, schedule);
            && CallersAgree(s) && |Returned(s.events)| <= |s.history.pushed|
            && forall i :: 0 <= i < |Returned(s.events)| ==> Returned(s.events)[i] == Init(s.history.pushed[i])
  {
    if schedule != [] {
      var s := Execute(cfg, schedule[..|schedule| - 1]);
      ReturnedIsPrefix(cfg, schedule[..|schedule| - 1]);
      match schedule[|schedule| - 1]
      case Produce(job) => ProducerCallersStep(s, job);
      case Consume(job) => ConsumerCallersStep(s, job);
    }
  }

  // ---- What the callers passed ----

  /** The argument of the latest push call: the one given to the step that found the producer idle. */
  function LatestCall<T>(cfg: Config, schedule: seq<Action<T>>): Option<PushJob<T>>
    requires ConfigOk(cfg) && AllAllowed(cfg, schedule)
  {
    if schedule == [] then None
    else
      var init, a := schedule[..|schedule| - 1], schedule[|schedule| - 1];
      if a.Produce? && Execute(cfg, init).ring.p.PIdle? then Some(a.push) else LatestCall(cfg, init)
  }

  /** The first `n` values of a call's argument. */
  function Prefix<T>(call: Option<PushJob<T>>, n: nat): seq<T> {
    if call.Some? && n <= |call.value.Values()| then call.value.Values()[..n] else []
  }

  /** The accepted prefixes of the arguments of all push calls that have returned, joined in order. */
  function AcceptedValues<T>(cfg: Config, schedule: seq<Action<T>>): seq<T>
    requires ConfigOk(cfg) && AllAllowed(cfg, schedule)
  {
    if schedule == [] then []
    else
      var init, a := schedule[..|schedule| - 1], schedule[|schedule| - 1];
      var rest := AcceptedValues(cfg, init);
      match EventOf(Execute(cfg, init), a)
      case Pushed(n) => rest + Prefix(LatestCall(cfg, schedule), n)
      case _ => rest
  }

  /** What a step returns to its caller: the event it adds to the run. */
  function EventOf<T>(s: Run<T>, a: Action<T>): (e: Event<T>)
    requires Shape(s.ring)
    ensures Step(s, a).events == s.events + [e]
  {
    match a
    case Produce(job) => ProducerStep(s.ring, job).1
    case Consume(job) => ConsumerStep(s.ring, job).1
  }

  /** The pushed values are the accepted ones, and those of a call that has published but not yet
      returned; a call in progress works on its own argument. */
  ghost predicate PushedAgrees<T(!new)>(r: Ring<T>, h: History<T>, call: Option<PushJob<T>>, accepted: seq<T>) {
    && (!r.p.PIdle? ==> call.Some?)
    && (r.p.PHead? || r.p.PReload? || r.p.PTail? || r.p.PWrite? ==> r.p.job == call.value)
    && (r.p.PDone? ==> r.p.n <= |call.value.Values()|)
    && h.pushed == if r.p.PDone? then accepted + Prefix(call, r.p.n) else accepted
  }

  lemma ProducerPushedStep<T(!new)>(r: Ring<T>, h: History<T>, job: PushJob<T>, call: Option<PushJob<T>>, accepted: seq<T>)
    requires Shape(r) && PushedAgrees(r, h, call, accepted)
    ensures var call' := if r.p.PIdle? then Some(job) else call;
            var res := ProducerStep(r, job);
            var accepted' := if res.1.Pushed? then accepted + Prefix(call', res.1.n) else accepted;
            PushedAgrees(res.0, ProducerHistory(r, h), call', accepted')
  {
    if r.p.PIdle? { assert accepted + Prefix(Some(job), 0) == accepted; }
  }

  lemma ConsumerPushedStep<T(!new)>(r: Ring<T>, h: History<T>, job: PopJob, call: Option<PushJob<T>>, accepted: seq<T>)
    requires Shape(r) && PushedAgrees(r, h, call, accepted)
    ensures PushedAgrees(ConsumerStep(r, job).0, ConsumerHistory(r, h), call, accepted)
    ensures !ConsumerStep(r, job).1.Pushed?
  {}

  /** On every schedule the values pushed are the accepted prefixes of what the callers passed. */
  lemma {:induction false} PushedIsAccepted<T(!new)>(cfg: Config, schedule: seq<Action<T>>)
    requires ConfigOk(cfg) && AllAllowed(cfg, schedule)
    ensures var s := Execute(cfg, schedule);
            PushedAgrees(s.ring, s.history, LatestCall(cfg, schedule), AcceptedValues(cfg, schedule))
  {
    if schedule != [] {
      var init, a := schedule[..|schedule| - 1], schedule[|schedule| - 1];
      var s := Execute(cfg, init);
      PushedIsAccepted(cfg, init);
      match a
      case Produce(job) => ProducerPushedStep(s.ring, s.history, job, LatestCall(cfg, init), AcceptedValues(cfg, init));
      case Consume(job) => ConsumerPushedStep(s.ring, s.history, job, LatestCall(cfg, init), AcceptedValues(cfg, init));
    }
  }

  /** So what the pops have returned is a prefix of the accepted values of the callers' own arguments,
      counting those of a call that has published and is about to return. */
  lemma ReturnedIsPrefixOfAccepted<T(!new)>(cfg: Config, schedule: seq<Action<T>>)
    requires ConfigOk(cfg) && AllAllowed(cfg, schedule)
    ensures var s := Execute(cfg, schedule);
            var values := AcceptedValues(cfg, schedule) + Prefix(LatestCall(cfg, schedule), PushesInFlight(s.ring));
            && |Returned(s.events)| <= |values|
            && forall i :: 0 <= i < |Returned(s.events)| ==> Returned(s.events)[i] == Init(values[i])
  {
    var s := Execute(cfg, schedule);
    ReturnedIsPrefix(cfg, schedule);
    PushedIsAccepted(cfg, schedule);
    if !s.ring.p.PDone? {
      assert Prefix(LatestCall(cfg, schedule), 0) == [];
      assert s.history.pushed + [] == s.history.pushed;
    }
  }

  /** `len()`: the wrapped distance between the two published indices. */
  function Len<T>(r: Ring<T>): nat
    requires Shape(r)
  {
    (r.head + Cap(r.cfg) - r.tail) % Cap(r.cfg)
  }

  lemma LenIsHeld<T>(r: Ring<T>, h: History<T>)
    requires Inv(r, h)
    ensures Len(r) == |h.pushed| - |h.popped| < Cap(r.cfg)
  {
    DistanceIsDifference(Cap(r.cfg), |h.popped|, |h.pushed|);
    ModOfWord(r.head + Cap(r.cfg) - r.tail, Cap(r.cfg));
  }

  /** With no call in flight, `len` is what was accepted minus what was returned. */
  lemma LenIsDifference<T(!new)>(cfg: Config, schedule: seq<Action<T>>)
    requires ConfigOk(cfg) && AllAllowed(cfg, schedule)
    ensures var s := Execute(cfg, schedule);
            s.ring.p.PIdle? && s.ring.c.CIdle? ==> Len(s.ring) == Accepted(s.events) - |Returned(s.events)| < Cap(cfg)
  {
    var s := Execute(cfg, schedule);
    ReturnedIsPrefix(cfg, schedule);
    LenIsHeld(s.ring, s.history);
  }

  // ---- Wait-freedom ----

  function ProducerRank<T>(r: Ring<T>): nat
    requires Shape(r)
  {
    match r.p
    case PIdle => 0
    case PDone(_, _) => 1
    case PWrite(_, _, n, i) => 2 + n - i
    case PTail(job, _, _) => 3 + |job.Values()|
    case PReload(job, _) => 4 + |job.Values()|
    case PHead(job, _) => 5 + |job.Values()|
  }

  function ConsumerRank<T>(r: Ring<T>): nat
    requires Shape(r)
  {
    match r.c
    case CIdle => 0
    case CDone(_, _) => 1
    case CRead(_, n, got) => 2 + n - |got|
    case CHead(job, _, _) => 3 + job.Max()
    case CReload(job, _) => 4 + job.Max()
    case CTail(job, _) => 5 + job.Max()
  }

  /** A call ends within its own bounded number of steps, whatever the other thread does:
      its steps lower its rank and the other thread's steps do not touch it. */
  lemma WaitFree<T>(r: Ring<T>, push: PushJob<T>, pop: PopJob)
    requires Shape(r)
    ensures Shape(ProducerStep(r, push).0) && Shape(ConsumerStep(r, pop).0)
    ensures !r.p.PIdle? ==> ProducerRank(ProducerStep(r, push).0) < ProducerRank(r)
    ensures !r.c.CIdle? ==> ConsumerRank(ConsumerStep(r, pop).0) < ConsumerRank(r)
    ensures ProducerStep(r, push).0.c == r.c && ConsumerStep(r, pop).0.p == r.p
  {
    ProducerAdvances(r, push);
    ConsumerAdvances(r, pop);
  }

  lemma ProducerAdvances<T>(r: Ring<T>, push: PushJob<T>)
    requires Shape(r)
    ensures Shape(ProducerStep(r, push).0) && ProducerStep(r, push).0.c == r.c
    ensures !r.p.PIdle? ==> ProducerRank(ProducerStep(r, push).0) < ProducerRank(r)
  {
    ProducerKeepsShape(r, push);
  }

  lemma ConsumerAdvances<T>(r: Ring<T>, pop: PopJob)
    requires Shape(r)
    ensures Shape(ConsumerStep(r, pop).0) && ConsumerStep(r, pop).0.p == r.p
    ensures !r.c.CIdle? ==> ConsumerRank(ConsumerStep(r, pop).0) < ConsumerRank(r)
  {
    ConsumerKeepsShape(r, pop);
  }

  // ---- Configurations are indistinguishable ----

  /** Equal but for the configuration and the private index copies. */
  ghost predicate SameButConfig<T(!new)>(r: Ring<T>, q: Ring<T>) {
    r == q.(cfg := r.cfg, headLocal := r.headLocal, tailLocal := r.tailLocal)
  }

  lemma SameProducerStep<T(!new)>(r: Ring<T>, q: Ring<T>, h: History<T>, job: PushJob<T>)
    requires Inv(r, h) && Inv(q, h) && SameButConfig(r, q) && r.cfg.logCap == q.cfg.logCap
    requires JobAllowed(r.cfg, job) && JobAllowed(q.cfg, job)
    ensures SameButConfig(ProducerStep(r, job).0, ProducerStep(q, job).0)
    ensures ProducerStep(r, job).1 == ProducerStep(q, job).1
    ensures ProducerHistory(r, h) == ProducerHistory(q, h)
  {
    if r.p.PWrite? {
      AdvanceIsPlus(r.cfg, |h.pushed|, r.p.n);
      AdvanceIsPlus(q.cfg, |h.pushed|, r.p.n);
    } else if r.p.PHead? || r.p.PTail? {
      SameGrant(r, q, h, job);
    }
  }

  lemma SameGrant<T(!new)>(r: Ring<T>, q: Ring<T>, h: History<T>, job: PushJob<T>)
    requires Inv(r, h) && Inv(q, h) && SameButConfig(r, q) && r.cfg.logCap == q.cfg.logCap
    requires r.p.PHead? || r.p.PTail?
    ensures SameButConfig(ProducerStep(r, job).0, ProducerStep(q, job).0)
    ensures ProducerStep(r, job).1 == ProducerStep(q, job).1
  {
    var t := if r.p.PHead? then h.tc else |h.pushed| - h.occT;
    RoomIsExact(r.cfg, r.p.job, |h.pushed|, t);
    RoomIsExact(q.cfg, r.p.job, |h.pushed|, t);
  }

  lemma SameConsumerStep<T(!new)>(r: Ring<T>, q: Ring<T>, h: History<T>, job: PopJob)
    requires Inv(r, h) && Inv(q, h) && SameButConfig(r, q) && r.cfg.logCap == q.cfg.logCap
    requires PopAllowed(r.cfg, job) && PopAllowed(q.cfg, job)
    ensures SameButConfig(ConsumerStep(r, job).0, ConsumerStep(q, job).0)
    ensures ConsumerStep(r, job).1 == ConsumerStep(q, job).1
    ensures ConsumerHistory(r, h) == ConsumerHistory(q, h)
  {
    match r.c
    case CRead(_, n, _) => AdvanceIsPlus(r.cfg, |h.popped|, n); AdvanceIsPlus(q.cfg, |h.popped|, n);
    case _ =>
  }

  /** Mask or branch, local index copies or not: on one schedule every ring returns the same
      events, step for step. */
  lemma {:induction false} SameScheduleSameEvents<T(!new)>(a: Config, b: Config, schedule: seq<Action<T>>)
    requires ConfigOk(a) && ConfigOk(b) && a.logCap == b.logCap
    requires AllAllowed(a, schedule) && AllAllowed(b, schedule)
    ensures Execute(a, schedule).events == Execute(b, schedule).events
    ensures Execute(a, schedule).history == Execute(b, schedule).history
    ensures SameButConfig(Execute(a, schedule).ring, Execute(b, schedule).ring)
  {
    if schedule != [] {
      var init, last := schedule[..|schedule| - 1], schedule[|schedule| - 1];
      SameScheduleSameEvents(a, b, init);
      var r, q := Execute(a, init), Execute(b, init);
      match last
      case Produce(job) => SameProducerStep(r.ring, q.ring, r.history, job);
      case Consume(job) => SameConsumerStep(r.ring, q.ring, r.history, job);
    }
  }
}
