/** The single-producer single-consumer ring as an interleaving of atomic steps. Each load or
    store of a shared index and each slot access is one step of its thread; a schedule picks
    the thread of every step. Single and batch operations share the protocol. */
module RingProtocol {
  import opened Arithmetic
  import opened Bits
  import opened IndexStrategy

  /** Capacity 2^logCap, wrapping strategy, and whether a thread reads its own index from a local copy. */
  datatype Config = Config(logCap: nat, strategy: Strategy, localCopies: bool)

  /** A slot of possibly uninitialised memory. */
  datatype Cell<T> = Uninit | Init(value: T)

  datatype PushJob<T> = One(value: T) | Many(batch: seq<T>) {
    function Values(): seq<T> { if One? then [value] else batch }
  }

  datatype PopJob = Single | UpTo(count: nat) {
    function Max(): nat { if Single? then 1 else count }
  }

  /** Where the producer is inside a call, with the locals it holds there. */
  datatype Producer<T> =
    | PIdle
    | PHead(job: PushJob<T>, head: nat)
    | PReload(job: PushJob<T>, head: nat)
    | PTail(job: PushJob<T>, head: nat, tail: nat)
    | PWrite(job: PushJob<T>, head: nat, n: nat, i: nat)
    | PDone(newHead: nat, n: nat)

  datatype Consumer<T> =
    | CIdle
    | CTail(job: PopJob, tail: nat)
    | CReload(job: PopJob, tail: nat)
    | CHead(job: PopJob, tail: nat, head: nat)
    | CRead(tail: nat, n: nat, got: seq<Cell<T>>)
    | CDone(newTail: nat, got: seq<Cell<T>>)

  /** The whole machine: shared indices and slots, each side's private cells, both program points. */
  datatype Ring<T> = Ring(
    cfg: Config,
    head: nat, headLocal: nat, tailCached: nat,
    tail: nat, tailLocal: nat, headCached: nat,
    slots: seq<Cell<T>>,
    p: Producer<T>, c: Consumer<T>)

  /** What a step returns to its caller. */
  datatype Event<T> = Quiet | Pushed(n: nat) | Full | Popped(got: seq<Cell<T>>) | Empty

  function Cap(cfg: Config): (n: nat)
    ensures n > 0
  {
    Pow2(cfg.logCap)
  }

  predicate ConfigOk(cfg: Config) { cfg.logCap <= 62 }

  /** Sizes and index ranges that hold of any state, reachable or not. */
  predicate Shape<T>(r: Ring<T>) {
    var cap := Cap(r.cfg);
    && ConfigOk(r.cfg) && |r.slots| == cap
    && r.head < cap && r.headLocal < cap && r.tailCached < cap
    && r.tail < cap && r.tailLocal < cap && r.headCached < cap
    && (match r.p
        case PIdle => true
        case PHead(_, h) => h < cap
        case PReload(_, h) => h < cap
        case PTail(_, h, t) => h < cap && t < cap
        case PWrite(job, h, n, i) => h < cap && i <= n <= |job.Values()| && n < cap
        case PDone(h, _) => h < cap)
    && (match r.c
        case CIdle => true
        case CTail(_, t) => t < cap
        case CReload(_, t) => t < cap
        case CHead(_, t, h) => t < cap && h < cap
        case CRead(t, n, got) => t < cap && |got| <= n < cap
        case CDone(t, _) => t < cap)
  }

  // ---- Index arithmetic of the source ----

  /** `I::wrap(index + n, capacity)`. */
  function Advance(cfg: Config, index: nat, n: nat): (r: nat)
    requires ConfigOk(cfg) && index < Cap(cfg) && n <= Cap(cfg)
    ensures r < Cap(cfg)
  {
    IndexIsWord(cfg, index + n);
    MaskIsModulo(cfg.logCap, index + n);
    Wrap(cfg.strategy, index + n, Cap(cfg))
  }

  lemma IndexIsWord(cfg: Config, index: nat)
    requires ConfigOk(cfg) && index < 2 * Cap(cfg)
    ensures IsWord(USIZE_BITS, index)
  {
    Pow2Monotone(cfg.logCap + 1, USIZE_BITS);
  }

  /** Distance from `tail` up to `head` around the array. */
  function Distance(cap: nat, head: nat, tail: nat): (n: nat)
    requires head < cap && tail < cap
    ensures n < cap
  {
    if head >= tail then head - tail else cap - tail + head
  }

  /** Slots the producer may fill: a single push only asks whether the next index meets the tail. */
  function Room<T>(cfg: Config, job: PushJob<T>, head: nat, tail: nat): (n: nat)
    requires ConfigOk(cfg) && head < Cap(cfg) && tail < Cap(cfg)
    ensures n < Cap(cfg)
  {
    if job.One? then
      if Advance(cfg, head, 1) == tail then 0 else 1
    else
      Cap(cfg) - 1 - Distance(Cap(cfg), head, tail)
  }

  /** Values the consumer may take: a single pop only asks whether tail and head differ. */
  function Available(cfg: Config, job: PopJob, head: nat, tail: nat): (n: nat)
    requires head < Cap(cfg) && tail < Cap(cfg)
    ensures n < Cap(cfg)
  {
    if job.Single? then
      if tail == head then 0 else 1
    else
      Distance(Cap(cfg), head, tail)
  }

  /** Slot of element `i` of a run of `n` that starts at `start` and is copied in two chunks. */
  function SlotOf(cap: nat, start: nat, n: nat, i: nat): (k: nat)
    requires start < cap && n < cap && i < n
    ensures k < cap
  {
    var firstChunk := if n < cap - start then n else cap - start;
    if i < firstChunk then start + i else i - firstChunk
  }

  function Min(a: nat, b: nat): nat { if a < b then a else b }

  // ---- Steps ----

  /** One step of the producer; `job` is the argument of the call it begins when idle. */
  function ProducerStep<T>(r: Ring<T>, job: PushJob<T>): (res: (Ring<T>, Event<T>))
    requires Shape(r)
  {
    var cap := Cap(r.cfg);
    match r.p
    case PIdle =>
      if job.Values() == [] then (r, Pushed(0))
      else (r.(p := PHead(job, if r.cfg.localCopies then r.headLocal else r.head)), Quiet)
    case PHead(job, h) =>
      var room := Room(r.cfg, job, h, r.tailCached);
      if room < |job.Values()| then (r.(p := PReload(job, h)), Quiet)
      else (r.(p := PWrite(job, h, Min(|job.Values()|, room), 0)), Quiet)
    case PReload(job, h) => (r.(p := PTail(job, h, r.tail)), Quiet)
    case PTail(job, h, t) =>
      var room := Room(r.cfg, job, h, t);
      if room == 0 then (r.(tailCached := t, p := PIdle), Full)
      else (r.(tailCached := t, p := PWrite(job, h, Min(|job.Values()|, room), 0)), Quiet)
    case PWrite(job, h, n, i) =>
      if i < n then
        (r.(slots := r.slots[SlotOf(cap, h, n, i) := Init(job.Values()[i])], p := PWrite(job, h, n, i + 1)), Quiet)
      else
        var next := Advance(r.cfg, h, n);
        (r.(head := next, p := PDone(next, n)), Quiet)
    case PDone(next, n) =>
      (r.(headLocal := if r.cfg.localCopies then next else r.headLocal, p := PIdle), Pushed(n))
  }

  function ConsumerStep<T>(r: Ring<T>, job: PopJob): (res: (Ring<T>, Event<T>))
    requires Shape(r)
  {
    var cap := Cap(r.cfg);
    match r.c
    case CIdle =>
      if job.Max() == 0 then (r, Popped([]))
      else (r.(c := CTail(job, if r.cfg.localCopies then r.tailLocal else r.tail)), Quiet)
    case CTail(job, t) =>
      var avail := Available(r.cfg, job, r.headCached, t);
      if avail < job.Max() then (r.(c := CReload(job, t)), Quiet)
      else (r.(c := CRead(t, Min(job.Max(), avail), [])), Quiet)
    case CReload(job, t) => (r.(c := CHead(job, t, r.head)), Quiet)
    case CHead(job, t, h) =>
      var avail := Available(r.cfg, job, h, t);
      if avail == 0 then (r.(headCached := h, c := CIdle), Empty)
      else (r.(headCached := h, c := CRead(t, Min(job.Max(), avail), [])), Quiet)
    case CRead(t, n, got) =>
      if |got| < n then
        (r.(c := CRead(t, n, got + [r.slots[SlotOf(cap, t, n, |got|)]])), Quiet)
      else
        var next := Advance(r.cfg, t, n);
        (r.(tail := next, c := CDone(next, got)), Quiet)
    case CDone(next, got) =>
      (r.(tailLocal := if r.cfg.localCopies then next else r.tailLocal, c := CIdle), Popped(got))
  }

  lemma ProducerKeepsShape<T>(r: Ring<T>, job: PushJob<T>)
    requires Shape(r)
    ensures Shape(ProducerStep(r, job).0) && ProducerStep(r, job).0.cfg == r.cfg
  {}

  lemma ConsumerKeepsShape<T>(r: Ring<T>, job: PopJob)
    requires Shape(r)
    ensures Shape(ConsumerStep(r, job).0) && ConsumerStep(r, job).0.cfg == r.cfg
  {}

  // ---- Auxiliary history: unbounded counters and values, never read by the steps ----

  /** `tc` and `hc` are the counts behind the cached indices; `occT` and `occH` the number of
      elements held when the producer last loaded the tail and the consumer last loaded the head. */
  datatype History<T> = History(pushed: seq<T>, popped: seq<Cell<T>>, tc: nat, hc: nat, occT: int, occH: int)

  function Held<T>(h: History<T>): int { |h.pushed| - |h.popped| }

  function ProducerHistory<T>(r: Ring<T>, h: History<T>): History<T>
    requires Shape(r)
  {
    match r.p
    case PReload(_, _) => h.(occT := Held(h))
    case PTail(_, _, _) => if |h.pushed| >= h.occT then h.(tc := |h.pushed| - h.occT) else h
    case PWrite(job, _, n, i) => if i < n then h else h.(pushed := h.pushed + job.Values()[..n])
    case _ => h
  }

  function ConsumerHistory<T>(r: Ring<T>, h: History<T>): History<T>
    requires Shape(r)
  {
    match r.c
    case CReload(_, _) => h.(occH := Held(h))
    case CHead(_, _, _) => if |h.popped| + h.occH >= 0 then h.(hc := |h.popped| + h.occH) else h
    case CRead(_, n, got) => if |got| < n then h else h.(popped := h.popped + got)
    case _ => h
  }

  // ---- The invariant ----

  predicate JobAllowed<T>(cfg: Config, job: PushJob<T>) { job.One? || cfg.strategy == Pow2Masked }
  predicate PopAllowed(cfg: Config, job: PopJob) { job.Single? || cfg.strategy == Pow2Masked }

  /** Cached counts trail the true ones, and never by more than the array can hold. */
  ghost predicate CountersOk<T>(r: Ring<T>, h: History<T>) {
    var cap, pc, cc := Cap(r.cfg), |h.pushed|, |h.popped|;
    && h.tc <= cc <= h.hc <= pc <= h.tc + cap - 1
    && r.head == pc % cap && r.tail == cc % cap
    && r.tailCached == h.tc % cap && r.headCached == h.hc % cap
  }

  /** Slot `i`, counted without wrapping, holds `v`. */
  ghost predicate Holds<T>(r: Ring<T>, i: nat, v: T)
    requires |r.slots| == Cap(r.cfg)
  {
    r.slots[i % Cap(r.cfg)] == Init(v)
  }

  ghost predicate SlotsOk<T>(r: Ring<T>, h: History<T>)
    requires |r.slots| == Cap(r.cfg)
  {
    forall i :: |h.popped| <= i < |h.pushed| ==> Holds(r, i, h.pushed[i])
  }

  ghost predicate PoppedOk<T>(h: History<T>) {
    |h.popped| <= |h.pushed| && forall i :: 0 <= i < |h.popped| ==> h.popped[i] == Init(h.pushed[i])
  }

  ghost predicate ProducerOk<T>(r: Ring<T>, h: History<T>)
    requires Shape(r)
  {
    var cap, pc, cc := Cap(r.cfg), |h.pushed|, |h.popped|;
    && (r.cfg.localCopies && !r.p.PDone? ==> r.headLocal == r.head)
    && match r.p
       case PIdle => true
       case PHead(job, hd) => hd == r.head && job.Values() != [] && JobAllowed(r.cfg, job)
       case PReload(job, hd) => hd == r.head && job.Values() != [] && JobAllowed(r.cfg, job)
       case PTail(job, hd, t) =>
         && hd == r.head && job.Values() != [] && JobAllowed(r.cfg, job)
         && h.tc <= pc - h.occT <= cc && t == (pc - h.occT) % cap
       case PWrite(job, hd, n, i) =>
         && hd == r.head && JobAllowed(r.cfg, job) && 0 < n && pc + n <= h.tc + cap - 1
         && forall j :: 0 <= j < i ==> Holds(r, pc + j, job.Values()[j])
       case PDone(hd, n) => hd == r.head && n <= pc
  }

  ghost predicate ConsumerOk<T>(r: Ring<T>, h: History<T>)
    requires Shape(r)
  {
    var cap, pc, cc := Cap(r.cfg), |h.pushed|, |h.popped|;
    && (r.cfg.localCopies && !r.c.CDone? ==> r.tailLocal == r.tail)
    && match r.c
       case CIdle => true
       case CTail(job, tl) => tl == r.tail && job.Max() > 0 && PopAllowed(r.cfg, job)
       case CReload(job, tl) => tl == r.tail && job.Max() > 0 && PopAllowed(r.cfg, job)
       case CHead(job, tl, hd) =>
         && tl == r.tail && job.Max() > 0 && PopAllowed(r.cfg, job)
         && h.hc <= cc + h.occH <= pc && hd == (cc + h.occH) % cap
       case CRead(tl, n, got) =>
         && tl == r.tail && 0 < n && cc + n <= h.hc <= pc && (n == 1 || r.cfg.strategy == Pow2Masked)
         && forall j :: 0 <= j < |got| ==> got[j] == Init(h.pushed[cc + j])
       case CDone(tl, got) => tl == r.tail && |got| <= cc && got == h.popped[cc - |got|..]
  }

  ghost predicate Inv<T>(r: Ring<T>, h: History<T>) {
    Shape(r) && CountersOk(r, h) && SlotsOk(r, h) && PoppedOk(h) && ProducerOk(r, h) && ConsumerOk(r, h)
  }

  // ---- Index facts: equal slots mean equal counts, within one lap ----

  lemma SameSlot(i: nat, j: nat, cap: nat)
    requires cap > 0 && i <= j < i + cap
    ensures i % cap == j % cap <==> i == j
  {
    if i % cap == j % cap {
      DivIdentity(i, cap);
      DivIdentity(j, cap);
      var k := j / cap - i / cap;
      Distribute(j / cap, 0 - i / cap, cap);
      NegTimes(i / cap, cap);
      assert k * cap == j - i;
      if k >= 1 { MulMono(1, k, cap); }
      if k <= -1 { MulMono(k, -1, cap); }
    }
  }

  lemma ModPlus(i: nat, n: nat, cap: nat)
    requires cap > 0 && n <= cap
    ensures (i + n) % cap == (if i % cap + n < cap then i % cap + n else i % cap + n - cap)
  {
    DivIdentity(i, cap);
    var x := i % cap + n;
    if x < cap {
      DivModUnique(i + n, cap, i / cap, x);
    } else {
      Distribute(i / cap, 1, cap);
      DivModUnique(i + n, cap, i / cap + 1, x - cap);
    }
  }

  lemma AdvanceIsPlus(cfg: Config, i: nat, n: nat)
    requires ConfigOk(cfg) && n <= Cap(cfg) && (n <= 1 || cfg.strategy == Pow2Masked)
    ensures Advance(cfg, i % Cap(cfg), n) == (i + n) % Cap(cfg)
  {
    var cap := Cap(cfg);
    IndexIsWord(cfg, i % cap + n);
    MaskIsModulo(cfg.logCap, i % cap + n);
    ModPlus(i, n, cap);
    ModOfWord(i % cap + n, cap);
  }

  lemma SlotOfIsPlus(cap: nat, i: nat, n: nat, j: nat)
    requires cap > 0 && n < cap && j < n
    ensures SlotOf(cap, i % cap, n, j) == (i + j) % cap
  {
    ModPlus(i, j, cap);
  }

  /** The comparisons on wrapped indices decide the true distance. */
  lemma DistanceIsDifference(cap: nat, i: nat, j: nat)
    requires cap > 0 && i <= j < i + cap
    ensures Distance(cap, j % cap, i % cap) == j - i
  {
    ModPlus(i, j - i, cap);
  }

  /** Given the tail that is behind index `t`, the granted room is what the array really has left. */
  lemma RoomIsExact<T>(cfg: Config, job: PushJob<T>, pc: nat, t: nat)
    requires ConfigOk(cfg) && t <= pc < t + Cap(cfg) && JobAllowed(cfg, job)
    ensures Room(cfg, job, pc % Cap(cfg), t % Cap(cfg))
         == if job.One? then Min(1, Cap(cfg) - 1 - (pc - t)) else Cap(cfg) - 1 - (pc - t)
  {
    var cap := Cap(cfg);
    if job.One? {
      AdvanceIsPlus(cfg, pc, 1);
      if pc + 1 == t + cap {
        ModPlus(t, cap, cap);
      } else {
        SameSlot(t, pc + 1, cap);
      }
    } else {
      DistanceIsDifference(cap, t, pc);
    }
  }

  lemma AvailableIsExact(cfg: Config, job: PopJob, hd: nat, cc: nat)
    requires cc <= hd < cc + Cap(cfg)
    ensures Available(cfg, job, hd % Cap(cfg), cc % Cap(cfg)) == if job.Single? then Min(1, hd - cc) else hd - cc
  {
    SameSlot(cc, hd, Cap(cfg));
    DistanceIsDifference(Cap(cfg), cc, hd);
  }

  // ---- Frames: what a thread's step leaves alone for the other side ----

  lemma SlotsFrame<T>(r: Ring<T>, r': Ring<T>, h: History<T>, h': History<T>)
    requires |r.slots| == Cap(r.cfg) && SlotsOk(r, h)
    requires r'.slots == r.slots && r'.cfg == r.cfg && h'.pushed == h.pushed && |h'.popped| >= |h.popped|
    ensures SlotsOk(r', h')
  {
    forall j | |h'.popped| <= j < |h.pushed|
      ensures Holds(r', j, h.pushed[j])
    {
      assert Holds(r, j, h.pushed[j]);
    }
  }

  lemma ConsumerFrame<T>(r: Ring<T>, r': Ring<T>, h: History<T>, h': History<T>)
    requires Shape(r) && Shape(r') && ConsumerOk(r, h)
    requires r'.cfg == r.cfg && r'.c == r.c && r'.tail == r.tail && r'.tailLocal == r.tailLocal
    requires h.pushed <= h'.pushed && h'.popped == h.popped && h'.hc == h.hc && h'.occH == h.occH
    ensures ConsumerOk(r', h')
  {}

  lemma ProducerFrame<T>(r: Ring<T>, r': Ring<T>, h: History<T>, h': History<T>)
    requires Shape(r) && Shape(r') && ProducerOk(r, h)
    requires r'.cfg == r.cfg && r'.p == r.p && r'.head == r.head && r'.headLocal == r.headLocal && r'.slots == r.slots
    requires h'.pushed == h.pushed && |h'.popped| >= |h.popped| && h'.tc == h.tc && h'.occT == h.occT
    ensures ProducerOk(r', h')
  {
    if r.p.PWrite? {
      forall j | 0 <= j < r.p.i
        ensures Holds(r', |h.pushed| + j, r.p.job.Values()[j])
      {
        assert Holds(r, |h.pushed| + j, r.p.job.Values()[j]);
      }
    }
  }

  // ---- Every step of either thread keeps the invariant ----

  /** With a granted run the producer writes beyond everything outstanding: no unreleased slot. */
  lemma WriteTargetIsFree<T>(r: Ring<T>, h: History<T>)
    requires Inv(r, h) && r.p.PWrite? && r.p.i < r.p.n
    ensures var k := SlotOf(Cap(r.cfg), r.p.head, r.p.n, r.p.i);
            && k == (|h.pushed| + r.p.i) % Cap(r.cfg)
            && forall j :: |h.popped| <= j < |h.pushed| + r.p.i ==> j % Cap(r.cfg) != k
  {
    var cap, t := Cap(r.cfg), |h.pushed| + r.p.i;
    SlotOfIsPlus(cap, |h.pushed|, r.p.n, r.p.i);
    forall j | |h.popped| <= j < t
      ensures j % cap != t % cap
    {
      SameSlot(j, t, cap);
    }
  }

  lemma ProducerWriteKeeps<T>(r: Ring<T>, h: History<T>, job: PushJob<T>)
    requires Inv(r, h) && r.p.PWrite? && r.p.i < r.p.n
    ensures Inv(ProducerStep(r, job).0, h)
  {
    var r' := ProducerStep(r, job).0;
    ProducerKeepsShape(r, job);
    ConsumerFrame(r, r', h, h);
    WriteTargetIsFree(r, h);
    var cap, pc, i := Cap(r.cfg), |h.pushed|, r.p.i;
    var k := SlotOf(cap, r.p.head, r.p.n, i);
    assert forall j: nat :: j % cap != k ==> r'.slots[j % cap] == r.slots[j % cap];
    forall j | |h.popped| <= j < pc
      ensures Holds(r', j, h.pushed[j])
    {
      assert Holds(r, j, h.pushed[j]);
    }
    forall j | 0 <= j < i + 1
      ensures Holds(r', pc + j, r.p.job.Values()[j])
    {
      if j < i { assert Holds(r, pc + j, r.p.job.Values()[j]); }
    }
  }

  lemma ProducerPublishKeeps<T>(r: Ring<T>, h: History<T>, job: PushJob<T>)
    requires Inv(r, h) && r.p.PWrite? && r.p.i == r.p.n
    ensures Inv(ProducerStep(r, job).0, ProducerHistory(r, h))
  {
    var r', h' := ProducerStep(r, job).0, ProducerHistory(r, h);
    ProducerKeepsShape(r, job);
    ConsumerFrame(r, r', h, h');
    AdvanceIsPlus(r.cfg, |h.pushed|, r.p.n);
    PublishedSlots(r, h);
    SlotsFrame(r, r', h', h');
  }

  /** What was written into the free run is what the new head publishes. */
  lemma PublishedSlots<T>(r: Ring<T>, h: History<T>)
    requires Inv(r, h) && r.p.PWrite? && r.p.i == r.p.n
    ensures SlotsOk(r, ProducerHistory(r, h))
  {
    var pc, vals := |h.pushed|, r.p.job.Values();
    var pushed := h.pushed + vals[..r.p.n];
    forall j | |h.popped| <= j < |pushed|
      ensures Holds(r, j, pushed[j])
    {
      if j < pc {
        assert Holds(r, j, h.pushed[j]);
      } else {
        assert Holds(r, pc + (j - pc), vals[j - pc]);
      }
    }
  }

  /** Skipping the reload is safe: a stale tail only ever understates the room. */
  lemma ProducerSkipKeeps<T>(r: Ring<T>, h: History<T>, job: PushJob<T>)
    requires Inv(r, h) && r.p.PHead?
    ensures Inv(ProducerStep(r, job).0, h)
  {
    var r' := ProducerStep(r, job).0;
    ProducerKeepsShape(r, job);
    SlotsFrame(r, r', h, h);
    ConsumerFrame(r, r', h, h);
    RoomIsExact(r.cfg, r.p.job, |h.pushed|, h.tc);
  }

  lemma ProducerReloadKeeps<T>(r: Ring<T>, h: History<T>, job: PushJob<T>)
    requires Inv(r, h) && r.p.PTail?
    ensures Inv(ProducerStep(r, job).0, ProducerHistory(r, h))
  {
    var r', h' := ProducerStep(r, job).0, ProducerHistory(r, h);
    ProducerKeepsShape(r, job);
    SlotsFrame(r, r', h, h');
    ConsumerFrame(r, r', h, h');
    RoomIsExact(r.cfg, r.p.job, |h.pushed|, |h.pushed| - h.occT);
  }

  lemma ProducerKeeps<T>(r: Ring<T>, h: History<T>, job: PushJob<T>)
    requires Inv(r, h) && JobAllowed(r.cfg, job)
    ensures Inv(ProducerStep(r, job).0, ProducerHistory(r, h))
  {
    match r.p
    case PWrite(_, _, n, i) =>
      if i < n { ProducerWriteKeeps(r, h, job); } else { ProducerPublishKeeps(r, h, job); }
    case PHead(_, _) => ProducerSkipKeeps(r, h, job);
    case PTail(_, _, _) => ProducerReloadKeeps(r, h, job);
    case _ => ProducerOtherKeeps(r, h, job);
  }

  lemma ProducerOtherKeeps<T>(r: Ring<T>, h: History<T>, job: PushJob<T>)
    requires Inv(r, h) && JobAllowed(r.cfg, job) && (r.p.PIdle? || r.p.PReload? || r.p.PDone?)
    ensures Inv(ProducerStep(r, job).0, ProducerHistory(r, h))
  {
    var r', h' := ProducerStep(r, job).0, ProducerHistory(r, h);
    ProducerKeepsShape(r, job);
    SlotsFrame(r, r', h, h');
    ConsumerFrame(r, r', h, h');
  }

  lemma ConsumerReadKeeps<T>(r: Ring<T>, h: History<T>, job: PopJob)
    requires Inv(r, h) && r.c.CRead? && |r.c.got| < r.c.n
    ensures Inv(ConsumerStep(r, job).0, h)
  {
    var r', cc := ConsumerStep(r, job).0, |h.popped|;
    ConsumerKeepsShape(r, job);
    SlotsFrame(r, r', h, h);
    ProducerFrame(r, r', h, h);
    SlotOfIsPlus(Cap(r.cfg), cc, r.c.n, |r.c.got|);
    assert Holds(r, cc + |r.c.got|, h.pushed[cc + |r.c.got|]);
  }

  lemma ConsumerReleaseKeeps<T>(r: Ring<T>, h: History<T>, job: PopJob)
    requires Inv(r, h) && r.c.CRead? && |r.c.got| == r.c.n
    ensures Inv(ConsumerStep(r, job).0, ConsumerHistory(r, h))
  {
    var r', h' := ConsumerStep(r, job).0, ConsumerHistory(r, h);
    ConsumerKeepsShape(r, job);
    SlotsFrame(r, r', h, h');
    ProducerFrame(r, r', h, h');
    AdvanceIsPlus(r.cfg, |h.popped|, r.c.n);
  }

  lemma ConsumerSkipKeeps<T>(r: Ring<T>, h: History<T>, job: PopJob)
    requires Inv(r, h) && r.c.CTail?
    ensures Inv(ConsumerStep(r, job).0, h)
  {
    var r' := ConsumerStep(r, job).0;
    ConsumerKeepsShape(r, job);
    SlotsFrame(r, r', h, h);
    ProducerFrame(r, r', h, h);
    AvailableIsExact(r.cfg, r.c.job, h.hc, |h.popped|);
  }

  lemma ConsumerReloadKeeps<T>(r: Ring<T>, h: History<T>, job: PopJob)
    requires Inv(r, h) && r.c.CHead?
    ensures Inv(ConsumerStep(r, job).0, ConsumerHistory(r, h))
  {
    var r', h' := ConsumerStep(r, job).0, ConsumerHistory(r, h);
    ConsumerKeepsShape(r, job);
    SlotsFrame(r, r', h, h');
    ProducerFrame(r, r', h, h');
    AvailableIsExact(r.cfg, r.c.job, |h.popped| + h.occH, |h.popped|);
  }

  lemma ConsumerKeeps<T>(r: Ring<T>, h: History<T>, job: PopJob)
    requires Inv(r, h) && PopAllowed(r.cfg, job)
    ensures Inv(ConsumerStep(r, job).0, ConsumerHistory(r, h))
  {
    match r.c
    case CRead(_, n, got) =>
      if |got| < n { ConsumerReadKeeps(r, h, job); } else { ConsumerReleaseKeeps(r, h, job); }
    case CTail(_, _) => ConsumerSkipKeeps(r, h, job);
    case CHead(_, _, _) => ConsumerReloadKeeps(r, h, job);
    case _ => ConsumerOtherKeeps(r, h, job);
  }

  lemma ConsumerOtherKeeps<T>(r: Ring<T>, h: History<T>, job: PopJob)
    requires Inv(r, h) && PopAllowed(r.cfg, job) && (r.c.CIdle? || r.c.CReload? || r.c.CDone?)
    ensures Inv(ConsumerStep(r, job).0, ConsumerHistory(r, h))
  {
    var r', h' := ConsumerStep(r, job).0, ConsumerHistory(r, h);
    ConsumerKeepsShape(r, job);
    SlotsFrame(r, r', h, h');
    ProducerFrame(r, r', h, h');
  }
}
