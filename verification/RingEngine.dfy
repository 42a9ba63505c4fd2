/** The ring engines as objects: single operations of both engines and the batch operations of
    the copy ring, each call run to completion, against the queue of the protocol. */
module RingEngine {
  import opened Arithmetic
  import opened Bits
  import opened IndexStrategy
  import opened RingProtocol
  import opened RingRuns

  datatype PushResult<T> = Pushed | Full(value: T)
  datatype PopResult<T> = Popped(value: T) | Empty

  /** The array with `vals` written into the run of slots that starts at count `pc`. */
  ghost predicate Written<T>(cap: nat, before: seq<Cell<T>>, after: seq<Cell<T>>, pc: nat, vals: seq<T>) {
    && cap > 0 && |before| == |after| == cap
    && (forall j :: 0 <= j < |vals| ==> after[(pc + j) % cap] == Init(vals[j]))
    && (forall i: nat :: i < pc && pc + |vals| < i + cap ==> after[i % cap] == before[i % cap])
  }

  /** Publishing a written run appends it to the queue. */
  lemma AppendKeeps<T>(r: Ring<T>, h: History<T>, tc: nat, vals: seq<T>, slots: seq<Cell<T>>)
    requires Inv(r, h) && r.p.PIdle? && r.c.CIdle?
    requires h.tc <= tc <= |h.popped| && |h.pushed| + |vals| <= tc + Cap(r.cfg) - 1
    requires Written(Cap(r.cfg), r.slots, slots, |h.pushed|, vals)
    ensures var hd := (|h.pushed| + |vals|) % Cap(r.cfg);
            Inv(r.(tailCached := tc % Cap(r.cfg), head := hd, slots := slots,
                   headLocal := if r.cfg.localCopies then hd else r.headLocal),
                h.(pushed := h.pushed + vals, tc := tc))
  {
    var cap := Cap(r.cfg);
    var hd := (|h.pushed| + |vals|) % cap;
    var r' := r.(tailCached := tc % cap, head := hd, slots := slots, headLocal := if r.cfg.localCopies then hd else r.headLocal);
    var h' := h.(pushed := h.pushed + vals, tc := tc);
    assert Shape(r');
    assert CountersOk(r', h');
    AppendedSlots(r, h, tc, vals, slots);
    forall i | |h'.popped| <= i < |h'.pushed|
      ensures Holds(r', i, h'.pushed[i])
    {
      assert slots[i % cap] == Init((h.pushed + vals)[i]);
    }
  }

  /** What the slots hold once the run is written: the old queue, then the run. */
  lemma AppendedSlots<T>(r: Ring<T>, h: History<T>, tc: nat, vals: seq<T>, slots: seq<Cell<T>>)
    requires Inv(r, h) && tc <= |h.popped| && |h.pushed| + |vals| <= tc + Cap(r.cfg) - 1
    requires Written(Cap(r.cfg), r.slots, slots, |h.pushed|, vals)
    ensures forall i :: |h.popped| <= i < |h.pushed| + |vals| ==> slots[i % Cap(r.cfg)] == Init((h.pushed + vals)[i])
  {
    var cap, pc := Cap(r.cfg), |h.pushed|;
    forall i | |h.popped| <= i < pc + |vals|
      ensures slots[i % cap] == Init((h.pushed + vals)[i])
    {
      if i < pc {
        assert Holds(r, i, h.pushed[i]);
      } else {
        assert slots[(pc + (i - pc)) % cap] == Init(vals[i - pc]);
      }
    }
  }

  lemma PoppedGrows<T>(h: History<T>, h': History<T>, got: seq<Cell<T>>)
    requires PoppedOk(h) && |h.popped| + |got| <= |h.pushed| && h'.pushed == h.pushed && h'.popped == h.popped + got
    requires forall j :: 0 <= j < |got| ==> got[j] == Init(h.pushed[|h.popped| + j])
    ensures PoppedOk(h')
  {}

  /** Releasing the first `n` slots removes their values from the front of the queue. */
  lemma RemoveKeeps<T>(r: Ring<T>, h: History<T>, hc: nat, n: nat, got: seq<Cell<T>>)
    requires Inv(r, h) && r.p.PIdle? && r.c.CIdle?
    requires h.hc <= hc <= |h.pushed| && |h.popped| + n <= hc && |got| == n
    requires forall j :: 0 <= j < n ==> got[j] == Init(h.pushed[|h.popped| + j])
    ensures var tl := (|h.popped| + n) % Cap(r.cfg);
            Inv(r.(headCached := hc % Cap(r.cfg), tail := tl, tailLocal := if r.cfg.localCopies then tl else r.tailLocal),
                h.(popped := h.popped + got, hc := hc))
  {
    var cap := Cap(r.cfg);
    var tl := (|h.popped| + n) % cap;
    var r' := r.(headCached := hc % cap, tail := tl, tailLocal := if r.cfg.localCopies then tl else r.tailLocal);
    var h' := h.(popped := h.popped + got, hc := hc);
    assert Shape(r') && CountersOk(r', h');
    SlotsFrame(r, r', h, h');
    ProducerFrame(r, r', h, h');
    PoppedGrows(h, h', got);
  }

  /** The head store of the source publishes a written run. */
  lemma HeadStoreKeeps<T>(r: Ring<T>, h: History<T>, n: nat, vals: seq<T>, slots: seq<Cell<T>>)
    requires Inv(r, h) && r.p.PIdle? && r.c.CIdle? && (n <= 1 || r.cfg.strategy == Pow2Masked) && n == |vals|
    requires |h.pushed| + n <= h.tc + Cap(r.cfg) - 1 && Written(Cap(r.cfg), r.slots, slots, |h.pushed|, vals)
    ensures n <= Cap(r.cfg)
    ensures var hd, h' := Advance(r.cfg, r.head, n), h.(pushed := h.pushed + vals);
            && Inv(r.(head := hd, slots := slots, headLocal := if r.cfg.localCopies then hd else r.headLocal), h')
            && Queue(h') == Queue(h) + vals
  {
    AdvanceIsPlus(r.cfg, |h.pushed|, n);
    var hd, h' := Advance(r.cfg, r.head, n), h.(pushed := h.pushed + vals);
    assert Inv(r.(head := hd, slots := slots, headLocal := if r.cfg.localCopies then hd else r.headLocal), h') by {
      AppendKeeps(r, h, h.tc, vals, slots);
      assert r.(tailCached := h.tc % Cap(r.cfg)) == r && h.(tc := h.tc) == h;
    }
    QueueAppended(h, h', vals);
  }

  /** The tail store of the source releases values that were read. */
  lemma TailStoreKeeps<T>(r: Ring<T>, h: History<T>, n: nat, got: seq<Cell<T>>)
    requires Inv(r, h) && r.p.PIdle? && r.c.CIdle? && (n <= 1 || r.cfg.strategy == Pow2Masked) && n == |got|
    requires |h.popped| + n <= h.hc && forall j :: 0 <= j < n ==> got[j] == Init(h.pushed[|h.popped| + j])
    ensures n <= Cap(r.cfg)
    ensures var tl, h' := Advance(r.cfg, r.tail, n), h.(popped := h.popped + got);
            && Inv(r.(tail := tl, tailLocal := if r.cfg.localCopies then tl else r.tailLocal), h')
            && Queue(h') == Queue(h)[n..]
  {
    AdvanceIsPlus(r.cfg, |h.popped|, n);
    var tl, h' := Advance(r.cfg, r.tail, n), h.(popped := h.popped + got);
    assert Inv(r.(tail := tl, tailLocal := if r.cfg.localCopies then tl else r.tailLocal), h') by {
      RemoveKeeps(r, h, h.hc, n, got);
      assert r.(headCached := h.hc % Cap(r.cfg)) == r && h.(hc := h.hc) == h;
    }
    QueueRemoved(h, h', got);
  }

  lemma OneWritten<T>(cap: nat, before: seq<Cell<T>>, pc: nat, value: T)
    requires cap > 0 && |before| == cap
    ensures Written(cap, before, before[pc % cap := Init(value)], pc, [value])
  {
    forall i: nat | i < pc && pc + 1 < i + cap
      ensures i % cap != pc % cap
    {
      SameSlot(i, pc, cap);
    }
  }

  /** What a slot holds after a run of `vals` was copied in two chunks from slot `start`. */
  function AfterChunks<T>(cap: nat, before: seq<Cell<T>>, start: nat, vals: seq<T>, k: nat): Cell<T>
    requires start < cap && k < cap == |before| && |vals| < cap
  {
    var first := Min(|vals|, cap - start);
    if start <= k < start + first then Init(vals[k - start])
    else if k < |vals| - first then Init(vals[first + k])
    else before[k]
  }

  /** A slot still in use lies outside both chunks. */
  lemma OutsideChunks(cap: nat, pc: nat, n: nat, i: nat)
    requires cap > 0 && n < cap && i < pc && pc + n < i + cap
    ensures var first := Min(n, cap - pc % cap);
            !(pc % cap <= i % cap < pc % cap + first) && i % cap >= n - first
  {
    ModPlus(i, pc - i, cap);
  }

  /** Both chunks of a batch copy together write one run. */
  lemma ChunksWritten<T>(cap: nat, before: seq<Cell<T>>, after: seq<Cell<T>>, pc: nat, vals: seq<T>)
    requires cap > 0 && |before| == |after| == cap && |vals| < cap
    requires forall k :: 0 <= k < cap ==> after[k] == AfterChunks(cap, before, pc % cap, vals, k)
    ensures Written(cap, before, after, pc, vals)
  {
    forall j | 0 <= j < |vals|
      ensures after[(pc + j) % cap] == Init(vals[j])
    {
      ModPlus(pc, j, cap);
    }
    forall i: nat | i < pc && pc + |vals| < i + cap
      ensures after[i % cap] == before[i % cap]
    {
      OutsideChunks(cap, pc, |vals|, i);
    }
  }

  class RingEngine<T> {
    const cfg: Config
    const slots: array<Cell<T>>
    var head: nat
    var headLocal: nat
    var tailCached: nat
    var tail: nat
    var tailLocal: nat
    var headCached: nat
    ghost var history: History<T>

    ghost function Snapshot(): Ring<T>
      reads this, slots
    {
      Ring(cfg, head, headLocal, tailCached, tail, tailLocal, headCached, slots[..], PIdle, CIdle)
    }

    ghost predicate Valid()
      reads this, slots
    {
      Inv(Snapshot(), history)
    }

    /** The values pushed and not yet popped, oldest first. */
    ghost function Contents(): seq<T>
      requires Valid()
      reads this, slots
    {
      Queue(history)
    }

    constructor (cfg: Config)
      requires ConfigOk(cfg)
      ensures Valid() && this.cfg == cfg && Contents() == [] && fresh(slots)
    {
      this.cfg := cfg;
      slots := new Cell<T>[Cap(cfg)](_ => Uninit);
      head, headLocal, tailCached, tail, tailLocal, headCached := 0, 0, 0, 0, 0, 0;
      history := History([], [], 0, 0, 0, 0);
      new;
      ModOfWord(0, Cap(cfg));
    }

    /** Stores the head past a run that has been written, publishing its values. */
    method Publish(hd: nat, ghost before: seq<Cell<T>>, ghost vals: seq<T>, n: nat)
      requires slots.Length == |before| && Inv(Snapshot().(slots := before), history)
      requires (n <= 1 || cfg.strategy == Pow2Masked) && hd == head && n == |vals|
      requires |history.pushed| + n <= history.tc + Cap(cfg) - 1
      requires Written(Cap(cfg), before, slots[..], |history.pushed|, vals)
      modifies this`head, this`headLocal, this`history
      ensures Valid() && Contents() == Queue(old(history)) + vals
    {
      ghost var h, r := history, Snapshot();
      HeadStoreKeeps(r.(slots := before), h, n, vals, slots[..]);
      var next := Advance(cfg, hd, n);
      head := next;
      if cfg.localCopies { headLocal := next; }
      history := h.(pushed := h.pushed + vals);
      assert Snapshot() == r.(head := next, headLocal := if cfg.localCopies then next else r.headLocal);
    }

    /** Stores the tail past values that have been read, releasing their slots. */
    method Release(tl: nat, ghost got: seq<Cell<T>>, n: nat)
      requires Valid() && (n <= 1 || cfg.strategy == Pow2Masked) && tl == tail && n == |got|
      requires |history.popped| + n <= history.hc
      requires forall j :: 0 <= j < n ==> got[j] == Init(history.pushed[|history.popped| + j])
      modifies this`tail, this`tailLocal, this`history
      ensures Valid() && Contents() == old(Contents())[n..]
    {
      ghost var h, r := history, Snapshot();
      TailStoreKeeps(r, h, n, got);
      var next := Advance(cfg, tl, n);
      tail := next;
      if cfg.localCopies { tailLocal := next; }
      history := h.(popped := h.popped + got);
      assert Snapshot() == r.(tail := next, tailLocal := if cfg.localCopies then next else r.tailLocal);
    }

    method TryPush(value: T) returns (r: PushResult<T>)
      requires Valid()
      modifies this, slots
      ensures Valid()
      ensures r == if |old(Contents())| < Cap(cfg) - 1 then PushResult.Pushed else PushResult.Full(value)
      ensures Contents() == if r.Pushed? then old(Contents()) + [value] else old(Contents())
    {
      var hd := if cfg.localCopies then headLocal else head;
      var next := Advance(cfg, hd, 1);
      RoomIsExact(cfg, One(value), |history.pushed|, history.tc);
      if next == tailCached {
        RefusedKeeps(Snapshot(), history);
        var t := tail;
        tailCached := t;
        history := history.(tc := |history.popped|);
        RoomIsExact(cfg, One(value), |history.pushed|, history.tc);
        if next == t {
          return PushResult.Full(value);
        }
      }
      ghost var before := slots[..];
      slots[hd] := Init(value);
      assert slots[..] == before[hd := Init(value)];
      OneWritten(Cap(cfg), before, |history.pushed|, value);
      Publish(hd, before, [value], 1);
      r := PushResult.Pushed;
    }

    method TryPop() returns (r: PopResult<T>)
      requires Valid()
      modifies this
      ensures Valid()
      ensures r == if old(Contents()) == [] then PopResult.Empty else PopResult.Popped(old(Contents())[0])
      ensures Contents() == if r.Popped? then old(Contents())[1..] else old(Contents())
    {
      var tl := if cfg.localCopies then tailLocal else tail;
      AvailableIsExact(cfg, Single, history.hc, |history.popped|);
      if tl == headCached {
        ReloadedHeadKeeps(Snapshot(), history);
        var hd := head;
        headCached := hd;
        history := history.(hc := |history.pushed|);
        AvailableIsExact(cfg, Single, history.hc, |history.popped|);
        if tl == hd {
          return PopResult.Empty;
        }
      }
      var cell := slots[tl];
      assert Holds(Snapshot(), |history.popped|, history.pushed[|history.popped|]);
      Release(tl, [cell], 1);
      r := PopResult.Popped(cell.value);
    }

    /** `push`: like `TryPush`, but a refused value is dropped. */
    method Push(value: T) returns (ok: bool)
      requires Valid()
      modifies this, slots
      ensures Valid() && (ok <==> |old(Contents())| < Cap(cfg) - 1)
      ensures Contents() == if ok then old(Contents()) + [value] else old(Contents())
    {
      var r := TryPush(value);
      ok := r.Pushed?;
    }

    method Len() returns (n: nat)
      requires Valid()
      ensures n == |Contents()|
    {
      LenIsHeld(Snapshot(), history);
      n := (head + Cap(cfg) - tail) % Cap(cfg);
    }

    /** `write_batch_copy`: consecutive slots, no wrapping. */
    method WriteBatch(start: nat, vals: seq<T>)
      requires start + |vals| <= slots.Length
      modifies slots
      ensures forall k :: 0 <= k < slots.Length ==>
                slots[k] == if start <= k < start + |vals| then Init(vals[k - start]) else old(slots[k])
    {
      for i := 0 to |vals|
        invariant forall k :: 0 <= k < slots.Length ==>
                    slots[k] == if start <= k < start + i then Init(vals[k - start]) else old(slots[k])
      {
        slots[start + i] := Init(vals[i]);
      }
    }

    /** How many of `want` slots may be filled, reloading the tail only if the cached one
        grants too few. */
    method GrantRoom(want: nat) returns (n: nat)
      requires Valid() && want > 0
      modifies this`tailCached, this`history
      ensures Valid() && Contents() == old(Contents())
      ensures n == Min(want, Cap(cfg) - 1 - |Contents()|)
      ensures |history.pushed| + n <= history.tc + Cap(cfg) - 1
    {
      ghost var before := Snapshot();
      var hd := if cfg.localCopies then headLocal else head;
      var cap := Cap(cfg);
      var free := cap - 1 - Distance(cap, hd, tailCached);
      DistanceIsDifference(cap, history.tc, |history.pushed|);
      if free < want {
        var t := tail;
        tailCached := t;
        RefusedKeeps(before, history);
        history := history.(tc := |history.popped|);
        DistanceIsDifference(cap, history.tc, |history.pushed|);
        free := cap - 1 - Distance(cap, hd, t);
        if free == 0 {
          return 0;
        }
      }
      n := Min(want, free);
    }

    /** Pushes as many of `src` as fit and returns how many. Needs the masking strategy. */
    method PushBatch(src: seq<T>) returns (n: nat)
      requires Valid() && cfg.strategy == Pow2Masked
      modifies this, slots
      ensures Valid()
      ensures n == Min(|src|, Cap(cfg) - 1 - |old(Contents())|)
      ensures Contents() == old(Contents()) + src[..n]
    {
      if |src| == 0 {
        assert old(Contents()) + src[..0] == old(Contents());
        return 0;
      }
      n := GrantRoom(|src|);
      if n == 0 {
        assert old(Contents()) + src[..0] == old(Contents());
        return;
      }
      var hd := if cfg.localCopies then headLocal else head;
      ghost var before, h := slots[..], history;
      CopyIn(hd, src[..n]);
      ChunksWritten(Cap(cfg), before, slots[..], |h.pushed|, src[..n]);
      Publish(hd, before, src[..n], n);
    }

    /** The two contiguous copies of a batch: to the end of the array, then from its start. */
    method CopyIn(hd: nat, vals: seq<T>)
      requires slots.Length == Cap(cfg) && hd < slots.Length && |vals| < slots.Length
      modifies slots
      ensures forall k :: 0 <= k < slots.Length ==> slots[k] == AfterChunks(Cap(cfg), old(slots[..]), hd, vals, k)
    {
      var first := Min(|vals|, Cap(cfg) - hd);
      WriteBatch(hd, vals[..first]);
      if |vals| > first { WriteBatch(0, vals[first..]); }
    }

    /** How many of `want` values may be taken, reloading the head only if the cached one
        offers too few. */
    method GrantValues(want: nat) returns (n: nat)
      requires Valid() && want > 0
      modifies this`headCached, this`history
      ensures Valid() && Contents() == old(Contents())
      ensures n == Min(want, |Contents()|)
      ensures |history.popped| + n <= history.hc
    {
      ghost var before := Snapshot();
      var tl := if cfg.localCopies then tailLocal else tail;
      var cap := Cap(cfg);
      var avail := Distance(cap, headCached, tl);
      DistanceIsDifference(cap, |history.popped|, history.hc);
      if avail < want {
        var hd := head;
        headCached := hd;
        ReloadedHeadKeeps(before, history);
        history := history.(hc := |history.pushed|);
        DistanceIsDifference(cap, |history.popped|, history.hc);
        avail := Distance(cap, hd, tl);
        if avail == 0 {
          return 0;
        }
      }
      n := Min(want, avail);
    }

    /** Copies the first `n` values held into `dst`, in the two chunks of the source. */
    method CopyOut(tl: nat, dst: array<Cell<T>>, n: nat)
      requires Valid() && dst != slots && n <= dst.Length && n <= |Contents()| && tl == tail
      modifies dst
      ensures forall j :: 0 <= j < n ==> dst[j] == Init(history.pushed[|history.popped| + j])
      ensures forall j :: n <= j < dst.Length ==> dst[j] == old(dst[j])
    {
      for i := 0 to n
        invariant forall j :: 0 <= j < i ==> dst[j] == Init(history.pushed[|history.popped| + j])
        invariant forall j :: i <= j < dst.Length ==> dst[j] == old(dst[j])
      {
        SlotOfIsPlus(Cap(cfg), |history.popped|, n, i);
        assert Holds(Snapshot(), |history.popped| + i, history.pushed[|history.popped| + i]);
        dst[i] := slots[SlotOf(Cap(cfg), tl, n, i)];
      }
    }

    /** Pops up to `dst.Length` values into the front of `dst` and returns how many. */
    method PopBatch(dst: array<Cell<T>>) returns (n: nat)
      requires Valid() && cfg.strategy == Pow2Masked && dst != slots
      modifies this, dst
      ensures Valid()
      ensures n == Min(dst.Length, |old(Contents())|)
      ensures Contents() == old(Contents())[n..]
      ensures forall j :: 0 <= j < n ==> dst[j] == Init(old(Contents())[j])
      ensures forall j :: n <= j < dst.Length ==> dst[j] == old(dst[j])
    {
      if dst.Length == 0 {
        return 0;
      }
      n := GrantValues(dst.Length);
      if n == 0 {
        return;
      }
      var tl := if cfg.localCopies then tailLocal else tail;
      CopyOut(tl, dst, n);
      Release(tl, dst[..n], n);
    }

    /** Teardown: visits every slot still occupied, once and oldest first, and no other. */
    method DropRange() returns (dropped: seq<Cell<T>>)
      requires Valid()
      ensures |dropped| == |Contents()|
      ensures forall j :: 0 <= j < |dropped| ==> dropped[j] == Init(Contents()[j])
    {
      dropped := [];
      var t := tail;
      ghost var cc, pc := |history.popped|, |history.pushed|;
      SameSlot(cc, pc, Cap(cfg));
      while t != head
        invariant cc + |dropped| <= pc && t == (cc + |dropped|) % Cap(cfg)
        invariant t == head <==> cc + |dropped| == pc
        invariant forall j :: 0 <= j < |dropped| ==> dropped[j] == Init(history.pushed[cc + j])
        decreases pc - cc - |dropped|
      {
        ghost var i := cc + |dropped|;
        assert Holds(Snapshot(), i, history.pushed[i]);
        dropped := dropped + [slots[t]];
        t := Advance(cfg, t, 1);
        AdvanceIsPlus(cfg, i, 1);
        SameSlot(i + 1, pc, Cap(cfg));
      }
    }
  }

  /** Reloading the head changes nothing but the cached head. */
  lemma ReloadedHeadKeeps<T>(r: Ring<T>, h: History<T>)
    requires Inv(r, h) && r.p.PIdle? && r.c.CIdle?
    ensures Inv(r.(headCached := r.head), h.(hc := |h.pushed|))
  {
    SlotsFrame(r, r.(headCached := r.head), h, h.(hc := |h.pushed|));
  }

  /** A refused push changes nothing but the cached tail. */
  lemma RefusedKeeps<T>(r: Ring<T>, h: History<T>)
    requires Inv(r, h) && r.p.PIdle? && r.c.CIdle?
    ensures Inv(r.(tailCached := r.tail), h.(tc := |h.popped|))
  {
    SlotsFrame(r, r.(tailCached := r.tail), h, h.(tc := |h.popped|));
  }
}
