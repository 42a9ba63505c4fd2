/** The fixed-size order book: one quantity per tick and side, with a lazily rebuilt best index. */
module ArrayBook {
  import opened MachineInts

  datatype Side = Bid | Ask

  /** A price in ticks and the lots resting there. */
  datatype Level = Level(price: int, qty: int)

  /** The value of a book: quantities by tick. */
  datatype Book = Book(bids: seq<int>, asks: seq<int>) {
    function Of(side: Side): seq<int> { if side == Bid then bids else asks }
  }

  function EmptyBook(n: nat): Book { Book(seq(n, _ => 0), seq(n, _ => 0)) }

  /** Last write wins; a price outside the array is dropped. */
  function ApplyDelta(b: Book, price: int, qty: int, side: Side): Book {
    if price < 0 || price >= |b.Of(side)| then b
    else if side == Bid then b.(bids := b.bids[price := qty])
    else b.(asks := b.asks[price := qty])
  }

  // ---- Reference view: positive levels, best first ----

  function BidLevels(s: seq<int>, hi: nat): seq<Level>
    requires hi <= |s|
  {
    if hi == 0 then []
    else if s[hi - 1] > 0 then [Level(hi - 1, s[hi - 1])] + BidLevels(s, hi - 1)
    else BidLevels(s, hi - 1)
  }

  function AskLevels(s: seq<int>, lo: nat): seq<Level>
    requires lo <= |s|
    decreases |s| - lo
  {
    if lo == |s| then []
    else if s[lo] > 0 then [Level(lo, s[lo])] + AskLevels(s, lo + 1)
    else AskLevels(s, lo + 1)
  }

  function Levels(s: seq<int>, side: Side): seq<Level> {
    if side == Bid then BidLevels(s, |s|) else AskLevels(s, 0)
  }

  predicate Better(side: Side, p: int, q: int) { if side == Bid then p > q else p < q }

  /** Price `p` is one of the listed prices. */
  ghost predicate Listed(list: seq<Level>, p: int) { exists i :: 0 <= i < |list| && list[i].price == p }

  /** Every entry is a positive level with its price in a range. */
  predicate FromRange(s: seq<int>, lo: nat, hi: nat, list: seq<Level>)
    requires hi <= |s|
  {
    forall i :: 0 <= i < |list| ==> lo <= list[i].price < hi && list[i].qty == s[list[i].price] > 0
  }

  predicate BestFirst(side: Side, list: seq<Level>) {
    forall i, j :: 0 <= i < j < |list| ==> Better(side, list[i].price, list[j].price)
  }

  /** The list holds exactly the positive levels, each once, strictly from best to worst. */
  ghost predicate ListsPositive(s: seq<int>, side: Side, list: seq<Level>) {
    && FromRange(s, 0, |s|, list) && BestFirst(side, list)
    && forall p :: 0 <= p < |s| && s[p] > 0 ==> Listed(list, p)
  }

  lemma BetterFirst(side: Side, x: Level, rest: seq<Level>)
    requires BestFirst(side, rest) && forall i :: 0 <= i < |rest| ==> Better(side, x.price, rest[i].price)
    ensures BestFirst(side, [x] + rest)
  {}

  lemma {:induction false} BidLevelsOrdered(s: seq<int>, hi: nat)
    requires hi <= |s|
    ensures FromRange(s, 0, hi, BidLevels(s, hi)) && BestFirst(Bid, BidLevels(s, hi))
  {
    if hi > 0 {
      BidLevelsOrdered(s, hi - 1);
      BetterFirst(Bid, Level(hi - 1, s[hi - 1]), BidLevels(s, hi - 1));
    }
  }

  lemma {:induction false} AskLevelsOrdered(s: seq<int>, lo: nat)
    requires lo <= |s|
    ensures FromRange(s, lo, |s|, AskLevels(s, lo)) && BestFirst(Ask, AskLevels(s, lo))
    decreases |s| - lo
  {
    if lo < |s| {
      AskLevelsOrdered(s, lo + 1);
      BetterFirst(Ask, Level(lo, s[lo]), AskLevels(s, lo + 1));
    }
  }

  lemma {:induction false} BidLevelsComplete(s: seq<int>, hi: nat, p: nat)
    requires p < hi <= |s| && s[p] > 0
    ensures Listed(BidLevels(s, hi), p)
  {
    var l := BidLevels(s, hi);
    if p == hi - 1 {
      assert l[0].price == p;
    } else {
      BidLevelsComplete(s, hi - 1, p);
      var rest := BidLevels(s, hi - 1);
      var i :| 0 <= i < |rest| && rest[i].price == p;
      assert l[i + |l| - |rest|] == rest[i];
    }
  }

  lemma {:induction false} AskLevelsComplete(s: seq<int>, lo: nat, p: nat)
    requires lo <= p < |s| && s[p] > 0
    ensures Listed(AskLevels(s, lo), p)
    decreases |s| - lo
  {
    var l := AskLevels(s, lo);
    if p == lo {
      assert l[0].price == p;
    } else {
      AskLevelsComplete(s, lo + 1, p);
      var rest := AskLevels(s, lo + 1);
      var i :| 0 <= i < |rest| && rest[i].price == p;
      assert l[i + |l| - |rest|] == rest[i];
    }
  }

  lemma LevelsListPositive(s: seq<int>, side: Side)
    ensures ListsPositive(s, side, Levels(s, side))
  {
    if side == Bid { BidLevelsOrdered(s, |s|); } else { AskLevelsOrdered(s, 0); }
    forall p | 0 <= p < |s| && s[p] > 0
      ensures Listed(Levels(s, side), p)
    {
      if side == Bid { BidLevelsComplete(s, |s|, p); } else { AskLevelsComplete(s, 0, p); }
    }
  }

  /** The best level of a side, if it has one: the first one listed. */
  function Best(s: seq<int>, side: Side): Option<Level> {
    var l := Levels(s, side);
    if l == [] then None else Some(l[0])
  }

  /** `p` is the best price: positive, and better than every other positive level. */
  predicate IsBest(s: seq<int>, side: Side, p: int) {
    0 <= p < |s| && s[p] > 0 && forall q :: 0 <= q < |s| && s[q] > 0 ==> q == p || Better(side, p, q)
  }

  lemma BestIsBest(s: seq<int>, side: Side)
    ensures Best(s, side).None? <==> forall p :: 0 <= p < |s| ==> s[p] <= 0
    ensures Best(s, side).Some? ==> IsBest(s, side, Best(s, side).value.price)
    ensures Best(s, side).Some? ==> Best(s, side).value.qty == s[Best(s, side).value.price]
  {
    var l := Levels(s, side);
    LevelsListPositive(s, side);
    forall q | 0 <= q < |s| && s[q] > 0
      ensures |l| > 0 && (q == l[0].price || Better(side, l[0].price, q))
    {
      assert Listed(l, q);
      var i :| 0 <= i < |l| && l[i].price == q;
      if i > 0 { assert Better(side, l[0].price, l[i].price); }
    }
    if l != [] { assert s[l[0].price] > 0; }
  }

  lemma BestUnique(s: seq<int>, side: Side, p: int)
    requires IsBest(s, side, p)
    ensures Best(s, side) == Some(Level(p, s[p]))
  {
    BestIsBest(s, side);
    assert s[p] > 0;
    var b := Best(s, side);
    assert b.Some? && IsBest(s, side, b.value.price);
    assert b.value.price == p || Better(side, p, b.value.price);
  }

  function Total(list: seq<Level>): int {
    if list == [] then 0 else Total(list[..|list| - 1]) + list[|list| - 1].qty
  }

  /** The first entries of a list, all of it if it is shorter. */
  function Cut(list: seq<Level>, n: nat): seq<Level> { list[..if |list| < n then |list| else n] }

  lemma TotalNext(list: seq<Level>, k: nat)
    requires k < |list|
    ensures Total(list[..k + 1]) == Total(list[..k]) + list[k].qty
  {
    assert list[..k + 1][..k] == list[..k];
  }

  /** Partial sums of positive levels only grow: no running sum leaves the signed word if the last fits. */
  lemma {:induction false} PartialSumsGrow(list: seq<Level>, j: nat, k: nat)
    requires j <= k <= |list| && forall i :: 0 <= i < |list| ==> list[i].qty > 0
    ensures 0 <= Total(list[..j]) <= Total(list[..k])
    decreases k
  {
    if k > 0 {
      TotalNext(list, k - 1);
      if j < k { PartialSumsGrow(list, j, k - 1); } else { PartialSumsGrow(list, j - 1, k - 1); }
    }
  }

  /** `total_depth` is exact, with no running sum overflowing on the way, exactly when the sum of the
      listed quantities fits the signed word. */
  lemma TotalDepthExactIff(s: seq<int>, side: Side, n: nat)
    ensures var l := Cut(Levels(s, side), n);
            && Total(l) == TopSum(s, side, n, 0, |s|)
            && (WrapI64(Total(l)) == Total(l) <==> Total(l) <= I64_MAX)
            && (Total(l) <= I64_MAX <==> forall k :: 0 <= k <= |l| ==> InI64(Total(l[..k])))
  {
    var l := Cut(Levels(s, side), n);
    CutTotalIsTopSum(s, side, n);
    LevelsListPositive(s, side);
    assert l[..|l|] == l;
    forall k | 0 <= k <= |l|
      ensures 0 <= Total(l[..k]) <= Total(l)
    {
      PartialSumsGrow(l, k, |l|);
    }
    WrapExactIff(Total(l));
  }

  // ---- Depth in terms of the book ----

  /** The number of positive ticks from `lo` up to, but not including, `hi`. */
  function Positive(s: seq<int>, lo: nat, hi: nat): nat
    requires lo <= hi <= |s|
  {
    if lo == hi then 0 else Positive(s, lo, hi - 1) + (if s[hi - 1] > 0 then 1 else 0)
  }

  /** The number of positive ticks strictly better than `p`. */
  function Rank(s: seq<int>, side: Side, p: nat): nat
    requires p < |s|
  {
    if side == Bid then Positive(s, p + 1, |s|) else Positive(s, 0, p)
  }

  /** The sum, over the ticks from `lo` to `hi`, of the positive quantities with fewer than `n`
      strictly better positive ticks. */
  function TopSum(s: seq<int>, side: Side, n: nat, lo: nat, hi: nat): int
    requires lo <= hi <= |s|
  {
    if lo == hi then 0
    else TopSum(s, side, n, lo, hi - 1) + (if s[hi - 1] > 0 && Rank(s, side, hi - 1) < n then s[hi - 1] else 0)
  }

  lemma {:induction false} PositiveFromBelow(s: seq<int>, lo: nat, hi: nat)
    requires lo < hi <= |s|
    ensures Positive(s, lo, hi) == (if s[lo] > 0 then 1 else 0) + Positive(s, lo + 1, hi)
    decreases hi
  {
    if lo + 1 < hi { PositiveFromBelow(s, lo, hi - 1); }
  }

  lemma {:induction false} TopSumFromBelow(s: seq<int>, side: Side, n: nat, lo: nat, hi: nat)
    requires lo < hi <= |s|
    ensures TopSum(s, side, n, lo, hi)
         == (if s[lo] > 0 && Rank(s, side, lo) < n then s[lo] else 0) + TopSum(s, side, n, lo + 1, hi)
    decreases hi
  {
    if lo + 1 < hi { TopSumFromBelow(s, side, n, lo, hi - 1); }
  }

  lemma {:induction false} TotalFromFront(x: Level, rest: seq<Level>)
    ensures Total([x] + rest) == x.qty + Total(rest)
    decreases |rest|
  {
    var l := [x] + rest;
    if rest == [] {
      assert l[..0] == [];
    } else {
      assert l[..|l| - 1] == [x] + rest[..|rest| - 1];
      TotalFromFront(x, rest[..|rest| - 1]);
    }
  }

  /** Cutting a list of at least one entry at one or more takes the first entry. */
  lemma CutFromFront(x: Level, rest: seq<Level>, n: nat)
    ensures Total(Cut([x] + rest, n)) == if n == 0 then 0 else x.qty + Total(Cut(rest, n - 1))
  {
    if n > 0 {
      assert Cut([x] + rest, n) == [x] + Cut(rest, n - 1);
      TotalFromFront(x, Cut(rest, n - 1));
    }
  }

  function Less(n: nat, c: nat): nat { if c < n then n - c else 0 }

  lemma {:induction false} TotalOfBidLevels(s: seq<int>, n: nat, hi: nat)
    requires hi <= |s|
    ensures Total(Cut(BidLevels(s, hi), Less(n, Positive(s, hi, |s|)))) == TopSum(s, Bid, n, 0, hi)
  {
    if hi > 0 {
      TotalOfBidLevels(s, n, hi - 1);
      PositiveFromBelow(s, hi - 1, |s|);
      if s[hi - 1] > 0 {
        CutFromFront(Level(hi - 1, s[hi - 1]), BidLevels(s, hi - 1), Less(n, Positive(s, hi, |s|)));
      }
    }
  }

  lemma {:induction false} TotalOfAskLevels(s: seq<int>, n: nat, lo: nat)
    requires lo <= |s|
    ensures Total(Cut(AskLevels(s, lo), Less(n, Positive(s, 0, lo)))) == TopSum(s, Ask, n, lo, |s|)
    decreases |s| - lo
  {
    if lo < |s| {
      TotalOfAskLevels(s, n, lo + 1);
      TopSumFromBelow(s, Ask, n, lo, |s|);
      if s[lo] > 0 {
        CutFromFront(Level(lo, s[lo]), AskLevels(s, lo + 1), Less(n, Positive(s, 0, lo)));
      }
    }
  }

  /** The sum of the first `n` listed levels is the sum over the ticks with fewer than `n` better ones. */
  lemma CutTotalIsTopSum(s: seq<int>, side: Side, n: nat)
    ensures Total(Cut(Levels(s, side), n)) == TopSum(s, side, n, 0, |s|)
  {
    if side == Bid { TotalOfBidLevels(s, n, |s|); } else { TotalOfAskLevels(s, n, 0); }
  }

  /** No levels give nothing, and as many as there are give every positive quantity. */
  lemma {:induction false} TopSumExtremes(s: seq<int>, side: Side, n: nat, hi: nat)
    requires hi <= |s|
    ensures TopSum(s, side, 0, 0, hi) == 0
    ensures n >= Positive(s, 0, |s|) ==> TopSum(s, side, n, 0, hi) == PositiveSum(s, hi)
  {
    if hi > 0 {
      TopSumExtremes(s, side, n, hi - 1);
      if s[hi - 1] > 0 { RankBelowCount(s, side, hi - 1); }
    }
  }

  function PositiveSum(s: seq<int>, hi: nat): int
    requires hi <= |s|
  {
    if hi == 0 then 0 else PositiveSum(s, hi - 1) + (if s[hi - 1] > 0 then s[hi - 1] else 0)
  }

  lemma {:induction false} PositiveSplits(s: seq<int>, lo: nat, mid: nat, hi: nat)
    requires lo <= mid <= hi <= |s|
    ensures Positive(s, lo, hi) == Positive(s, lo, mid) + Positive(s, mid, hi)
    decreases hi
  {
    if mid < hi { PositiveSplits(s, lo, mid, hi - 1); }
  }

  lemma RankBelowCount(s: seq<int>, side: Side, p: nat)
    requires p < |s| && s[p] > 0
    ensures Rank(s, side, p) < Positive(s, 0, |s|)
  {
    PositiveSplits(s, 0, p, |s|);
    PositiveSplits(s, p, p + 1, |s|);
    PositiveFromBelow(s, p, |s|);
  }

  lemma {:induction false} BidLevelRanks(s: seq<int>, hi: nat, i: nat)
    requires hi <= |s| && i < |BidLevels(s, hi)|
    ensures var p := BidLevels(s, hi)[i].price;
            0 <= p < |s| && BidLevels(s, hi)[i].qty == s[p] > 0 && Rank(s, Bid, p) == Positive(s, hi, |s|) + i
  {
    PositiveFromBelow(s, hi - 1, |s|);
    if s[hi - 1] <= 0 {
      BidLevelRanks(s, hi - 1, i);
    } else if i > 0 {
      BidLevelRanks(s, hi - 1, i - 1);
    }
  }

  lemma {:induction false} AskLevelRanks(s: seq<int>, lo: nat, i: nat)
    requires lo <= |s| && i < |AskLevels(s, lo)|
    ensures var p := AskLevels(s, lo)[i].price;
            0 <= p < |s| && AskLevels(s, lo)[i].qty == s[p] > 0 && Rank(s, Ask, p) == Positive(s, 0, lo) + i
    decreases |s| - lo
  {
    if s[lo] <= 0 {
      AskLevelRanks(s, lo + 1, i);
    } else if i > 0 {
      AskLevelRanks(s, lo + 1, i - 1);
    }
  }

  /** Entry `i` of the list is the positive level with exactly `i` better ones. */
  lemma LevelsRanked(s: seq<int>, side: Side)
    ensures |Levels(s, side)| == Positive(s, 0, |s|)
    ensures forall i :: 0 <= i < |Levels(s, side)| ==> IsRanked(s, side, Levels(s, side)[i], i)
  {
    LevelsCounted(s, side);
    forall i | 0 <= i < |Levels(s, side)|
      ensures IsRanked(s, side, Levels(s, side)[i], i)
    {
      if side == Bid { BidLevelRanks(s, |s|, i); } else { AskLevelRanks(s, 0, i); }
    }
  }

  predicate IsRanked(s: seq<int>, side: Side, l: Level, i: nat) {
    0 <= l.price < |s| && l.qty == s[l.price] > 0 && Rank(s, side, l.price) == i
  }

  lemma {:induction false} BidLevelsCounted(s: seq<int>, hi: nat)
    requires hi <= |s|
    ensures |BidLevels(s, hi)| == Positive(s, 0, hi)
  {
    if hi > 0 { BidLevelsCounted(s, hi - 1); }
  }

  lemma {:induction false} AskLevelsCounted(s: seq<int>, lo: nat)
    requires lo <= |s|
    ensures |AskLevels(s, lo)| == Positive(s, lo, |s|)
    decreases |s| - lo
  {
    if lo < |s| { AskLevelsCounted(s, lo + 1); PositiveFromBelow(s, lo, |s|); }
  }

  lemma LevelsCounted(s: seq<int>, side: Side)
    ensures |Levels(s, side)| == Positive(s, 0, |s|)
  {
    if side == Bid { BidLevelsCounted(s, |s|); } else { AskLevelsCounted(s, 0); }
  }

  // ---- The cached index ----

  /** `i as u16`. */
  function AsU16(i: nat): nat { i % 0x1_0000 }

  /** The index a scan stores: that of the best level, cut to 16 bits. */
  function Scanned(s: seq<int>, side: Side): (idx: Option<nat>)
    ensures idx.Some? ==> idx.value < |s|
  {
    BestIsBest(s, side);
    var best := Best(s, side);
    if best.None? then None else Some(AsU16(best.value.price))
  }

  /** What a query answers from the stored index. */
  function Answer(s: seq<int>, side: Side): Option<Level> {
    var idx := Scanned(s, side);
    if idx.None? then None else Some(Level(idx.value, s[idx.value]))
  }

  lemma AnswerIsBest(s: seq<int>, side: Side)
    requires |s| <= 0x1_0000
    ensures Answer(s, side) == Best(s, side)
  {
    BestIsBest(s, side);
  }

  /** One positive level, at tick `p`. */
  function OneLevel(n: nat, p: nat): seq<int>
    requires p < n
  {
    seq(n, _ => 0)[p := 1]
  }

  lemma OneLevelIsBest(n: nat, p: nat, side: Side)
    requires p < n
    ensures Best(OneLevel(n, p), side) == Some(Level(p, 1))
  {
    BestUnique(OneLevel(n, p), side, p);
  }

  /** Every book of `n` ticks answers its best level exactly when `n` is at most 65536. Beyond that,
      a book whose only level is tick 65536 answers tick 0, with nothing there. */
  lemma AnswersExactIff(n: nat, side: Side)
    ensures (forall s: seq<int> :: |s| == n ==> Answer(s, side) == Best(s, side)) <==> n <= 0x1_0000
  {
    if n <= 0x1_0000 {
      forall s: seq<int> | |s| == n
        ensures Answer(s, side) == Best(s, side)
      {
        AnswerIsBest(s, side);
      }
    } else {
      var s := OneLevel(n, 0x1_0000);
      OneLevelIsBest(n, 0x1_0000, side);
      assert Answer(s, side) == Some(Level(0, 0));
    }
  }

  class ArrayBook {
    const bids: array<int>
    const asks: array<int>
    var bestBidIdx: Option<nat>
    var bestAskIdx: Option<nat>
    var bidDirty: bool
    var askDirty: bool

    ghost function State(): Book
      reads bids, asks
    {
      Book(bids[..], asks[..])
    }

    ghost predicate Valid()
      reads this, bids, asks
    {
      && bids != asks && bids.Length == asks.Length
      && (!bidDirty ==> bestBidIdx == Scanned(bids[..], Bid))
      && (!askDirty ==> bestAskIdx == Scanned(asks[..], Ask))
    }

    constructor (n: nat)
      ensures Valid() && State() == EmptyBook(n) && fresh(bids) && fresh(asks)
    {
      bids := new int[n](_ => 0);
      asks := new int[n](_ => 0);
      bestBidIdx, bestAskIdx, bidDirty, askDirty := None, None, true, true;
    }

    method Update(price: int, qty: int, side: Side)
      requires Valid()
      modifies this`bidDirty, this`askDirty, bids, asks
      ensures Valid() && State() == ApplyDelta(old(State()), price, qty, side)
    {
      if price < 0 || price >= bids.Length {
        return;
      }
      match side
      case Bid =>
        bids[price] := qty;
        bidDirty := true;
      case Ask =>
        asks[price] := qty;
        askDirty := true;
    }

    method ClearSide(side: Side)
      requires Valid()
      modifies this, bids, asks
      ensures Valid()
      ensures State().Of(side) == seq(bids.Length, _ => 0)
      ensures side == Bid ==> asks[..] == old(asks[..]) && askDirty == old(askDirty)
      ensures side == Ask ==> bids[..] == old(bids[..]) && bidDirty == old(bidDirty)
    {
      match side
      case Bid =>
        forall i | 0 <= i < bids.Length { bids[i] := 0; }
        assert asks[..] == old(asks[..]);
        bestBidIdx, bidDirty := None, true;
      case Ask =>
        forall i | 0 <= i < asks.Length { asks[i] := 0; }
        assert bids[..] == old(bids[..]);
        bestAskIdx, askDirty := None, true;
    }

    method Clear()
      requires Valid()
      modifies this, bids, asks
      ensures Valid() && State() == EmptyBook(bids.Length)
    {
      forall i | 0 <= i < bids.Length { bids[i] := 0; }
      forall i | 0 <= i < asks.Length { asks[i] := 0; }
      bestBidIdx, bestAskIdx, bidDirty, askDirty := None, None, true, true;
    }

    /** The answer does not depend on whether the cache was dirty. */
    method BestBid() returns (r: Option<Level>)
      requires Valid()
      modifies this`bestBidIdx, this`bidDirty
      ensures Valid() && r == Answer(bids[..], Bid)
      ensures bids.Length <= 0x1_0000 ==> r == Best(bids[..], Bid)
    {
      if bids.Length <= 0x1_0000 { AnswerIsBest(bids[..], Bid); }
      if bidDirty {
        bestBidIdx := None;
        for i := bids.Length downto 0
          invariant bestBidIdx == None && forall p :: i <= p < bids.Length ==> bids[p] <= 0
        {
          if bids[i] > 0 {
            bestBidIdx := Some(AsU16(i));
            BestUnique(bids[..], Bid, i);
            break;
          }
        }
        if bestBidIdx.None? { BestIsBest(bids[..], Bid); }
        bidDirty := false;
      }
      r := match bestBidIdx case None => None case Some(i) => Some(Level(i, bids[i]));
    }

    method BestAsk() returns (r: Option<Level>)
      requires Valid()
      modifies this`bestAskIdx, this`askDirty
      ensures Valid() && r == Answer(asks[..], Ask)
      ensures asks.Length <= 0x1_0000 ==> r == Best(asks[..], Ask)
    {
      if asks.Length <= 0x1_0000 { AnswerIsBest(asks[..], Ask); }
      if askDirty {
        bestAskIdx := None;
        for i := 0 to asks.Length
          invariant bestAskIdx == None && forall p :: 0 <= p < i ==> asks[p] <= 0
        {
          if asks[i] > 0 {
            bestAskIdx := Some(AsU16(i));
            BestUnique(asks[..], Ask, i);
            break;
          }
        }
        if bestAskIdx.None? { BestIsBest(asks[..], Ask); }
        askDirty := false;
      }
      r := match bestAskIdx case None => None case Some(i) => Some(Level(i, asks[i]));
    }

    /** Fills `buf` with the best levels, entry `i` with exactly `i` better ones, and leaves the rest alone. */
    method Depth(side: Side, buf: array<Level>) returns (count: nat)
      requires Valid()
      modifies buf
      ensures var s := State().Of(side);
              && count == (if Positive(s, 0, |s|) < buf.Length then Positive(s, 0, |s|) else buf.Length)
              && (forall i :: 0 <= i < count ==> IsRanked(s, side, buf[i], i))
              && buf[count..] == old(buf[..])[count..]
      ensures buf[..count] == Cut(Levels(State().Of(side), side), buf.Length)
    {
      LevelsRanked(State().Of(side), side);
      match side {
        case Bid => count := DepthOfBids(buf);
        case Ask => count := DepthOfAsks(buf);
      }
      ghost var l := Levels(State().Of(side), side);
      assert forall i :: 0 <= i < count ==> buf[i] == buf[..count][i] == l[..count][i] == l[i];
    }

    method DepthOfBids(buf: array<Level>) returns (count: nat)
      modifies buf
      ensures BufferHolds(buf[..], old(buf[..]), Levels(bids[..], Bid), count)
    {
      count := 0;
      ghost var was, s := buf[..], bids[..];
      ghost var l := Levels(s, Bid);
      for i := bids.Length downto 0
        invariant bids[..] == s && BufferTakes(buf[..], was, l, count, BidLevels(s, i))
      {
        if count >= buf.Length { break; }
        if bids[i] > 0 {
          FillNext(buf[..], was, l, count, Level(i, s[i]), BidLevels(s, i));
          buf[count] := Level(i, bids[i]);
          count := count + 1;
        }
      }
    }

    method DepthOfAsks(buf: array<Level>) returns (count: nat)
      modifies buf
      ensures BufferHolds(buf[..], old(buf[..]), Levels(asks[..], Ask), count)
    {
      count := 0;
      ghost var was, s := buf[..], asks[..];
      ghost var l := Levels(s, Ask);
      for i := 0 to asks.Length
        invariant asks[..] == s && BufferTakes(buf[..], was, l, count, AskLevels(s, i))
      {
        if count >= buf.Length { break; }
        if asks[i] > 0 {
          FillNext(buf[..], was, l, count, Level(i, s[i]), AskLevels(s, i + 1));
          buf[count] := Level(i, asks[i]);
          count := count + 1;
        }
      }
    }

    method LevelCount(side: Side) returns (n: nat)
      requires Valid()
      ensures n == |Levels(State().Of(side), side)| == Positive(State().Of(side), 0, bids.Length)
    {
      LevelsCounted(State().Of(side), side);
      n := 0;
      match side
      case Bid =>
        for i := bids.Length downto 0
          invariant n + |BidLevels(bids[..], i)| == |BidLevels(bids[..], bids.Length)|
        {
          if bids[i] > 0 { n := n + 1; }
        }
      case Ask =>
        for i := 0 to asks.Length
          invariant n + |AskLevels(asks[..], i)| == |AskLevels(asks[..], 0)|
        {
          if asks[i] > 0 { n := n + 1; }
        }
    }

    /** The quantities with fewer than `levels` better positive ticks, summed in wrapping signed words. */
    method TotalDepth(side: Side, levels: nat) returns (total: int)
      requires Valid()
      ensures total == WrapI64(TopSum(State().Of(side), side, levels, 0, bids.Length))
    {
      CutTotalIsTopSum(State().Of(side), side, levels);
      match side
      case Bid => total := TotalOfBids(levels);
      case Ask => total := TotalOfAsks(levels);
    }

    method TotalOfBids(levels: nat) returns (total: int)
      ensures total == WrapI64(Total(Cut(Levels(bids[..], Bid), levels)))
    {
      total := 0;
      var count := 0;
      ghost var s := bids[..];
      ghost var l := Levels(s, Bid);
      for i := bids.Length downto 0
        invariant count <= levels && Summing(l, count, BidLevels(s, i), total)
      {
        if count >= levels { break; }
        if bids[i] > 0 {
          SumNext(l, count, Level(i, s[i]), BidLevels(s, i), total);
          total := WrapI64(total + bids[i]);
          count := count + 1;
        }
      }
    }

    method TotalOfAsks(levels: nat) returns (total: int)
      ensures total == WrapI64(Total(Cut(Levels(asks[..], Ask), levels)))
    {
      total := 0;
      var count := 0;
      ghost var s := asks[..];
      ghost var l := Levels(s, Ask);
      for i := 0 to asks.Length
        invariant count <= levels && Summing(l, count, AskLevels(s, i), total)
      {
        if count >= levels { break; }
        if asks[i] > 0 {
          SumNext(l, count, Level(i, s[i]), AskLevels(s, i + 1), total);
          total := WrapI64(total + asks[i]);
          count := count + 1;
        }
      }
    }
  }

  // ---- Walking a list from its front ----

  /** `l` is what was taken, `count` entries, followed by `rest`. */
  ghost predicate Taken(l: seq<Level>, count: nat, rest: seq<Level>) { count <= |l| && l[count..] == rest }

  lemma TakeNext(l: seq<Level>, count: nat, x: Level, rest: seq<Level>)
    requires Taken(l, count, [x] + rest)
    ensures count < |l| && l[count] == x && Taken(l, count + 1, rest)
  {
    var tail := l[count..];
    assert tail[0] == x && tail[1..] == rest;
    assert l[count + 1..] == tail[1..];
  }

  /** `buf` starts with the first `count` entries of `l` and is otherwise as it was. */
  ghost predicate BufferTakes(buf: seq<Level>, was: seq<Level>, l: seq<Level>, count: nat, rest: seq<Level>) {
    && Taken(l, count, rest) && count <= |buf| == |was|
    && buf[..count] == l[..count] && buf[count..] == was[count..]
  }

  /** The same, once the buffer is full or the list used up. */
  ghost predicate BufferHolds(buf: seq<Level>, was: seq<Level>, l: seq<Level>, count: nat) {
    && count == (if |l| < |buf| then |l| else |buf|) && |buf| == |was|
    && buf[..count] == l[..count] && buf[count..] == was[count..]
  }

  lemma FillNext(buf: seq<Level>, was: seq<Level>, l: seq<Level>, count: nat, x: Level, rest: seq<Level>)
    requires BufferTakes(buf, was, l, count, [x] + rest) && count < |buf|
    ensures BufferTakes(buf[count := x], was, l, count + 1, rest)
  {
    TakeNext(l, count, x, rest);
    var buf' := buf[count := x];
    assert buf'[..count + 1] == buf[..count] + [x] == l[..count + 1];
    assert buf'[count + 1..] == buf[count..][1..] == was[count + 1..];
  }

  ghost predicate Summing(l: seq<Level>, count: nat, rest: seq<Level>, total: int) {
    Taken(l, count, rest) && total == WrapI64(Total(l[..count]))
  }

  lemma SumNext(l: seq<Level>, count: nat, x: Level, rest: seq<Level>, total: int)
    requires Summing(l, count, [x] + rest, total)
    ensures Summing(l, count + 1, rest, WrapI64(total + x.qty))
  {
    TakeNext(l, count, x, rest);
    TotalNext(l, count);
    WrapOfSum(Total(l[..count]), x.qty);
  }
}
