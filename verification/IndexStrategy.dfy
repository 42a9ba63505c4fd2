/** How ring indices wrap: by a mask or by a branch. Capacities are powers of two. */
module IndexStrategy {
  import opened Arithmetic
  import opened Bits

  datatype Strategy = Pow2Masked | BranchWrap

  const USIZE_BITS: nat := 64

  function Wrap(s: Strategy, index: nat, cap: nat): (r: nat)
    requires cap > 0 && IsWord(USIZE_BITS, index) && IsWord(USIZE_BITS, cap - 1)
  {
    match s
    case Pow2Masked => Bitwise(And, USIZE_BITS, index, cap - 1)
    case BranchWrap => if index >= cap then 0 else index
  }

  /** The mask reduces any index modulo the capacity. */
  lemma MaskIsModulo(k: nat, index: nat)
    requires k <= USIZE_BITS && IsWord(USIZE_BITS, index)
    ensures IsWord(USIZE_BITS, Pow2(k) - 1)
    ensures Wrap(Pow2Masked, index, Pow2(k)) == index % Pow2(k)
  {
    AndLowMask(USIZE_BITS, k, index);
  }

  /** The branch gives the same index as the mask exactly up to one capacity, and at its multiples. */
  lemma StrategiesAgreeIff(k: nat, index: nat)
    requires k <= USIZE_BITS && IsWord(USIZE_BITS, index)
    ensures IsWord(USIZE_BITS, Pow2(k) - 1)
    ensures Wrap(BranchWrap, index, Pow2(k)) == Wrap(Pow2Masked, index, Pow2(k))
       <==> index <= Pow2(k) || index % Pow2(k) == 0
  {
    MaskIsModulo(k, index);
    ModOfWord(index, Pow2(k));
  }

  /** So a batch that runs past the end of the array must not use the branch: from slot 5 of 8,
      five more elements end at slot 2, where the branch says 0. */
  lemma BranchWrapBreaksBatches()
    ensures IsWord(USIZE_BITS, 5 + 5) && IsWord(USIZE_BITS, 8 - 1)
    ensures Wrap(BranchWrap, 5 + 5, 8) == 0 && Wrap(Pow2Masked, 5 + 5, 8) == 2
  {
    Pow2Words();
    assert Pow2(3) == 8;
    MaskIsModulo(3, 10);
  }
}
