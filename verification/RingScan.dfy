/** The rotating scan `(start + n) % count` shared by the Vulkan layer, which looks
    for a free ring slot, and by the encode worker, which looks for a free staging slot. */
module RingScan {

  lemma ModOnce(x: nat, count: nat)
    requires 0 < count && x < 2 * count
    ensures x % count == if x < count then x else x - count
  {
    if x >= count {
      assert x == count * 1 + (x - count);
      assert x / count == 1;
    }
  }

  /** The index visited at step `n` of a scan over `count` slots that begins at `start`. */
  function At(start: nat, n: nat, count: nat): (i: nat)
    requires start < count && n < count
    ensures i < count && i == if start + n < count then start + n else start + n - count
  {
    ModOnce(start + n, count);
    (start + n) % count
  }

  /** Every slot is visited exactly once: at `StepOf`, and at no other step. */
  function StepOf(start: nat, i: nat, count: nat): (n: nat)
    requires start < count && i < count
    ensures n < count && At(start, n, count) == i
    ensures forall m: nat {:trigger At(start, m, count)} :: m < count && At(start, m, count) == i ==> m == n
  {
    if i >= start then i - start else i + count - start
  }
}
