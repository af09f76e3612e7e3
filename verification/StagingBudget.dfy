/** How many staging frames the encode worker allocates: enough for the configured time,
    within the configured memory. */
module StagingBudget {
  import opened Arithmetic

  /** A limit read from the environment: unset or malformed, or a number. */
  datatype Setting = Unset | Value(n: nat)

  function Clamp(v: nat, low: nat, high: nat): nat
    requires low <= high
  {
    if v < low then low else if v > high then high else v
  }

  function Limit(setting: Setting, fallback: nat, low: nat, high: nat): nat
    requires low <= high
  {
    if setting.Unset? then fallback else Clamp(setting.n, low, high)
  }

  function FrameBytes(width: nat, height: nat): (n: nat)
    requires width > 0 && height > 0
    ensures n > 0
  {
    MulPositive(width, height);
    width * height * 4
  }

  function BufferMs(ms: Setting): nat { Limit(ms, 250, 10, 2000) }
  function BufferBytes(mib: Setting): nat { Limit(mib, 1024, 64, 4096) * 0x10_0000 }

  function FramesFor(fps: nat, ms: nat): nat {
    MulNat(fps, ms);
    (fps * ms + 999) / 1000
  }

  function FramesIn(budget: nat, frame: nat): (n: nat)
    requires frame > 0
    ensures forall k: nat {:trigger k * frame} :: k <= n <==> k * frame <= budget
  {
    forall k: nat ensures k <= budget / frame <==> k * frame <= budget { QuotientFits(budget, frame, k); }
    budget / frame
  }

  function SlotCount(width: nat, height: nat, fps: nat, ms: Setting, mib: Setting): nat
    requires width > 0 && height > 0
  {
    var byTime, byMemory := FramesFor(fps, BufferMs(ms)), FramesIn(BufferBytes(mib), FrameBytes(width, height));
    Clamp(if byTime < byMemory then byTime else byMemory, 4, 256)
  }

  lemma QuotientFits(budget: nat, frame: nat, k: nat)
    requires frame > 0
    ensures k <= budget / frame <==> k * frame <= budget
  {
    var q := budget / frame;
    assert budget == q * frame + budget % frame;
    if k <= q {
      MulMonotone(k, q, frame);
    } else {
      MulMonotone(q + 1, k, frame);
      assert (q + 1) * frame == q * frame + frame;
    }
  }

  /** The pool has 4 to 256 frames, and it fits the memory budget exactly when four do. */
  lemma PoolFitsBudget(width: nat, height: nat, fps: nat, ms: Setting, mib: Setting)
    requires width > 0 && height > 0
    ensures var count, frame := SlotCount(width, height, fps, ms, mib), FrameBytes(width, height);
            4 <= count <= 256 && (count * frame <= BufferBytes(mib) <==> 4 * frame <= BufferBytes(mib))
  {
    var n := FramesIn(BufferBytes(mib), FrameBytes(width, height));
    assert SlotCount(width, height, fps, ms, mib) <= n <==> 4 <= n;
  }

  /** A smaller pool than 256 frames lasts for the configured time, or no larger one fits; and
      a pool above the least size has no frame more than that time needs. */
  lemma PoolIsLargest(width: nat, height: nat, fps: nat, ms: Setting, mib: Setting)
    requires width > 0 && height > 0
    ensures var count, frame := SlotCount(width, height, fps, ms, mib), FrameBytes(width, height);
            && (count < 256 ==> count * 1000 >= fps * BufferMs(ms) || (count + 1) * frame > BufferBytes(mib))
            && (count > 4 ==> (count - 1) * 1000 < fps * BufferMs(ms))
  {
    MulNat(fps, BufferMs(ms));
    var n := FramesIn(BufferBytes(mib), FrameBytes(width, height));
    assert SlotCount(width, height, fps, ms, mib) + 1 <= n <==> (SlotCount(width, height, fps, ms, mib) + 1) * FrameBytes(width, height) <= BufferBytes(mib);
  }
}
