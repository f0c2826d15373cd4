/** The state of one `FIFOReader<N>` and the operations that change it:
    construction, the three control calls, and the acquisition thread's
    drain of the hardware FIFO into the ring buffer. Each locked section of
    the driver is one step here; the thread, its sleep and the mutex are not
    modelled. */
module FifoReader {
  import opened ModArith

  /** One 32-bit word read from the FIFO's data register. */
  type Sample = bv32

  /** 2^32, the modulus of the driver's `uint32_t` fields. */
  const U32: int := 0x1_0000_0000

  /** The fields of a `FIFOReader<N>`. The capacity `N` is the length of
      `ring`; `index` is the slot written most recently and `acqCnt` the
      number of samples ever written, modulo 2^32. */
  datatype Reader = Reader(
    fifoAddr: nat,
    acqPeriod: nat,
    index: nat,
    acqCnt: nat,
    acquire: bool,
    ring: seq<Sample>,
    results: seq<Sample>)
  {
    /** The template parameter `N`. */
    function Capacity(): nat {
      |ring|
    }

    /** What every reachable state satisfies: `N` is at least one and below
        2^32, so that the 32-bit cursor and loop counters can reach it; both
        buffers hold `N` words; the cursor names a slot; and the 32-bit fields
        are in range. */
    predicate Valid() {
      && 1 <= |ring| < U32
      && |results| == |ring|
      && index < |ring|
      && acqCnt < U32
      && acqPeriod < U32
    }
  }

  /** The constructor. The contents of both buffers are left uninitialised
      by the driver, so they are parameters here. */
  function New(ring0: seq<Sample>, results0: seq<Sample>): (r: Reader)
    requires 1 <= |ring0| < U32 && |results0| == |ring0|
    ensures r.Valid()
    ensures r.fifoAddr == 0 && r.acqPeriod == 0
    ensures r.index == 0 && r.acqCnt == 0 && !r.acquire
    ensures r.ring == ring0 && r.results == results0
  {
    Reader(0, 0, 0, 0, false, ring0, results0)
  }

  /** `set_address`: only the FIFO base address changes. */
  function SetAddress(r: Reader, addr: nat): (r': Reader)
    requires r.Valid()
    ensures r'.Valid()
    ensures r'.fifoAddr == addr
    ensures r'.(fifoAddr := r.fifoAddr) == r
  {
    r.(fifoAddr := addr)
  }

  /** The field updates of `start_acquisition`: the period is stored and
      the acquisition flag raised; nothing else changes. */
  function StartAcquisition(r: Reader, period: nat): (r': Reader)
    requires r.Valid() && period < U32
    ensures r'.Valid()
    ensures r'.acquire && r'.acqPeriod == period
    ensures r'.(acquire := r.acquire, acqPeriod := r.acqPeriod) == r
  {
    r.(acqPeriod := period, acquire := true)
  }

  /** `stop_acquisition`: only the acquisition flag changes, to false. */
  function StopAcquisition(r: Reader): (r': Reader)
    requires r.Valid()
    ensures r'.Valid()
    ensures !r'.acquire
    ensures r'.(acquire := r.acquire) == r
  {
    r.(acquire := false)
  }

  /** One iteration of the drain loop: count the sample, advance the cursor
      modulo `N`, and store the sample in the slot the cursor now names. */
  function Write(r: Reader, x: Sample): (r': Reader)
    requires r.Valid()
    ensures r'.Valid()
    ensures r'.index == (r.index + 1) % r.Capacity()
    ensures r'.acqCnt == (r.acqCnt + 1) % U32
    ensures r'.Capacity() == r.Capacity() && r'.ring[r'.index] == x
    ensures forall p :: 0 <= p < r.Capacity() && p != r'.index ==> r'.ring[p] == r.ring[p]
    ensures r'.(index := r.index, acqCnt := r.acqCnt, ring := r.ring) == r
  {
    var i := (r.index + 1) % r.Capacity();
    r.(acqCnt := (r.acqCnt + 1) % U32, index := i, ring := r.ring[i := x])
  }

  /** The whole locked drain of one poll cycle: the samples of `batch` are
      written in order, the last one last. */
  function Drain(r: Reader, batch: seq<Sample>): (r': Reader)
    requires r.Valid()
    ensures r'.Valid() && r'.Capacity() == r.Capacity()
    ensures r'.(index := r.index, acqCnt := r.acqCnt, ring := r.ring) == r
    decreases |batch|
  {
    if |batch| == 0 then r
    else Write(Drain(r, batch[..|batch| - 1]), batch[|batch| - 1])
  }

  /** Draining `k` samples moves the cursor `k` slots on, modulo `N`, and
      adds `k` to the sample counter, modulo 2^32. */
  lemma {:induction false} DrainCursor(r: Reader, batch: seq<Sample>)
    requires r.Valid()
    ensures Drain(r, batch).index == (r.index + |batch|) % r.Capacity()
    ensures Drain(r, batch).acqCnt == (r.acqCnt + |batch|) % U32
    decreases |batch|
  {
    var n := r.Capacity();
    if |batch| == 0 {
      ModSmall(r.index, n);
      ModSmall(r.acqCnt, U32);
    } else {
      var k := |batch|;
      var prefix := batch[..k - 1];
      DrainCursor(r, prefix);
      ModAddMod(r.index + (k - 1), 1, n);
      ModAddMod(r.acqCnt + (k - 1), 1, U32);
    }
  }

  /** Splitting a run of samples into two drains, one after the other, ends
      in the same state as draining them all at once. */
  lemma {:induction false} DrainAppend(r: Reader, a: seq<Sample>, b: seq<Sample>)
    requires r.Valid()
    ensures Drain(Drain(r, a), b) == Drain(r, a + b)
    decreases |b|
  {
    if |b| == 0 {
      assert a + b == a;
    } else {
      var k := |b|;
      DrainAppend(r, a, b[..k - 1]);
      assert (a + b)[..|a + b| - 1] == a + b[..k - 1];
    }
  }

  /** One pass of the acquisition loop: while the flag is raised, the
      occupancy count and that many data words (together `batch`) are
      drained; once it is lowered the loop does nothing. */
  function Cycle(r: Reader, batch: seq<Sample>): (r': Reader)
    requires r.Valid() && |batch| < U32
    ensures r'.Valid()
    ensures r'.acquire == r.acquire && (!r.acquire ==> r' == r)
    ensures r'.(index := r.index, acqCnt := r.acqCnt, ring := r.ring) == r
  {
    if r.acquire then Drain(r, batch) else r
  }

  /** Whether every poll cycle's occupancy fits the 32-bit length register. */
  predicate Batches32(batches: seq<seq<Sample>>) {
    forall i :: 0 <= i < |batches| ==> |batches[i]| < U32
  }

  /** Successive passes of the acquisition loop, one batch per pass. */
  function Run(r: Reader, batches: seq<seq<Sample>>): (r': Reader)
    requires r.Valid() && Batches32(batches)
    ensures r'.Valid()
    ensures r'.(index := r.index, acqCnt := r.acqCnt, ring := r.ring) == r
    decreases |batches|
  {
    if |batches| == 0 then r
    else Run(Cycle(r, batches[0]), batches[1..])
  }

  /** All the samples of a sequence of poll cycles, in order. */
  function Concat(batches: seq<seq<Sample>>): (all: seq<Sample>)
    decreases |batches|
  {
    if |batches| == 0 then [] else batches[0] + Concat(batches[1..])
  }

  /** While acquisition runs, batch boundaries do not matter: the loop ends
      where one drain of every sample would. */
  lemma {:induction false} RunDrainsAll(r: Reader, batches: seq<seq<Sample>>)
    requires r.Valid() && r.acquire && Batches32(batches)
    ensures Run(r, batches) == Drain(r, Concat(batches))
    decreases |batches|
  {
    if |batches| > 0 {
      var r1 := Drain(r, batches[0]);
      assert Run(r, batches) == Run(r1, batches[1..]);
      RunDrainsAll(r1, batches[1..]);
      DrainAppend(r, batches[0], Concat(batches[1..]));
    }
  }

  /** Once acquisition is stopped, further passes of the loop leave the
      whole state as it is. */
  lemma {:induction false} StopSettles(r: Reader, batches: seq<seq<Sample>>)
    requires r.Valid() && Batches32(batches)
    ensures Run(StopAcquisition(r), batches) == StopAcquisition(r)
    decreases |batches|
  {
    if |batches| > 0 {
      StopSettles(r, batches[1..]);
    }
  }
}
