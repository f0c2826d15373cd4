/** The read-out `get_data`, which copies the circular `ring_buffer` into the
    linear `results_buffer`, set against the oldest-to-newest order the
    driver is meant to deliver. The two copy loops as written miss that order
    by one slot: the newest sample is never copied and one result slot keeps
    whatever it held before. Both the loops as written and a corrected pair
    of loops are modelled, and their difference is proved. */
module Linearizer {
  import opened ModArith
  import opened FifoReader

  /** The slot holding the `k`-th oldest sample when the cursor is at `index`. */
  function Slot(index: nat, k: nat, n: nat): (s: nat)
    requires 0 < n
    ensures s < n
  {
    (index + 1 + k) % n
  }

  /** The intended read-out: the ring's contents, oldest first, newest last. */
  function Rotation(ring: seq<Sample>, index: nat): (out: seq<Sample>)
    requires index < |ring|
    ensures |out| == |ring|
  {
    seq(|ring|, k requires 0 <= k < |ring| => ring[Slot(index, k, |ring|)])
  }

  /** The position of slot `s` in the intended read-out: how many slots
      after the oldest one it lies. */
  function Age(index: nat, s: nat, n: nat): (k: nat)
    requires 0 < n
    ensures k < n
  {
    (s - index - 1) % n
  }

  /** The rotation puts the newest sample last, and every slot of the ring
      appears in it exactly once, where its age says: slot `s` at position
      `(s - index - 1) mod N`, a different position for each slot. */
  lemma RotationInverse(ring: seq<Sample>, index: nat)
    requires index < |ring|
    ensures Rotation(ring, index)[|ring| - 1] == ring[index]
    ensures forall s :: 0 <= s < |ring| ==> ring[s] == Rotation(ring, index)[Age(index, s, |ring|)]
    ensures forall s, t :: 0 <= s < t < |ring| ==> Age(index, s, |ring|) != Age(index, t, |ring|)
  {
    var n := |ring|;
    RotationNewestLast(ring, index);
    forall s, t | 0 <= s < t < n
      ensures Age(index, s, n) != Age(index, t, n)
    {
      AgeDistinct(index, s, t, n);
    }
    forall s | 0 <= s < n
      ensures ring[s] == Rotation(ring, index)[Age(index, s, n)]
    {
      RotationAtAge(ring, index, s);
    }
  }

  /** The newest slot comes last in the intended read-out. */
  lemma RotationNewestLast(ring: seq<Sample>, index: nat)
    requires index < |ring|
    ensures Rotation(ring, index)[|ring| - 1] == ring[index]
  {
    ModWrapOnce(index + |ring|, |ring|);
  }

  /** Two different slots have different ages. */
  lemma AgeDistinct(index: nat, s: nat, t: nat, n: nat)
    requires s < t < n
    ensures Age(index, s, n) != Age(index, t, n)
  {
    ModDistinct(s - index - 1, t - s, n);
  }

  /** Slot `s` appears in the intended read-out at its age. */
  lemma RotationAtAge(ring: seq<Sample>, index: nat, s: nat)
    requires index < |ring| && s < |ring|
    ensures ring[s] == Rotation(ring, index)[Age(index, s, |ring|)]
  {
    var n := |ring|;
    ModAddMod(s - index - 1, index + 1, n);
    ModSmall(s, n);
    assert Slot(index, Age(index, s, n), n) == s;
  }

  /** What the two loops of `get_data` as written leave in the result
      buffer, given its previous contents `before`: the first loop fills
      positions `0 .. N-index-2` from the slots after the cursor, the second
      fills positions `N-index .. N-1` from slots `0 .. index-1`, and
      position `N-index-1` is not touched. */
  predicate AsWrittenPost(ring: seq<Sample>, index: nat, before: seq<Sample>, out: seq<Sample>)
    requires index < |ring| && |before| == |ring|
  {
    var n := |ring|;
    && |out| == n
    && (forall k :: 0 <= k < n - index - 1 ==> out[k] == ring[index + 1 + k])
    && (forall k :: n - index <= k < n ==> out[k] == ring[k - n + index])
    && out[n - index - 1] == before[n - index - 1]
  }

  /** The two copy loops of `get_data`, exactly as written. */
  method GetData(ring: seq<Sample>, index: nat, results: seq<Sample>) returns (out: seq<Sample>)
    requires index < |ring| && |results| == |ring|
    ensures AsWrittenPost(ring, index, results, out)
  {
    var n := |ring|;
    out := results;
    for i := 0 to n - index - 1
      invariant |out| == n
      invariant forall k :: 0 <= k < i ==> out[k] == ring[index + 1 + k]
      invariant forall k :: i <= k < n ==> out[k] == results[k]
    {
      out := out[i := ring[index + 1 + i]];
    }
    for i := n - index to n
      invariant |out| == n
      invariant forall k :: 0 <= k < n - index - 1 ==> out[k] == ring[index + 1 + k]
      invariant forall k :: n - index <= k < i ==> out[k] == ring[k - n + index]
      invariant out[n - index - 1] == results[n - index - 1]
    {
      out := out[i := ring[i - n + index]];
    }
  }

  /** The read-out is a function of the ring, the cursor and the previous
      result buffer: two runs from the same inputs agree. */
  lemma AsWrittenDeterministic(ring: seq<Sample>, index: nat, before: seq<Sample>,
                               out1: seq<Sample>, out2: seq<Sample>)
    requires index < |ring| && |before| == |ring|
    requires AsWrittenPost(ring, index, before, out1)
    requires AsWrittenPost(ring, index, before, out2)
    ensures out1 == out2
  {
  }

  /** Calling `get_data` twice with no drain in between yields the same
      buffer: the second call rewrites every touched position with the same
      value and leaves the stale one as the first call left it. */
  lemma AsWrittenIdempotent(ring: seq<Sample>, index: nat, before: seq<Sample>,
                            out1: seq<Sample>, out2: seq<Sample>)
    requires index < |ring| && |before| == |ring|
    requires AsWrittenPost(ring, index, before, out1)
    requires AsWrittenPost(ring, index, out1, out2)
    ensures out2 == out1
  {
  }

  /** Against the intended order, the loops as written get the first
      `N-index-1` positions right, shift the remaining samples one position
      late, and never copy the newest sample: every written position comes
      from a slot other than `index`. */
  lemma AsWrittenShifted(ring: seq<Sample>, index: nat, before: seq<Sample>, out: seq<Sample>)
    requires index < |ring| && |before| == |ring|
    requires AsWrittenPost(ring, index, before, out)
    ensures forall k :: 0 <= k < |ring| - index - 1 ==> out[k] == Rotation(ring, index)[k]
    ensures forall k :: |ring| - index <= k < |ring| ==> out[k] == Rotation(ring, index)[k - 1]
    ensures forall k :: 0 <= k < |ring| && k != |ring| - index - 1 ==>
      out[k] == ring[AsWrittenSource(index, k, |ring|)]
  {
    var n := |ring|;
    forall k | 0 <= k < n - index - 1
      ensures out[k] == Rotation(ring, index)[k]
    {
      RotationHead(ring, index, k);
    }
    forall k | n - index <= k < n
      ensures out[k] == Rotation(ring, index)[k - 1]
    {
      RotationTail(ring, index, k - n + index);
    }
    forall k | 0 <= k < n && k != n - index - 1
      ensures out[k] == ring[AsWrittenSource(index, k, n)]
    {
    }
  }

  /** The slot the loops as written copy into position `k`, for every
      position but the stale one; it is never the newest slot `index`. */
  function AsWrittenSource(index: nat, k: nat, n: nat): (s: nat)
    requires index < n && k < n && k != n - index - 1
    ensures s < n && s != index
  {
    if k < n - index - 1 then index + 1 + k else k - n + index
  }

  /** The intended read-out, up to position `N-index-2`, holds the slots
      after the cursor in order. */
  lemma RotationHead(ring: seq<Sample>, index: nat, k: nat)
    requires index < |ring| && k < |ring| - index - 1
    ensures Rotation(ring, index)[k] == ring[index + 1 + k]
  {
    ModSmall(index + 1 + k, |ring|);
  }

  /** The intended read-out, from position `N-index-1` on, holds slots
      `0 .. index` in order. */
  lemma RotationTail(ring: seq<Sample>, index: nat, j: nat)
    requires index < |ring| && j <= index
    ensures Rotation(ring, index)[|ring| - index - 1 + j] == ring[j]
  {
    ModWrapOnce(index + 1 + (|ring| - index - 1 + j), |ring|);
  }

  /** The loops as written deliver the intended order exactly when the
      stale position already held `ring[0]` and slots `0 .. index` all hold
      one value, so that the one-position shift goes unnoticed. */
  lemma AsWrittenMatchesRotationIff(ring: seq<Sample>, index: nat, before: seq<Sample>, out: seq<Sample>)
    requires index < |ring| && |before| == |ring|
    requires AsWrittenPost(ring, index, before, out)
    ensures out == Rotation(ring, index) <==>
      before[|ring| - index - 1] == ring[0] &&
      forall j :: 0 <= j < index ==> ring[j] == ring[j + 1]
  {
    if out == Rotation(ring, index) {
      MatchForcesShiftInvisible(ring, index, before, out);
    }
    if before[|ring| - index - 1] == ring[0] && forall j :: 0 <= j < index ==> ring[j] == ring[j + 1] {
      ShiftInvisibleGivesMatch(ring, index, before, out);
    }
  }

  /** One direction of `AsWrittenMatchesRotationIff`. */
  lemma MatchForcesShiftInvisible(ring: seq<Sample>, index: nat, before: seq<Sample>, out: seq<Sample>)
    requires index < |ring| && |before| == |ring|
    requires AsWrittenPost(ring, index, before, out)
    requires out == Rotation(ring, index)
    ensures before[|ring| - index - 1] == ring[0]
    ensures forall j :: 0 <= j < index ==> ring[j] == ring[j + 1]
  {
    var n := |ring|;
    RotationTail(ring, index, 0);
    forall j | 0 <= j < index
      ensures ring[j] == ring[j + 1]
    {
      RotationTail(ring, index, j + 1);
      assert out[n - index + j] == ring[j];
    }
  }

  /** The other direction of `AsWrittenMatchesRotationIff`. */
  lemma ShiftInvisibleGivesMatch(ring: seq<Sample>, index: nat, before: seq<Sample>, out: seq<Sample>)
    requires index < |ring| && |before| == |ring|
    requires AsWrittenPost(ring, index, before, out)
    requires before[|ring| - index - 1] == ring[0]
    requires forall j :: 0 <= j < index ==> ring[j] == ring[j + 1]
    ensures out == Rotation(ring, index)
  {
    var n := |ring|;
    var rot := Rotation(ring, index);
    forall k | 0 <= k < n
      ensures out[k] == rot[k]
    {
      if k < n - index - 1 {
        ModSmall(index + 1 + k, n);
      } else if k == n - index - 1 {
        RotationTail(ring, index, 0);
      } else {
        var j := k - n + index;
        RotationTail(ring, index, j + 1);
        assert out[k] == ring[j] == ring[j + 1];
      }
    }
  }

  /** The evident intent of `get_data`: the second loop starts one position
      earlier, at `N-index-1`, and copies slots `0 .. index`. */
  method GetDataCorrected(ring: seq<Sample>, index: nat, results: seq<Sample>) returns (out: seq<Sample>)
    requires index < |ring| && |results| == |ring|
    ensures out == Rotation(ring, index)
  {
    var n := |ring|;
    out := results;
    for i := 0 to n - index - 1
      invariant |out| == n
      invariant forall k :: 0 <= k < i ==> out[k] == ring[Slot(index, k, n)]
    {
      ModSmall(index + 1 + i, n);
      out := out[i := ring[index + 1 + i]];
    }
    for i := n - index - 1 to n
      invariant |out| == n
      invariant forall k :: 0 <= k < i ==> out[k] == ring[Slot(index, k, n)]
    {
      ModWrapOnce(index + 1 + i, n);
      out := out[i := ring[i - (n - index - 1)]];
    }
  }

  /** The read-out as the driver performs it on a reader's state: only the
      result buffer changes, and it changes as the loops as written say. */
  method ReadOut(r: Reader) returns (r': Reader)
    requires r.Valid()
    ensures r'.Valid()
    ensures r'.(results := r.results) == r
    ensures AsWrittenPost(r.ring, r.index, r.results, r'.results)
  {
    var out := GetData(r.ring, r.index, r.results);
    r' := r.(results := out);
  }

  /** The corrected read-out on a reader's state: the snapshot returned is
      the ring oldest first, and nothing in the state changes but the
      result buffer, which receives the snapshot. */
  method Snapshot(r: Reader) returns (r': Reader, data: seq<Sample>)
    requires r.Valid()
    ensures r'.Valid()
    ensures r'.(results := r.results) == r
    ensures data == r'.results == Rotation(r.ring, r.index)
  {
    data := GetDataCorrected(r.ring, r.index, r.results);
    r' := r.(results := data);
  }

  /** One write drops the oldest sample from the intended read-out and
      appends the new one. */
  lemma WriteSnapshot(r: Reader, x: Sample)
    requires r.Valid()
    ensures Rotation(Write(r, x).ring, Write(r, x).index) == (Rotation(r.ring, r.index) + [x])[1..]
  {
    var n := r.Capacity();
    var i := (r.index + 1) % n;
    var ring := r.ring[i := x];
    assert Write(r, x).ring == ring && Write(r, x).index == i;
    var before, after := Rotation(r.ring, r.index), Rotation(ring, i);
    forall m | 0 <= m < n
      ensures after[m] == (before + [x])[1..][m]
    {
      StoreShiftsRotation(r.ring, r.index, x, m);
    }
  }

  /** Position `m` of the intended read-out after storing `x` one slot past
      the cursor and advancing the cursor there. */
  lemma StoreShiftsRotation(ring: seq<Sample>, index: nat, x: Sample, m: nat)
    requires index < |ring| && m < |ring|
    ensures var i := (index + 1) % |ring|;
      Rotation(ring[i := x], i)[m] == (if m == |ring| - 1 then x else Rotation(ring, index)[m + 1])
  {
    var n := |ring|;
    var i := (index + 1) % n;
    var slot := Slot(i, m, n);
    ModAddMod(index + 1, 1 + m, n);
    assert slot == (index + 1 + (m + 1)) % n;
    if m == n - 1 {
      ModAddModulus(index + 1, n);
      assert slot == i;
    } else {
      ModDistinct(index + 1, m + 1, n);
      assert slot != i;
      assert slot == Slot(index, m + 1, n);
    }
  }

  /** The ring always holds the last `N` samples: after a drain, the
      intended read-out is the old read-out followed by the batch, cut to
      its last `N` entries. */
  lemma {:induction false} DrainSnapshot(r: Reader, batch: seq<Sample>)
    requires r.Valid()
    ensures Rotation(Drain(r, batch).ring, Drain(r, batch).index) ==
            (Rotation(r.ring, r.index) + batch)[|batch|..]
    decreases |batch|
  {
    var k := |batch|;
    if k == 0 {
      assert Rotation(r.ring, r.index) + batch == Rotation(r.ring, r.index);
    } else {
      var prefix, x := batch[..k - 1], batch[k - 1];
      var mid := Drain(r, prefix);
      assert Drain(r, batch) == Write(mid, x);
      DrainSnapshot(r, prefix);
      WriteSnapshot(mid, x);
      WindowSlide(Rotation(r.ring, r.index), prefix, x);
      assert batch == prefix + [x];
    }
  }

  /** Sliding a window of the history one sample on: dropping the first
      entry of the window and appending `x` is the window of the history
      with `x` appended, starting one entry later. */
  lemma WindowSlide(start: seq<Sample>, prefix: seq<Sample>, x: Sample)
    requires |start| > 0
    ensures ((start + prefix)[|prefix|..] + [x])[1..] == (start + (prefix + [x]))[|prefix| + 1..]
  {
    assert start + (prefix + [x]) == (start + prefix) + [x];
  }

  /** A drain of at least `N` samples leaves exactly the last `N` of them
      in the ring, oldest first from the slot after the cursor. */
  lemma DrainKeepsLastN(r: Reader, batch: seq<Sample>)
    requires r.Valid() && |batch| >= r.Capacity()
    ensures Rotation(Drain(r, batch).ring, Drain(r, batch).index) ==
            batch[|batch| - r.Capacity()..]
  {
    DrainSnapshot(r, batch);
    LongWindow(Rotation(r.ring, r.index), batch);
  }

  /** A window as long as the history's start, taken after at least that
      many appended samples, holds appended samples only. */
  lemma LongWindow(start: seq<Sample>, batch: seq<Sample>)
    requires |batch| >= |start|
    ensures (start + batch)[|batch|..] == batch[|batch| - |start|..]
  {
    var w := (start + batch)[|batch|..];
    assert |w| == |start|;
    forall p | 0 <= p < |w|
      ensures w[p] == batch[|batch| - |start| + p]
    {
      assert w[p] == (start + batch)[|batch| + p];
    }
  }

  /** Moving the cursor `k` slots on turns the `m`-th oldest slot into the
      one `k + m` places after the old cursor. */
  lemma SlotShift(index: nat, k: nat, m: nat, n: nat)
    requires 0 < n
    ensures Slot((index + k) % n, m, n) == Slot(index, k + m, n)
  {
    var i := (index + k) % n;
    assert Slot(i, m, n) == (i + (1 + m)) % n;
    ModAddMod(index + k, 1 + m, n);
    assert Slot(index, k + m, n) == (index + k + (1 + m)) % n;
  }

  /** After a drain of `k` samples, entry `p` of the old read-out followed
      by the batch, for `p` from `k` on, sits in slot `index0 + 1 + p`
      modulo `N`. */
  lemma DrainHistoryAt(r: Reader, batch: seq<Sample>, p: nat)
    requires r.Valid() && |batch| <= p < r.Capacity() + |batch|
    ensures Drain(r, batch).ring[Slot(r.index, p, r.Capacity())] ==
            (Rotation(r.ring, r.index) + batch)[p]
  {
    var n, k := r.Capacity(), |batch|;
    var r' := Drain(r, batch);
    var history := Rotation(r.ring, r.index) + batch;
    assert |r'.ring| == n && r'.index < n && |history| == n + k;
    DrainSnapshot(r, batch);
    DrainCursor(r, batch);
    assert r'.index == (r.index + k) % n;
    assert Rotation(r'.ring, r'.index) == history[k..];
    ShiftedRotationAt(r'.ring, r'.index, history, r.index, k, p);
  }

  /** Sample `j` of a drained batch that no later sample of the batch
      overwrites sits in slot `index0 + 1 + j` modulo `N`. */
  lemma DrainPlacesSample(r: Reader, batch: seq<Sample>, j: nat)
    requires r.Valid() && j < |batch| && |batch| - j <= r.Capacity()
    ensures Drain(r, batch).ring[Slot(r.index, j, r.Capacity())] == batch[j]
  {
    var n := r.Capacity();
    var ring', s := Drain(r, batch).ring, Slot(r.index, j, n);
    DrainHistoryAt(r, batch, n + j);
    AppendedAt(Rotation(r.ring, r.index), batch, j);
    SlotWrap(r.index, j, n);
    assert ring'[s] == batch[j];
  }

  /** Entry `j` of the appended part sits `|start|` places further on. */
  lemma AppendedAt(start: seq<Sample>, batch: seq<Sample>, j: nat)
    requires j < |batch|
    ensures (start + batch)[|start| + j] == batch[j]
  {
  }

  /** A drain of fewer than `N` samples leaves the slots it does not reach,
      those `|batch| .. N-1` places after the old cursor, as they were. */
  lemma DrainLeavesUntouched(r: Reader, batch: seq<Sample>, t: nat)
    requires r.Valid() && |batch| <= t < r.Capacity()
    ensures Drain(r, batch).ring[Slot(r.index, t, r.Capacity())] ==
            r.ring[Slot(r.index, t, r.Capacity())]
  {
    DrainHistoryAt(r, batch, t);
  }

  /** If the read-out of a ring whose cursor sits `k` slots past `index0`
      is the window of `history` from `k` on, then entry `p` of that history
      lies `p - k` places on in the read-out, in slot `index0 + 1 + p`
      modulo `N`. */
  lemma ShiftedRotationAt(ring: seq<Sample>, index: nat, history: seq<Sample>, index0: nat, k: nat, p: nat)
    requires index < |ring| && |history| == |ring| + k
    requires index == (index0 + k) % |ring|
    requires Rotation(ring, index) == history[k..]
    requires k <= p < |history|
    ensures ring[Slot(index0, p, |ring|)] == history[p]
  {
    var n := |ring|;
    var m := p - k;
    assert Rotation(ring, index)[m] == history[p];
    SlotShift(index0, k, m, n);
  }

  /** Going once round the ring lands on the same slot. */
  lemma SlotWrap(index: nat, k: nat, n: nat)
    requires 0 < n
    ensures Slot(index, n + k, n) == Slot(index, k, n)
  {
    ModAddModulus(index + 1 + k, n);
  }
}
