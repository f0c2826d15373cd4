/** Worked read-out examples, traced through the model:
    eight writes and eleven writes into an eight-slot reader, and three
    writes into a one-slot reader. In each, the intended read-out is the
    last `N` samples oldest first, and the loops as written fall short of it. */
module Scenarios {
  import opened FifoReader
  import opened Linearizer

  /** Eleven writes into eight slots wrap the cursor to slot 3 and leave
      samples 4 to 11 in the ring, 8 to 11 in slots 0 to 3. */
  lemma WrapDrain(ring0: seq<Sample>, results0: seq<Sample>, batch: seq<Sample>)
    requires |ring0| == 8 && |results0| == 8
    requires batch == [1, 2, 3, 4, 5, 6, 7, 8, 9, 10, 11]
    ensures var r := Drain(New(ring0, results0), batch);
      && r.index == 3 && r.acqCnt == 11
      && Rotation(r.ring, r.index) == [4, 5, 6, 7, 8, 9, 10, 11]
  {
    var r0 := New(ring0, results0);
    DrainCursor(r0, batch);
    DrainKeepsLastN(r0, batch);
    assert batch[3..] == [4, 5, 6, 7, 8, 9, 10, 11];
  }

  /** The one ring with cursor 3 whose read-out is samples 4 to 11. */
  lemma WrapRing(ring: seq<Sample>)
    requires |ring| == 8 && Rotation(ring, 3) == [4, 5, 6, 7, 8, 9, 10, 11]
    ensures ring == [8, 9, 10, 11, 4, 5, 6, 7]
  {
    var rot := Rotation(ring, 3);
    assert ring[0] == rot[4] && ring[1] == rot[5] && ring[2] == rot[6] && ring[3] == rot[7];
    assert ring[4] == rot[0] && ring[5] == rot[1] && ring[6] == rot[2] && ring[7] == rot[3];
  }

  /** On that ring the loops as written return samples 4 to 7, the stale
      position 4, then 8 to 10: sample 11 is lost and the result is never
      the intended 4 to 11. */
  lemma WrapReadOut(before: seq<Sample>, out: seq<Sample>)
    requires |before| == 8
    requires AsWrittenPost([8, 9, 10, 11, 4, 5, 6, 7], 3, before, out)
    ensures out[..4] == [4, 5, 6, 7] && out[4] == before[4] && out[5..] == [8, 9, 10]
    ensures out != Rotation([8, 9, 10, 11, 4, 5, 6, 7], 3)
  {
  }

  /** Eight writes into eight slots bring the cursor back to slot 0 and
      the counter to 8, and the read-out is samples 1 to 8. */
  lemma FullDrain(ring0: seq<Sample>, results0: seq<Sample>, batch: seq<Sample>)
    requires |ring0| == 8 && |results0| == 8
    requires batch == [1, 2, 3, 4, 5, 6, 7, 8]
    ensures var r := Drain(New(ring0, results0), batch);
      && r.index == 0 && r.acqCnt == 8
      && Rotation(r.ring, r.index) == [1, 2, 3, 4, 5, 6, 7, 8]
  {
    var r0 := New(ring0, results0);
    DrainCursor(r0, batch);
    DrainKeepsLastN(r0, batch);
    assert batch[0..] == batch;
  }

  /** The one ring with cursor 0 whose read-out is samples 1 to 8 holds
      sample 8 in slot 0 and samples 1 to 7 after it. */
  lemma FullRing(ring: seq<Sample>)
    requires |ring| == 8 && Rotation(ring, 0) == [1, 2, 3, 4, 5, 6, 7, 8]
    ensures ring == [8, 1, 2, 3, 4, 5, 6, 7]
  {
    var rot := Rotation(ring, 0);
    assert ring[0] == rot[7] && ring[1] == rot[0] && ring[2] == rot[1] && ring[3] == rot[2];
    assert ring[4] == rot[3] && ring[5] == rot[4] && ring[6] == rot[5] && ring[7] == rot[6];
  }

  /** Even without wrap-around the loops as written miss the newest sample:
      they return 1 to 7 and a stale last position, which is right only if
      it already held 8. */
  lemma FullReadOut(before: seq<Sample>, out: seq<Sample>)
    requires |before| == 8
    requires AsWrittenPost([8, 1, 2, 3, 4, 5, 6, 7], 0, before, out)
    ensures out[..7] == [1, 2, 3, 4, 5, 6, 7] && out[7] == before[7]
    ensures out == [1, 2, 3, 4, 5, 6, 7, 8] <==> before[7] == 8
  {
  }

  /** A whole session on an eight-slot reader: construction, eleven
      samples drained, then `get_data` as written. The result buffer ends
      as samples 4 to 7, the constructor's stale word at position 4, then
      samples 8 to 10. */
  method WrapSession(ring0: seq<Sample>, results0: seq<Sample>, batch: seq<Sample>)
    returns (r: Reader)
    requires |ring0| == 8 && |results0| == 8
    requires batch == [1, 2, 3, 4, 5, 6, 7, 8, 9, 10, 11]
    ensures r.index == 3 && r.acqCnt == 11
    ensures r.results == [4, 5, 6, 7, results0[4], 8, 9, 10]
  {
    var drained := Drain(New(ring0, results0), batch);
    WrapDrain(ring0, results0, batch);
    WrapRing(drained.ring);
    r := ReadOut(drained);
    WrapReadOut(drained.results, r.results);
  }

  /** The same session with eight samples: the result buffer ends as
      samples 1 to 7 and the constructor's stale word at position 7. */
  method FullSession(ring0: seq<Sample>, results0: seq<Sample>, batch: seq<Sample>)
    returns (r: Reader)
    requires |ring0| == 8 && |results0| == 8
    requires batch == [1, 2, 3, 4, 5, 6, 7, 8]
    ensures r.index == 0 && r.acqCnt == 8
    ensures r.results == [1, 2, 3, 4, 5, 6, 7, results0[7]]
  {
    var drained := Drain(New(ring0, results0), batch);
    FullDrain(ring0, results0, batch);
    FullRing(drained.ring);
    r := ReadOut(drained);
    FullReadOut(drained.results, r.results);
  }

  /** With one slot, three writes leave only sample 3, and the loops as
      written copy nothing, so the result buffer keeps its previous
      contents. */
  lemma CapacityOne(ring0: seq<Sample>, results0: seq<Sample>, out: seq<Sample>)
    requires |ring0| == 1 && |results0| == 1
    ensures var r := Drain(New(ring0, results0), [1, 2, 3]);
      && r.index == 0 && r.ring == [3]
      && Rotation(r.ring, r.index) == [3]
      && (AsWrittenPost(r.ring, r.index, r.results, out) ==> out == results0)
  {
  }
}
