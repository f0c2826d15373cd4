# FIFO reader ring buffer

This project models `FIFOReader<N>`, the Koheron spectrum driver's reader for a Xilinx
AXI4-Stream FIFO (product guide PG080). A background thread polls the FIFO's
receive-length register. It drains that many 32-bit words into a ring buffer of `N` slots,
advancing a write cursor `index` modulo `N` and a 32-bit sample counter `acq_cnt`.
`get_data` then copies the ring into a linear `results_buffer`. It is meant to yield the
last `N` samples oldest first.

The model has four modules:

- `ModArith` (`mod_arith.dfy`): facts about the remainder that the cursor arithmetic needs.
- `FifoReader` (`fifo_reader.dfy`): the reader's fields as an immutable `Reader` record,
  with `N` being the ring's length and `Valid` the invariant every reachable state keeps.
  It also holds the constructor, `set_address` and the field updates of
  `start_acquisition`/`stop_acquisition`. A single write step, the locked drain of one poll
  cycle and the acquisition loop as a sequence of cycles complete it.
- `Linearizer` (`linearizer.dfy`): the intended oldest-first read-out `Rotation`.
  `GetData` is the two copy loops of `get_data` exactly as written, a method over
  sequences whose loop invariants mirror the C++ loops. `GetDataCorrected` is the corrected
  pair of loops. The module proves how the two differ and how a drain changes the
  intended read-out.
- `Scenarios` (`scenarios.dfy`): the worked examples. They cover eight and eleven writes
  into eight slots, each also as a whole session from construction to read-out, and
  three writes into one slot.

Both locked sections (the drain and the read-out) are treated as single atomic steps.
Samples are `bv32`. The 32-bit fields are naturals kept below 2^32, and their wrap-around
is written out with `% 0x1_0000_0000`.

`get_data` is evidently meant to return the ring oldest to newest. Its loops do not: the
second loop starts one position late. The model follows the code. `ReadOut` models what
the driver does, and `Snapshot` models what it is meant to do. See "## Findings".

## Model

| member | source | states |
|---|---|---|
| `FifoReader.New` | projects/spectrum/spectrum/fifo_reader.hpp:49-57 | construction yields a valid reader: cursor, counter, address and period are zero, acquisition is off, and the buffer contents are whatever they were |
| `FifoReader.SetAddress` | projects/spectrum/spectrum/fifo_reader.hpp:59-63 | only the FIFO address changes, to the argument; validity is kept |
| `FifoReader.StartAcquisition` | projects/spectrum/spectrum/fifo_reader.hpp:83-90 | only the period and the flag change: the period becomes the argument and acquisition is on |
| `FifoReader.StopAcquisition` | projects/spectrum/spectrum/fifo_reader.hpp:92-96 | only the acquisition flag changes, to off |
| `FifoReader.Write` | projects/spectrum/spectrum/fifo_reader.hpp:72-76 | one drained sample keeps the cursor below `N`: the cursor moves one slot on modulo `N`, the sample lands in that slot, every other slot is unchanged, and the counter grows by one modulo 2^32 |
| `FifoReader.Drain` | projects/spectrum/spectrum/fifo_reader.hpp:71-77 | a locked drain keeps the reader valid and the ring's length, and changes nothing but the ring, the cursor and the counter |
| `FifoReader.DrainCursor` | projects/spectrum/spectrum/fifo_reader.hpp:72-76 | draining `k` samples advances the cursor by `k` modulo `N` and the counter by `k` modulo 2^32 |
| `FifoReader.Cycle` | projects/spectrum/spectrum/fifo_reader.hpp:68-80 | one pass of the loop keeps the reader valid and the flag as it was; with the flag down it changes nothing, and in any case only ring, cursor and counter change |
| `FifoReader.Run` | projects/spectrum/spectrum/fifo_reader.hpp:66-81 | successive passes of the loop keep the reader valid and change nothing but ring, cursor and counter |
| `FifoReader.DrainAppend` | projects/spectrum/spectrum/fifo_reader.hpp:66-81 | two drains in a row end where one drain of both batches would |
| `FifoReader.RunDrainsAll` | projects/spectrum/spectrum/fifo_reader.hpp:66-81 | while acquisition runs, successive poll cycles amount to one drain of all their samples in order |
| `FifoReader.StopSettles` | projects/spectrum/spectrum/fifo_reader.hpp:66-96 | after `stop_acquisition`, any further passes of the loop leave the whole state unchanged |
| `Linearizer.RotationInverse` | projects/spectrum/spectrum/fifo_reader.hpp:99-107 | the intended read-out puts the newest slot last and holds every slot exactly once: each slot's value sits at its age position, and different slots have different age positions |
| `Linearizer.GetData` | projects/spectrum/spectrum/fifo_reader.hpp:99-107 | the loops as written fill positions `0..N-index-2` from the slots after the cursor and positions `N-index..N-1` from slots `0..index-1`, and leave position `N-index-1` as it was |
| `Linearizer.AsWrittenDeterministic` | projects/spectrum/spectrum/fifo_reader.hpp:101-106 | the read-out depends only on the ring, the cursor and the previous result buffer |
| `Linearizer.AsWrittenIdempotent` | projects/spectrum/spectrum/fifo_reader.hpp:99-107 | two calls of `get_data` with no drain between leave identical result buffers |
| `Linearizer.AsWrittenShifted` | projects/spectrum/spectrum/fifo_reader.hpp:102-105 | compared with the intended order, the first `N-index-1` positions are right; positions `N-index..N-1` are one position late; every position but the stale one is copied, and none from the newest slot |
| `Linearizer.AsWrittenMatchesRotationIff` | projects/spectrum/spectrum/fifo_reader.hpp:102-105 | the loops as written give the intended order if and only if the stale position already held `ring[0]` and slots `0..index` hold one value |
| `Linearizer.MatchForcesShiftInvisible` | projects/spectrum/spectrum/fifo_reader.hpp:102-105 | the "only if" direction of the previous row |
| `Linearizer.ShiftInvisibleGivesMatch` | projects/spectrum/spectrum/fifo_reader.hpp:102-105 | the "if" direction of the previous row |
| `Linearizer.GetDataCorrected` | projects/spectrum/spectrum/fifo_reader.hpp:102-105 | with the second loop starting at `N-index-1`, the result is exactly the ring oldest first, newest last |
| `Linearizer.ReadOut` | projects/spectrum/spectrum/fifo_reader.hpp:98-108 | `get_data` on a reader changes only the result buffer, which it fills as the loops as written do; ring, cursor and counter are untouched |
| `Linearizer.Snapshot` | projects/spectrum/spectrum/fifo_reader.hpp:98-108 | the corrected read-out returns the intended order and changes nothing but the result buffer |
| `Linearizer.WriteSnapshot` | projects/spectrum/spectrum/fifo_reader.hpp:73-75 | one write drops the oldest sample from the intended read-out and appends the new one |
| `Linearizer.DrainSnapshot` | projects/spectrum/spectrum/fifo_reader.hpp:71-77 | after a drain, the intended read-out is the old one followed by the batch, cut to its last `N` entries |
| `Linearizer.DrainKeepsLastN` | projects/spectrum/spectrum/fifo_reader.hpp:72-76 | a drain of at least `N` samples leaves exactly the last `N` of them, oldest first |
| `Linearizer.DrainPlacesSample` | projects/spectrum/spectrum/fifo_reader.hpp:72-76 | batch sample `j` that no later sample overwrites sits in slot `index0+1+j` modulo `N` |
| `Linearizer.DrainLeavesUntouched` | projects/spectrum/spectrum/fifo_reader.hpp:72-76 | slots a short drain does not reach keep their contents |
| `Scenarios.WrapDrain` | projects/spectrum/spectrum/fifo_reader.hpp:72-76 | eleven writes into eight slots leave the cursor at 3, the counter at 11 and samples 4 to 11 as the intended read-out |
| `Scenarios.WrapRing` | projects/spectrum/spectrum/fifo_reader.hpp:72-76 | that state's ring is `[8,9,10,11,4,5,6,7]` |
| `Scenarios.WrapReadOut` | projects/spectrum/spectrum/fifo_reader.hpp:102-105 | on that ring the loops as written return `[4,5,6,7,stale,8,9,10]`, never the intended `[4..11]` |
| `Scenarios.FullDrain` | projects/spectrum/spectrum/fifo_reader.hpp:72-76 | eight writes into eight slots bring the cursor back to 0 and the counter to 8, with samples 1 to 8 as the intended read-out |
| `Scenarios.FullRing` | projects/spectrum/spectrum/fifo_reader.hpp:72-76 | that state's ring is `[8,1,2,3,4,5,6,7]` |
| `Scenarios.FullReadOut` | projects/spectrum/spectrum/fifo_reader.hpp:102-105 | on that ring the loops as written return samples 1 to 7 and a stale last position, which is right only if it already held 8 |
| `Scenarios.WrapSession` | projects/spectrum/spectrum/fifo_reader.hpp:49-107 | construction, eleven samples drained into eight slots, then `get_data` as written: cursor 3, counter 11, result buffer `[4,5,6,7,stale,8,9,10]` with the constructor's word as the stale entry |
| `Scenarios.FullSession` | projects/spectrum/spectrum/fifo_reader.hpp:49-107 | the same session with eight samples: cursor 0, counter 8, result buffer `[1..7,stale]` |
| `Scenarios.CapacityOne` | projects/spectrum/spectrum/fifo_reader.hpp:71-107 | with one slot, three writes leave only sample 3, and the loops as written copy nothing |

## Left out

- The acquisition thread's creation and `detach`, its `sleep_for`, and the atomic flag's memory ordering are concurrency and timing. Each locked section is one atomic step, and the flag is checked once per cycle. Interleavings, stop latency and the in-flight cycle after a stop are not modelled.
- The mutex is left out. It is represented only by treating the drain (lines 71-77) and the read-out (lines 101-106) as atomic.
- `Klib::ReadReg32` and the address `fifo_addr + PEAK_RLR_OFF` are hardware access. The occupancy count and the words read are the input `batch`, whose length is the count.
- `PEAK_RDFR_OFF`, `PEAK_RDFO_OFF` and `PEAK_RDFD_OFF` are left out because nothing reads them.
- `get_data` returns a reference to `results_buffer`. That is aliasing, so the model returns the new buffer contents instead.
- The width of `uintptr_t` is not modelled: the FIFO address is an unbounded natural.
- `N` is limited to `1..2^32-1` by `Reader.Valid`. For `N = 0` the `% N` on line 74 is undefined. From `N = 2^32` on, the `unsigned int` counter of the loop on line 104 can never reach `N`, so that loop does not end; this is not modelled.
- Calling `start_acquisition` twice starts a second writer thread. Its effect on the fields is modelled; the second thread is concurrency and is left out.
- The driver has no error handling: a bad address, a second `start_acquisition` or a failed register read is not detected. No error case is modelled.
- `FifoReader.Cycle` states validity, that the flag is kept, that a lowered flag leaves the state unchanged, and that only ring, cursor and counter change. That a raised flag drains the batch is left to the definition and to `RunDrainsAll`.
- `FifoReader.Run` states validity and that only ring, cursor and counter change. What it drains is stated by `RunDrainsAll` and `StopSettles`.

## Findings

| source | as written | input that shows it | evidently intended | confidence | as-written member | corrected member |
|---|---|---|---|---|---|---|
| projects/spectrum/spectrum/fifo_reader.hpp:104-105 | the second copy loop starts at `N-index` and copies slots `0..index-1`. Result position `N-index-1` keeps its old value and the newest sample `ring[index]` is never copied. With `N = 1` nothing is copied | `N = 8`, samples 1 to 11 written: the result is `[4,5,6,7,stale,8,9,10]`. Samples 1 to 8 give `[1..7,stale]` | start the second loop at `N-index-1` and copy slots `0..index`, giving `[4..11]` and `[1..8]` | not executed; high, by proof | `Linearizer.GetData` with `Scenarios.WrapReadOut` | `Linearizer.GetDataCorrected` |

`ReadOut` uses the loops as written, because it models the driver as it is. `Snapshot`
uses the corrected loops. The drain lemmas about the intended read-out (`DrainSnapshot`,
`DrainKeepsLastN`) and the scenarios' expected results describe what `Snapshot` returns.
