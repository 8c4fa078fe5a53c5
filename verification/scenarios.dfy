/** Concrete runs of the reassembly engine from a freshly constructed
    receiver, including the two places where the engine keeps fragments
    that a reader might expect it to drop. Bytes are ASCII: 0x41 'A',
    0x42 'B', 0x50 'P', 0x53 'S', 0x55 'U', 0x58 'X', 0x59 'Y', 0x5A 'Z'. */
module Scenarios {
  import opened Wire
  import opened VideoPacket
  import opened Reassembly

  /** Frame 5 unfragmented, then frame 7 in two fragments arriving in reverse
      order: "AAA" is emitted, then "XY"; the skipped sequence 6 does not
      matter and the fragments are put in index order. */
  lemma SkippedSequenceAndReversedFragments()
    ensures Play(Initial, [
        FramePacket(0, 0, 5, [0x41, 0x41, 0x41]),
        FramePacket(1, 2, 7, [0x59]),
        FramePacket(0, 2, 7, [0x58])])
      == Trace(Receiver(8, map[]), [[0x41, 0x41, 0x41], [0x58, 0x59]], Drained)
  {
    var ps := [
      FramePacket(0, 0, 5, [0x41, 0x41, 0x41]),
      FramePacket(1, 2, 7, [0x59]),
      FramePacket(0, 2, 7, [0x58])];
    var r1 := Receiver(6, map[]);
    var r2 := Receiver(7, map[1 := [0x59]]);
    var r3 := Receiver(8, map[]);
    assert FrameStep(Initial, ps[0]) == (r1, Emitted([0x41, 0x41, 0x41]));
    assert FrameStep(r1, ps[1]) == (r2, Waiting);
    var b := map[1 := [0x59], 0 := [0x58]];
    assert Store(r2.buffer, 0, [0x58]) == b;
    assert HasAll(b, 2) by {
      forall i: int | 0 <= i < 2 ensures i in b {
        assert i == 0 || i == 1;
      }
    }
    assert Concat(b, 2) == [0x58, 0x59];
    assert FrameStep(r2, ps[2]) == (r3, Emitted([0x58, 0x59]));
    assert ps[3..] == [];
    assert Play(r2, ps[2..]) == Trace(r3, [[0x58, 0x59]], Drained);
    assert Play(r1, ps[1..]) == Play(r2, ps[2..]);
  }

  /** A fragment of frame 10 is pending when frame 10 also arrives
      unfragmented: "U" is emitted and the sequence moves to 11, but the
      fragment stays, and frame 11's first fragment completes a two-fragment
      frame with it, so "PZ" is emitted as frame 11. */
  lemma PendingFragmentLeaksIntoNextFrame()
    ensures Play(Initial, [
        FramePacket(0, 3, 10, [0x50]),
        FramePacket(0, 0, 10, [0x55]),
        FramePacket(1, 2, 11, [0x5A])])
      == Trace(Receiver(12, map[]), [[0x55], [0x50, 0x5A]], Drained)
  {
    var ps := [
      FramePacket(0, 3, 10, [0x50]),
      FramePacket(0, 0, 10, [0x55]),
      FramePacket(1, 2, 11, [0x5A])];
    var r1 := Receiver(10, map[0 := [0x50]]);
    var r2 := Receiver(11, map[0 := [0x50]]);
    var r3 := Receiver(12, map[]);
    assert Store(map[], 0, [0x50]) == r1.buffer;
    assert FrameStep(Initial, ps[0]) == (r1, Waiting);
    assert FrameStep(r1, ps[1]) == (r2, Emitted([0x55]));
    var b := map[0 := [0x50], 1 := [0x5A]];
    assert Store(r2.buffer, 1, [0x5A]) == b;
    assert HasAll(b, 2) by {
      forall i: int | 0 <= i < 2 ensures i in b {
        assert i == 0 || i == 1;
      }
    }
    assert Concat(b, 2) == [0x50, 0x5A];
    assert FrameStep(r2, ps[2]) == (r3, Emitted([0x50, 0x5A]));
    assert ps[3..] == [];
    assert Play(r2, ps[2..]) == Trace(r3, [[0x50, 0x5A]], Drained);
    assert Play(r1, ps[1..]) == Trace(r3, [[0x55], [0x50, 0x5A]], Drained);
  }

  /** A stray fragment index 5 of a two-fragment frame fills the buffer
      early: the check finds index 0 missing and keeps everything, and when
      index 0 arrives the buffer holds three entries, never two again, so
      the frame is never emitted. */
  lemma StrayIndexBlocksFrame()
    ensures Play(Initial, [
        FramePacket(5, 2, 1, [0x53]),
        FramePacket(1, 2, 1, [0x42]),
        FramePacket(0, 2, 1, [0x41])])
      == Trace(Receiver(1, map[5 := [0x53], 1 := [0x42], 0 := [0x41]]), [], Drained)
  {
    var ps := [
      FramePacket(5, 2, 1, [0x53]),
      FramePacket(1, 2, 1, [0x42]),
      FramePacket(0, 2, 1, [0x41])];
    var b1 := map[5 := [0x53]];
    var b2 := map[5 := [0x53], 1 := [0x42]];
    var b3 := map[5 := [0x53], 1 := [0x42], 0 := [0x41]];
    assert Store(map[], 5, [0x53]) == b1;
    assert FrameStep(Initial, ps[0]) == (Receiver(1, b1), Waiting);
    assert Store(b1, 1, [0x42]) == b2;
    assert |b2| == 2;
    assert Assemble(b2, 2) == Missing(0);
    assert FrameStep(Receiver(1, b1), ps[1]) == (Receiver(1, b2), MissingFragment(0));
    assert Store(b2, 0, [0x41]) == b3;
    assert |b3| == 3;
    assert FrameStep(Receiver(1, b2), ps[2]) == (Receiver(1, b3), Waiting);
    assert ps[3..] == [];
  }

  /** An unfragmented frame at the top sequence is handed out and then the
      increment traps: the run stops there and later datagrams are never
      processed. */
  lemma TopSequenceTraps()
    ensures Play(Initial, [FramePacket(0, 0, U32_MAX, [0x41]), FramePacket(0, 0, 0, [0x42])])
      == Trace(Receiver(U32_MAX, map[]), [[0x41]], Overflowed)
  {
    var ps := [FramePacket(0, 0, U32_MAX, [0x41]), FramePacket(0, 0, 0, [0x42])];
    assert FrameStep(Initial, ps[0]) == (Receiver(U32_MAX, map[]), EmittedThenOverflow([0x41]));
  }
}
