/** The frame reassembly engine of the video receiver, as values: the state
    it keeps (the current frame sequence and the fragment buffer), the effect
    of one frame packet on it, and the effect of a run of datagrams. The class
    in module VideoReceiving updates the same state in place and is proved to
    follow these functions step by step.

    Behaviour as the receiver implements it, quirks included:
    - a packet of an older frame is dropped without any change;
    - a packet of a newer frame empties the buffer and becomes current;
    - an unfragmented packet is emitted at once and the current sequence moves
      past it, but the buffer is left alone, so fragments already held for
      that sequence stay and count towards the next frame;
    - a fragment is stored unless its index is already held (first writer
      wins); when the buffer holds as many entries as the declared total, the
      fragments 0 .. total-1 are concatenated; if one of them is absent the
      attempt is abandoned without clearing anything;
    - `frameSequence + 1` traps at 0xFFFF_FFFF, after the frame was handed
      out. */
module Reassembly {
  import opened Wire
  import opened VideoPacket

  type FragmentBuffer = map<u16, Bytes>

  datatype Receiver = Receiver(current: u32, buffer: FragmentBuffer)

  /** The state of a freshly constructed receiver. */
  const Initial: Receiver := Receiver(0, map[])

  /** What handling one frame packet produced. */
  datatype FrameEvent =
    | Stale                           // older frame, dropped
    | Waiting                         // fragment stored (or ignored), frame not yet complete
    | MissingFragment(index: u16)     // buffer full but this index is absent
    | Emitted(frame: Bytes)           // a complete frame went to the delegate
    | EmittedThenOverflow(frame: Bytes) // went to the delegate, then `+ 1` trapped

  // ---------------------------------------------------------------------
  // Reassembly of a full buffer

  /** Every index 0 .. n-1 is held. */
  ghost predicate HasAll(buf: FragmentBuffer, n: nat) {
    forall i: int :: 0 <= i < n ==> i in buf
  }

  /** Every held index is below n. */
  ghost predicate IndicesBelow(buf: FragmentBuffer, n: nat) {
    forall k :: k in buf ==> k < n
  }

  /** The fragments 0 .. n-1 concatenated in ascending index order. */
  function Concat(buf: FragmentBuffer, n: nat): Bytes
    requires n <= 0x1_0000 && HasAll(buf, n)
  {
    if n == 0 then [] else Concat(buf, n - 1) + buf[n - 1]
  }

  datatype Assembly = Complete(frame: Bytes) | Missing(index: u16)

  /** The outcome of walking the indices 0 .. n-1 in order, stopping at the
      first one that is absent. */
  function Assemble(buf: FragmentBuffer, n: nat): (r: Assembly)
    requires n <= 0x1_0000
    ensures r.Complete? <==> HasAll(buf, n)
    ensures r.Complete? ==> r.frame == Concat(buf, n)
    ensures r.Missing? ==> r.index < n && r.index !in buf
    ensures r.Missing? ==> forall j: int :: 0 <= j < r.index ==> j in buf
  {
    if n == 0 then Complete([])
    else match Assemble(buf, n - 1)
      case Missing(i) => Missing(i)
      case Complete(f) => if n - 1 in buf then Complete(f + buf[n - 1]) else Missing(n - 1)
  }

  /** Fragment i sits in the concatenation right after fragments 0 .. i-1,
      so the fragments appear in ascending index order. */
  lemma {:induction false} ConcatPlacesFragment(buf: FragmentBuffer, n: nat, i: nat)
    requires n <= 0x1_0000 && HasAll(buf, n) && i < n
    ensures |Concat(buf, i)| + |buf[i]| <= |Concat(buf, n)|
    ensures Concat(buf, n)[|Concat(buf, i)|..|Concat(buf, i)| + |buf[i]|] == buf[i]
  {
    if i == n - 1 {
      assert Concat(buf, n) == Concat(buf, i) + buf[i];
    } else {
      ConcatPlacesFragment(buf, n - 1, i);
      var c := Concat(buf, n - 1);
      assert Concat(buf, n) == c + buf[n - 1];
      assert Concat(buf, n)[..|c|] == c;
    }
  }

  /** The concatenation is as long as all its fragments together. */
  lemma {:induction false} ConcatLength(buf: FragmentBuffer, n: nat)
    requires n <= 0x1_0000 && HasAll(buf, n)
    ensures |Concat(buf, n)| == TotalLength(buf, n)
  {
    if n > 0 {
      ConcatLength(buf, n - 1);
    }
  }

  ghost function TotalLength(buf: FragmentBuffer, n: nat): nat
    requires HasAll(buf, n)
  {
    if n == 0 then 0 else TotalLength(buf, n - 1) + |buf[n - 1]|
  }

  /** The indices 0 .. n-1. */
  ghost function IndexRange(n: nat): set<int> {
    if n == 0 then {} else IndexRange(n - 1) + {n - 1}
  }

  lemma {:induction false} IndexRangeSize(n: nat)
    ensures |IndexRange(n)| == n
    ensures forall i :: i in IndexRange(n) <==> 0 <= i < n
  {
    if n > 0 {
      IndexRangeSize(n - 1);
    }
  }

  /** When the buffer holds exactly n entries, every index 0 .. n-1 is
      present if and only if no index n or above was stored: a missing
      fragment at a full buffer always comes with a stray index. */
  lemma FullBufferComplete(buf: FragmentBuffer, n: nat)
    requires |buf| == n
    ensures HasAll(buf, n) <==> IndicesBelow(buf, n)
  {
    var keys: set<int> := set k | k in buf :: k as int;
    assert keys == buf.Keys;
    IndexRangeSize(n);
    if HasAll(buf, n) {
      forall i | i in IndexRange(n) ensures i in keys {
        assert (i as u16) in buf;
      }
      assert |keys - IndexRange(n)| == 0;
    }
    if IndicesBelow(buf, n) {
      assert keys <= IndexRange(n);
      assert |IndexRange(n) - keys| == 0;
      assert IndexRange(n) <= keys;
    }
  }

  /** A buffer holding all of 0 .. n-1 holds at least n entries. */
  lemma HasAllSize(buf: FragmentBuffer, n: nat)
    requires n <= 0x1_0000 && HasAll(buf, n)
    ensures |buf| >= n
  {
    var keys: set<int> := set k | k in buf :: k as int;
    assert keys == buf.Keys;
    IndexRangeSize(n);
    forall i | i in IndexRange(n) ensures i in keys {
      assert (i as u16) in buf;
    }
    assert |keys| >= |IndexRange(n)| by {
      assert |keys| == |IndexRange(n)| + |keys - IndexRange(n)|;
    }
  }

  // ---------------------------------------------------------------------
  // One frame packet

  /** The frame sequence checks that run before any other processing of a
      packet that is not stale: a newer sequence empties the buffer and
      becomes current. */
  function Admit(r: Receiver, sequence: u32): (r': Receiver)
    requires sequence >= r.current
    ensures r'.current == sequence
    ensures r'.buffer == if sequence > r.current then map[] else r.buffer
  {
    if sequence > r.current then Receiver(sequence, map[]) else r
  }

  /** First writer wins: an index already held keeps its payload. */
  function Store(buf: FragmentBuffer, index: u16, payload: Bytes): (b: FragmentBuffer)
    ensures index in b && b[index] == (if index in buf then buf[index] else payload)
    ensures b.Keys == buf.Keys + {index}
    ensures forall k :: k in buf ==> k in b && b[k] == buf[k]
    ensures |b| == if index in buf then |buf| else |buf| + 1
  {
    if index in buf then buf else buf[index := payload]
  }

  /** Hands `frame` out and moves the current sequence past `sequence`,
      leaving the buffer `keep`; at the top sequence the increment traps
      after the frame was handed out and `r` is the state at that point. */
  function Advance(r: Receiver, sequence: u32, keep: FragmentBuffer, frame: Bytes): (Receiver, FrameEvent)
  {
    if sequence < U32_MAX then (Receiver(sequence + 1, keep), Emitted(frame))
    else (r, EmittedThenOverflow(frame))
  }

  /** A fragment of the current frame (total > 0), as the fragmentation
      handler treats it. Unless a frame is handed out, nothing held is lost
      and the fragment's index is held afterwards; a reported missing index
      is below the total and absent from a buffer of exactly total entries. */
  function FragmentStep(r: Receiver, p: FramePacket): (out: (Receiver, FrameEvent))
    ensures !out.1.Stale?
    ensures (out.1.Waiting? || out.1.MissingFragment?) ==>
      out.0.current == r.current && p.fragmentIndex in out.0.buffer && r.buffer.Keys <= out.0.buffer.Keys
    ensures out.1.MissingFragment? ==>
      out.1.index < p.fragmentTotal && out.1.index !in out.0.buffer && |out.0.buffer| == p.fragmentTotal
    ensures out.1.Emitted? ==> p.frameSequence < U32_MAX && out.0 == Receiver(p.frameSequence + 1, map[])
    ensures out.1.EmittedThenOverflow? ==> p.frameSequence == U32_MAX
  {
    var stored := r.(buffer := Store(r.buffer, p.fragmentIndex, p.payload));
    if |stored.buffer| == p.fragmentTotal then
      match Assemble(stored.buffer, p.fragmentTotal)
      case Missing(i) => (stored, MissingFragment(i))
      case Complete(f) => Advance(stored, p.frameSequence, map[], f)
    else
      (stored, Waiting)
  }

  /** One frame packet: the stale check, the newer-frame check, then either
      the unfragmented emit or the fragmentation handler. Exactly the packets
      older than the current frame are dropped, those without any change, and
      the current sequence never goes down. */
  function FrameStep(r: Receiver, p: FramePacket): (out: (Receiver, FrameEvent))
    ensures out.1.Stale? <==> p.frameSequence < r.current
    ensures out.1.Stale? ==> out.0 == r
    ensures out.0.current >= r.current
  {
    if p.frameSequence < r.current then (r, Stale)
    else
      var admitted := Admit(r, p.frameSequence);
      if p.fragmentTotal == 0 then Advance(admitted, p.frameSequence, admitted.buffer, p.payload)
      else FragmentStep(admitted, p)
  }

  /** One datagram: exactly those routed to the frame path reach the
      reassembly state; any other datagram leaves it unchanged (the parameter
      path does not involve it). */
  function DatagramStep(r: Receiver, d: Bytes): (out: (Receiver, Option<FrameEvent>))
    ensures out.1.Some? <==> Classify(d) == ToFrame
    ensures out.1.None? ==> out.0 == r
  {
    if Classify(d) == ToFrame then
      var (r', e) := FrameStep(r, ParseFramePacket(d));
      (r', Some(e))
    else
      (r, None)
  }

  /** How a run ended: every datagram was processed, the sequence increment
      trapped, or a datagram too short to route ended reading on the
      connection (its handler returns before the receive is re-armed). */
  datatype Ending = Drained | Overflowed | Stalled

  /** The final state after a run of datagrams on one connection, the frames
      handed out, in order, and how the run ended (the datagrams after a trap
      or a stall are never processed). */
  datatype Trace = Trace(final: Receiver, frames: seq<Bytes>, ending: Ending)

  /** At most one frame per datagram; a trap comes right after a frame at the
      top sequence; a stall needs a datagram under ten bytes. */
  function Run(r: Receiver, ds: seq<Bytes>): (t: Trace)
    ensures |t.frames| <= |ds|
    ensures t.ending == Overflowed ==> t.frames != [] && t.final.current == U32_MAX
    ensures (forall i :: 0 <= i < |ds| ==> |ds[i]| >= MIN_DATAGRAM_LENGTH) ==> t.ending != Stalled
    decreases |ds|
  {
    if ds == [] then Trace(r, [], Drained)
    else if Classify(ds[0]) == TooShort then Trace(r, [], Stalled)
    else
      var (r', e) := DatagramStep(r, ds[0]);
      match e
      case Some(Emitted(f)) =>
        var t := Run(r', ds[1..]);
        t.(frames := [f] + t.frames)
      case Some(EmittedThenOverflow(f)) => Trace(r', [f], Overflowed)
      case _ => Run(r', ds[1..])
  }

  /** The same as Run, for packets that are already parsed, which therefore
      never stall. */
  function Play(r: Receiver, ps: seq<FramePacket>): (t: Trace)
    ensures |t.frames| <= |ps|
    ensures t.ending == Overflowed ==> t.frames != [] && t.final.current == U32_MAX
    ensures t.ending != Stalled
    decreases |ps|
  {
    if ps == [] then Trace(r, [], Drained)
    else
      var (r', e) := FrameStep(r, ps[0]);
      match e
      case Emitted(f) =>
        var t := Play(r', ps[1..]);
        t.(frames := [f] + t.frames)
      case EmittedThenOverflow(f) => Trace(r', [f], Overflowed)
      case _ => Play(r', ps[1..])
  }

  // ---------------------------------------------------------------------
  // Properties of one step

  /** A packet of an older frame emits nothing and changes nothing. */
  lemma StaleIsDropped(r: Receiver, p: FramePacket)
    requires p.frameSequence < r.current
    ensures FrameStep(r, p) == (r, Stale)
  {
  }

  /** A packet of a newer frame discards every fragment held before it: the
      buffer afterwards holds at most this packet's own fragment. */
  lemma NewerFrameEvicts(r: Receiver, p: FramePacket)
    requires p.frameSequence > r.current
    ensures var (r', e) := FrameStep(r, p);
      forall k :: k in r'.buffer ==> k == p.fragmentIndex && r'.buffer[k] == p.payload
  {
    var admitted := Admit(r, p.frameSequence);
    assert admitted == Receiver(p.frameSequence, map[]);
    if p.fragmentTotal > 0 {
      var stored := Store(map[], p.fragmentIndex, p.payload);
      assert stored == map[p.fragmentIndex := p.payload];
    }
  }

  /** An unfragmented packet that is not stale is emitted as it is, once,
      and the sequence moves past it; the buffer is only affected by the
      newer-frame check, never by this step. */
  lemma UnfragmentedIsEmitted(r: Receiver, p: FramePacket)
    requires p.fragmentTotal == 0 && r.current <= p.frameSequence < U32_MAX
    ensures FrameStep(r, p) ==
      (Receiver(p.frameSequence + 1, Admit(r, p.frameSequence).buffer), Emitted(p.payload))
  {
  }

  /** A fragment whose index is already held leaves the buffer as it was. */
  lemma DuplicateFragmentIgnored(r: Receiver, p: FramePacket)
    requires p.frameSequence == r.current && p.fragmentTotal > 0
    requires p.fragmentIndex in r.buffer
    ensures var (r', e) := FrameStep(r, p);
      (e == Waiting || e.MissingFragment?) ==> r' == r
  {
  }

  /** When the stored fragments fill the buffer and cover 0 .. total-1, the
      frame is their concatenation in index order, the sequence moves past
      it and the buffer is emptied; when one is absent nothing is emitted
      and the state is the one right after storing. */
  lemma FullBufferOutcome(r: Receiver, p: FramePacket)
    requires r.current <= p.frameSequence < U32_MAX && p.fragmentTotal > 0
    requires var b := Store(Admit(r, p.frameSequence).buffer, p.fragmentIndex, p.payload);
      |b| == p.fragmentTotal
    ensures var b := Store(Admit(r, p.frameSequence).buffer, p.fragmentIndex, p.payload);
      var (r', e) := FrameStep(r, p);
      && (HasAll(b, p.fragmentTotal) ==>
            r' == Receiver(p.frameSequence + 1, map[]) && e == Emitted(Concat(b, p.fragmentTotal)))
      && (!HasAll(b, p.fragmentTotal) ==>
            r' == Receiver(p.frameSequence, b) && e.MissingFragment? && !IndicesBelow(b, p.fragmentTotal))
  {
    var b := Store(Admit(r, p.frameSequence).buffer, p.fragmentIndex, p.payload);
    FullBufferComplete(b, p.fragmentTotal);
  }

  /** A fragment of the current frame declaring total n, arriving while an
      index k >= n is held: the buffer can reach n entries only with k among
      them, so nothing is emitted, the sequence stays and k stays held. */
  lemma StrayIndexBlocksStep(r: Receiver, p: FramePacket, k: u16)
    requires p.frameSequence == r.current && p.fragmentTotal > 0
    requires k in r.buffer && k >= p.fragmentTotal
    ensures var (r', e) := FrameStep(r, p);
      && (e.Waiting? || e.MissingFragment?)
      && r'.current == r.current && k in r'.buffer
  {
    var b := Store(r.buffer, p.fragmentIndex, p.payload);
    if |b| == p.fragmentTotal {
      FullBufferComplete(b, p.fragmentTotal as nat);
    }
  }

  /** The current sequence never decreases; it moves past a packet's
      sequence only when that sequence is below the top value. */
  lemma StepMonotonic(r: Receiver, p: FramePacket)
    ensures var (r', e) := FrameStep(r, p);
      && r'.current >= r.current
      && (p.frameSequence < r.current ==> r' == r)
      && (p.frameSequence >= r.current ==>
            r'.current == p.frameSequence
            || (p.frameSequence < U32_MAX && r'.current == p.frameSequence + 1))
      && (e.EmittedThenOverflow? ==> p.frameSequence == U32_MAX && r'.current == U32_MAX)
  {
  }

  // ---------------------------------------------------------------------
  // Properties of runs

  /** The current sequence never decreases over any run of datagrams. */
  lemma {:induction false} RunMonotonic(r: Receiver, ds: seq<Bytes>)
    ensures Run(r, ds).final.current >= r.current
    decreases |ds|
  {
    if ds != [] {
      var (r', e) := DatagramStep(r, ds[0]);
      if Classify(ds[0]) == ToFrame {
        StepMonotonic(r, ParseFramePacket(ds[0]));
      }
      match e
      case Some(EmittedThenOverflow(f)) =>
      case Some(Emitted(f)) => RunMonotonic(r', ds[1..]);
      case _ => RunMonotonic(r', ds[1..]);
    }
  }

  /** A datagram shorter than ten bytes reaches no handler and changes no
      state, and its handler returns before re-arming the receive: nothing
      after it on that connection is read. */
  lemma ShortDatagramStops(r: Receiver, d: Bytes, ds: seq<Bytes>)
    requires |d| < MIN_DATAGRAM_LENGTH
    ensures DatagramStep(r, d) == (r, None)
    ensures Run(r, [d] + ds) == Trace(r, [], Stalled)
  {
  }

  /** Once an index k >= n is held, no run of fragments of the current frame
      declaring total n ever emits that frame: the sequence stays, k stays
      held and the run ends with nothing handed out. */
  lemma {:induction false} StrayIndexBlocksForever(r: Receiver, ps: seq<FramePacket>, n: u16, k: u16)
    requires n > 0 && k in r.buffer && k >= n
    requires forall i :: 0 <= i < |ps| ==> ps[i].frameSequence == r.current && ps[i].fragmentTotal == n
    ensures var t := Play(r, ps);
      t.frames == [] && t.ending == Drained && t.final.current == r.current && k in t.final.buffer
    decreases |ps|
  {
    if ps != [] {
      StrayIndexBlocksStep(r, ps[0], k);
      var (r', e) := FrameStep(r, ps[0]);
      StrayIndexBlocksForever(r', ps[1..], n, k);
    }
  }

  /** The datagrams a sender emits for a list of frame packets. */
  function EncodeAll(ps: seq<FramePacket>): (ds: seq<Bytes>)
    ensures |ds| == |ps|
    ensures forall i :: 0 <= i < |ps| ==> ds[i] == EncodeFramePacket(ps[i])
  {
    if ps == [] then [] else [EncodeFramePacket(ps[0])] + EncodeAll(ps[1..])
  }

  function Payloads(ps: seq<FramePacket>): (fs: seq<Bytes>)
    ensures |fs| == |ps|
    ensures forall i :: 0 <= i < |ps| ==> fs[i] == ps[i].payload
  {
    if ps == [] then [] else [ps[0].payload] + Payloads(ps[1..])
  }

  /** Receiving the datagrams a sender emits for a list of frame packets
      has the same outcome as playing the packets themselves. */
  lemma {:induction false} RunOfEncoded(r: Receiver, ps: seq<FramePacket>)
    ensures Run(r, EncodeAll(ps)) == Play(r, ps)
    decreases |ps|
  {
    if ps != [] {
      var ds := EncodeAll(ps);
      assert ds[1..] == EncodeAll(ps[1..]);
      var (r', e) := FrameStep(r, ps[0]);
      assert DatagramStep(r, ds[0]) == (r', Some(e));
      RunOfEncoded(r', ps[1..]);
    }
  }

  /** Unfragmented frames with strictly increasing sequences, none stale and
      none at the top sequence, are each emitted exactly once, in order. */
  lemma {:induction false} InOrderUnfragmentedFrames(r: Receiver, ps: seq<FramePacket>)
    requires forall i :: 0 <= i < |ps| ==> ps[i].fragmentTotal == 0 && ps[i].frameSequence < U32_MAX
    requires forall i :: 0 < i < |ps| ==> ps[i - 1].frameSequence < ps[i].frameSequence
    requires ps != [] ==> r.current <= ps[0].frameSequence
    ensures Play(r, ps).frames == Payloads(ps)
    ensures Play(r, ps).ending == Drained
    decreases |ps|
  {
    if ps != [] {
      var r' := Receiver(ps[0].frameSequence + 1, Admit(r, ps[0].frameSequence).buffer);
      UnfragmentedIsEmitted(r, ps[0]);
      InOrderUnfragmentedFrames(r', ps[1..]);
      assert Payloads(ps) == [ps[0].payload] + Payloads(ps[1..]);
    }
  }

  /** The buffer after storing a list of fragments, first writer wins. */
  function StoreAll(buf: FragmentBuffer, ps: seq<FramePacket>): FragmentBuffer
    decreases |ps|
  {
    if ps == [] then buf else StoreAll(Store(buf, ps[0].fragmentIndex, ps[0].payload), ps[1..])
  }

  /** The packets are fragments of one frame: sequence s, total n, every
      index below n. */
  ghost predicate FragmentsOf(ps: seq<FramePacket>, s: u32, n: u16) {
    forall i :: 0 <= i < |ps| ==>
      ps[i].frameSequence == s && ps[i].fragmentTotal == n && ps[i].fragmentIndex < n
  }

  /** Once every index is held, further fragments of the frame change nothing. */
  lemma {:induction false} StoreAllSaturated(buf: FragmentBuffer, ps: seq<FramePacket>, n: nat)
    requires HasAll(buf, n)
    requires forall i :: 0 <= i < |ps| ==> ps[i].fragmentIndex < n
    ensures StoreAll(buf, ps) == buf
  {
    if ps != [] {
      assert Store(buf, ps[0].fragmentIndex, ps[0].payload) == buf;
      StoreAllSaturated(buf, ps[1..], n);
    }
  }

  /** Packets of a frame older than the current one change nothing and
      emit nothing. */
  lemma {:induction false} StalePacketsIgnored(r: Receiver, ps: seq<FramePacket>)
    requires forall i :: 0 <= i < |ps| ==> ps[i].frameSequence < r.current
    ensures Play(r, ps) == Trace(r, [], Drained)
  {
    if ps != [] {
      StaleIsDropped(r, ps[0]);
      StalePacketsIgnored(r, ps[1..]);
    }
  }

  /** Fragments of one frame, in any order and with any duplicates, on top
      of a partial buffer B of that frame: if together they cover every
      index, the concatenation of the first-written fragments in index order
      is emitted exactly once and the buffer is emptied; otherwise nothing
      is emitted and the buffer holds the first-written fragments. */
  lemma {:induction false} FragmentsInAnyOrder(b: FragmentBuffer, ps: seq<FramePacket>, s: u32, n: u16)
    requires s < U32_MAX && n > 0
    requires FragmentsOf(ps, s, n)
    requires IndicesBelow(b, n) && |b| < n
    ensures var all := StoreAll(b, ps);
      Play(Receiver(s, b), ps) ==
        if HasAll(all, n) then Trace(Receiver(s + 1, map[]), [Concat(all, n)], Drained)
        else Trace(Receiver(s, all), [], Drained)
    decreases |ps|
  {
    if ps == [] {
      if HasAll(b, n) {
        HasAllSize(b, n);
      }
    } else {
      var p := ps[0];
      var b' := Store(b, p.fragmentIndex, p.payload);
      assert FragmentsOf(ps[1..], s, n);
      assert StoreAll(b, ps) == StoreAll(b', ps[1..]);
      if |b'| == n {
        FullBufferComplete(b', n);
        var done := Receiver(s + 1, map[]);
        assert FrameStep(Receiver(s, b), p) == (done, Emitted(Concat(b', n)));
        var rest := Play(done, ps[1..]);
        assert Play(Receiver(s, b), ps) == rest.(frames := [Concat(b', n)] + rest.frames);
        StalePacketsIgnored(done, ps[1..]);
        StoreAllSaturated(b', ps[1..], n);
      } else {
        assert FrameStep(Receiver(s, b), p) == (Receiver(s, b'), Waiting);
        assert Play(Receiver(s, b), ps) == Play(Receiver(s, b'), ps[1..]);
        FragmentsInAnyOrder(b', ps[1..], s, n);
      }
    }
  }

  /** The fragments of a frame newer than the current one are reassembled
      from them alone: nothing held for an earlier frame leaks into it. */
  lemma NewFrameFragments(r: Receiver, ps: seq<FramePacket>, s: u32, n: u16)
    requires r.current < s < U32_MAX && n > 0
    requires FragmentsOf(ps, s, n) && ps != []
    ensures var all := StoreAll(map[], ps);
      Run(r, EncodeAll(ps)) ==
        if HasAll(all, n) then Trace(Receiver(s + 1, map[]), [Concat(all, n)], Drained)
        else Trace(Receiver(s, all), [], Drained)
  {
    assert FrameStep(r, ps[0]) == FrameStep(Receiver(s, map[]), ps[0]);
    assert Play(r, ps) == Play(Receiver(s, map[]), ps);
    RunOfEncoded(r, ps);
    FragmentsInAnyOrder(map[], ps, s, n);
  }
}
