/**
 * What the receiver delivers. The receiver of MyProtocol.java keeps its low
 * edge mod SEQ_RANGE while the buffered slot indices run up to
 * low + WINDOW_SIZE - 1, which may lie past SEQ_RANGE; when the low edge
 * wraps to a small value, a payload buffered under such an index stays
 * behind outside the new window (StaleSlotSurvivesWrap). With the low edge
 * kept as an absolute index (StepAbsolute), every packet the sender can
 * still have in flight keeps the receiver's output equal to the in-order
 * prefix of the stream (StepAbsoluteDelivers), and the transfer rebuilds
 * the file exactly (ReceiverRebuildsFile).
 */
module InOrderDelivery {
  import opened Sequences
  import opened SequenceSpace
  import opened IntSets
  import opened Reassembler

  /** Two numbers less than SEQ_RANGE apart with the same residue are equal. */
  lemma SameResidue(a: int, b: int)
    requires a % SEQ_RANGE == b % SEQ_RANGE
    requires -SEQ_RANGE < a - b < SEQ_RANGE
    ensures a == b
  {
    var qa, qb := a / SEQ_RANGE, b / SEQ_RANGE;
    assert a == qa * SEQ_RANGE + a % SEQ_RANGE;
    assert b == qb * SEQ_RANGE + b % SEQ_RANGE;
    assert a - b == (qa - qb) * SEQ_RANGE;
  }

  // ---------------------------------------------------------------------
  // The receiver as written: the stale slot.
  // ---------------------------------------------------------------------

  /**
   * Low edge 39 with sequence number 5 of the next round already buffered
   * at index 45. When packet 39 arrives the low edge wraps to 0 and the
   * payload at 45 stays buffered, outside the window [0, 20) in which
   * sequence number 5 is now looked for at index 5.
   */
  lemma StaleSlotSurvivesWrap()
    ensures var st := Step(RecvState(39, map[45 := [7]], []), [39, 1]);
      && st == RecvState(0, map[45 := [7]], [1])
      && 45 % SEQ_RANGE == 5
      && !(st.low <= 45 < st.low + WINDOW_SIZE)
  {
    var m0: map<int, seq<int>> := map[45 := [7]];
    var slots := Slots(39, 39 + WINDOW_SIZE, 39);
    forall k | k in slots
      ensures k == 39
    {
      SameResidue(k, 39);
    }
    assert 39 in Slots(39, 39 + WINDOW_SIZE, 39);
    var m := Buffer(m0, 39, 39, [1]);
    assert m.Keys == {39, 45};
    assert m == map[45 := [7], 39 := [1]];
    assert Min(m.Keys) == 39;
    assert m.Keys - {39} == {45};
    assert Min({45}) == 45;
    assert DrainWalk({45}, m, 39) == (39, []);
    assert m[39] == [1] && [1] + [] == [1];
    assert DrainWalk(m.Keys, m, 39) == (DrainWalk({45}, m, 39).0, m[39] + DrainWalk({45}, m, 39).1);
    assert RemoveRange(m, 39, 39) == m0;
  }

  // ---------------------------------------------------------------------
  // The receiver with an absolute low edge.
  // ---------------------------------------------------------------------

  /**
   * receiver() for one non-termination packet with the low edge kept as an
   * absolute index: the packet is the expected one when its sequence number
   * is the low edge mod SEQ_RANGE, and the new low edge is one past the
   * last index drained.
   */
  ghost function StepAbsolute(st: RecvState, packet: seq<int>): RecvState
    requires |packet| >= 1
  {
    var seqNo := packet[0];
    var m := Buffer(st.buffered, st.low, seqNo, Payload(packet));
    if seqNo == st.low % SEQ_RANGE then
      var (last, out) := DrainWalk(m.Keys, m, st.low);
      RecvState(last + 1, RemoveRange(m, st.low, last), st.output + out)
    else
      RecvState(st.low, m, st.output)
  }

  /** The packet the sender builds for the i-th payload of the stream. */
  function Packet(stream: seq<seq<int>>, i: int): (p: seq<int>)
    requires 0 <= i < |stream|
    ensures |p| >= 1 && p[0] == i % SEQ_RANGE && Payload(p) == stream[i]
  {
    assert ([i % SEQ_RANGE] + stream[i])[HEADER_SIZE..] == stream[i];
    [i % SEQ_RANGE] + stream[i]
  }

  /**
   * The receiver state agrees with the stream: everything before the low
   * edge has been output, in order, exactly once; the low edge itself is
   * not buffered; every buffered index lies inside the window after it and
   * holds the payload the stream has there.
   */
  ghost predicate Delivered(stream: seq<seq<int>>, st: RecvState)
  {
    && 0 <= st.low <= |stream|
    && (forall k :: k in st.buffered ==>
          st.low < k < st.low + WINDOW_SIZE && k < |stream| && st.buffered[k] == stream[k])
    && st.output == Flatten(stream[..st.low])
  }

  /** The receiver at start agrees with every stream. */
  lemma StartDelivered(stream: seq<seq<int>>)
    ensures Delivered(stream, RecvState(0, map[], []))
  {
    assert stream[..0] == [];
  }

  /**
   * The slots of the window [low, low + WINDOW_SIZE) that stand for the
   * sequence number of index i, where i is at most WINDOW_SIZE before the
   * window: exactly i itself when i is inside, none otherwise.
   */
  lemma WindowSlots(low: int, i: int)
    requires low - WINDOW_SIZE <= i < low + WINDOW_SIZE
    ensures Slots(low, low + WINDOW_SIZE, i % SEQ_RANGE) == if low <= i then {i} else {}
  {
    var slots := Slots(low, low + WINDOW_SIZE, i % SEQ_RANGE);
    forall k | k in slots
      ensures k == i
    {
      SameResidue(k, i);
    }
    if low <= i {
      assert i in Slots(low, low + WINDOW_SIZE, i % SEQ_RANGE);
    }
  }

  /** Index i is the expected one exactly when its sequence number is the low edge's. */
  lemma ExpectedIff(low: int, i: int)
    requires low - WINDOW_SIZE <= i < low + WINDOW_SIZE
    ensures i % SEQ_RANGE == low % SEQ_RANGE <==> i == low
  {
    if i % SEQ_RANGE == low % SEQ_RANGE {
      SameResidue(i, low);
    }
  }

  /** The buffered payloads at a..b, when they are the stream's, are the stream's slice a..b. */
  lemma {:induction false} RunIsStream(m: map<int, seq<int>>, stream: seq<seq<int>>, a: int, b: int)
    requires 0 <= a <= b + 1 <= |stream|
    requires forall j :: a <= j <= b ==> j in m && m[j] == stream[j]
    ensures Run(m, a, b) == Flatten(stream[a..b + 1])
    decreases b - a
  {
    if a <= b {
      RunIsStream(m, stream, a + 1, b);
      assert stream[a..b + 1][1..] == stream[a + 1..b + 1];
    } else {
      assert stream[a..b + 1] == [];
    }
  }

  /**
   * Buffering a packet from the sender's window: the payload goes in at its
   * own index when that lies in the receive window, and nowhere else.
   */
  lemma BufferGenuine(stream: seq<seq<int>>, st: RecvState, i: int)
    requires Delivered(stream, st)
    requires 0 <= i < |stream| && st.low - WINDOW_SIZE <= i < st.low + WINDOW_SIZE
    ensures var m := Buffer(st.buffered, st.low, i % SEQ_RANGE, stream[i]);
      m == if st.low <= i then st.buffered[i := stream[i]] else st.buffered
  {
    WindowSlots(st.low, i);
    var m := Buffer(st.buffered, st.low, i % SEQ_RANGE, stream[i]);
    if st.low <= i {
      assert m.Keys == st.buffered.Keys + {i};
      assert m == st.buffered[i := stream[i]];
    } else {
      assert m.Keys == st.buffered.Keys;
      assert m == st.buffered;
    }
  }

  /**
   * One packet of the sender's window arriving at the receiver with an
   * absolute low edge keeps the receiver in agreement with the stream, never
   * moves the low edge back, and moves it forward when it is the expected
   * one. Copies of packets already delivered (up to WINDOW_SIZE before the
   * low edge) change nothing.
   */
  lemma StepAbsoluteDelivers(stream: seq<seq<int>>, st: RecvState, i: int)
    requires Delivered(stream, st)
    requires 0 <= i < |stream| && st.low - WINDOW_SIZE <= i < st.low + WINDOW_SIZE
    ensures var st' := StepAbsolute(st, Packet(stream, i));
      && Delivered(stream, st')
      && st'.low >= st.low
      && (i == st.low ==> st'.low > st.low)
      && (i < st.low ==> st' == st)
  {
    var low := st.low;
    BufferGenuine(stream, st, i);
    ExpectedIff(low, i);
    if i == low {
      DrainDelivers(stream, st, Buffer(st.buffered, low, i % SEQ_RANGE, stream[i]));
    }
  }

  /**
   * The expected packet has been buffered into m: the drain outputs the
   * stream's payloads from the low edge to the last contiguous index and
   * leaves the receiver in agreement with the stream past them.
   */
  lemma DrainDelivers(stream: seq<seq<int>>, st: RecvState, m: map<int, seq<int>>)
    requires Delivered(stream, st) && st.low < |stream|
    requires m == st.buffered[st.low := stream[st.low]]
    ensures var (last, out) := DrainWalk(m.Keys, m, st.low);
      && last >= st.low
      && Delivered(stream, RecvState(last + 1, RemoveRange(m, st.low, last), st.output + out))
  {
    var low := st.low;
    assert forall k :: k in m ==> k >= low;
    DrainFromLow(m, low);
    var (last, out) := DrainWalk(m.Keys, m, low);
    assert last in m && out == Run(m, low, last) && last + 1 !in m;
    assert last < |stream|;
    RunOutput(stream, st, m, last);
    assert st.output + out == Flatten(stream[..last + 1]);
    RemainderInWindow(stream, st, m, last);
  }

  /** The output extended by the drained run is the stream's prefix up to its end. */
  lemma RunOutput(stream: seq<seq<int>>, st: RecvState, m: map<int, seq<int>>, last: int)
    requires Delivered(stream, st)
    requires st.low <= last < |stream|
    requires m == st.buffered[st.low := stream[st.low]]
    requires forall j :: st.low <= j <= last ==> j in m
    ensures st.output + Run(m, st.low, last) == Flatten(stream[..last + 1])
  {
    var low := st.low;
    forall j | low <= j <= last
      ensures m[j] == stream[j]
    {
    }
    RunIsStream(m, stream, low, last);
    assert stream[..last + 1] == stream[..low] + stream[low..last + 1];
    FlattenAppend(stream[..low], stream[low..last + 1]);
  }

  /** What the drain leaves buffered lies in the window after the new low edge. */
  lemma RemainderInWindow(stream: seq<seq<int>>, st: RecvState, m: map<int, seq<int>>, last: int)
    requires Delivered(stream, st) && st.low < |stream|
    requires m == st.buffered[st.low := stream[st.low]]
    requires last >= st.low && last + 1 !in m
    ensures var rest := RemoveRange(m, st.low, last);
      forall k :: k in rest ==> last + 1 < k < last + 1 + WINDOW_SIZE && k < |stream| && rest[k] == stream[k]
  {
  }

  /** When the low edge has passed the whole stream, the output is the whole stream. */
  lemma CompleteOutput(stream: seq<seq<int>>, st: RecvState)
    requires Delivered(stream, st) && st.low == |stream|
    ensures st.output == Flatten(stream)
  {
    assert stream[..st.low] == stream;
  }

  /** The sender's packets for a file are the packets of its payload stream. */
  lemma FilePackets(file: seq<int>, i: int)
    requires 0 <= i < |Chunks(file, 0)|
    ensures Chunks(file, 0)[i] == Packet(Payloads(Chunks(file, 0)), i)
  {
    ChunkShape(file, 0, i);
    var c := Chunks(file, 0)[i];
    assert c == [c[0]] + c[HEADER_SIZE..];
  }

  /**
   * The whole transfer: a receiver with an absolute low edge that agrees
   * with the payload stream of the file and has passed its last packet has
   * output exactly the file.
   */
  lemma ReceiverRebuildsFile(file: seq<int>, st: RecvState)
    requires Delivered(Payloads(Chunks(file, 0)), st)
    requires st.low == |Chunks(file, 0)|
    ensures st.output == file
  {
    CompleteOutput(Payloads(Chunks(file, 0)), st);
    ChunksPayloads(file, 0);
  }
}
