/**
 * The receiving side of the sliding-window transfer
 * (swp/src/my_protocol/MyProtocol.java, receiver()). One arriving packet is
 * one step: buffer its payload in the matching open slots of the receive
 * window, acknowledge it, and when it is the next expected one, append the
 * contiguous run of buffered payloads to the output.
 */
module Reassembler {
  import opened SequenceSpace
  import opened IntSets

  /** The receiver's data: the low edge, the buffered payloads by slot index, the output so far. */
  datatype RecvState = RecvState(low: int, buffered: map<int, seq<int>>, output: seq<int>)

  /**
   * The buffering loop run over the slot indices from low up to (excluding)
   * hi: payload goes into every index whose value mod SEQ_RANGE is seqNo and
   * that holds nothing yet.
   */
  function BufferUpTo(m: map<int, seq<int>>, low: int, hi: int, seqNo: int, payload: seq<int>): map<int, seq<int>>
    decreases hi - low
  {
    if hi <= low then m
    else
      var b := BufferUpTo(m, low, hi - 1, seqNo, payload);
      if (hi - 1) % SEQ_RANGE == seqNo && hi - 1 !in b then b[hi - 1 := payload] else b
  }

  /** The indices in [low, hi) that stand for sequence number seqNo. */
  function Slots(low: int, hi: int, seqNo: int): set<int>
  {
    set i | low <= i < hi && i % SEQ_RANGE == seqNo
  }

  /** Slots grows by at most the one index hi - 1. */
  lemma SlotsStep(low: int, hi: int, seqNo: int)
    requires low < hi
    ensures Slots(low, hi, seqNo)
      == Slots(low, hi - 1, seqNo) + if (hi - 1) % SEQ_RANGE == seqNo then {hi - 1} else {}
  {
  }

  /**
   * What the buffering loop leaves: the old entries untouched, plus the
   * payload at exactly the matching indices of [low, hi) that were empty.
   */
  lemma {:induction false} BufferUpToContents(m: map<int, seq<int>>, low: int, hi: int, seqNo: int, payload: seq<int>)
    ensures var b := BufferUpTo(m, low, hi, seqNo, payload);
      && b.Keys == m.Keys + Slots(low, hi, seqNo)
      && (forall k :: k in m ==> b[k] == m[k])
      && (forall k :: k in b && k !in m ==> b[k] == payload)
    decreases hi - low
  {
    if hi > low {
      BufferUpToContents(m, low, hi - 1, seqNo, payload);
      SlotsStep(low, hi, seqNo);
    }
  }

  /**
   * The buffering loop over the whole window: it fills exactly the open
   * slots in [low, low + WINDOW_SIZE) matching seqNo, and never overwrites.
   */
  function Buffer(m: map<int, seq<int>>, low: int, seqNo: int, payload: seq<int>): (r: map<int, seq<int>>)
    ensures r.Keys == m.Keys + Slots(low, low + WINDOW_SIZE, seqNo)
    ensures forall k :: k in m ==> r[k] == m[k]
    ensures forall k :: k in r && k !in m ==> r[k] == payload
  {
    BufferUpToContents(m, low, low + WINDOW_SIZE, seqNo, payload);
    BufferUpTo(m, low, low + WINDOW_SIZE, seqNo, payload)
  }

  /**
   * The drain loop: walk the given keys in ascending order, starting from
   * `last`, while each is at most one past the previous. The result is the
   * last index walked and the payloads walked, in order.
   */
  ghost function DrainWalk(keys: set<int>, m: map<int, seq<int>>, last: int): (int, seq<int>)
    requires keys <= m.Keys
    decreases keys
  {
    if keys == {} then (last, [])
    else
      var k := Min(keys);
      if k - last > 1 then (last, [])
      else
        var r := DrainWalk(keys - {k}, m, k);
        (r.0, m[k] + r.1)
  }

  /** The payloads at indices a..b, in order. */
  function Run(m: map<int, seq<int>>, a: int, b: int): seq<int>
    requires forall i :: a <= i <= b ==> i in m
    decreases b - a
  {
    if a > b then [] else m[a] + Run(m, a + 1, b)
  }

  /** The buffer without the indices lo..hi. */
  function RemoveRange(m: map<int, seq<int>>, lo: int, hi: int): map<int, seq<int>>
  {
    map k | k in m && (k < lo || k > hi) :: m[k]
  }

  /**
   * Walking keys that all lie above `last`: the walk covers the contiguous
   * indices last+1 .. l, stops where the next index is missing, and yields
   * exactly their payloads in order.
   */
  lemma {:induction false} WalkRun(keys: set<int>, m: map<int, seq<int>>, last: int)
    requires keys <= m.Keys
    requires forall k :: k in keys ==> k > last
    ensures var (l, out) := DrainWalk(keys, m, last);
      && l >= last
      && (forall i :: last < i <= l ==> i in keys)
      && l + 1 !in keys
      && out == Run(m, last + 1, l)
    decreases keys
  {
    if keys != {} {
      var k := Min(keys);
      if k - last <= 1 {
        WalkRun(keys - {k}, m, k);
      }
    }
  }

  /**
   * The drain started at the expected index low, present in the buffer, with
   * no buffered index below it: it appends the payloads at low..l, all of
   * which are buffered, and stops where index l + 1 is missing.
   */
  lemma DrainFromLow(m: map<int, seq<int>>, low: int)
    requires low in m && forall k :: k in m ==> k >= low
    ensures var (l, out) := DrainWalk(m.Keys, m, low);
      && l >= low
      && (forall i :: low <= i <= l ==> i in m)
      && l + 1 !in m
      && out == Run(m, low, l)
  {
    assert Min(m.Keys) == low;
    WalkRun(m.Keys - {low}, m, low);
  }

  /**
   * receiver(), one non-termination packet, exactly as written: the low
   * edge is kept mod SEQ_RANGE, and the drain walks every buffered key.
   */
  ghost function Step(st: RecvState, packet: seq<int>): RecvState
    requires |packet| >= 1
  {
    var seqNo := packet[0];
    var m := Buffer(st.buffered, st.low, seqNo, Payload(packet));
    if seqNo == st.low then
      var (last, out) := DrainWalk(m.Keys, m, st.low);
      RecvState((last + 1) % SEQ_RANGE, RemoveRange(m, st.low, last), st.output + out)
    else
      RecvState(st.low, m, st.output)
  }

  /** The termination packet: one element, the value FIN. */
  predicate IsFin(packet: seq<int>)
  {
    |packet| == 1 && packet[0] == FIN
  }

  class Receiver {
    var lowestExpectedSeq: int
    var receivedPackets: map<int, seq<int>>
    var fileContents: seq<int>
    /** Acknowledgments handed to the network layer, in order. */
    var network: seq<seq<int>>
    /** The termination packet has arrived. */
    var stopped: bool

    function State(): RecvState
      reads this
    {
      RecvState(lowestExpectedSeq, receivedPackets, fileContents)
    }

    /**
     * The low edge stays in [0, SEQ_RANGE) and no buffered index lies below
     * it, so walking every key is the same as walking those from the low
     * edge on.
     */
    ghost predicate Valid()
      reads this
    {
      0 <= lowestExpectedSeq < SEQ_RANGE && forall k :: k in receivedPackets ==> k >= lowestExpectedSeq
    }

    constructor ()
      ensures Valid() && State() == RecvState(0, map[], []) && network == [] && !stopped
    {
      lowestExpectedSeq, receivedPackets, fileContents := 0, map[], [];
      network, stopped := [], false;
    }

    /**
     * One packet taken from the network. The termination packet stops the
     * receiver and changes nothing else; every other packet is acknowledged
     * with its own header and processed by Step.
     */
    method Receive(packet: seq<int>)
      requires Valid() && |packet| >= 1
      modifies this
      ensures Valid()
      ensures IsFin(packet) ==> stopped && State() == old(State()) && network == old(network)
      ensures !IsFin(packet) ==>
        && stopped == old(stopped)
        && network == old(network) + [[packet[0]]]
        && State() == Step(old(State()), packet)
    {
      if |packet| == 1 && packet[0] == FIN {
        stopped := true;
        return;
      }
      var header := packet[..HEADER_SIZE];
      assert header == [packet[0]];
      var seqNo := header[0];
      var content := packet[HEADER_SIZE..];
      BufferPacket(seqNo, content);
      network := network + [header];
      if seqNo == lowestExpectedSeq {
        DrainBuffered();
      }
    }

    /** The buffering loop of receiver(): fill the open matching slots of the window. */
    method BufferPacket(seqNo: int, content: seq<int>)
      requires Valid()
      modifies this`receivedPackets
      ensures Valid()
      ensures receivedPackets == Buffer(old(receivedPackets), lowestExpectedSeq, seqNo, content)
    {
      ghost var m0 := receivedPackets;
      var packetIdx := lowestExpectedSeq;
      while packetIdx < lowestExpectedSeq + WINDOW_SIZE
        invariant lowestExpectedSeq <= packetIdx <= lowestExpectedSeq + WINDOW_SIZE
        invariant receivedPackets == BufferUpTo(m0, lowestExpectedSeq, packetIdx, seqNo, content)
      {
        var currentSeq := packetIdx % SEQ_RANGE;
        if seqNo == currentSeq && packetIdx !in receivedPackets {
          receivedPackets := receivedPackets[packetIdx := content];
        }
        packetIdx := packetIdx + 1;
      }
      assert receivedPackets == Buffer(m0, lowestExpectedSeq, seqNo, content);
      assert forall k :: k in Slots(lowestExpectedSeq, packetIdx, seqNo) ==> k >= lowestExpectedSeq;
    }

    /**
     * The drain of receiver(), run when the expected packet has arrived:
     * append the payloads met while walking the buffered keys in ascending
     * order, remove the walked indices and move the low edge past them.
     */
    method DrainBuffered()
      requires Valid() && lowestExpectedSeq in receivedPackets
      modifies this`receivedPackets, this`fileContents, this`lowestExpectedSeq
      ensures Valid()
      ensures var (last, out) := DrainWalk(old(receivedPackets).Keys, old(receivedPackets), old(lowestExpectedSeq));
        && fileContents == old(fileContents) + out
        && receivedPackets == RemoveRange(old(receivedPackets), old(lowestExpectedSeq), last)
        && lowestExpectedSeq == (last + 1) % SEQ_RANGE
    {
      DrainFromLow(receivedPackets, lowestExpectedSeq);
      var lastPacketIdx := AppendRun();
      RemoveRun(lastPacketIdx);
      lowestExpectedSeq := (lastPacketIdx + 1) % SEQ_RANGE;
    }

    /** The first loop of the drain: append the contiguous buffered payloads. */
    method AppendRun() returns (lastPacketIdx: int)
      requires Valid() && lowestExpectedSeq in receivedPackets
      modifies this`fileContents
      ensures var (last, out) := DrainWalk(receivedPackets.Keys, receivedPackets, lowestExpectedSeq);
        lastPacketIdx == last && fileContents == old(fileContents) + out
    {
      ghost var m := receivedPackets;
      lastPacketIdx := lowestExpectedSeq;
      var keys := receivedPackets.Keys;
      ghost var drained: seq<int> := [];
      ghost var walk := DrainWalk(m.Keys, m, lastPacketIdx);
      assert drained + walk.1 == walk.1;
      while keys != {}
        invariant keys <= m.Keys
        invariant fileContents == old(fileContents) + drained
        invariant walk == (DrainWalk(keys, m, lastPacketIdx).0, drained + DrainWalk(keys, m, lastPacketIdx).1)
        decreases keys
      {
        MinExists(keys);
        var k :| k in keys && forall j :: j in keys ==> k <= j;
        assert k == Min(keys);
        if k - lastPacketIdx > 1 {
          assert DrainWalk(keys, m, lastPacketIdx) == (lastPacketIdx, []);
          break;
        }
        assert DrainWalk(keys, m, lastPacketIdx)
            == (DrainWalk(keys - {k}, m, k).0, m[k] + DrainWalk(keys - {k}, m, k).1);
        ghost var rest := DrainWalk(keys - {k}, m, k);
        assert drained + (m[k] + rest.1) == (drained + m[k]) + rest.1;
        lastPacketIdx := k;
        fileContents := fileContents + receivedPackets[k];
        drained := drained + m[k];
        keys := keys - {k};
      }
      if keys == {} {
        assert DrainWalk(keys, m, lastPacketIdx) == (lastPacketIdx, []);
      }
      assert drained + [] == drained;
    }

    /** The second loop of the drain: remove the indices low..last. */
    method RemoveRun(lastPacketIdx: int)
      requires lowestExpectedSeq <= lastPacketIdx
      modifies this`receivedPackets
      ensures receivedPackets == RemoveRange(old(receivedPackets), lowestExpectedSeq, lastPacketIdx)
    {
      ghost var m := receivedPackets;
      var i := lowestExpectedSeq;
      assert RemoveRange(m, i, i - 1) == m;
      while i <= lastPacketIdx
        invariant lowestExpectedSeq <= i <= lastPacketIdx + 1
        invariant receivedPackets == RemoveRange(m, lowestExpectedSeq, i - 1)
      {
        assert RemoveRange(m, lowestExpectedSeq, i) == RemoveRange(m, lowestExpectedSeq, i - 1) - {i};
        receivedPackets := receivedPackets - {i};
        i := i + 1;
      }
    }
  }
}
