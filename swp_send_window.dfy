/**
 * The sending side of the sliding-window transfer
 * (swp/src/my_protocol/MyProtocol.java). The in-flight table, the low edge of
 * the send window (a field of the acknowledgment listener in the source) and
 * the local cursor of the sender loop live on one object; every block the
 * source runs under its lock, and every timer callback, is one method here.
 */
module SendWindow {
  import opened SequenceSpace

  /**
   * Where shiftSendWindow moves the low edge lo: forward over sequence numbers
   * absent from the in-flight table, at most `steps` of them.
   */
  function Skip(inFlight: set<int>, lo: int, steps: nat): int
    decreases steps
  {
    if steps == 0 || lo in inFlight then lo else Skip(inFlight, (lo + 1) % SEQ_RANGE, steps - 1)
  }

  /** How many places shiftSendWindow moves the low edge. */
  function SkipCount(inFlight: set<int>, lo: int, steps: nat): nat
    decreases steps
  {
    if steps == 0 || lo in inFlight then 0 else 1 + SkipCount(inFlight, (lo + 1) % SEQ_RANGE, steps - 1)
  }

  /**
   * The low edge moves s <= steps places forward: every sequence number it
   * passes is absent, and it stops early only on one that is present.
   */
  lemma {:induction false} SkipLands(inFlight: set<int>, lo: int, steps: nat)
    requires 0 <= lo < SEQ_RANGE
    ensures SkipCount(inFlight, lo, steps) <= steps
    ensures Skip(inFlight, lo, steps) == Advance(lo, SkipCount(inFlight, lo, steps))
    ensures forall j :: 0 <= j < SkipCount(inFlight, lo, steps) ==> Advance(lo, j) !in inFlight
    ensures SkipCount(inFlight, lo, steps) < steps ==> Skip(inFlight, lo, steps) in inFlight
    decreases steps
  {
    if steps != 0 && lo !in inFlight {
      var next := Advance(lo, 1);
      SkipLands(inFlight, next, steps - 1);
      var s := SkipCount(inFlight, next, steps - 1);
      assert Skip(inFlight, lo, steps) == Skip(inFlight, next, steps - 1);
      assert SkipCount(inFlight, lo, steps) == s + 1;
      forall j | 0 <= j < s + 1
        ensures Advance(lo, j) !in inFlight
      {
        if j == 0 {
          assert Advance(lo, 0) == lo;
        } else {
          ModShift(lo, j);
          assert Advance(lo, j) == Advance(next, j - 1);
        }
      }
      ModShift(lo, s + 1);
    }
  }

  /**
   * Moving the low edge keeps the window invariant: if every in-flight number
   * lies less than `steps` places after lo, every one of them lies less than
   * WINDOW_SIZE places after the new low edge.
   */
  lemma {:induction false} SkipKeepsWindow(inFlight: set<int>, lo: int, steps: nat)
    requires 0 <= lo < SEQ_RANGE && steps <= WINDOW_SIZE
    requires forall k :: k in inFlight ==> 0 <= k < SEQ_RANGE && Distance(lo, k) < steps
    ensures 0 <= Skip(inFlight, lo, steps) < SEQ_RANGE
    ensures forall k :: k in inFlight ==> Distance(Skip(inFlight, lo, steps), k) < WINDOW_SIZE
    decreases steps
  {
    if steps != 0 && lo !in inFlight {
      var next := (lo + 1) % SEQ_RANGE;
      forall k | k in inFlight
        ensures Distance(next, k) < steps - 1
      {
        DistanceStep(lo, k);
      }
      SkipKeepsWindow(inFlight, next, steps - 1);
    }
  }

  /**
   * shiftSendWindow as written walks past the next sequence number still to
   * be sent: with nothing in flight it moves the low edge WINDOW_SIZE places,
   * so a next number fewer than WINDOW_SIZE places after the old edge falls
   * out of the window. With nothing in flight no acknowledgment can move the
   * edge again, and the sender waits for good (packet 0 sent and
   * acknowledged: the edge lands on 20, and the next number 1 is refused).
   */
  lemma SkipStrandsSender(lo: int, nextSeq: int)
    requires 0 <= lo < SEQ_RANGE && 0 <= nextSeq < SEQ_RANGE
    requires 1 <= Distance(lo, nextSeq) < WINDOW_SIZE
    ensures Skip({}, lo, WINDOW_SIZE) == Advance(lo, WINDOW_SIZE)
    ensures Distance(Skip({}, lo, WINDOW_SIZE), nextSeq) == Distance(lo, nextSeq) + WINDOW_SIZE
  {
    SkipEmpty(lo, WINDOW_SIZE);
    HalfTurn(lo, nextSeq);
  }

  /** On an empty table the walk takes every one of its steps. */
  lemma SkipEmpty(lo: int, steps: nat)
    requires 0 <= lo < SEQ_RANGE
    ensures Skip({}, lo, steps) == Advance(lo, steps)
  {
    SkipLands({}, lo, steps);
  }

  /** Half a turn of the circle forward adds WINDOW_SIZE to the distance to a number ahead by less than that. */
  lemma HalfTurn(lo: int, nextSeq: int)
    requires 0 <= lo < SEQ_RANGE && 0 <= nextSeq < SEQ_RANGE
    requires 1 <= Distance(lo, nextSeq) < WINDOW_SIZE
    ensures Distance(Advance(lo, WINDOW_SIZE), nextSeq) == Distance(lo, nextSeq) + WINDOW_SIZE
  {
    var d := Distance(lo, nextSeq);
    if nextSeq >= lo {
      assert d == nextSeq - lo;
    } else {
      assert d == nextSeq - lo + SEQ_RANGE;
    }
    if lo + WINDOW_SIZE < SEQ_RANGE {
      assert Advance(lo, WINDOW_SIZE) == lo + WINDOW_SIZE;
    } else {
      assert Advance(lo, WINDOW_SIZE) == lo + WINDOW_SIZE - SEQ_RANGE;
    }
  }

  /**
   * shiftSendWindow as evidently intended: the low edge also stops at the
   * next sequence number still to be sent.
   */
  function SkipToNext(inFlight: set<int>, lo: int, nextSeq: int, steps: nat): int
    decreases steps
  {
    if steps == 0 || lo in inFlight || lo == nextSeq then lo
    else SkipToNext(inFlight, (lo + 1) % SEQ_RANGE, nextSeq, steps - 1)
  }

  /**
   * With every in-flight number before the next one to send, the corrected
   * shift keeps them before it and never moves the edge past it; with
   * nothing in flight the edge lands on the next number, which the sender
   * may then use.
   */
  lemma {:induction false} SkipToNextKeepsNext(inFlight: set<int>, lo: int, nextSeq: int, steps: nat)
    requires 0 <= lo < SEQ_RANGE && 0 <= nextSeq < SEQ_RANGE
    requires Distance(lo, nextSeq) <= steps
    requires forall k :: k in inFlight ==> 0 <= k < SEQ_RANGE && Distance(lo, k) < Distance(lo, nextSeq)
    ensures var r := SkipToNext(inFlight, lo, nextSeq, steps);
      && 0 <= r < SEQ_RANGE
      && Distance(r, nextSeq) <= Distance(lo, nextSeq)
      && (forall k :: k in inFlight ==> Distance(r, k) < Distance(r, nextSeq))
      && (inFlight == {} ==> r == nextSeq)
    decreases steps
  {
    if lo == nextSeq {
      assert Distance(lo, nextSeq) == 0;
    } else if steps != 0 && lo !in inFlight {
      var next := (lo + 1) % SEQ_RANGE;
      DistanceStep(lo, nextSeq);
      forall k | k in inFlight
        ensures Distance(next, k) < Distance(next, nextSeq)
      {
        DistanceStep(lo, k);
      }
      SkipToNextKeepsNext(inFlight, next, nextSeq, steps - 1);
    }
  }

  /**
   * The sender's invariant: cursor and sequence numbers in range, at most
   * WINDOW_SIZE packets in flight, each within WINDOW_SIZE places after the
   * low edge and stored under its own header, each one of the packets issued
   * so far; the packets issued so far followed by those still to come are
   * the chunking of the whole file; after the termination packet nothing is
   * in flight.
   */
  ghost predicate SenderInv(file: seq<int>, filePointer: int, nextSeq: int, firstAck: int,
                            transitPackets: map<int, seq<int>>, issued: seq<seq<int>>, finished: bool)
  {
    && 0 <= filePointer <= |file|
    && 0 <= nextSeq < SEQ_RANGE
    && 0 <= firstAck < SEQ_RANGE
    && |transitPackets| <= WINDOW_SIZE
    && (forall k :: k in transitPackets ==> 0 <= k < SEQ_RANGE && Distance(firstAck, k) < WINDOW_SIZE)
    && (forall k :: k in transitPackets ==>
          transitPackets[k] in issued && |transitPackets[k]| >= 1 && transitPackets[k][0] == k)
    && Chunks(file, 0) == issued + Chunks(file[filePointer..], nextSeq)
    && (finished ==> filePointer == |file| && transitPackets == map[])
  }

  /** Admitting the next packet of the file keeps the invariant. */
  lemma AdmitKeepsInv(file: seq<int>, filePointer: int, nextSeq: int, firstAck: int,
                      transitPackets: map<int, seq<int>>, issued: seq<seq<int>>, finished: bool)
    requires SenderInv(file, filePointer, nextSeq, firstAck, transitPackets, issued, finished)
    requires filePointer < |file| && |transitPackets| < WINDOW_SIZE && Distance(firstAck, nextSeq) < WINDOW_SIZE
    ensures var n := MinInt(PACKET_SIZE, |file| - filePointer);
      var packet := [nextSeq] + file[filePointer .. filePointer + n];
      SenderInv(file, filePointer + n, (nextSeq + 1) % SEQ_RANGE, firstAck,
                transitPackets[nextSeq := packet], issued + [packet], finished)
  {
    var n := MinInt(PACKET_SIZE, |file| - filePointer);
    var packet := [nextSeq] + file[filePointer .. filePointer + n];
    ChunksFrom(file, filePointer, nextSeq);
    var t := transitPackets[nextSeq := packet];
    assert |t| <= |transitPackets| + 1;
    assert Chunks(file, 0) == (issued + [packet]) + Chunks(file[filePointer + n ..], (nextSeq + 1) % SEQ_RANGE);
  }

  class Sender {
    /** The file to transfer (Utils.getFileContents). */
    const file: seq<int>
    /** Bytes of the file already put into packets (local of the sender loop). */
    var filePointer: int
    /** Header of the next new packet (local of the sender loop). */
    var nextSeq: int
    /** Sent but unacknowledged packets, by sequence number. */
    var transitPackets: map<int, seq<int>>
    /** Low edge of the send window. */
    var firstAck: int
    /** Every packet handed to the network layer, in order. */
    var network: seq<seq<int>>
    /** The termination packet has been sent. */
    var finished: bool
    /** Tags of the retransmission timers armed, in order. */
    ghost var timers: seq<int>
    /** First transmissions of the file's packets, in order. */
    ghost var issued: seq<seq<int>>

    ghost predicate Valid()
      reads this
    {
      SenderInv(file, filePointer, nextSeq, firstAck, transitPackets, issued, finished)
    }

    constructor (file: seq<int>)
      ensures Valid() && this.file == file
      ensures filePointer == 0 && nextSeq == 0 && firstAck == 0
      ensures transitPackets == map[] && network == [] && !finished
      ensures issued == [] && timers == []
    {
      this.file := file;
      filePointer, nextSeq, firstAck := 0, 0, 0;
      transitPackets, network, finished := map[], [], false;
      timers, issued := [], [];
    }

    /**
     * isAvailableSeq: a new packet with header seqNo may be sent when fewer
     * than WINDOW_SIZE packets are in flight and seqNo is one of the
     * WINDOW_SIZE numbers from the low edge on.
     */
    function IsAvailableSeq(seqNo: int): (r: bool)
      reads this
      requires Valid() && 0 <= seqNo < SEQ_RANGE
      ensures r <==> |transitPackets| < WINDOW_SIZE && Distance(firstAck, seqNo) < WINDOW_SIZE
    {
      WindowMembership(seqNo, firstAck);
      if WINDOW_SIZE == |transitPackets| then false
      else
        var lastAck := (firstAck + WINDOW_SIZE - 1) % SEQ_RANGE;
        IsValidSeq(seqNo, firstAck, lastAck)
    }

    /** sendPacket: hand the packet to the network, record it in flight and arm its timer. */
    method SendPacket(packet: seq<int>, seqNo: int)
      modifies this`network, this`transitPackets, this`timers
      ensures network == old(network) + [packet]
      ensures transitPackets == old(transitPackets)[seqNo := packet]
      ensures timers == old(timers) + [seqNo]
    {
      network := network + [packet];
      transitPackets := transitPackets[seqNo := packet];
      timers := timers + [seqNo];
    }

    /**
     * One pass of the sender loop under the lock. When the file is not yet
     * exhausted and the next sequence number is available, the next slice of
     * at most PACKET_SIZE bytes goes out behind its header; otherwise the
     * loop is waiting and nothing changes.
     */
    method SendNext() returns (admitted: bool)
      requires Valid()
      modifies this`network, this`transitPackets, this`timers, this`issued, this`filePointer, this`nextSeq
      ensures Valid()
      ensures admitted <==> old(filePointer) < |file| && old(IsAvailableSeq(nextSeq))
      ensures admitted ==>
        var n := MinInt(PACKET_SIZE, |file| - old(filePointer));
        var packet := [old(nextSeq)] + file[old(filePointer) .. old(filePointer) + n];
        && network == old(network) + [packet]
        && transitPackets == old(transitPackets)[old(nextSeq) := packet]
        && timers == old(timers) + [old(nextSeq)]
        && issued == old(issued) + [packet]
        && filePointer == old(filePointer) + n
        && nextSeq == (old(nextSeq) + 1) % SEQ_RANGE
      ensures !admitted ==> unchanged(this)
    {
      if filePointer == |file| || !IsAvailableSeq(nextSeq) {
        return false;
      }
      var packetSize := MinInt(PACKET_SIZE, |file| - filePointer);
      var packet := [nextSeq] + file[filePointer .. filePointer + packetSize];
      AdmitKeepsInv(file, filePointer, nextSeq, firstAck, transitPackets, issued, finished);
      SendPacket(packet, nextSeq);
      issued := issued + [packet];
      nextSeq := (nextSeq + 1) % SEQ_RANGE;
      filePointer := filePointer + packetSize;
      admitted := true;
    }

    /** acceptAck: forget the acknowledged packet. */
    method AcceptAck(ack: int)
      requires Valid()
      modifies this`transitPackets
      ensures Valid()
      ensures transitPackets == old(transitPackets) - {ack}
    {
      transitPackets := transitPackets - {ack};
    }

    /**
     * shiftSendWindow: advance the low edge over acknowledged sequence
     * numbers, stopping at the first one still in flight or after
     * WINDOW_SIZE steps.
     */
    method ShiftSendWindow()
      requires Valid()
      modifies this`firstAck
      ensures Valid()
      ensures firstAck == Skip(transitPackets.Keys, old(firstAck), WINDOW_SIZE)
    {
      var nextAck := firstAck;
      var i := 0;
      while i < WINDOW_SIZE
        invariant 0 <= i <= WINDOW_SIZE && 0 <= nextAck < SEQ_RANGE
        invariant Skip(transitPackets.Keys, nextAck, WINDOW_SIZE - i) == Skip(transitPackets.Keys, firstAck, WINDOW_SIZE)
      {
        if nextAck in transitPackets {
          break;
        }
        nextAck := (nextAck + 1) % SEQ_RANGE;
        i := i + 1;
      }
      SkipKeepsWindow(transitPackets.Keys, firstAck, WINDOW_SIZE);
      firstAck := nextAck;
    }

    /**
     * The acknowledgment listener's handling of one arrival: its first
     * element is the acknowledged sequence number; a stale or duplicate
     * acknowledgment changes nothing.
     */
    method ReceiveAck(packet: seq<int>)
      requires Valid() && |packet| >= 1
      modifies this`transitPackets, this`firstAck
      ensures Valid()
      ensures packet[0] !in old(transitPackets) ==> unchanged(this)
      ensures packet[0] in old(transitPackets) ==>
        && transitPackets == old(transitPackets) - {packet[0]}
        && firstAck == Skip(transitPackets.Keys, old(firstAck), WINDOW_SIZE)
    {
      var ack := packet[0];
      if ack in transitPackets {
        AcceptAck(ack);
        ShiftSendWindow();
      }
    }

    /**
     * TimeoutElapsed: a packet still in flight goes out again unchanged and
     * its timer is re-armed; for an acknowledged one nothing happens.
     */
    method TimeoutElapsed(seqNo: int)
      requires Valid()
      modifies this`network, this`transitPackets, this`timers
      ensures Valid()
      ensures transitPackets == old(transitPackets)
      ensures seqNo in old(transitPackets) ==>
        network == old(network) + [old(transitPackets)[seqNo]] && timers == old(timers) + [seqNo]
      ensures seqNo !in old(transitPackets) ==> network == old(network) && timers == old(timers)
    {
      if seqNo in transitPackets {
        var packet := transitPackets[seqNo];
        assert transitPackets[seqNo := packet] == transitPackets;
        SendPacket(packet, seqNo);
      }
    }

    /**
     * finishTransmission, once the whole file has been admitted: when nothing
     * is in flight any more, the one-element termination packet goes out, at
     * most once; until then the sender waits and nothing changes.
     */
    method FinishTransmission() returns (sent: bool)
      requires Valid() && filePointer == |file| && !finished
      modifies this`network, this`finished
      ensures Valid()
      ensures sent <==> old(transitPackets) == map[]
      ensures sent ==> network == old(network) + [[FIN]] && finished && issued == Chunks(file, 0)
      ensures !sent ==> unchanged(this)
    {
      if transitPackets != map[] {
        return false;
      }
      network := network + [[FIN]];
      finished := true;
      sent := true;
    }
  }
}
