/**
 * Constants and pure helpers of the sliding-window transfer protocol
 * (swp/src/my_protocol/MyProtocol.java): the circular sequence-number window
 * test and the way the sender cuts a file into header + payload packets.
 */
module SequenceSpace {
  import opened Sequences

  const PACKET_SIZE: int := 128
  const WINDOW_SIZE: int := 20
  const HEADER_SIZE: int := 1
  const SEQ_RANGE: int := WINDOW_SIZE * 2
  /** The only element of the one-element packet that ends a transfer. */
  const FIN: int := 200

  /** isValidSeq: seqNo lies in the circular range from lowerSeq up to upperSeq, both included. */
  function IsValidSeq(seqNo: int, lowerSeq: int, upperSeq: int): bool
  {
    if upperSeq < lowerSeq then
      (seqNo >= lowerSeq && seqNo < SEQ_RANGE) || (seqNo >= 0 && seqNo <= upperSeq)
    else
      seqNo >= lowerSeq && seqNo <= upperSeq
  }

  /** How many steps of +1 mod SEQ_RANGE lead from lo to seqNo. */
  function Distance(lo: int, seqNo: int): (d: int)
    ensures 0 <= d < SEQ_RANGE
  {
    (seqNo - lo) % SEQ_RANGE
  }

  /** The upper edge isAvailableSeq passes for a window starting at lo. */
  function LastOfWindow(lo: int): int
  {
    (lo + WINDOW_SIZE - 1) % SEQ_RANGE
  }

  /**
   * With the upper edge WINDOW_SIZE - 1 steps after lo, isValidSeq accepts
   * exactly the WINDOW_SIZE sequence numbers that follow lo, also when the
   * window wraps past SEQ_RANGE.
   */
  lemma WindowMembership(seqNo: int, lo: int)
    requires 0 <= seqNo < SEQ_RANGE && 0 <= lo < SEQ_RANGE
    ensures IsValidSeq(seqNo, lo, LastOfWindow(lo)) <==> Distance(lo, seqNo) < WINDOW_SIZE
  {
    if lo + WINDOW_SIZE - 1 >= SEQ_RANGE {
      assert LastOfWindow(lo) == lo + WINDOW_SIZE - 1 - SEQ_RANGE;
      if seqNo >= lo {
        assert Distance(lo, seqNo) == seqNo - lo;
      } else {
        assert Distance(lo, seqNo) == seqNo - lo + SEQ_RANGE;
      }
    } else {
      assert LastOfWindow(lo) == lo + WINDOW_SIZE - 1;
      if seqNo >= lo {
        assert Distance(lo, seqNo) == seqNo - lo;
      } else {
        assert Distance(lo, seqNo) == seqNo - lo + SEQ_RANGE;
      }
    }
  }

  /** One step forward on the sequence circle: the distance to any other number drops by one. */
  lemma DistanceStep(lo: int, seqNo: int)
    requires 0 <= lo < SEQ_RANGE && 0 <= seqNo < SEQ_RANGE && seqNo != lo
    ensures Distance((lo + 1) % SEQ_RANGE, seqNo) == Distance(lo, seqNo) - 1
  {
    if seqNo > lo {
      assert Distance(lo, seqNo) == seqNo - lo;
      if lo + 1 < SEQ_RANGE {
        assert Distance((lo + 1) % SEQ_RANGE, seqNo) == seqNo - lo - 1;
      }
    } else {
      assert Distance(lo, seqNo) == seqNo - lo + SEQ_RANGE;
      if lo + 1 < SEQ_RANGE {
        assert Distance((lo + 1) % SEQ_RANGE, seqNo) == seqNo - lo - 1 + SEQ_RANGE;
      } else {
        assert Distance((lo + 1) % SEQ_RANGE, seqNo) == seqNo;
      }
    }
  }

  function MinInt(a: int, b: int): int { if a < b then a else b }

  /**
   * The packets the sender loop produces for the data that remains, starting
   * with header seqNo: each carries the current seqNo followed by the next
   * min(PACKET_SIZE, remaining) bytes, and seqNo advances by one mod SEQ_RANGE.
   */
  function Chunks(data: seq<int>, seqNo: int): seq<seq<int>>
    decreases |data|
  {
    if data == [] then []
    else
      var n := MinInt(PACKET_SIZE, |data|);
      [[seqNo] + data[..n]] + Chunks(data[n..], (seqNo + 1) % SEQ_RANGE)
  }

  /** A packet without its one-element header. */
  function Payload(packet: seq<int>): seq<int>
  {
    if packet == [] then [] else packet[HEADER_SIZE..]
  }

  function Payloads(packets: seq<seq<int>>): (r: seq<seq<int>>)
    ensures |r| == |packets|
  {
    seq(|packets|, i requires 0 <= i < |packets| => Payload(packets[i]))
  }

  function CeilDiv(n: nat, d: nat): nat requires d > 0 { (n + d - 1) / d }

  /** Where the k-th packet's payload starts in the file. */
  function Offset(k: nat): nat
  {
    k * PACKET_SIZE
  }

  /**
   * Shape of the k-th packet: its header is seqNo + k mod SEQ_RANGE and its
   * payload is the k-th slice of PACKET_SIZE bytes (the last one shorter).
   */
  lemma {:induction false} ChunkShape(data: seq<int>, seqNo: int, k: nat)
    requires 0 <= seqNo < SEQ_RANGE
    requires k < |Chunks(data, seqNo)|
    ensures Offset(k) < |data|
    ensures Chunks(data, seqNo)[k] ==
      [Advance(seqNo, k)] + data[Offset(k) .. Offset(k) + MinInt(PACKET_SIZE, |data| - Offset(k))]
    decreases k
  {
    var n := MinInt(PACKET_SIZE, |data|);
    var next := (seqNo + 1) % SEQ_RANGE;
    var rest := data[n..];
    assert Chunks(data, seqNo) == [[seqNo] + data[..n]] + Chunks(rest, next);
    if k > 0 {
      assert Chunks(data, seqNo)[k] == Chunks(rest, next)[k - 1];
      ChunkShape(rest, next, k - 1);
      assert Advance(next, k - 1) == Advance(seqNo, k) by {
        ModShift(seqNo, k);
      }
      SliceOfRest(data, k);
    }
  }

  /** A slice of the data after the first packet is the matching slice of the whole data. */
  lemma SliceOfRest(data: seq<int>, k: nat)
    requires k >= 1 && PACKET_SIZE <= |data|
    requires Offset(k - 1) < |data| - PACKET_SIZE
    ensures var rest := data[PACKET_SIZE..]; var off := Offset(k - 1);
      && Offset(k) == off + PACKET_SIZE
      && |rest| - off == |data| - Offset(k)
      && rest[off .. off + MinInt(PACKET_SIZE, |rest| - off)]
         == data[Offset(k) .. Offset(k) + MinInt(PACKET_SIZE, |data| - Offset(k))]
  {
  }

  /** The sequence number k places after lo. */
  function Advance(lo: int, k: int): int
  {
    (lo + k) % SEQ_RANGE
  }

  lemma ModShift(a: int, k: int)
    requires k >= 1
    ensures ((a + 1) % SEQ_RANGE + (k - 1)) % SEQ_RANGE == (a + k) % SEQ_RANGE
    ensures Advance(Advance(a, 1), k - 1) == Advance(a, k)
  {
    var q := (a + 1) / SEQ_RANGE;
    assert (a + 1) % SEQ_RANGE == a + 1 - q * SEQ_RANGE;
    assert (a + 1) % SEQ_RANGE + (k - 1) == (a + k) - q * SEQ_RANGE;
  }

  /** The packets for the data from position p on: the next slice, then the packets for the rest. */
  lemma ChunksFrom(data: seq<int>, p: int, seqNo: int)
    requires 0 <= p < |data|
    ensures var n := MinInt(PACKET_SIZE, |data| - p);
      Chunks(data[p..], seqNo) == [[seqNo] + data[p .. p + n]] + Chunks(data[p + n ..], (seqNo + 1) % SEQ_RANGE)
  {
    var n := MinInt(PACKET_SIZE, |data| - p);
    var rest := data[p..];
    assert rest[..n] == data[p .. p + n];
    assert rest[n..] == data[p + n ..];
  }

  /** The sender emits ceil(|data| / PACKET_SIZE) packets. */
  lemma {:induction false} ChunkCount(data: seq<int>, seqNo: int)
    ensures |Chunks(data, seqNo)| == CeilDiv(|data|, PACKET_SIZE)
    decreases |data|
  {
    if data != [] {
      var n := MinInt(PACKET_SIZE, |data|);
      ChunkCount(data[n..], (seqNo + 1) % SEQ_RANGE);
    }
  }

  /** Concatenating the payloads of the packets gives back the file. */
  lemma {:induction false} ChunksPayloads(data: seq<int>, seqNo: int)
    ensures Flatten(Payloads(Chunks(data, seqNo))) == data
    decreases |data|
  {
    if data != [] {
      var n := MinInt(PACKET_SIZE, |data|);
      var next := (seqNo + 1) % SEQ_RANGE;
      ChunksPayloads(data[n..], next);
      var ps := Chunks(data, seqNo);
      assert ps == [[seqNo] + data[..n]] + Chunks(data[n..], next);
      assert Payloads(ps) == [data[..n]] + Payloads(Chunks(data[n..], next));
      assert data[..n] + data[n..] == data;
    }
  }

  /** The example of a 300-byte file: headers 0, 1, 2 and payloads of 128, 128 and 44 bytes. */
  lemma ThreeHundredBytes(data: seq<int>)
    requires |data| == 300
    ensures |Chunks(data, 0)| == 3
    ensures |Chunks(data, 0)[0]| == 1 + 128 && Chunks(data, 0)[0][0] == 0
    ensures |Chunks(data, 0)[1]| == 1 + 128 && Chunks(data, 0)[1][0] == 1
    ensures |Chunks(data, 0)[2]| == 1 + 44 && Chunks(data, 0)[2][0] == 2
  {
    ChunkCount(data, 0);
    ChunkShape(data, 0, 0);
    ChunkShape(data, 0, 1);
    ChunkShape(data, 0, 2);
  }
}
