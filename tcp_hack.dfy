/**
 * The hand-made TCP over IPv6 client (tcphack/MyTcpHandler.java). Packets
 * are arrays of byte values: a 40-byte IPv6 header (section 3 of RFC 8200),
 * a 24-byte TCP header (section 3.1 of RFC 9293) and, for the page request,
 * the HTTP request text. The handler opens with a SYN, answers the server's
 * first reply with the request and acknowledges a FIN.
 */
module TcpHack {
  import opened Sequences

  const IP_HEADER_LEN: nat := 40
  const TCP_HEADER_LEN: nat := 24
  const HEADER_LEN: nat := 64
  const REQUEST: string := "GET / HTTP/1.0\r\n\r\n"

  const SRC_ADDR: seq<int> := [0x20, 0x01, 0x06, 0x7c, 0x25, 0x64, 0xa3, 0x11,
                               0x20, 0x04, 0xbe, 0xf1, 0xbb, 0xea, 0xa0, 0x40]
  const DST_ADDR: seq<int> := [0x20, 0x01, 0x06, 0x10, 0x19, 0x08, 0xff, 0x02,
                               0xf1, 0xb8, 0xf9, 0x1e, 0xfc, 0x14, 0xb7, 0xc7]

  /** buildHeader's result: the fields one after another, then zeros up to len. */
  function Header(len: nat, fields: seq<seq<int>>): seq<int>
    requires |Flatten(fields)| <= len
  {
    Flatten(fields) + seq(len - |Flatten(fields)|, _ => 0)
  }

  /** Where field k starts: the total length of the fields before it. */
  function FieldOffset(fields: seq<seq<int>>, k: nat): nat
    requires k <= |fields|
  {
    |Flatten(fields[..k])|
  }

  /** The concatenation splits at any field boundary. */
  lemma FlattenSplit(fields: seq<seq<int>>, k: nat)
    requires k < |fields|
    ensures Flatten(fields) == Flatten(fields[..k]) + fields[k] + Flatten(fields[k + 1..])
  {
    assert fields == fields[..k] + fields[k..];
    FlattenAppend(fields[..k], fields[k..]);
    assert fields[k..][1..] == fields[k + 1..];
  }

  /** One more field extends the concatenated prefix by that field, within the whole. */
  lemma FlattenPrefixStep(fields: seq<seq<int>>, k: nat)
    requires k < |fields|
    ensures Flatten(fields[..k + 1]) == Flatten(fields[..k]) + fields[k]
    ensures |Flatten(fields[..k + 1])| <= |Flatten(fields)|
  {
    FlattenSplit(fields, k);
    assert fields[..k + 1] == fields[..k] + [fields[k]];
    FlattenAppend(fields[..k], [fields[k]]);
    assert Flatten([fields[k]]) == fields[k];
  }

  /**
   * Every field of a built header can be read back at its offset: field k
   * is the slice of FieldOffset(fields, k) bytes on, its own length long.
   */
  lemma FieldAt(len: nat, fields: seq<seq<int>>, k: nat)
    requires |Flatten(fields)| <= len && k < |fields|
    ensures FieldOffset(fields, k) + |fields[k]| <= len
    ensures Header(len, fields)[FieldOffset(fields, k)..FieldOffset(fields, k) + |fields[k]|] == fields[k]
  {
    FlattenSplit(fields, k);
  }

  /** The header as IPv6 fields: version 6 and the flow label, the payload length, next header 0xfd, hop limit 63. */
  function IpFields(payload: int): seq<seq<int>>
  {
    [[0x60, 0x00, 0xe1, 0xd7], [0x00, payload, 0xfd, 0x3f], SRC_ADDR, DST_ADDR]
  }

  /** Flatten peeled one piece from position i on. */
  lemma FlattenFrom(fields: seq<seq<int>>, i: nat)
    requires i < |fields|
    ensures Flatten(fields[i..]) == fields[i] + Flatten(fields[i + 1..])
  {
    assert fields[i..][1..] == fields[i + 1..];
  }

  /** The concatenation of four pieces. */
  lemma FlattenFour(fields: seq<seq<int>>)
    requires |fields| == 4
    ensures Flatten(fields) == fields[0] + fields[1] + fields[2] + fields[3]
  {
    assert fields[0..] == fields;
    assert fields[4..] == [];
    FlattenFrom(fields, 0);
    FlattenFrom(fields, 1);
    FlattenFrom(fields, 2);
    FlattenFrom(fields, 3);
  }

  /**
   * getIpHeader: 40 bytes; byte 0 is 0x60 (version 6), bytes 4-5 the
   * payload length, byte 6 the next header 0xfd, byte 7 the hop limit
   * 0x3f, then the 16-byte source and destination addresses.
   */
  function IpHeader(payload: int): (h: seq<int>)
    ensures |h| == IP_HEADER_LEN
    ensures h[0] == 0x60 && h[4] == 0x00 && h[5] == payload && h[6] == 0xfd && h[7] == 0x3f
    ensures h[8..24] == SRC_ADDR && h[24..40] == DST_ADDR
  {
    FlattenFour(IpFields(payload));
    Header(IP_HEADER_LEN, IpFields(payload))
  }

  /** The header as TCP fields: source port 0x1f92, destination port 0x1e1e (7710), seq, ack, data offset and flags, window 501, checksum 0, trailer. */
  function TcpFields(seqNo: seq<int>, ack: seq<int>, flagByte: int): seq<seq<int>>
  {
    [[0x1f, 0x92], [0x1e, 0x1e], seqNo, ack, [0x60, flagByte], [0x01, 0xf5], [0x00, 0x00], [0x00, 0x00, 0x00, 0x00, 0x00, 0x00]]
  }

  /** The concatenation of eight pieces, four by four. */
  lemma FlattenEight(fields: seq<seq<int>>)
    requires |fields| == 8
    ensures Flatten(fields)
      == (fields[0] + fields[1] + fields[2] + fields[3]) + (fields[4] + fields[5] + fields[6] + fields[7])
  {
    var front, back := fields[..4], fields[4..];
    assert fields == front + back;
    FlattenAppend(front, back);
    FlattenFour(front);
    FlattenFour(back);
  }

  /** The TCP fields concatenated: ports, seq, ack, then twelve bytes of offset, flags, window, checksum and trailer. */
  lemma TcpFieldsFlat(seqNo: seq<int>, ack: seq<int>, flagByte: int)
    ensures Flatten(TcpFields(seqNo, ack, flagByte))
      == [0x1f, 0x92, 0x1e, 0x1e] + seqNo + ack + [0x60, flagByte, 0x01, 0xf5, 0, 0, 0, 0, 0, 0, 0, 0]
  {
    var f := TcpFields(seqNo, ack, flagByte);
    FlattenEight(f);
    assert f[0] + f[1] == [0x1f, 0x92, 0x1e, 0x1e];
    assert f[4] + f[5] + f[6] + f[7] == [0x60, flagByte, 0x01, 0xf5, 0, 0, 0, 0, 0, 0, 0, 0];
  }

  /**
   * getTcpHeader: 24 bytes when seq and ack are four bytes each: ports at
   * 0..3, seq at 4..7, ack at 8..11, data offset 6 words (0x60) at 12, the
   * flags at 13, window 501 at 14..15, a zero checksum and a zero trailer.
   * Longer seq and ack arrays than fit make buildHeader fail.
   */
  function TcpHeader(seqNo: seq<int>, ack: seq<int>, flagByte: int): (h: seq<int>)
    requires |seqNo| + |ack| <= 8
    ensures |h| == TCP_HEADER_LEN
    ensures |seqNo| == 4 && |ack| == 4 ==>
      && h[0..4] == [0x1f, 0x92, 0x1e, 0x1e]
      && h[4..8] == seqNo && h[8..12] == ack
      && h[12] == 0x60 && h[13] == flagByte
      && h[14..16] == [0x01, 0xf5]
      && h[16..24] == [0, 0, 0, 0, 0, 0, 0, 0]
  {
    TcpFieldsFlat(seqNo, ack, flagByte);
    Header(TCP_HEADER_LEN, TcpFields(seqNo, ack, flagByte))
  }

  /**
   * getFlags: SYN is bit 1, ACK bit 4 and FIN bit 0 of the flags byte,
   * the TCP control bits of section 3.1 of RFC 9293; no other bit is set.
   */
  function GetFlags(syn: bool, ack: bool, fin: bool): (f: int)
    ensures f == (if syn then 2 else 0) + (if ack then 16 else 0) + (if fin then 1 else 0)
  {
    var flags: bv8 := 0;
    var withSyn := if syn then flags | (1 << 1) else flags;
    var withAck := if ack then withSyn | (1 << 4) else withSyn;
    var withFin := if fin then withAck | 1 else withAck;
    withFin as int
  }

  /** The 64 bytes sendPacket hands to the network: IPv6 header for a 24-byte payload, then the TCP header. */
  function SendPacketBytes(seqNo: seq<int>, ack: seq<int>, doSyn: bool, doAck: bool, doFin: bool): seq<int>
    requires |seqNo| + |ack| <= 8
  {
    IpHeader(TCP_HEADER_LEN) + TcpHeader(seqNo, ack, GetFlags(doSyn, doAck, doFin))
  }

  /** The request text as bytes (it is plain ASCII). */
  function RequestBytes(): (b: seq<int>)
    ensures |b| == |REQUEST|
  {
    seq(|REQUEST|, i requires 0 <= i < |REQUEST| => REQUEST[i] as int)
  }

  /** The packet requestPage hands to the network: headers for a 42-byte payload, seq 1, ACK, then the request. */
  function RequestPacketBytes(ack: seq<int>): seq<int>
    requires |ack| <= 4
  {
    IpHeader(TCP_HEADER_LEN + |REQUEST|) + TcpHeader([0x00, 0x00, 0x00, 0x01], ack, GetFlags(false, true, false)) + RequestBytes()
  }

  /**
   * sendPacket's layout: 64 bytes, payload length 24 in byte 5, the TCP
   * header from byte 40 with seq at 44..47, ack at 48..51 and the flags at
   * byte 53.
   */
  lemma SendPacketLayout(seqNo: seq<int>, ack: seq<int>, doSyn: bool, doAck: bool, doFin: bool)
    requires |seqNo| == 4 && |ack| == 4
    ensures var p := SendPacketBytes(seqNo, ack, doSyn, doAck, doFin);
      && |p| == HEADER_LEN
      && p[..IP_HEADER_LEN] == IpHeader(TCP_HEADER_LEN) && p[5] == 24
      && p[44..48] == seqNo && p[48..52] == ack
      && p[52] == 0x60 && p[53] == GetFlags(doSyn, doAck, doFin)
  {
    var p := SendPacketBytes(seqNo, ack, doSyn, doAck, doFin);
    var t := TcpHeader(seqNo, ack, GetFlags(doSyn, doAck, doFin));
    assert p[40..] == t;
    assert p[44..48] == t[4..8];
    assert p[48..52] == t[8..12];
  }

  /**
   * requestPage's layout: 64 + 18 bytes, payload length 42 = 24 + 18, seq
   * 00 00 00 01, the ACK flag alone, and the request from byte 64 on.
   */
  lemma RequestPacketLayout(ack: seq<int>)
    requires |ack| == 4
    ensures var p := RequestPacketBytes(ack);
      && |p| == HEADER_LEN + 18 && |REQUEST| == 18
      && p[5] == 42
      && p[44..48] == [0x00, 0x00, 0x00, 0x01] && p[48..52] == ack
      && p[53] == 16
      && p[HEADER_LEN..] == RequestBytes()
  {
    var p := RequestPacketBytes(ack);
    var t := TcpHeader([0x00, 0x00, 0x00, 0x01], ack, GetFlags(false, true, false));
    assert p[40..64] == t;
    assert p[44..48] == t[4..8];
    assert p[48..52] == t[8..12];
  }

  /** The fields the receive loop reads: seq from bytes 44..47, ack from 48..51, the FIN bit of byte 53. */
  datatype Received = Received(seqNo: seq<int>, ack: seq<int>, fin: bool)

  /** `b & 1` on an int is its Euclidean remainder mod 2, also for negative b. */
  function ReadFields(p: seq<int>): Received
    requires |p| >= 54
  {
    Received(p[44..48], p[48..52], p[53] % 2 == 1)
  }

  /** The receive loop reads back exactly what sendPacket wrote: seq, ack and the FIN flag. */
  lemma ReadFieldsOfSent(seqNo: seq<int>, ack: seq<int>, doSyn: bool, doAck: bool, doFin: bool)
    requires |seqNo| == 4 && |ack| == 4
    ensures ReadFields(SendPacketBytes(seqNo, ack, doSyn, doAck, doFin)) == Received(seqNo, ack, doFin)
  {
    SendPacketLayout(seqNo, ack, doSyn, doAck, doFin);
  }

  /** `seq[3] += 1` as written: the last byte goes up by one, with no carry and no reduction to a byte. */
  function LastByteIncrement(b: seq<int>): (r: seq<int>)
    requires |b| == 4
    ensures |r| == 4 && r[..3] == b[..3] && r[3] == b[3] + 1
  {
    b[3 := b[3] + 1]
  }

  /** The value of four bytes, most significant first. */
  function BigEndian(b: seq<int>): int
    requires |b| == 4
  {
    ((b[0] * 256 + b[1]) * 256 + b[2]) * 256 + b[3]
  }

  predicate IsByteSeq(b: seq<int>)
  {
    forall i :: 0 <= i < |b| ==> 0 <= b[i] < 256
  }

  /** The sequence number plus one, modulo 2^32, in four bytes: the increment with carry. */
  function Increment32(b: seq<int>): (r: seq<int>)
    requires |b| == 4 && IsByteSeq(b)
    ensures |r| == 4 && IsByteSeq(r)
    ensures BigEndian(r) == (BigEndian(b) + 1) % 0x1_0000_0000
  {
    if b[3] < 255 then b[3 := b[3] + 1]
    else if b[2] < 255 then [b[0], b[1], b[2] + 1, 0]
    else if b[1] < 255 then [b[0], b[1] + 1, 0, 0]
    else if b[0] < 255 then [b[0] + 1, 0, 0, 0]
    else [0, 0, 0, 0]
  }

  /** Below a last byte of 255 the increment as written is the one with carry. */
  lemma LastByteIncrementAgrees(b: seq<int>)
    requires |b| == 4 && IsByteSeq(b) && b[3] < 255
    ensures LastByteIncrement(b) == Increment32(b)
  {
  }

  /**
   * A last byte of 255 breaks the increment as written: the result holds
   * 256, which is no byte, and the acknowledgment the server expects is
   * the carried one.
   */
  lemma LastByteIncrementOverflows()
    ensures LastByteIncrement([0x12, 0x34, 0x56, 0xff]) == [0x12, 0x34, 0x56, 0x100]
    ensures !IsByteSeq(LastByteIncrement([0x12, 0x34, 0x56, 0xff]))
    ensures Increment32([0x12, 0x34, 0x56, 0xff]) == [0x12, 0x34, 0x57, 0x00]
  {
    assert LastByteIncrement([0x12, 0x34, 0x56, 0xff])[3] == 0x100;
  }

  /** What one pass of the receive loop sends, whether the request has gone out, and whether it ended in an exception. */
  datatype Reception = Reception(sent: seq<seq<int>>, hasRequested: bool, crashed: bool)

  /**
   * One pass of the constructor's receive loop, as written. An empty read
   * sends nothing; a packet too short for the copies at bytes 44..51 or the
   * read of byte 53 raises an index exception. Otherwise the first reply
   * is answered with the page request acknowledging its seq plus one, and
   * a FIN with an ACK+FIN whose seq is the received ack and whose ack is
   * the received seq plus one more.
   */
  function ReceiveStep(p: seq<int>, hasRequested: bool): Reception
  {
    if |p| == 0 then Reception([], hasRequested, false)
    else if |p| < 52 then Reception([], hasRequested, true)
    else
      var seqNo := if hasRequested then p[44..48] else LastByteIncrement(p[44..48]);
      var ack := p[48..52];
      var requests := if hasRequested then [] else [RequestPacketBytes(seqNo)];
      if |p| < 54 then Reception(requests, true, true)
      else if p[53] % 2 == 1 then
        Reception(requests + [SendPacketBytes(ack, LastByteIncrement(seqNo), false, true, true)], true, false)
      else Reception(requests, true, false)
  }

  /**
   * The first reply of the server, a SYN+ACK, makes the handler request
   * the page once, acknowledging the server's seq plus one and announcing
   * seq 1; later replies without FIN send nothing.
   */
  lemma FirstReplyRequests(serverSeq: seq<int>, serverAck: seq<int>)
    requires |serverSeq| == 4 && |serverAck| == 4
    ensures var p := SendPacketBytes(serverSeq, serverAck, true, true, false);
      && ReceiveStep(p, false) == Reception([RequestPacketBytes(LastByteIncrement(serverSeq))], true, false)
      && ReceiveStep(p, true) == Reception([], true, false)
  {
    ReadFieldsOfSent(serverSeq, serverAck, true, true, false);
  }

  /**
   * System.arraycopy: length elements of src from srcPos land in dest from
   * destPos, read as through a temporary copy; nothing else changes.
   */
  method ArrayCopy(src: array<int>, srcPos: nat, dest: array<int>, destPos: nat, length: nat)
    requires srcPos + length <= src.Length && destPos + length <= dest.Length
    modifies dest
    ensures dest[..] == old(dest[..destPos]) + old(src[srcPos..srcPos + length]) + old(dest[destPos + length..])
  {
    var data := src[srcPos..srcPos + length];
    for j := 0 to length
      invariant dest[..destPos] == old(dest[..destPos])
      invariant dest[destPos..destPos + j] == data[..j]
      invariant dest[destPos + j..] == old(dest[destPos + j..])
    {
      dest[destPos + j] := data[j];
    }
  }

  /** buildHeader: copy the fields one after another into a zeroed array of the given length. */
  method BuildHeader(len: nat, fields: seq<seq<int>>) returns (header: array<int>)
    requires |Flatten(fields)| <= len
    ensures fresh(header) && header[..] == Header(len, fields)
  {
    var offset := 0;
    header := new int[len](_ => 0);
    for k := 0 to |fields|
      invariant offset == FieldOffset(fields, k) <= |Flatten(fields)|
      invariant header[..offset] == Flatten(fields[..k])
      invariant forall j :: offset <= j < len ==> header[j] == 0
    {
      FlattenPrefixStep(fields, k);
      var field := new int[|fields[k]|](j requires 0 <= j < |fields[k]| => fields[k][j]);
      ArrayCopy(field, 0, header, offset, field.Length);
      offset := offset + field.Length;
    }
    assert fields[..|fields|] == fields;
  }

  /** getIpHeader, built by buildHeader. */
  method GetIpHeader(payload: int) returns (h: array<int>)
    ensures fresh(h) && h[..] == IpHeader(payload)
  {
    FlattenFour(IpFields(payload));
    h := BuildHeader(IP_HEADER_LEN, IpFields(payload));
  }

  /** getTcpHeader, built by buildHeader. */
  method GetTcpHeader(seqNo: seq<int>, ack: seq<int>, flagByte: int) returns (h: array<int>)
    requires |seqNo| + |ack| <= 8
    ensures fresh(h) && h[..] == TcpHeader(seqNo, ack, flagByte)
  {
    TcpFieldsFlat(seqNo, ack, flagByte);
    h := BuildHeader(TCP_HEADER_LEN, TcpFields(seqNo, ack, flagByte));
  }

  /** sendPacket: the packet it hands to the network. */
  method SendPacket(seqNo: seq<int>, ack: seq<int>, doSyn: bool, doAck: bool, doFin: bool) returns (packet: array<int>)
    requires |seqNo| + |ack| <= 8
    ensures fresh(packet) && packet[..] == SendPacketBytes(seqNo, ack, doSyn, doAck, doFin)
  {
    packet := new int[HEADER_LEN](_ => 0);
    var flags := GetFlags(doSyn, doAck, doFin);
    var ip := GetIpHeader(TCP_HEADER_LEN);
    ghost var ipBytes := ip[..];
    ArrayCopy(ip, 0, packet, 0, IP_HEADER_LEN);
    assert packet[..IP_HEADER_LEN] == ipBytes;
    var tcp := GetTcpHeader(seqNo, ack, flags);
    ghost var tcpBytes := tcp[..];
    ArrayCopy(tcp, 0, packet, IP_HEADER_LEN, TCP_HEADER_LEN);
    assert packet[..] == ipBytes + tcpBytes;
  }

  /** The loop of requestPage that writes the request bytes after the headers. */
  method AttachRequest(packet: array<int>, headerLen: nat, bytes: seq<int>)
    requires packet.Length == headerLen + |bytes|
    modifies packet
    ensures packet[..] == old(packet[..headerLen]) + bytes
  {
    for i := 0 to |bytes|
      invariant packet[..headerLen + i] == old(packet[..headerLen]) + bytes[..i]
    {
      packet[headerLen + i] := bytes[i];
      assert bytes[..i + 1] == bytes[..i] + [bytes[i]];
    }
    assert packet[..] == packet[..headerLen + |bytes|] && bytes[..|bytes|] == bytes;
  }

  /** requestPage: the packet it hands to the network. */
  method RequestPage(ack: seq<int>) returns (packet: array<int>)
    requires |ack| <= 4
    ensures fresh(packet) && packet[..] == RequestPacketBytes(ack)
  {
    var headerLen := HEADER_LEN;
    packet := new int[headerLen + |REQUEST|](_ => 0);
    var seqNo := [0x00, 0x00, 0x00, 0x01];
    var flags := GetFlags(false, true, false);
    var ip := GetIpHeader(TCP_HEADER_LEN + |REQUEST|);
    ghost var ipBytes := ip[..];
    ArrayCopy(ip, 0, packet, 0, IP_HEADER_LEN);
    assert packet[..IP_HEADER_LEN] == ipBytes;
    var tcp := GetTcpHeader(seqNo, ack, flags);
    ghost var header := ipBytes + tcp[..];
    ArrayCopy(tcp, 0, packet, IP_HEADER_LEN, TCP_HEADER_LEN);
    assert packet[..headerLen] == header;
    AttachRequest(packet, headerLen, RequestBytes());
  }

  /** One pass of the constructor's receive loop on the packet read, with the local seq and ack arrays. */
  method HandleReceived(receivedPacket: array<int>, hasRequested: bool) returns (r: Reception)
    ensures r == ReceiveStep(receivedPacket[..], hasRequested)
  {
    if receivedPacket.Length == 0 {
      return Reception([], hasRequested, false);
    }
    if receivedPacket.Length < 52 {
      return Reception([], hasRequested, true);
    }
    ghost var p := receivedPacket[..];
    var seqNo := new int[4](_ => 0);
    var ack := new int[4](_ => 0);
    ArrayCopy(receivedPacket, 44, seqNo, 0, 4);
    ArrayCopy(receivedPacket, 48, ack, 0, 4);
    assert seqNo[..] == p[44..48] && ack[..] == p[48..52];
    ghost var answered := if hasRequested then p[44..48] else LastByteIncrement(p[44..48]);
    var sent: seq<seq<int>> := [];
    var requested := hasRequested;
    if !requested {
      seqNo[3] := seqNo[3] + 1;
      assert seqNo[..] == answered;
      var request := RequestPage(seqNo[..]);
      sent := sent + [request[..]];
      requested := true;
    }
    assert seqNo[..] == answered && ack[..] == p[48..52] && receivedPacket[..] == p;
    assert sent == if hasRequested then [] else [RequestPacketBytes(answered)];
    if receivedPacket.Length < 54 {
      return Reception(sent, requested, true);
    }
    if receivedPacket[53] % 2 == 1 {
      seqNo[3] := seqNo[3] + 1;
      assert seqNo[..] == LastByteIncrement(answered);
      var finAck := SendPacket(ack[..], seqNo[..], false, true, true);
      sent := sent + [finAck[..]];
    }
    return Reception(sent, requested, false);
  }

  /** The constructor's opening SYN: seq and ack zero, only the SYN flag. */
  method OpenConnection() returns (packet: array<int>)
    ensures fresh(packet) && packet[..] == SendPacketBytes([0, 0, 0, 0], [0, 0, 0, 0], true, false, false)
    ensures packet[53] == 2 && packet[44..52] == [0, 0, 0, 0, 0, 0, 0, 0]
  {
    var zeroByte := [0x00, 0x00, 0x00, 0x00];
    packet := SendPacket(zeroByte, zeroByte, true, false, false);
    SendPacketLayout(zeroByte, zeroByte, true, false, false);
  }
}
