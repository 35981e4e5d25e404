/** Reading an IPv4/TCP packet: which flow it belongs to and which range of the stream it carries. */
module Packet {
  import opened Collections
  import opened Serial
  import opened FlowModel
  import opened FlowLaws

  type Bytes = seq<bv8>

  /** Source address (4 bytes), destination address (4), source port (2), destination port (2),
      protocol (1). */
  type FlowKey = seq<bv8>

  datatype Parsed = Parsed(key: FlowKey, seg: Segment)

  function BigEndian(b: Bytes): (n: int)
    requires |b| == 4
    ensures IsSeq(n)
  {
    (b[0] as int) * 0x100_0000 + (b[1] as int) * 0x1_0000 + (b[2] as int) * 0x100 + b[3] as int
  }

  /** The low nibble of the first byte counts the 4-byte words of the IP header. */
  function HeaderLength(first: bv8): (n: int)
    ensures 0 <= n <= 60
  {
    ((first & 0x0f) as int) * 4
  }

  /** The high nibble of this byte counts the 4-byte words of the TCP header. */
  function DataOffset(b: bv8): (n: int)
    ensures 0 <= n <= 60
  {
    ((b >> 4) as int) * 4
  }

  /** `parseTCP`: None is the `ok == false` result, for everything that bypasses reordering. */
  function ParseTCP(ip: Bytes): (r: Option<Parsed>)
    ensures r.Some? ==>
      && |r.value.key| == 13 && r.value.seg.data == ip && |ip| >= 40
      && ValidSegment(Wrapping, r.value.seg)
  {
    if |ip| < 20 || ip[0] >> 4 != 4 then None
    else
      var ihl := HeaderLength(ip[0]);
      if ihl < 20 || |ip| < ihl + 20 || ip[9] != 6 then None
      else
        var tcp := ip[ihl..];
        var dataOff := DataOffset(tcp[12]);
        if dataOff < 20 || |tcp| < dataOff then None
        else
          var start := BigEndian(tcp[4..8]);
          var flags := tcp[13];
          var consumed := |ip| - ihl - dataOff + if flags & 0x02 != 0 || flags & 0x01 != 0 then 1 else 0;
          if consumed == 0 then None
          else
            Some(Parsed(ip[12..16] + ip[16..20] + tcp[0..2] + tcp[2..4] + [6],
                        Segment(start, Wrap(start + consumed), ip)))
  }

  // ---------------------------------------------------------------- a packet laid out

  /** The fields of a TCP packet. `misc1`, `misc2`, `misc3` and `misc4` are the header bytes that
      parsing does not look at. */
  datatype Fields = Fields(
    first: bv8, misc1: Bytes, misc2: Bytes, src: Bytes, dst: Bytes, ipOptions: Bytes,
    srcPort: Bytes, dstPort: Bytes, number: Bytes, misc3: Bytes, offset: bv8, flags: bv8,
    misc4: Bytes, tcpOptions: Bytes, payload: Bytes)

  ghost predicate WellFormed(f: Fields) {
    && |f.misc1| == 8 && |f.misc2| == 2 && |f.src| == 4 && |f.dst| == 4
    && |f.srcPort| == 2 && |f.dstPort| == 2 && |f.number| == 4 && |f.misc3| == 4 && |f.misc4| == 6
    && f.first >> 4 == 4 && ((f.first & 0x0f) as int) * 4 == 20 + |f.ipOptions|
    && ((f.offset >> 4) as int) * 4 == 20 + |f.tcpOptions|
  }

  ghost function IPHeader(f: Fields): Bytes {
    [f.first] + f.misc1 + [6] + f.misc2 + f.src + f.dst + f.ipOptions
  }

  ghost function TCPHeader(f: Fields): Bytes {
    f.srcPort + f.dstPort + f.number + f.misc3 + [f.offset] + [f.flags] + f.misc4 + f.tcpOptions
  }

  ghost function LaidOut(f: Fields): Bytes {
    IPHeader(f) + (TCPHeader(f) + f.payload)
  }

  predicate SYN(flags: bv8) { flags & 0x02 != 0 }

  predicate FIN(flags: bv8) { flags & 0x01 != 0 }

  /** What the code counts as consumed sequence space. */
  function Consumed(f: Fields): int {
    |f.payload| + if SYN(f.flags) || FIN(f.flags) then 1 else 0
  }

  /** SEG.LEN of section 3.4 of RFC 9293: data octets, counting SYN and FIN. */
  function SegLen(f: Fields): int {
    |f.payload| + (if SYN(f.flags) then 1 else 0) + (if FIN(f.flags) then 1 else 0)
  }

  lemma LengthFields(first: bv8, offset: bv8)
    ensures HeaderLength(first) == ((first & 0x0f) as int) * 4 && DataOffset(offset) == ((offset >> 4) as int) * 4
  {
  }

  lemma IPHeaderLaidOut(f: Fields)
    requires WellFormed(f)
    ensures var h := IPHeader(f);
      && |h| == HeaderLength(f.first) >= 20 && h[0] == f.first && h[9] == 6
      && h[12..16] == f.src && h[16..20] == f.dst
  {
    hide HeaderLength, DataOffset;
    LengthFields(f.first, f.offset);
  }

  lemma TCPHeaderLaidOut(f: Fields)
    requires WellFormed(f)
    ensures var t := TCPHeader(f);
      && |t| == DataOffset(f.offset) >= 20 && t[12] == f.offset && t[13] == f.flags
      && t[0..2] == f.srcPort && t[2..4] == f.dstPort && t[4..8] == f.number
  {
    hide HeaderLength, DataOffset;
    LengthFields(f.first, f.offset);
  }

  /** Parsing a laid-out packet gives back its addresses, ports and number; it is let through
      unparsed exactly when it consumes no sequence space. */
  lemma ParseOfLaidOut(f: Fields)
    requires WellFormed(f)
    ensures ParseTCP(LaidOut(f)) ==
      if Consumed(f) == 0 then None
      else Some(Parsed(f.src + f.dst + f.srcPort + f.dstPort + [6],
                       Segment(BigEndian(f.number), Wrap(BigEndian(f.number) + Consumed(f)), LaidOut(f))))
  {
    IPHeaderLaidOut(f);
    TCPHeaderLaidOut(f);
    SlicesLaidOut(IPHeader(f), TCPHeader(f), f.payload);
    hide IPHeader, TCPHeader, HeaderLength, DataOffset, BigEndian, Wrap;
  }

  /** The fields the parser reads, found in the concatenation of the headers and the payload. */
  lemma SlicesLaidOut(h: Bytes, t: Bytes, payload: Bytes)
    requires |h| >= 20 && |t| >= 20
    ensures var ip := h + (t + payload);
      var tcp := ip[|h|..];
      && |ip| == |h| + |t| + |payload| && ip[12..16] == h[12..16] && ip[16..20] == h[16..20]
      && ip[0] == h[0] && ip[9] == h[9]
      && tcp[0..2] == t[0..2] && tcp[2..4] == t[2..4] && tcp[4..8] == t[4..8] && tcp[12] == t[12] && tcp[13] == t[13]
  {
    var ip := h + (t + payload);
    assert ip[|h|..] == t + payload;
  }

  lemma SplitIPHeader(h: Bytes)
    requires |h| >= 20
    ensures h == [h[0]] + h[1..9] + [h[9]] + h[10..12] + h[12..16] + h[16..20] + h[20..]
  {
  }

  lemma SplitTCPHeader(t: Bytes)
    requires |t| >= 20
    ensures t == t[0..2] + t[2..4] + t[4..8] + t[8..12] + [t[12]] + [t[13]] + t[14..20] + t[20..]
  {
  }

  lemma CutAt(bs: Bytes, n: nat)
    requires n <= |bs|
    ensures bs[..n] + bs[n..] == bs
  {
  }

  /** Every parsed packet is laid out from well-formed fields. */
  lemma ParsedIsLaidOut(ip: Bytes) returns (f: Fields)
    requires ParseTCP(ip).Some?
    ensures WellFormed(f) && LaidOut(f) == ip && Consumed(f) > 0
  {
    hide BigEndian, Wrap, HeaderLength, DataOffset;
    var ihl := HeaderLength(ip[0]);
    var h, tcp := ip[..ihl], ip[ihl..];
    var off := DataOffset(tcp[12]);
    var t := tcp[..off];
    f := Fields(h[0], h[1..9], h[10..12], h[12..16], h[16..20], h[20..], t[0..2], t[2..4], t[4..8], t[8..12],
                t[12], t[13], t[14..20], t[20..], tcp[off..]);
    assert IPHeader(f) == h by { SplitIPHeader(h); }
    assert TCPHeader(f) == t by { SplitTCPHeader(t); }
    hide IPHeader, TCPHeader;
    LengthFields(f.first, f.offset);
    CutAt(tcp, off);
    CutAt(ip, ihl);
  }

  /** A packet is parsed if and only if it is an IPv4/TCP packet with well-formed headers that
      consumes sequence space. */
  lemma ParsedExactly(ip: Bytes)
    ensures ParseTCP(ip).Some? <==> exists f :: WellFormed(f) && LaidOut(f) == ip && Consumed(f) > 0
  {
    hide ParseTCP, LaidOut, WellFormed;
    if ParseTCP(ip).Some? {
      var f := ParsedIsLaidOut(ip);
    }
    if f :| WellFormed(f) && LaidOut(f) == ip && Consumed(f) > 0 {
      ParseOfLaidOut(f);
    }
  }

  /** The parsed end is the start advanced by SEG.LEN exactly when SYN and FIN are not both set. */
  lemma ParsedEndIsSegLen(f: Fields)
    requires WellFormed(f) && Consumed(f) > 0
    ensures var r := ParseTCP(LaidOut(f));
      && r.Some?
      && (r.value.seg.end == Wrap(r.value.seg.start + SegLen(f)) <==> !(SYN(f.flags) && FIN(f.flags)))
  {
    hide ParseTCP, LaidOut, BigEndian, Wrap, HeaderLength, DataOffset;
    ParseOfLaidOut(f);
    WrapInjective(BigEndian(f.number) + Consumed(f), BigEndian(f.number) + SegLen(f));
  }

  /** A parsed packet of less than 2^32 bytes covers at least one byte of sequence space and no
      more than fits behind its headers, plus one for a flag. */
  lemma ParsedLength(ip: Bytes)
    requires ParseTCP(ip).Some? && |ip| < 0x1_0000_0000
    ensures 1 <= Length(ParseTCP(ip).value.seg) <= |ip| - 39
  {
    hide BigEndian, HeaderLength, DataOffset;
  }
}
