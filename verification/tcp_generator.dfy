/** The TCP segment builder (tcp_generator.py): the header of section 3.1 of
    RFC 793, with the NS flag of RFC 3540 and the CWR and ECE flags of
    RFC 3168, checksummed over the pseudo-header, the header and the payload,
    and placed after the IP header its own IP layer packs. */
module TCP {
  import opened Bits
  import opened Bytes
  import opened InternetChecksum
  import opened Constants
  import opened IP

  /** The `tcp_*` attributes of a TCPGenerator and its payload. */
  datatype TCPFields = TCPFields(
    srcPort: nat, dstPort: nat, sqn: nat, ack: nat, hdrLength: nat, reserved: nat,
    ns: nat, cwr: nat, ece: nat, urg: nat, ackFlag: nat, psh: nat, rst: nat,
    syn: nat, fin: nat, winSize: nat, hdrChksum: nat, urgPntr: nat, opts: nat,
    payload: seq<Byte>)

  /** The attributes `__init__` sets, `isn` being the random initial
      sequence number. */
  function TCPDefaults(payload: seq<Byte>, isn: nat): TCPFields
  {
    TCPFields(0, 0, isn, 0, 5, 0, 0, 0, 0, 0, 0, 0, 0, 0, 0, 65535, 0, 0, 0, payload)
  }

  // ------------------------------------------------------------------
  // Serialisation
  // ------------------------------------------------------------------

  /** `(tcp_hdr_length << 4) | tcp_flag_ns`, header byte 12. */
  function OffsetNs(hdrLength: nat, ns: nat): nat
  {
    Or(Shl(hdrLength, 4), ns)
  }

  /** One reassignment of the flags byte: `(byte << 1) | flag`. */
  function ShiftIn(acc: nat, flag: nat): nat
  {
    Or(Shl(acc, 1), flag)
  }

  /** Header byte 13: the eight flags shifted in from CWR to FIN. */
  function FlagsByte(t: TCPFields): nat
  {
    ShiftIn(ShiftIn(ShiftIn(ShiftIn(ShiftIn(ShiftIn(ShiftIn(
      t.cwr, t.ece), t.urg), t.ackFlag), t.psh), t.rst), t.syn), t.fin)
  }

  /** `struct.pack('!IIBBH', …)`: the pseudo-header. */
  function PackPseudo(src: nat, dst: nat, zero: nat, protocol: nat, tcpLen: nat): Result<seq<Byte>>
  {
    if src <= MAX32 && dst <= MAX32 && zero <= MAX8 && protocol <= MAX8 && tcpLen <= MAX16
    then
      var middle: seq<Byte> := [zero, protocol];
      Success(U32(src) + U32(dst) + middle + U16(tcpLen))
    else
      Failure(FieldOutOfRange)
  }

  /** The layout of the pseudo-header: 12 bytes, each value at its offset. */
  lemma {:induction false} PackPseudoLayout(src: nat, dst: nat, zero: nat, protocol: nat, tcpLen: nat)
    requires PackPseudo(src, dst, zero, protocol, tcpLen).Success?
    ensures var r := PackPseudo(src, dst, zero, protocol, tcpLen).value;
      && |r| == 12 && Be32(r, 0) == src && Be32(r, 4) == dst
      && r[8] == zero && r[9] == protocol && Be16(r, 10) == tcpLen
  {
    var r := PackPseudo(src, dst, zero, protocol, tcpLen).value;
    U32Value(src);
    U32Value(dst);
    U16Value(tcpLen);
    assert r[..4] == U32(src) && r[4..8] == U32(dst) && r[10..] == U16(tcpLen);
    assert Be32(r, 0) == Be32(r[..4], 0) && Be32(r, 4) == Be32(r[4..8], 0);
    assert Be16(r, 10) == Be16(r[10..], 0);
  }

  /** `struct.pack('!HHIIBBHHH', …)`: the 20-byte header without options. */
  function PackSegmentHeader(srcPort: nat, dstPort: nat, sqn: nat, ack: nat, b12: nat, b13: nat,
                             winSize: nat, chk: nat, urgPntr: nat): Result<seq<Byte>>
  {
    if srcPort <= MAX16 && dstPort <= MAX16 && sqn <= MAX32 && ack <= MAX32 && b12 <= MAX8
       && b13 <= MAX8 && winSize <= MAX16 && chk <= MAX16 && urgPntr <= MAX16
    then
      var middle: seq<Byte> := [b12, b13];
      Success(U16(srcPort) + U16(dstPort) + U32(sqn) + U32(ack) + middle
              + U16(winSize) + U16(chk) + U16(urgPntr))
    else
      Failure(FieldOutOfRange)
  }

  /** The layout of the header: 20 bytes in the order of section 3.1 of
      RFC 793. */
  lemma {:induction false} PackSegmentHeaderLayout(srcPort: nat, dstPort: nat, sqn: nat, ack: nat,
                                                   b12: nat, b13: nat, winSize: nat, chk: nat, urgPntr: nat)
    requires PackSegmentHeader(srcPort, dstPort, sqn, ack, b12, b13, winSize, chk, urgPntr).Success?
    ensures var r := PackSegmentHeader(srcPort, dstPort, sqn, ack, b12, b13, winSize, chk, urgPntr).value;
      && |r| == 20 && Be16(r, 0) == srcPort && Be16(r, 2) == dstPort
      && Be32(r, 4) == sqn && Be32(r, 8) == ack
      && r[12] == b12 && r[13] == b13
      && Be16(r, 14) == winSize && Be16(r, 16) == chk && Be16(r, 18) == urgPntr
  {
    var r := PackSegmentHeader(srcPort, dstPort, sqn, ack, b12, b13, winSize, chk, urgPntr).value;
    U16Value(srcPort);
    U16Value(dstPort);
    U32Value(sqn);
    U32Value(ack);
    U16Value(winSize);
    U16Value(chk);
    U16Value(urgPntr);
    assert r[..2] == U16(srcPort) && r[2..4] == U16(dstPort);
    assert r[4..8] == U32(sqn) && r[8..12] == U32(ack);
    assert r[14..16] == U16(winSize) && r[16..18] == U16(chk) && r[18..] == U16(urgPntr);
    assert Be16(r, 0) == Be16(r[..2], 0) && Be16(r, 2) == Be16(r[2..4], 0);
    assert Be32(r, 4) == Be32(r[4..8], 0) && Be32(r, 8) == Be32(r[8..12], 0);
    assert Be16(r, 14) == Be16(r[14..16], 0) && Be16(r, 16) == Be16(r[16..18], 0);
    assert Be16(r, 18) == Be16(r[18..], 0);
  }

  /** The header both packs in `pack` compute from the fields. */
  function SerializeSegment(t: TCPFields): Result<seq<Byte>>
  {
    PackSegmentHeader(t.srcPort, t.dstPort, t.sqn, t.ack, OffsetNs(t.hdrLength, t.ns),
                      FlagsByte(t), t.winSize, t.hdrChksum, t.urgPntr)
  }

  /** The pseudo-header `pack` builds from the IP layer's addresses and
      protocol and the segment length `tcp_hdr_length * 4 + len(payload)`. */
  function Pseudo(t: TCPFields, ipf: IPFields): Result<seq<Byte>>
  {
    PackPseudo(ipf.srcIp, ipf.dstIp, 0, ipf.protocol, t.hdrLength * 4 + |t.payload|)
  }

  // ------------------------------------------------------------------
  // pack
  // ------------------------------------------------------------------

  /** The TCP fields and the IP layer's fields after `pack`, and its result. */
  datatype TCPOutcome = TCPOutcome(tcp: TCPFields, ip: IPFields, out: Result<seq<Byte>>)

  /** The TCP fields after the header steps of `pack`, and the header. */
  datatype SegmentOutcome = SegmentOutcome(tcp: TCPFields, hdr: Result<seq<Byte>>)

  /** The header steps of `pack`, from fields whose checksum is zero and the
      IP layer's addresses and protocol, with `chksum` from tools.py. */
  function BuildSegment(t1: TCPFields, srcIp: nat, dstIp: nat, protocol: nat): SegmentOutcome
  {
    BuildSegmentWith(Checksum, t1, srcIp, dstIp, protocol)
  }

  /** The header steps with the checksum function `chk` as a parameter (the
      properties that do not depend on what the checksum is are proved for
      every `chk`): build the pseudo-header and a first header; checksum
      pseudo-header, header and payload; pack the header again with that
      checksum. */
  function BuildSegmentWith(chk: seq<Byte> -> nat, t1: TCPFields, srcIp: nat, dstIp: nat,
                            protocol: nat): SegmentOutcome
  {
    match PackPseudo(srcIp, dstIp, 0, protocol, t1.hdrLength * 4 + |t1.payload|)
    case Failure(e) => SegmentOutcome(t1, Failure(e))
    case Success(pseudo) =>
      match SerializeSegment(t1)
      case Failure(e) => SegmentOutcome(t1, Failure(e))
      case Success(draft) =>
        var t2 := t1.(hdrChksum := chk(pseudo + draft + t1.payload));
        SegmentOutcome(t2, SerializeSegment(t2))
  }

  /** The header steps when both packs succeed: the checksum of pseudo-header,
      first header and payload goes into the second header. */
  lemma {:induction false} BuildSegmentSteps(t1: TCPFields, srcIp: nat, dstIp: nat, protocol: nat,
                                             pseudo: seq<Byte>, draft: seq<Byte>)
    requires PackPseudo(srcIp, dstIp, 0, protocol, t1.hdrLength * 4 + |t1.payload|) == Success(pseudo)
    requires SerializeSegment(t1) == Success(draft)
    ensures var t2 := t1.(hdrChksum := Checksum(pseudo + draft + t1.payload));
      BuildSegment(t1, srcIp, dstIp, protocol) == SegmentOutcome(t2, SerializeSegment(t2))
  {
  }

  /** `pack()`: zero the checksum; refuse options; build the header; pack the
      IP layer for the header plus payload; return IP header, TCP header and
      payload. */
  function TCPPack(t: TCPFields, ipf: IPFields): TCPOutcome
  {
    var t1 := t.(hdrChksum := 0);
    if t1.opts != 0 then TCPOutcome(t1, ipf, Failure(OptionsNotSupported))
    else
      var so := BuildSegment(t1, ipf.srcIp, ipf.dstIp, ipf.protocol);
      match so.hdr
      case Failure(e) => TCPOutcome(so.tcp, ipf, Failure(e))
      case Success(hdr) =>
        var ipo := IPPack(ipf, |hdr + so.tcp.payload|);
        match ipo.out
        case Failure(e) => TCPOutcome(so.tcp, ipo.state, Failure(e))
        case Success(iph) => TCPOutcome(so.tcp, ipo.state, Success(iph + hdr + so.tcp.payload))
  }

  // ------------------------------------------------------------------
  // Properties of the flag packing
  // ------------------------------------------------------------------

  /** A one-bit flag shifted in is appended as the new lowest bit. */
  lemma {:induction false} ShiftInBit(acc: nat, flag: nat)
    requires flag < 2
    ensures ShiftIn(acc, flag) == 2 * acc + flag
  {
    Pow2Values();
    OrDisjoint(acc, 1, flag);
  }

  /** With one-bit flags, byte 13 holds CWR, ECE, URG, ACK, PSH, RST, SYN
      and FIN from the most to the least significant bit. */
  lemma {:induction false} FlagsByteBits(t: TCPFields)
    requires t.cwr < 2 && t.ece < 2 && t.urg < 2 && t.ackFlag < 2
    requires t.psh < 2 && t.rst < 2 && t.syn < 2 && t.fin < 2
    ensures FlagsByte(t) == t.cwr * 128 + t.ece * 64 + t.urg * 32 + t.ackFlag * 16
                          + t.psh * 8 + t.rst * 4 + t.syn * 2 + t.fin
    ensures FlagsByte(t) <= MAX8
  {
    var b := t.cwr;
    ShiftInBit(b, t.ece);
    b := ShiftIn(b, t.ece);
    ShiftInBit(b, t.urg);
    b := ShiftIn(b, t.urg);
    ShiftInBit(b, t.ackFlag);
    b := ShiftIn(b, t.ackFlag);
    ShiftInBit(b, t.psh);
    b := ShiftIn(b, t.psh);
    ShiftInBit(b, t.rst);
    b := ShiftIn(b, t.rst);
    ShiftInBit(b, t.syn);
    b := ShiftIn(b, t.syn);
    ShiftInBit(b, t.fin);
  }

  /** Byte 12 holds the data offset in its high nibble and NS in its low
      nibble; for a one-bit NS the three reserved bits above it are zero. */
  lemma {:induction false} OffsetNsBits(hdrLength: nat, ns: nat)
    requires hdrLength < 16 && ns < 16
    ensures OffsetNs(hdrLength, ns) == hdrLength * 16 + ns
    ensures OffsetNs(hdrLength, ns) / 16 == hdrLength && OffsetNs(hdrLength, ns) % 16 == ns
    ensures ns < 2 ==> OffsetNs(hdrLength, ns) % 16 / 2 == 0
  {
    Pow2Values();
    OrDisjoint(hdrLength, 4, ns);
  }

  // ------------------------------------------------------------------
  // Properties of pack
  // ------------------------------------------------------------------

  /** Two field sets that differ only in the checksum serialise to headers
      that differ only in bytes 16-17. */
  lemma {:induction false} SegmentSplice(t: TCPFields, u: TCPFields)
    requires SerializeSegment(t).Success?
    requires u == t.(hdrChksum := u.hdrChksum) && u.hdrChksum <= MAX16
    ensures var r := SerializeSegment(t).value;
      SerializeSegment(u) == Success(r[..16] + U16(u.hdrChksum) + r[18..])
  {
    var front := U16(t.srcPort) + U16(t.dstPort) + U32(t.sqn) + U32(t.ack);
    var middle: seq<Byte> := [OffsetNs(t.hdrLength, t.ns), FlagsByte(t)];
    var r := SerializeSegment(t).value;
    assert r == front + middle + U16(t.winSize) + U16(t.hdrChksum) + U16(t.urgPntr);
    assert r[..16] == front + middle + U16(t.winSize);
    assert r[18..] == U16(t.urgPntr);
    assert SerializeSegment(u).Success?;
    assert SerializeSegment(u).value == front + middle + U16(t.winSize) + U16(u.hdrChksum) + U16(t.urgPntr);
  }

  /** Non-zero options abort `pack` before the IP layer is touched; the
      checksum field has already been zeroed. */
  lemma {:induction false} TCPPackRefusesOptions(t: TCPFields, ipf: IPFields)
    requires t.opts != 0
    ensures TCPPack(t, ipf) == TCPOutcome(t.(hdrChksum := 0), ipf, Failure(OptionsNotSupported))
  {
  }

  /** The header steps: the checksum is that of pseudo-header, first header
      (checksum field zero) and payload, and the header is the first one
      with that checksum in bytes 16-17. */
  lemma {:induction false} BuildSegmentOutput(t1: TCPFields, srcIp: nat, dstIp: nat, protocol: nat)
    requires t1.hdrChksum == 0 && BuildSegment(t1, srcIp, dstIp, protocol).hdr.Success?
    ensures PackPseudo(srcIp, dstIp, 0, protocol, t1.hdrLength * 4 + |t1.payload|).Success?
    ensures SerializeSegment(t1).Success?
    ensures var pseudo := PackPseudo(srcIp, dstIp, 0, protocol, t1.hdrLength * 4 + |t1.payload|).value;
      var draft := SerializeSegment(t1).value;
      var c := Checksum(pseudo + draft + t1.payload);
      var so := BuildSegment(t1, srcIp, dstIp, protocol);
      && |draft| == 20 && Be16(draft, 16) == 0
      && so.tcp == t1.(hdrChksum := c)
      && so.hdr.value == draft[..16] + U16(c) + draft[18..]
  {
    assert PackPseudo(srcIp, dstIp, 0, protocol, t1.hdrLength * 4 + |t1.payload|).Success?;
    assert SerializeSegment(t1).Success?;
    var pseudo := PackPseudo(srcIp, dstIp, 0, protocol, t1.hdrLength * 4 + |t1.payload|).value;
    var draft := SerializeSegment(t1).value;
    var c := Checksum(pseudo + draft + t1.payload);
    BuildSegmentSteps(t1, srcIp, dstIp, protocol, pseudo, draft);
    SegmentSplice(t1, t1.(hdrChksum := c));
    PackSegmentHeaderLayout(t1.srcPort, t1.dstPort, t1.sqn, t1.ack, OffsetNs(t1.hdrLength, t1.ns),
                            FlagsByte(t1), t1.winSize, 0, t1.urgPntr);
  }

  /** What a successful `pack` returns and leaves behind: the IP header the
      IP layer packs for a 20-byte header plus payload, then the TCP header
      in the RFC 793 order, then the payload; the TCP checksum is the
      checksum of pseudo-header, header with a zero checksum field, and
      payload; the pseudo-header carries the IP addresses, a zero byte, the
      IP protocol and the segment length; only the checksum field changes. */
  lemma {:induction false} TCPPackOutput(t: TCPFields, ipf: IPFields)
    requires TCPPack(t, ipf).out.Success?
    ensures t.opts == 0
    ensures Pseudo(t.(hdrChksum := 0), ipf).Success? && SerializeSegment(t.(hdrChksum := 0)).Success?
    ensures IPPack(ipf, 20 + |t.payload|).out.Success?
    ensures var pseudo := Pseudo(t.(hdrChksum := 0), ipf).value;
      var draft := SerializeSegment(t.(hdrChksum := 0)).value;
      var c := Checksum(pseudo + draft + t.payload);
      var o := TCPPack(t, ipf).out.value;
      && |pseudo| == 12 && |draft| == 20 && |o| == 40 + |t.payload|
      && o[..20] == IPPack(ipf, 20 + |t.payload|).out.value
      && o[20..40] == draft[..16] + U16(c) + draft[18..]
      && o[40..] == t.payload
      && Be16(o[20..40], 0) == t.srcPort && Be16(o[20..40], 2) == t.dstPort
      && Be32(o[20..40], 4) == t.sqn && Be32(o[20..40], 8) == t.ack
      && o[32] == OffsetNs(t.hdrLength, t.ns) && o[33] == FlagsByte(t)
      && Be16(o[20..40], 14) == t.winSize && Be16(o[20..40], 16) == c
      && Be16(o[20..40], 18) == t.urgPntr && Be16(draft, 16) == 0
      && Be32(pseudo, 0) == ipf.srcIp && Be32(pseudo, 4) == ipf.dstIp
      && pseudo[8] == 0 && pseudo[9] == ipf.protocol
      && Be16(pseudo, 10) == t.hdrLength * 4 + |t.payload|
      && TCPPack(t, ipf).tcp == t.(hdrChksum := c)
    ensures TCPPack(t, ipf).ip == IPPack(ipf, 20 + |t.payload|).state
  {
    var t1 := t.(hdrChksum := 0);
    var n := 20 + |t.payload|;
    RepackSameSegment(t, ipf);
    TCPPackSucceeded(t, ipf);
    BuildSegmentOutput(t1, ipf.srcIp, ipf.dstIp, ipf.protocol);
    var so := BuildSegment(t1, ipf.srcIp, ipf.dstIp, ipf.protocol);
    PackPseudoLayout(ipf.srcIp, ipf.dstIp, 0, ipf.protocol, t.hdrLength * 4 + |t.payload|);
    PackSegmentHeaderLayout(t.srcPort, t.dstPort, t.sqn, t.ack, OffsetNs(t.hdrLength, t.ns),
                            FlagsByte(t), t.winSize, so.tcp.hdrChksum, t.urgPntr);
    assert so.hdr.value == SerializeSegment(so.tcp).value;
    IPPackLength(ipf, n);
    PacketParts(TCPPack(t, ipf).out.value, IPPack(ipf, n).out.value, so.hdr.value, t.payload);
  }

  /** The parts of a packet made of a 20-byte IP header, a 20-byte TCP header
      and a payload. */
  lemma {:induction false} PacketParts(o: seq<Byte>, iph: seq<Byte>, hdr: seq<Byte>, payload: seq<Byte>)
    requires |iph| == 20 && |hdr| == 20 && o == iph + (hdr + payload)
    ensures |o| == 40 + |payload| && o[..20] == iph && o[20..40] == hdr && o[40..] == payload
    ensures o[20..] == hdr + payload && o[32] == hdr[12] && o[33] == hdr[13]
  {
  }

  /** `tcp_reserved` is never serialised: its value changes nothing that
      `pack` returns or does to the IP layer. */
  lemma {:induction false} ReservedIgnored(t: TCPFields, ipf: IPFields, reserved: nat)
    ensures TCPPack(t.(reserved := reserved), ipf).out == TCPPack(t, ipf).out
    ensures TCPPack(t.(reserved := reserved), ipf).ip == TCPPack(t, ipf).ip
  {
    var t1 := t.(hdrChksum := 0);
    var u1 := t.(reserved := reserved).(hdrChksum := 0);
    assert u1 == t1.(reserved := reserved);
    if t1.opts == 0 {
      SameSegment(Checksum, t1, reserved, ipf.srcIp, ipf.dstIp, ipf.protocol);
    }
  }

  /** The header steps ignore `tcp_reserved` as well, whatever the
      checksum function. */
  lemma {:induction false} SameSegment(chk: seq<Byte> -> nat, t1: TCPFields, reserved: nat,
                                       srcIp: nat, dstIp: nat, protocol: nat)
    ensures var a := BuildSegmentWith(chk, t1.(reserved := reserved), srcIp, dstIp, protocol);
      var b := BuildSegmentWith(chk, t1, srcIp, dstIp, protocol);
      a.hdr == b.hdr && a.tcp.payload == b.tcp.payload
  {
    var u1 := t1.(reserved := reserved);
    var len := t1.hdrLength * 4 + |t1.payload|;
    assert u1.hdrLength * 4 + |u1.payload| == len;
    var draft := SerializeSegment(t1);
    SerializeIgnoresReserved(t1, reserved);
    var pseudo := PackPseudo(srcIp, dstIp, 0, protocol, len);
    if pseudo.Success? && draft.Success? {
      var c := chk(pseudo.value + draft.value + t1.payload);
      SerializeIgnoresReserved(t1.(hdrChksum := c), reserved);
      assert t1.(hdrChksum := c).(reserved := reserved) == u1.(hdrChksum := c);
    }
  }

  /** The serialised header does not depend on `tcp_reserved`. */
  lemma {:induction false} SerializeIgnoresReserved(t: TCPFields, reserved: nat)
    ensures SerializeSegment(t.(reserved := reserved)) == SerializeSegment(t)
  {
    var u := t.(reserved := reserved);
    assert FlagsByte(u) == FlagsByte(t);
  }

  /** Two bytes then an even-length payload: an even count. */
  lemma {:induction false} EvenAfterField(draft: seq<Byte>, payload: seq<Byte>)
    requires |draft| == 20 && |payload| % 2 == 0
    ensures |draft[18..] + payload| % 2 == 0
  {
  }

  /** The checksum field of a header (bytes 16-17) followed by an
      even-length payload lies on a 16-bit boundary counted from the end,
      so filling it in makes pseudo-header, header and payload checksum to
      0. */
  lemma {:induction false} SegmentSelfVerifies(pseudo: seq<Byte>, draft: seq<Byte>, payload: seq<Byte>)
    requires |draft| == 20 && draft[16] == 0 && draft[17] == 0 && |payload| % 2 == 0
    ensures Checksum(pseudo + ((draft[..16] + U16(Checksum(pseudo + draft + payload)) + draft[18..]) + payload)) == 0
  {
    var s := draft[18..] + payload;
    EvenAfterField(draft, payload);
    var c := Checksum(pseudo + draft + payload);
    SplitAtField(pseudo, draft, payload, U16(c));
    ChecksumSelfVerifies(pseudo + draft[..16], s);
  }

  /** The regroupings SegmentSelfVerifies needs around bytes 16-17. */
  lemma {:induction false} SplitAtField(pseudo: seq<Byte>, draft: seq<Byte>, payload: seq<Byte>, w: seq<Byte>)
    requires |draft| == 20 && draft[16] == 0 && draft[17] == 0
    ensures pseudo + draft + payload == pseudo + draft[..16] + [0, 0] + (draft[18..] + payload)
    ensures pseudo + draft[..16] + w + (draft[18..] + payload)
         == pseudo + ((draft[..16] + w + draft[18..]) + payload)
  {
    assert draft == draft[..16] + [0, 0] + draft[18..];
  }

  /** A packet's bytes after the IP header: the TCP header, then the payload. */
  lemma {:induction false} AfterIPHeader(o: seq<Byte>, hdr: seq<Byte>, payload: seq<Byte>)
    requires |o| == 40 + |payload| && o[20..40] == hdr && o[40..] == payload
    ensures o[20..] == hdr + payload
  {
    assert o[20..] == o[20..40] + o[40..];
  }

  /** Self-verification: for an even-length payload, the pseudo-header
      followed by the emitted segment checksums to 0. (For an odd length the
      source's front-aligned padding puts the checksum field on an odd
      boundary of the words it sums.) */
  lemma {:induction false} TCPSelfVerifies(t: TCPFields, ipf: IPFields)
    requires TCPPack(t, ipf).out.Success? && |t.payload| % 2 == 0
    ensures Pseudo(t.(hdrChksum := 0), ipf).Success?
    ensures Checksum(Pseudo(t.(hdrChksum := 0), ipf).value + TCPPack(t, ipf).out.value[20..]) == 0
  {
    TCPPackOutput(t, ipf);
    var pseudo := Pseudo(t.(hdrChksum := 0), ipf).value;
    var draft := SerializeSegment(t.(hdrChksum := 0)).value;
    var o := TCPPack(t, ipf).out.value;
    SegmentSelfVerifies(pseudo, draft, t.payload);
    AfterIPHeader(o, draft[..16] + U16(Checksum(pseudo + draft + t.payload)) + draft[18..], t.payload);
  }

  /** When the header steps and the IP layer succeed, `pack` returns IP
      header, TCP header and payload, and leaves the fields the header steps
      and the IP layer leave. */
  lemma {:induction false} TCPPackSucceeded(t: TCPFields, ipf: IPFields)
    requires t.opts == 0
    requires BuildSegment(t.(hdrChksum := 0), ipf.srcIp, ipf.dstIp, ipf.protocol).hdr.Success?
    requires IPPack(ipf, 20 + |t.payload|).out.Success?
    ensures var so := BuildSegment(t.(hdrChksum := 0), ipf.srcIp, ipf.dstIp, ipf.protocol);
      var ipo := IPPack(ipf, 20 + |t.payload|);
      TCPPack(t, ipf) == TCPOutcome(so.tcp, ipo.state, Success(ipo.out.value + (so.hdr.value + t.payload)))
  {
    var t1 := t.(hdrChksum := 0);
    BuildSegmentOutput(t1, ipf.srcIp, ipf.dstIp, ipf.protocol);
    var so := BuildSegment(t1, ipf.srcIp, ipf.dstIp, ipf.protocol);
    assert so.tcp.payload == t.payload;
    assert |so.hdr.value + so.tcp.payload| == 20 + |t.payload|;
    var iph := IPPack(ipf, 20 + |t.payload|).out.value;
    assert iph + so.hdr.value + so.tcp.payload == iph + (so.hdr.value + t.payload);
  }

  /** What a successful `pack` needed and what it leaves for a second one:
      the header steps and the IP layer succeeded; the fields keep no
      options and the payload, and zeroing their checksum gives the fields
      the header steps started from; the IP addresses and protocol are
      unchanged. */
  lemma {:induction false} RepackSameSegment(t: TCPFields, ipf: IPFields)
    requires TCPPack(t, ipf).out.Success?
    ensures var s := TCPPack(t, ipf);
      var t1 := t.(hdrChksum := 0);
      && t.opts == 0
      && BuildSegment(t1, ipf.srcIp, ipf.dstIp, ipf.protocol).hdr.Success?
      && IPPack(ipf, 20 + |t.payload|).out.Success?
      && s.tcp.(hdrChksum := 0) == t1 && s.tcp.opts == 0 && s.tcp.payload == t.payload
      && s.ip.srcIp == ipf.srcIp && s.ip.dstIp == ipf.dstIp && s.ip.protocol == ipf.protocol
  {
    var t1 := t.(hdrChksum := 0);
    BuildSegmentOutput(t1, ipf.srcIp, ipf.dstIp, ipf.protocol);
    var so := BuildSegment(t1, ipf.srcIp, ipf.dstIp, ipf.protocol);
    assert |so.hdr.value + so.tcp.payload| == 20 + |t.payload|;
    IPPackState(ipf, 20 + |t.payload|);
  }

  /** Packing again without changing any field succeeds again and keeps
      the TCP fields: the sequence number is not advanced and the checksum
      written is the same. */
  lemma {:induction false} TCPRepack(t: TCPFields, ipf: IPFields)
    requires TCPPack(t, ipf).out.Success?
    ensures var s := TCPPack(t, ipf);
      && TCPPack(s.tcp, s.ip).out.Success?
      && TCPPack(s.tcp, s.ip).tcp == s.tcp
  {
    var s := TCPPack(t, ipf);
    var n := 20 + |t.payload|;
    var t1 := t.(hdrChksum := 0);
    RepackSameSegment(t, ipf);
    TCPPackSucceeded(t, ipf);
    IPRepack(ipf, n);
    assert BuildSegment(s.tcp.(hdrChksum := 0), s.ip.srcIp, s.ip.dstIp, s.ip.protocol)
        == BuildSegment(t1, ipf.srcIp, ipf.dstIp, ipf.protocol);
    TCPPackSucceeded(s.tcp, s.ip);
  }

  /** The packet of a second pack without changes differs from the first only
      in the IP id (bytes 4-5) and the IP checksum (bytes 10-11). */
  lemma {:induction false} TCPRepackBytes(t: TCPFields, ipf: IPFields)
    requires TCPPack(t, ipf).out.Success?
    ensures var s := TCPPack(t, ipf);
      && TCPPack(s.tcp, s.ip).out.Success?
      && var o1 := s.out.value;
         var o2 := TCPPack(s.tcp, s.ip).out.value;
         && |o2| == |o1|
         && o2[..4] == o1[..4] && o2[6..10] == o1[6..10] && o2[12..] == o1[12..]
  {
    var s := TCPPack(t, ipf);
    var n := 20 + |t.payload|;
    var t1 := t.(hdrChksum := 0);
    RepackSameSegment(t, ipf);
    TCPPackSucceeded(t, ipf);
    IPRepack(ipf, n);
    var so := BuildSegment(t1, ipf.srcIp, ipf.dstIp, ipf.protocol);
    assert BuildSegment(s.tcp.(hdrChksum := 0), s.ip.srcIp, s.ip.dstIp, s.ip.protocol) == so;
    TCPPackSucceeded(s.tcp, s.ip);
    var rest := so.hdr.value + t.payload;
    SameAfterIPHeader(s.out.value, TCPPack(s.tcp, s.ip).out.value,
                      IPPack(ipf, n).out.value, IPPack(s.ip, n).out.value, rest);
  }

  /** The fields of a fresh generator after `set_src_port`, `set_dst_port`
      and the IP address setters: defaults except for the ports, the initial
      sequence number, the payload and the addresses. The setters accept any
      value, so the ports and addresses are unbounded here. */
  predicate FreshSegment(t: TCPFields, ipf: IPFields)
  {
    && t == TCPDefaults(t.payload, t.sqn).(srcPort := t.srcPort, dstPort := t.dstPort)
    && ipf == Defaults(Tcp).(srcIp := ipf.srcIp, dstIp := ipf.dstIp)
    && t.sqn < MAX32
  }

  /** The ports fit `H`, the addresses fit `I`, and the packet fits the IP
      total length. */
  predicate SegmentFits(t: TCPFields, ipf: IPFields)
  {
    && t.srcPort <= MAX16 && t.dstPort <= MAX16
    && ipf.srcIp <= MAX32 && ipf.dstIp <= MAX32
    && |t.payload| <= MAX16 - 40
  }

  /** The fields FreshSegment fixes. */
  lemma {:induction false} FreshSegmentFields(t: TCPFields, ipf: IPFields)
    requires FreshSegment(t, ipf)
    ensures t.hdrLength == 5 && t.ns == 0 && t.winSize == 65535 && t.opts == 0 && t.urgPntr == 0
    ensures t.cwr == 0 && t.ece == 0 && t.urg == 0 && t.ackFlag == 0
    ensures t.psh == 0 && t.rst == 0 && t.syn == 0 && t.fin == 0 && t.ack == 0
    ensures ipf.hdrLen == 5 && ipf.protocol == 6
  {
  }

  /** A fresh generator packs exactly when its ports fit 16 bits, its
      addresses 32 bits, and the packet the IP total length. */
  lemma {:induction false} DefaultSegmentSucceeds(t: TCPFields, ipf: IPFields)
    requires FreshSegment(t, ipf)
    ensures TCPPack(t, ipf).out.Success? <==> SegmentFits(t, ipf)
  {
    var n := 20 + |t.payload|;
    FreshSegmentFields(t, ipf);
    IPPackSucceeds(ipf, n);
    if SegmentFits(t, ipf) {
      OffsetNsBits(t.hdrLength, t.ns);
      FlagsByteBits(t);
      var t1 := t.(hdrChksum := 0);
      assert BuildSegment(t1, ipf.srcIp, ipf.dstIp, ipf.protocol).hdr.Success?;
      TCPPackSucceeded(t, ipf);
    } else if TCPPack(t, ipf).out.Success? {
      RepackSameSegment(t, ipf);
      BuildSegmentOutput(t.(hdrChksum := 0), ipf.srcIp, ipf.dstIp, ipf.protocol);
      assert false;
    }
  }

  /** The packet of a fresh generator that fits the IP total length:
      protocol 6, total length 40 + payload, the initial sequence number,
      data offset 5 (byte 0x50), no flags and window 65535. */
  lemma {:induction false} DefaultSegment(t: TCPFields, ipf: IPFields)
    requires FreshSegment(t, ipf) && SegmentFits(t, ipf)
    ensures TCPPack(t, ipf).out.Success?
    ensures var o := TCPPack(t, ipf).out.value;
      && o[9] == 6 && Be16(o, 2) == 40 + |t.payload|
      && Be32(o[20..40], 4) == t.sqn && o[32] == 0x50 && o[33] == 0
      && Be16(o[20..40], 14) == 65535
  {
    var n := 20 + |t.payload|;
    FreshSegmentFields(t, ipf);
    DefaultSegmentSucceeds(t, ipf);
    TCPPackOutput(t, ipf);
    IPPackOutput(ipf, n);
    OffsetNsBits(t.hdrLength, t.ns);
    FlagsByteBits(t);
    IPHeaderPrefix(TCPPack(t, ipf).out.value, IPPack(ipf, n).out.value);
  }

  /** The TCP segment builder; `ip` is the IP layer it inherits from in the
      source. */
  class TCPGenerator {
    var srcPort: nat
    var dstPort: nat
    var sqn: nat
    var ack: nat
    var hdrLength: nat
    var reserved: nat
    var ns: nat
    var cwr: nat
    var ece: nat
    var urg: nat
    var ackFlag: nat
    var psh: nat
    var rst: nat
    var syn: nat
    var fin: nat
    var winSize: nat
    var hdrChksum: nat
    var urgPntr: nat
    var opts: nat
    var payload: seq<Byte>
    const ip: IPGenerator

    function Fields(): TCPFields
      reads this
    {
      TCPFields(srcPort, dstPort, sqn, ack, hdrLength, reserved, ns, cwr, ece, urg,
                ackFlag, psh, rst, syn, fin, winSize, hdrChksum, urgPntr, opts, payload)
    }

    /** `__init__(payload)`, the random initial sequence number given as
        `isn`, which the source draws below 0xFFFFFFFF. */
    constructor (payloadBytes: seq<Byte>, isn: nat)
      requires isn < MAX32
      ensures Fields() == TCPDefaults(payloadBytes, isn)
      ensures fresh(ip) && ip.Fields() == Defaults(Tcp)
    {
      srcPort := 0;
      dstPort := 0;
      sqn := 0;
      ack := 0;
      hdrLength := 5;
      reserved := 0;
      ns := 0;
      cwr := 0;
      ece := 0;
      urg := 0;
      ackFlag := 0;
      psh := 0;
      rst := 0;
      syn := 0;
      fin := 0;
      winSize := 65535;
      hdrChksum := 0;
      urgPntr := 0;
      opts := 0;
      sqn := isn;
      payload := payloadBytes;
      ip := new IPGenerator(Tcp);
    }

    /** `set_src_port`: no range check; an over-wide port fails at `pack`. */
    method SetSrcPort(port: nat)
      modifies this
      ensures Fields() == old(Fields()).(srcPort := port)
      ensures unchanged(ip)
    {
      srcPort := port;
    }

    /** `set_dst_port`. */
    method SetDstPort(port: nat)
      modifies this
      ensures Fields() == old(Fields()).(dstPort := port)
      ensures unchanged(ip)
    {
      dstPort := port;
    }

    /** `pack()`: zero the checksum, refuse options, run the header steps,
        pack the IP layer, concatenate. */
    method Pack() returns (out: Result<seq<Byte>>)
      modifies this, ip
      ensures Fields() == TCPPack(old(Fields()), old(ip.Fields())).tcp
      ensures ip.Fields() == TCPPack(old(Fields()), old(ip.Fields())).ip
      ensures out == TCPPack(old(Fields()), old(ip.Fields())).out
    {
      hdrChksum := 0;
      if opts != 0 {
        out := Failure(OptionsNotSupported);
      } else {
        var tcpData := BuildHeader();
        if tcpData.Failure? {
          out := Failure(tcpData.error);
        } else {
          var ipData := ip.Pack(|tcpData.value + payload|);
          if ipData.Failure? {
            out := Failure(ipData.error);
          } else {
            out := Success(ipData.value + tcpData.value + payload);
          }
        }
      }
    }

    /** The header steps of `pack()`, once the checksum field is zero: the
        two sub-byte combinations, the pseudo-header from the IP layer's
        fields, the first header, the checksum into `tcp_hdr_chksum`, the
        second header. */
    method BuildHeader() returns (tcpData: Result<seq<Byte>>)
      requires hdrChksum == 0
      modifies this
      ensures Fields() == BuildSegment(old(Fields()), ip.srcIp, ip.dstIp, ip.protocol).tcp
      ensures tcpData == BuildSegment(old(Fields()), ip.srcIp, ip.dstIp, ip.protocol).hdr
    {
      ghost var t1 := Fields();
      var byte13 := OffsetNs(hdrLength, ns);
      var byte14 := cwr;
      byte14 := ShiftIn(byte14, ece);
      byte14 := ShiftIn(byte14, urg);
      byte14 := ShiftIn(byte14, ackFlag);
      byte14 := ShiftIn(byte14, psh);
      byte14 := ShiftIn(byte14, rst);
      byte14 := ShiftIn(byte14, syn);
      byte14 := ShiftIn(byte14, fin);
      assert byte14 == FlagsByte(t1);
      var tcpLen := hdrLength * 4 + |payload|;
      var pseudo := PackPseudo(ip.srcIp, ip.dstIp, 0, ip.protocol, tcpLen);
      if pseudo.Failure? {
        return Failure(pseudo.error);
      }
      var draft := PackSegmentHeader(srcPort, dstPort, sqn, ack, byte13, byte14,
                                     winSize, hdrChksum, urgPntr);
      assert draft == SerializeSegment(t1);
      if draft.Failure? {
        return Failure(draft.error);
      }
      var c := Chksum(pseudo.value + draft.value + payload);
      hdrChksum := c;
      assert Fields() == t1.(hdrChksum := c);
      tcpData := PackSegmentHeader(srcPort, dstPort, sqn, ack, byte13, byte14,
                                   winSize, hdrChksum, urgPntr);
      assert tcpData == SerializeSegment(t1.(hdrChksum := c));
      BuildSegmentSteps(t1, ip.srcIp, ip.dstIp, ip.protocol, pseudo.value, draft.value);
    }
  }
}
