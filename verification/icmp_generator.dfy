/** The ICMP message builder (icmp_generator.py): the 8-byte header of
    RFC 792 (type, code, checksum, the 32-bit rest-of-header word) followed
    by the payload, checksummed, placed after the IP header its own IP layer
    packs; and the echo-request sender `Ping` built on it. */
module ICMP {
  import opened Bytes
  import opened InternetChecksum
  import opened Constants
  import opened IP

  /** The `icmp_*` attributes of an ICMPGenerator and its payload. */
  datatype ICMPFields = ICMPFields(icmpType: nat, code: nat, hdrChksum: nat, opt: nat, payload: seq<Byte>)

  /** The attributes `__init__(type_, payload, code)` sets. */
  function ICMPDefaults(kind: ICMPType, payload: seq<Byte>, code: nat): ICMPFields
  {
    ICMPFields(kind.Value(), code, 0, 0, payload)
  }

  // ------------------------------------------------------------------
  // Serialisation
  // ------------------------------------------------------------------

  /** `struct.pack('!BBHI', …)`: the 8-byte header. */
  function PackICMPHeader(icmpType: nat, code: nat, chk: nat, opt: nat): Result<seq<Byte>>
  {
    if icmpType <= MAX8 && code <= MAX8 && chk <= MAX16 && opt <= MAX32
    then
      var front: seq<Byte> := [icmpType, code];
      Success(front + U16(chk) + U32(opt))
    else
      Failure(FieldOutOfRange)
  }

  /** The layout of the header: 8 bytes, each value at its offset; the
      pack fails exactly when a value exceeds its width. */
  lemma {:induction false} PackICMPHeaderLayout(icmpType: nat, code: nat, chk: nat, opt: nat)
    ensures PackICMPHeader(icmpType, code, chk, opt).Success?
        <==> icmpType <= MAX8 && code <= MAX8 && chk <= MAX16 && opt <= MAX32
    ensures PackICMPHeader(icmpType, code, chk, opt).Success? ==>
      var r := PackICMPHeader(icmpType, code, chk, opt).value;
      && |r| == 8 && r[0] == icmpType && r[1] == code
      && Be16(r, 2) == chk && Be32(r, 4) == opt
  {
    if PackICMPHeader(icmpType, code, chk, opt).Success? {
      var r := PackICMPHeader(icmpType, code, chk, opt).value;
      U16Value(chk);
      U32Value(opt);
      assert r[2..4] == U16(chk) && r[4..] == U32(opt);
      assert Be16(r, 2) == Be16(r[2..4], 0) && Be32(r, 4) == Be32(r[4..], 0);
    }
  }

  /** The header of the fields `c`. */
  function SerializeMessage(c: ICMPFields): Result<seq<Byte>>
  {
    PackICMPHeader(c.icmpType, c.code, c.hdrChksum, c.opt)
  }

  /** The header both packs in `pack` compute from the fields: the same
      bytes but for the checksum in bytes 2-3. */
  lemma {:induction false} MessageSplice(c: ICMPFields, u: ICMPFields)
    requires SerializeMessage(c).Success?
    requires u == c.(hdrChksum := u.hdrChksum) && u.hdrChksum <= MAX16
    ensures var r := SerializeMessage(c).value;
      SerializeMessage(u) == Success(r[..2] + U16(u.hdrChksum) + r[4..])
  {
    var front: seq<Byte> := [c.icmpType, c.code];
    var r := SerializeMessage(c).value;
    assert r[..2] == front && r[4..] == U32(c.opt);
  }

  // ------------------------------------------------------------------
  // pack
  // ------------------------------------------------------------------

  /** The ICMP fields and the IP layer's fields after `pack`, and its result. */
  datatype ICMPOutcome = ICMPOutcome(icmp: ICMPFields, ip: IPFields, out: Result<seq<Byte>>)

  /** `pack()`: zero the checksum; pack the header and append the payload;
      checksum that; pack the header again with the checksum; pack the IP
      layer for the length of the message; return IP header and message.
      The second header pack cannot fail, the checksum being 16 bits wide. */
  function ICMPPack(c: ICMPFields, ipf: IPFields): ICMPOutcome
  {
    var c1 := c.(hdrChksum := 0);
    match SerializeMessage(c1)
    case Failure(e) => ICMPOutcome(c1, ipf, Failure(e))
    case Success(draft) =>
      var c2 := c1.(hdrChksum := Checksum(draft + c1.payload));
      var msg := SerializeMessage(c2).value + c2.payload;
      var ipo := IPPack(ipf, |msg|);
      match ipo.out
      case Failure(e) => ICMPOutcome(c2, ipo.state, Failure(e))
      case Success(iph) => ICMPOutcome(c2, ipo.state, Success(iph + msg))
  }

  /** `pack` changes no ICMP field but the checksum, whether it succeeds or
      fails; a failure of the header pack leaves the IP layer untouched. */
  lemma {:induction false} ICMPPackFrame(c: ICMPFields, ipf: IPFields)
    ensures var s := ICMPPack(c, ipf);
      && s.icmp == c.(hdrChksum := s.icmp.hdrChksum) && s.icmp.hdrChksum <= MAX16
      && (SerializeMessage(c.(hdrChksum := 0)).Failure? ==> s.ip == ipf && s.out.Failure?)
  {
  }

  /** `pack` succeeds exactly when type, code and option fit their widths
      and the IP layer accepts its fields with the message length. */
  lemma {:induction false} ICMPPackSucceeds(c: ICMPFields, ipf: IPFields)
    ensures ICMPPack(c, ipf).out.Success?
        <==> c.icmpType <= MAX8 && c.code <= MAX8 && c.opt <= MAX32
             && FieldsFit(Prepared(ipf, 8 + |c.payload|))
  {
    var c1 := c.(hdrChksum := 0);
    PackICMPHeaderLayout(c1.icmpType, c1.code, 0, c1.opt);
    if SerializeMessage(c1).Success? {
      var c2 := ICMPPack(c, ipf).icmp;
      PackICMPHeaderLayout(c2.icmpType, c2.code, c2.hdrChksum, c2.opt);
      IPPackSucceeds(ipf, 8 + |c.payload|);
    }
  }

  /** When the header pack and the IP layer succeed, `pack` returns the IP
      header followed by the first header with the checksum of first header
      and payload spliced into bytes 2-3, then the payload. */
  lemma {:induction false} ICMPPackSucceeded(c: ICMPFields, ipf: IPFields)
    requires SerializeMessage(c.(hdrChksum := 0)).Success?
    requires IPPack(ipf, 8 + |c.payload|).out.Success?
    ensures var draft := SerializeMessage(c.(hdrChksum := 0)).value;
      var k := Checksum(draft + c.payload);
      var ipo := IPPack(ipf, 8 + |c.payload|);
      && |draft| == 8 && Be16(draft, 2) == 0
      && ICMPPack(c, ipf)
         == ICMPOutcome(c.(hdrChksum := k), ipo.state,
                        Success(ipo.out.value + ((draft[..2] + U16(k) + draft[4..]) + c.payload)))
  {
    var c1 := c.(hdrChksum := 0);
    var draft := SerializeMessage(c1).value;
    var k := Checksum(draft + c.payload);
    PackICMPHeaderLayout(c1.icmpType, c1.code, 0, c1.opt);
    MessageSplice(c1, c1.(hdrChksum := k));
    var hdr := draft[..2] + U16(k) + draft[4..];
    assert |hdr + c.payload| == 8 + |c.payload|;
    var iph := IPPack(ipf, 8 + |c.payload|).out.value;
    assert iph + (hdr + c.payload) == ICMPPack(c, ipf).out.value;
  }

  /** What a successful `pack` needed: the header pack and the IP layer,
      the latter for a message of `8 + len(payload)` bytes, succeeded. */
  lemma {:induction false} ICMPPackNeeds(c: ICMPFields, ipf: IPFields)
    requires ICMPPack(c, ipf).out.Success?
    ensures SerializeMessage(c.(hdrChksum := 0)).Success?
    ensures IPPack(ipf, 8 + |c.payload|).out.Success?
  {
    var c1 := c.(hdrChksum := 0);
    PackICMPHeaderLayout(c1.icmpType, c1.code, 0, c1.opt);
    var c2 := ICMPPack(c, ipf).icmp;
    PackICMPHeaderLayout(c2.icmpType, c2.code, c2.hdrChksum, c2.opt);
  }

  /** The parts of a packet made of a 20-byte IP header, an 8-byte ICMP
      header and a payload. */
  lemma {:induction false} MessageParts(o: seq<Byte>, iph: seq<Byte>, hdr: seq<Byte>, payload: seq<Byte>)
    requires |iph| == 20 && |hdr| == 8 && o == iph + (hdr + payload)
    ensures |o| == 28 + |payload| && o[..20] == iph && o[20..28] == hdr && o[28..] == payload
    ensures o[20..] == hdr + payload && o[20] == hdr[0] && o[21] == hdr[1]
  {
  }

  /** What a successful `pack` returns and leaves behind: the IP header the
      IP layer packs for `8 + len(payload)` bytes, then type, code, the
      checksum of the header with a zero checksum field followed by the
      payload, the option word, then the payload; only the checksum field
      of the ICMP fields changes. */
  lemma {:induction false} ICMPPackOutput(c: ICMPFields, ipf: IPFields)
    requires ICMPPack(c, ipf).out.Success?
    ensures SerializeMessage(c.(hdrChksum := 0)).Success?
    ensures IPPack(ipf, 8 + |c.payload|).out.Success?
    ensures var draft := SerializeMessage(c.(hdrChksum := 0)).value;
      var k := Checksum(draft + c.payload);
      var s := ICMPPack(c, ipf);
      var o := s.out.value;
      && |draft| == 8 && Be16(draft, 2) == 0
      && |o| == 28 + |c.payload| && o[..20] == IPPack(ipf, 8 + |c.payload|).out.value
      && o[20] == c.icmpType && o[21] == c.code
      && Be16(o[20..28], 2) == k && Be32(o[20..28], 4) == c.opt && o[28..] == c.payload
      && o[20..] == draft[..2] + U16(k) + draft[4..] + c.payload
      && s.icmp == c.(hdrChksum := k) && s.ip == IPPack(ipf, 8 + |c.payload|).state
  {
    ICMPPackNeeds(c, ipf);
    ICMPPackSucceeded(c, ipf);
    var draft := SerializeMessage(c.(hdrChksum := 0)).value;
    var k := Checksum(draft + c.payload);
    var n := 8 + |c.payload|;
    var hdr := draft[..2] + U16(k) + draft[4..];
    PackICMPHeaderLayout(c.icmpType, c.code, k, c.opt);
    MessageSplice(c.(hdrChksum := 0), c.(hdrChksum := k));
    IPPackLength(ipf, n);
    MessageParts(ICMPPack(c, ipf).out.value, IPPack(ipf, n).out.value, hdr, c.payload);
  }

  /** The IP header of the packet: the IP layer's protocol, and a total
      length of its header length plus `8 + len(payload)`. */
  lemma {:induction false} ICMPPacketIPHeader(c: ICMPFields, ipf: IPFields)
    requires ICMPPack(c, ipf).out.Success?
    ensures var o := ICMPPack(c, ipf).out.value;
      |o| >= 20 && o[9] == ipf.protocol && Be16(o, 2) == ipf.hdrLen * 4 + 8 + |c.payload|
  {
    var n := 8 + |c.payload|;
    ICMPPackNeeds(c, ipf);
    ICMPPackSucceeded(c, ipf);
    IPPackOutput(ipf, n);
    var o := ICMPPack(c, ipf).out.value;
    var iph := IPPack(ipf, n).out.value;
    assert o[..20] == iph;
    IPHeaderPrefix(o, iph);
  }

  /** Self-verification: for an even-length payload the emitted message
      checksums to 0. (For an odd length the front-aligned padding of the
      checksum puts the checksum field on an odd boundary of the words it
      sums.) */
  lemma {:induction false} ICMPSelfVerifies(c: ICMPFields, ipf: IPFields)
    requires ICMPPack(c, ipf).out.Success? && |c.payload| % 2 == 0
    ensures Checksum(ICMPPack(c, ipf).out.value[20..]) == 0
  {
    ICMPPackOutput(c, ipf);
    MessageSelfVerifies(SerializeMessage(c.(hdrChksum := 0)).value, c.payload);
  }

  /** Writing the checksum of an 8-byte header with a zero checksum field
      and an even-length payload into that field makes header and payload
      checksum to 0. */
  lemma {:induction false} MessageSelfVerifies(draft: seq<Byte>, payload: seq<Byte>)
    requires |draft| == 8 && Be16(draft, 2) == 0 && |payload| % 2 == 0
    ensures Checksum(draft[..2] + U16(Checksum(draft + payload)) + draft[4..] + payload) == 0
  {
    var s := draft[4..] + payload;
    var k := Checksum(draft + payload);
    assert draft[2] == 0 && draft[3] == 0;
    assert draft + payload == draft[..2] + [0, 0] + s by {
      assert draft == draft[..2] + [0, 0] + draft[4..];
    }
    ChecksumSelfVerifies(draft[..2], s);
    assert draft[..2] + U16(k) + s == draft[..2] + U16(k) + draft[4..] + payload;
  }

  /** Packing again without changing any field succeeds again, keeps the
      ICMP fields (the same checksum is written), and gives a packet that
      differs from the previous one only in the IP id (bytes 4-5) and the
      IP checksum (bytes 10-11). */
  lemma {:induction false} ICMPRepack(c: ICMPFields, ipf: IPFields)
    requires ICMPPack(c, ipf).out.Success?
    ensures var s := ICMPPack(c, ipf);
      && ICMPPack(s.icmp, s.ip).out.Success?
      && ICMPPack(s.icmp, s.ip).icmp == s.icmp
      && var o1 := s.out.value;
         var o2 := ICMPPack(s.icmp, s.ip).out.value;
         && |o2| == |o1|
         && o2[..4] == o1[..4] && o2[6..10] == o1[6..10] && o2[12..] == o1[12..]
  {
    var s := ICMPPack(c, ipf);
    var n := 8 + |c.payload|;
    ICMPPackNeeds(c, ipf);
    ICMPPackSucceeded(c, ipf);
    IPRepack(ipf, n);
    var c1 := c.(hdrChksum := 0);
    assert s.icmp.(hdrChksum := 0) == c1;
    ICMPPackSucceeded(s.icmp, s.ip);
    var draft := SerializeMessage(c1).value;
    var k := Checksum(draft + c.payload);
    var rest := (draft[..2] + U16(k) + draft[4..]) + c.payload;
    SameAfterIPHeader(s.out.value, ICMPPack(s.icmp, s.ip).out.value,
                      IPPack(ipf, n).out.value, IPPack(s.ip, n).out.value, rest);
  }

  /** The fields of a fresh generator after the IP address setters:
      defaults except for the message type, code, payload and addresses.
      The type is an enumeration value and so fits a byte; `__init__` and
      the setters accept any code and address. */
  predicate FreshMessage(c: ICMPFields, ipf: IPFields)
  {
    && c == ICMPFields(c.icmpType, c.code, 0, 0, c.payload)
    && c.icmpType <= MAX8
    && ipf == Defaults(Icmp).(srcIp := ipf.srcIp, dstIp := ipf.dstIp)
  }

  /** The packet of a fresh generator: it packs exactly when the code fits a
      byte, the addresses 32 bits and the packet the IP total length, and
      then carries protocol 1 and a total length of `28 + len(payload)`. */
  lemma {:induction false} DefaultMessage(c: ICMPFields, ipf: IPFields)
    requires FreshMessage(c, ipf)
    ensures ICMPPack(c, ipf).out.Success?
        <==> c.code <= MAX8 && ipf.srcIp <= MAX32 && ipf.dstIp <= MAX32 && |c.payload| <= MAX16 - 28
    ensures ICMPPack(c, ipf).out.Success? ==>
      var o := ICMPPack(c, ipf).out.value;
      |o| >= 20 && o[9] == 1 && Be16(o, 2) == 28 + |c.payload|
  {
    assert ipf.hdrLen == 5 && ipf.protocol == 1;
    ICMPPackSucceeds(c, ipf);
    if ICMPPack(c, ipf).out.Success? {
      ICMPPacketIPHeader(c, ipf);
    }
  }

  // ------------------------------------------------------------------
  // Ping
  // ------------------------------------------------------------------

  /** `b'ABCDEFGHIJKLMNOPQRSTUVWXYZ'`, the default echo payload. */
  const DefaultPingMessage: seq<Byte> := seq(26, i requires 0 <= i < 26 => 0x41 + i)

  /** The payload `Ping.__init__` makes of `message`: a space (0x20)
      appended when the length is odd. */
  function PingPayload(message: seq<Byte>): seq<Byte>
  {
    if |message| % 2 != 0 then message + [0x20] else message
  }

  /** The payload is the shortest even-length extension of the message,
      padded with spaces: the message is kept as its prefix, at most one
      byte is added, and that byte is a space. */
  lemma {:induction false} PingPayloadEven(message: seq<Byte>)
    ensures var p := PingPayload(message);
      && |p| % 2 == 0 && |message| <= |p| <= |message| + 1 && p[..|message|] == message
      && (forall i :: |message| <= i < |p| ==> p[i] == 0x20)
      && (|message| % 2 == 0 <==> p == message)
  {
  }

  /** The default message is 26 bytes, so it is sent unpadded. */
  lemma {:induction false} DefaultPingPayload()
    ensures |DefaultPingMessage| == 26 && PingPayload(DefaultPingMessage) == DefaultPingMessage
    ensures DefaultPingMessage[0] == 0x41 && DefaultPingMessage[25] == 0x5A
  {
  }

  /** The ICMP fields `Ping.__init__(message)` leaves, with the random
      identifier `id`: an echo request with code 0 and the identifier in
      the upper half of the option word, sequence number 0. */
  function PingDefaults(id: nat, message: seq<Byte>): ICMPFields
  {
    ICMPDefaults(EchoRequest, PingPayload(message), 0).(opt := id * 0x1_0000)
  }

  /** `Ping.pack()`: add 1 to the whole option word, then pack. */
  function PingPack(c: ICMPFields, ipf: IPFields): ICMPOutcome
  {
    ICMPPack(c.(opt := c.opt + 1), ipf)
  }

  /** The ICMP and IP fields after `n` calls of `Ping.pack()`. */
  function PingRun(c: ICMPFields, ipf: IPFields, n: nat): (ICMPFields, IPFields)
    decreases n
  {
    if n == 0 then (c, ipf)
    else
      var prev := PingRun(c, ipf, n - 1);
      var s := PingPack(prev.0, prev.1);
      (s.icmp, s.ip)
  }

  /** After `n` packs the option word has grown by exactly `n` and nothing
      but it and the checksum has changed. */
  lemma {:induction false} PingRunCounter(c: ICMPFields, ipf: IPFields, n: nat)
    ensures var r := PingRun(c, ipf, n).0;
      r == c.(opt := c.opt + n, hdrChksum := r.hdrChksum)
    decreases n
  {
    if n > 0 {
      PingRunCounter(c, ipf, n - 1);
      var prev := PingRun(c, ipf, n - 1);
      PingPackFrame(prev.0, prev.1);
      assert PingRun(c, ipf, n).0 == PingPack(prev.0, prev.1).icmp;
    }
  }

  /** One `Ping.pack()` changes only the option word, by one, and the
      checksum. */
  lemma {:induction false} PingPackFrame(c: ICMPFields, ipf: IPFields)
    ensures var r := PingPack(c, ipf).icmp;
      r == c.(opt := c.opt + 1, hdrChksum := r.hdrChksum)
  {
    ICMPPackFrame(c.(opt := c.opt + 1), ipf);
  }

  /** The `n`-th packet of a Ping with identifier `id` (n >= 1): an echo
      request with code 0 whose option word is `(id << 16) + n`; its upper
      half is `id` plus the carry out of the sequence number (which does not
      wrap), its lower half is n modulo 0x10000; the message checksums to 0.
      The pack fails once the option word exceeds 32 bits. */
  lemma {:induction false} PingNthPacket(id: nat, message: seq<Byte>, ipf: IPFields, n: nat)
    requires id < MAX16 && n >= 1
    ensures var prev := PingRun(PingDefaults(id, message), ipf, n - 1);
      var s := PingPack(prev.0, prev.1);
      && (id * 0x1_0000 + n > MAX32 ==> s.out.Failure?)
      && (s.out.Success? ==>
          var o := s.out.value;
          && EchoPacket(o, |PingPayload(message)|, id * 0x1_0000 + n)
          && Be16(o[20..28], 4) == id + n / 0x1_0000
          && Be16(o[20..28], 6) == n % 0x1_0000)
  {
    var prev := PingRun(PingDefaults(id, message), ipf, n - 1);
    PingNthState(id, message, ipf, n);
    PingPackOutput(prev.0, prev.1);
    var s := PingPack(prev.0, prev.1);
    if s.out.Success? {
      OptionHalves(id, n, s.out.value[20..28]);
    }
  }

  /** Before the `n`-th pack a Ping holds an even-length echo request with
      code 0 whose option word is `(id << 16) + n - 1`. */
  lemma {:induction false} PingNthState(id: nat, message: seq<Byte>, ipf: IPFields, n: nat)
    requires n >= 1
    ensures var c := PingRun(PingDefaults(id, message), ipf, n - 1).0;
      && c.icmpType == 8 && c.code == 0 && |c.payload| % 2 == 0
      && c.payload == PingPayload(message) && c.opt + 1 == id * 0x1_0000 + n
  {
    PingRunCounter(PingDefaults(id, message), ipf, n - 1);
    PingPayloadEven(message);
  }

  /** An echo-request packet: a 20-byte IP header, then type 8, code 0, the
      option word `word` in bytes 4-7 of the message, and a payload of
      `payloadLen` bytes; the message checksums to 0. */
  predicate EchoPacket(o: seq<Byte>, payloadLen: nat, word: nat)
  {
    && |o| == 28 + payloadLen && o[20] == 8 && o[21] == 0
    && Be32(o[20..28], 4) == word && Checksum(o[20..]) == 0
  }

  /** One `Ping.pack()` of an even-length echo request: the option word
      grows by one; the pack fails when it no longer fits 32 bits; a packet
      carries type 8, code 0 and the new option word, and its message
      checksums to 0. */
  lemma {:induction false} PingPackOutput(c: ICMPFields, ipf: IPFields)
    requires c.icmpType == 8 && c.code == 0 && |c.payload| % 2 == 0
    ensures var s := PingPack(c, ipf);
      && s.icmp.opt == c.opt + 1
      && (c.opt + 1 > MAX32 ==> s.out.Failure?)
      && (s.out.Success? ==> EchoPacket(s.out.value, |c.payload|, c.opt + 1))
  {
    var c1 := c.(opt := c.opt + 1);
    assert PingPack(c, ipf) == ICMPPack(c1, ipf);
    ICMPPackFrame(c1, ipf);
    if c1.opt > MAX32 {
      ICMPPackSucceeds(c1, ipf);
    } else if ICMPPack(c1, ipf).out.Success? {
      ICMPPackOutput(c1, ipf);
      ICMPSelfVerifies(c1, ipf);
    }
  }

  /** The two 16-bit halves of a word holding `(id << 16) + n`. */
  lemma {:induction false} OptionHalves(id: nat, n: nat, w: seq<Byte>)
    requires |w| == 8 && Be32(w, 4) == id * 0x1_0000 + n
    ensures Be16(w, 4) == id + n / 0x1_0000 && Be16(w, 6) == n % 0x1_0000
  {
    var hi, lo := Be16(w, 4), Be16(w, 6);
    assert lo <= MAX16;
    assert n == (n / 0x1_0000) * 0x1_0000 + n % 0x1_0000;
    assert (hi - id - n / 0x1_0000) * 0x1_0000 == n % 0x1_0000 - lo;
  }

  // ------------------------------------------------------------------
  // The builders
  // ------------------------------------------------------------------

  /** The ICMP message builder; `ip` is the IP layer it inherits from in the
      source. */
  class ICMPGenerator {
    var icmpType: nat
    var code: nat
    var hdrChksum: nat
    var opt: nat
    var payload: seq<Byte>
    const ip: IPGenerator

    function Fields(): ICMPFields
      reads this
    {
      ICMPFields(icmpType, code, hdrChksum, opt, payload)
    }

    /** `__init__(type_, payload, code=0)`: the message fields, and an IP
        layer for protocol 1 (ICMP). */
    constructor (kind: ICMPType, payloadBytes: seq<Byte>, initCode: nat := 0)
      ensures Fields() == ICMPDefaults(kind, payloadBytes, initCode)
      ensures fresh(ip) && ip.Fields() == Defaults(Icmp)
    {
      icmpType := kind.Value();
      code := initCode;
      hdrChksum := 0;
      opt := 0;
      payload := payloadBytes;
      ip := new IPGenerator(Icmp);
    }

    /** `pack()`. */
    method Pack() returns (out: Result<seq<Byte>>)
      modifies this, ip
      ensures Fields() == ICMPPack(old(Fields()), old(ip.Fields())).icmp
      ensures ip.Fields() == ICMPPack(old(Fields()), old(ip.Fields())).ip
      ensures out == ICMPPack(old(Fields()), old(ip.Fields())).out
    {
      hdrChksum := 0;
      var chksumData := PackICMPHeader(icmpType, code, hdrChksum, opt);
      if chksumData.Failure? {
        out := Failure(chksumData.error);
      } else {
        hdrChksum := Chksum(chksumData.value + payload);
        var icmpData := PackICMPHeader(icmpType, code, hdrChksum, opt).value + payload;
        var ipData := ip.Pack(|icmpData|);
        if ipData.Failure? {
          out := Failure(ipData.error);
        } else {
          out := Success(ipData.value + icmpData);
        }
      }
    }
  }

  /** The echo-request sender; `icmp` is the ICMP builder it inherits from
      in the source. */
  class Ping {
    const icmp: ICMPGenerator

    /** `__init__(message)`, the random identifier given as `id`, which the
        source draws below 0xFFFF. */
    constructor (id: nat, message: seq<Byte> := DefaultPingMessage)
      requires id < MAX16
      ensures fresh(icmp) && fresh(icmp.ip)
      ensures icmp.Fields() == PingDefaults(id, message)
      ensures icmp.ip.Fields() == Defaults(Icmp)
    {
      var m := message;
      if |m| % 2 != 0 {
        m := m + [0x20];
      }
      var g := new ICMPGenerator(EchoRequest, m);
      g.opt := id * 0x1_0000;
      icmp := g;
    }

    /** `pack()`: advance the sequence number, then pack the message. */
    method Pack() returns (out: Result<seq<Byte>>)
      modifies icmp, icmp.ip
      ensures icmp.Fields() == PingPack(old(icmp.Fields()), old(icmp.ip.Fields())).icmp
      ensures icmp.ip.Fields() == PingPack(old(icmp.Fields()), old(icmp.ip.Fields())).ip
      ensures out == PingPack(old(icmp.Fields()), old(icmp.ip.Fields())).out
    {
      ghost var c := icmp.Fields();
      ghost var ipf := icmp.ip.Fields();
      icmp.opt := icmp.opt + 1;
      assert icmp.Fields() == c.(opt := c.opt + 1) && icmp.ip.Fields() == ipf;
      out := icmp.Pack();
    }
  }
}
