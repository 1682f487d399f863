/** The IPv4 header builder (ip_generator.py): thirteen header fields, packed
    by `pack` into the 20-byte layout of section 3.1 of RFC 791 with
    `struct.pack('!BBHHBBBBHLL', …)`. */
module IP {
  import opened Bits
  import opened Bytes
  import opened InternetChecksum
  import opened Constants

  /** The `ip_*` attributes of an IPGenerator. Each is a Python int: nothing
      bounds a field until `pack` serialises it. */
  datatype IPFields = IPFields(
    version: nat, hdrLen: nat, dscp: nat, ecn: nat, totalLen: nat, id: nat,
    flag: nat, fragOffset: nat, ttl: nat, protocol: nat, hdrChksum: nat,
    srcIp: nat, dstIp: nat)

  /** The attributes `__init__` gives a generator for `protocol`. */
  function Defaults(protocol: IPProtocol): IPFields
  {
    IPFields(4, 5, 0, 0, 0, 1, 2, 0, 255, protocol.Value(), 0, 0, 0)
  }

  // ------------------------------------------------------------------
  // Serialisation
  // ------------------------------------------------------------------

  /** `(ip_version << 4) | ip_hdr_len`, the first byte. */
  function VersionIhl(version: nat, hdrLen: nat): nat
  {
    Or(Shl(version, 4), hdrLen)
  }

  /** `(ip_dscp << 2) | ip_ecn`, the second byte. */
  function DscpEcn(dscp: nat, ecn: nat): nat
  {
    Or(Shl(dscp, 2), ecn)
  }

  /** `(ip_flag << 5) | (ip_frag_offset >> 8)`, the seventh byte. */
  function FlagsFragHigh(flag: nat, fragOffset: nat): nat
  {
    Or(Shl(flag, 5), Shr(fragOffset, 8))
  }

  /** `ip_frag_offset & 0xff`, the eighth byte. */
  function FragLow(fragOffset: nat): nat
  {
    fragOffset % 0x100
  }

  /** `struct.pack('!BBHHBBBBHLL', …)`: one byte, one byte, two 16-bit words,
      four bytes, a 16-bit word and two 32-bit words, big-endian; a value too
      large for its code raises `struct.error`. */
  function PackHeader(b0: nat, b1: nat, totalLen: nat, id: nat, b6: nat, b7: nat,
                      ttl: nat, protocol: nat, chk: nat, src: nat, dst: nat): Result<seq<Byte>>
  {
    if b0 <= MAX8 && b1 <= MAX8 && totalLen <= MAX16 && id <= MAX16 && b6 <= MAX8
       && b7 <= MAX8 && ttl <= MAX8 && protocol <= MAX8 && chk <= MAX16
       && src <= MAX32 && dst <= MAX32
    then
      var front: seq<Byte> := [b0, b1];
      var middle: seq<Byte> := [b6, b7, ttl, protocol];
      Success(front + U16(totalLen) + U16(id) + middle + U16(chk) + U32(src) + U32(dst))
    else
      Failure(FieldOutOfRange)
  }

  /** The layout of a packed header: 20 bytes, each value at its offset. */
  lemma {:induction false} PackHeaderLayout(b0: nat, b1: nat, totalLen: nat, id: nat, b6: nat, b7: nat,
                                            ttl: nat, protocol: nat, chk: nat, src: nat, dst: nat)
    requires PackHeader(b0, b1, totalLen, id, b6, b7, ttl, protocol, chk, src, dst).Success?
    ensures var r := PackHeader(b0, b1, totalLen, id, b6, b7, ttl, protocol, chk, src, dst).value;
      && |r| == 20
      && r[0] == b0 && r[1] == b1
      && Be16(r, 2) == totalLen && Be16(r, 4) == id
      && r[6] == b6 && r[7] == b7 && r[8] == ttl && r[9] == protocol
      && Be16(r, 10) == chk && Be32(r, 12) == src && Be32(r, 16) == dst
  {
    var r := PackHeader(b0, b1, totalLen, id, b6, b7, ttl, protocol, chk, src, dst).value;
    U16Value(totalLen);
    U16Value(id);
    U16Value(chk);
    U32Value(src);
    U32Value(dst);
    assert r[2..4] == U16(totalLen) && r[4..6] == U16(id) && r[10..12] == U16(chk);
    assert r[12..16] == U32(src) && r[16..20] == U32(dst);
    assert Be16(r, 2) == Be16(r[2..4], 0) && Be16(r, 4) == Be16(r[4..6], 0);
    assert Be16(r, 10) == Be16(r[10..12], 0);
    assert Be32(r, 12) == Be32(r[12..16], 0) && Be32(r, 16) == Be32(r[16..20], 0);
  }

  /** The header the fields serialise to, as both packs in `pack` compute it. */
  function Serialize(f: IPFields): Result<seq<Byte>>
  {
    PackHeader(VersionIhl(f.version, f.hdrLen), DscpEcn(f.dscp, f.ecn), f.totalLen, f.id,
               FlagsFragHigh(f.flag, f.fragOffset), FragLow(f.fragOffset), f.ttl, f.protocol,
               f.hdrChksum, f.srcIp, f.dstIp)
  }

  /** The widths for which `struct.pack` accepts the fields. A sub-byte
      field may exceed its own width as long as the byte it is OR-ed into
      stays below 0x100. */
  predicate FieldsFit(f: IPFields)
  {
    && f.version < 16 && f.hdrLen <= MAX8 && f.dscp < 64 && f.ecn <= MAX8
    && f.totalLen <= MAX16 && f.id <= MAX16 && f.flag < 8 && f.fragOffset <= MAX16
    && f.ttl <= MAX8 && f.protocol <= MAX8 && f.hdrChksum <= MAX16
    && f.srcIp <= MAX32 && f.dstIp <= MAX32
  }

  /** Every field within the bit width of RFC 791. */
  predicate WithinWidths(f: IPFields)
  {
    && f.version < 16 && f.hdrLen < 16 && f.dscp < 64 && f.ecn < 4
    && f.totalLen <= MAX16 && f.id <= MAX16 && f.flag < 8 && f.fragOffset < 0x2000
    && f.ttl <= MAX8 && f.protocol <= MAX8 && f.hdrChksum <= MAX16
    && f.srcIp <= MAX32 && f.dstIp <= MAX32
  }

  /** Reads the fields back out of a header by the bit ranges of RFC 791. */
  function ParseHeader(h: seq<Byte>): IPFields
    requires |h| == 20
  {
    IPFields(h[0] / 16, h[0] % 16, h[1] / 4, h[1] % 4, Be16(h, 2), Be16(h, 4),
             h[6] / 32, (h[6] as nat % 32) * 0x100 + h[7], h[8], h[9], Be16(h, 10),
             Be32(h, 12), Be32(h, 16))
  }

  // ------------------------------------------------------------------
  // pack
  // ------------------------------------------------------------------

  /** The id advance of `pack`: one more below 0xFFFF, otherwise back to 1. */
  function NextId(id: nat): (r: nat)
    ensures r >= 1
    ensures id <= MAX16 ==> r <= MAX16
    ensures r == id + 1 || r == 1
  {
    if id < 0xFFFF then id + 1 else 1
  }

  /** The fields after a call of `pack`, and what it returns. */
  datatype IPOutcome = IPOutcome(state: IPFields, out: Result<seq<Byte>>)

  /** The fields after the first two steps of `pack(payloadLen)`. */
  function Prepared(f: IPFields, payloadLen: nat): IPFields
  {
    f.(totalLen := f.hdrLen * 4 + payloadLen, hdrChksum := 0)
  }

  /** `pack(payloadLen)`: set the total length, zero the checksum, serialise,
      checksum that serialisation, advance the id, serialise again. A failed
      serialisation ends the call with the changes made so far. */
  function IPPack(f: IPFields, payloadLen: nat): IPOutcome
  {
    var f1 := Prepared(f, payloadLen);
    match Serialize(f1)
    case Failure(e) => IPOutcome(f1, Failure(e))
    case Success(draft) =>
      var f2 := f1.(hdrChksum := Checksum(draft), id := NextId(f1.id));
      IPOutcome(f2, Serialize(f2))
  }

  // ------------------------------------------------------------------
  // Properties of the serialisation
  // ------------------------------------------------------------------

  /** `struct.pack` accepts the fields exactly when they fit FieldsFit: an OR
      of two operands fits a byte exactly when both do. */
  lemma {:induction false} SerializeSucceeds(f: IPFields)
    ensures Serialize(f).Success? <==> FieldsFit(f)
  {
    Pow2Values();
    OrBelow(Shl(f.version, 4), f.hdrLen, 8);
    OrBelow(Shl(f.dscp, 2), f.ecn, 8);
    OrBelow(Shl(f.flag, 5), Shr(f.fragOffset, 8), 8);
  }

  /** With each field inside its RFC 791 width the ORs do not overlap: every
      packed byte is the plain positional sum of its fields. */
  lemma {:induction false} PackedBytes(f: IPFields)
    requires f.hdrLen < 16 && f.ecn < 4 && f.fragOffset < 0x2000
    ensures VersionIhl(f.version, f.hdrLen) == f.version * 16 + f.hdrLen
    ensures DscpEcn(f.dscp, f.ecn) == f.dscp * 4 + f.ecn
    ensures FlagsFragHigh(f.flag, f.fragOffset) == f.flag * 32 + f.fragOffset / 0x100
  {
    Pow2Values();
    OrDisjoint(f.version, 4, f.hdrLen);
    OrDisjoint(f.dscp, 2, f.ecn);
    ShrByte(f.fragOffset);
    OrDisjoint(f.flag, 5, f.fragOffset / 0x100);
  }

  /** Round trip: fields within their widths serialise, and reading the bit
      ranges of the header back gives the same fields. */
  lemma {:induction false} SerializeRoundTrip(f: IPFields)
    requires WithinWidths(f)
    ensures Serialize(f).Success? && ParseHeader(Serialize(f).value) == f
  {
    PackedBytes(f);
    SerializeSucceeds(f);
    var h := Serialize(f).value;
    assert h[0] / 16 == f.version && h[0] % 16 == f.hdrLen;
    assert h[1] / 4 == f.dscp && h[1] % 4 == f.ecn;
    assert h[6] / 32 == f.flag && (h[6] as nat % 32) * 0x100 + h[7] == f.fragOffset;
  }

  /** Over-wide sub-byte fields are not rejected but OR into their
      neighbours: ECN 4 reads as DSCP 1, and fragment offset 0x2000 sets the
      low bit of the flags. Two worked instances of SerializeBleeds below. */
  lemma {:induction false} OverwideFieldsBleed(p: IPProtocol)
    ensures Serialize(Defaults(p).(ecn := 4)) == Serialize(Defaults(p).(dscp := 1))
    ensures Serialize(Defaults(p).(fragOffset := 0x2000)) == Serialize(Defaults(p).(flag := 3))
  {
    Pow2Values();
    OrZeroLeft(4);
    OrZeroRight(4);
    assert DscpEcn(0, 4) == DscpEcn(1, 0);
    ShrByte(0x2000);
    ShrByte(0);
    OrDisjoint(1, 6, 32);
    OrZeroRight(96);
    assert FlagsFragHigh(2, 0x2000) == FlagsFragHigh(3, 0);
  }

  /** `(ip_version << 4) | ip_hdr_len` with a header length of 16 or more:
      the nibbles above the low one land in the version nibble. */
  lemma {:induction false} VersionIhlBleeds(version: nat, hdrLen: nat)
    ensures VersionIhl(version, hdrLen) == VersionIhl(Or(version, hdrLen / 16), hdrLen % 16)
  {
    Pow2Values();
    OrShift4(version, hdrLen);
    OrDisjoint(Or(version, hdrLen / 16), 4, hdrLen % 16);
  }

  /** `(ip_dscp << 2) | ip_ecn` with an ECN of 4 or more: the bits above the
      low two land in the DSCP. */
  lemma {:induction false} DscpEcnBleeds(dscp: nat, ecn: nat)
    ensures DscpEcn(dscp, ecn) == DscpEcn(Or(dscp, ecn / 4), ecn % 4)
  {
    Pow2Values();
    OrShift2(dscp, ecn);
    OrDisjoint(Or(dscp, ecn / 4), 2, ecn % 4);
  }

  /** Bytes 6 and 7 with a fragment offset of 0x2000 or more: the bits above
      the low thirteen land in the flags. */
  lemma {:induction false} FlagsFragBleeds(flag: nat, fragOffset: nat)
    ensures FlagsFragHigh(flag, fragOffset)
         == FlagsFragHigh(Or(flag, fragOffset / 0x2000), fragOffset % 0x2000)
    ensures FragLow(fragOffset) == FragLow(fragOffset % 0x2000)
  {
    var lo := fragOffset % 0x2000;
    var g := Or(flag, fragOffset / 0x2000);
    Pow2Values();
    ShrByte(fragOffset);
    ShrByte(lo);
    FragDigits(fragOffset);
    assert Shl(flag, 5) == 32 * flag;
    assert FlagsFragHigh(flag, fragOffset) == Or(32 * flag, fragOffset / 0x100);
    OrShift5(flag, fragOffset / 0x100);
    assert FlagsFragHigh(flag, fragOffset) == 32 * g + lo / 0x100;
    assert FlagsFragHigh(g, lo) == Or(Shl(g, 5), lo / 0x100);
    OrDisjoint(g, 5, lo / 0x100);
    assert g * Pow2(5) == 32 * g;
  }

  /** The bytes of the 13-bit field: the high byte of `x`, split at bit 5,
      and the low byte. */
  lemma {:induction false} FragDigits(x: nat)
    ensures x / 0x100 / 32 == x / 0x2000
    ensures x / 0x100 % 32 == x % 0x2000 / 0x100
    ensures x % 0x100 == x % 0x2000 % 0x100
  {
    var q, r := x / 0x2000, x % 0x2000;
    assert x == q * 0x2000 + r;
    assert x / 0x100 == q * 32 + r / 0x100;
  }

  /** The fields a header reads back as: the high bits of an over-wide header
      length, ECN or fragment offset have been OR-ed into the version, the
      DSCP or the flags. */
  function Bled(f: IPFields): IPFields
  {
    f.(version := Or(f.version, f.hdrLen / 16), hdrLen := f.hdrLen % 16,
       dscp := Or(f.dscp, f.ecn / 4), ecn := f.ecn % 4,
       flag := Or(f.flag, f.fragOffset / 0x2000), fragOffset := f.fragOffset % 0x2000)
  }

  /** The general law behind over-wide fields: any fields `struct.pack`
      accepts serialise exactly as `Bled(f)` does, `Bled(f)` is within the
      RFC 791 widths, and reading the header back gives `Bled(f)`. */
  lemma {:induction false} SerializeBleeds(f: IPFields)
    requires FieldsFit(f)
    ensures Serialize(f).Success? && Serialize(Bled(f)) == Serialize(f)
    ensures WithinWidths(Bled(f))
    ensures ParseHeader(Serialize(f).value) == Bled(f)
  {
    var g := Bled(f);
    VersionIhlBleeds(f.version, f.hdrLen);
    DscpEcnBleeds(f.dscp, f.ecn);
    FlagsFragBleeds(f.flag, f.fragOffset);
    SerializeSucceeds(f);
    Pow2Values();
    OrBelow(f.version, f.hdrLen / 16, 4);
    OrBelow(f.dscp, f.ecn / 4, 6);
    OrBelow(f.flag, f.fragOffset / 0x2000, 3);
    assert Pow2(3) == 8;
    assert WithinWidths(g);
    SerializeRoundTrip(g);
  }

  /** Two field sets that differ only in the id and the checksum serialise to
      headers that differ only in bytes 4-5 and 10-11. */
  lemma {:induction false} SerializeSplice(f: IPFields, g: IPFields)
    requires Serialize(f).Success?
    requires g == f.(id := g.id, hdrChksum := g.hdrChksum)
    requires g.id <= MAX16 && g.hdrChksum <= MAX16
    ensures var r := Serialize(f).value;
      Serialize(g) == Success(r[..4] + U16(g.id) + r[6..10] + U16(g.hdrChksum) + r[12..])
  {
    var front: seq<Byte> := [VersionIhl(f.version, f.hdrLen), DscpEcn(f.dscp, f.ecn)];
    var middle: seq<Byte> := [FlagsFragHigh(f.flag, f.fragOffset), FragLow(f.fragOffset), f.ttl, f.protocol];
    var tail := U32(f.srcIp) + U32(f.dstIp);
    var r := Serialize(f).value;
    assert r == front + U16(f.totalLen) + U16(f.id) + middle + U16(f.hdrChksum) + tail;
    assert r[..4] == front + U16(f.totalLen);
    assert r[6..10] == middle;
    assert r[12..] == tail;
    assert Serialize(g).Success?;
    assert Serialize(g).value == front + U16(f.totalLen) + U16(g.id) + middle + U16(g.hdrChksum) + tail;
  }

  /** A serialised header cut around its id and checksum words. */
  lemma {:induction false} SerializedWords(f: IPFields)
    requires Serialize(f).Success?
    ensures var r := Serialize(f).value;
      |r| == 20 && r == r[..4] + U16(f.id) + r[6..10] + U16(f.hdrChksum) + r[12..]
  {
    var r := Serialize(f).value;
    assert r[4..6] == U16(f.id) && r[10..12] == U16(f.hdrChksum);
    assert r == r[..4] + r[4..6] + r[6..10] + r[10..12] + r[12..];
  }

  // ------------------------------------------------------------------
  // Properties of pack
  // ------------------------------------------------------------------

  /** `pack(payloadLen)` succeeds exactly when the fields, with the new total
      length and a zero checksum, fit their struct codes; the second
      serialisation never fails where the first did not. */
  lemma {:induction false} IPPackSucceeds(f: IPFields, payloadLen: nat)
    ensures IPPack(f, payloadLen).out.Success? <==> FieldsFit(Prepared(f, payloadLen))
  {
    var f1 := Prepared(f, payloadLen);
    SerializeSucceeds(f1);
    if Serialize(f1).Success? {
      SerializeSucceeds(IPPack(f, payloadLen).state);
    }
  }

  /** A header `pack` returns is 20 bytes long. */
  lemma {:induction false} IPPackLength(f: IPFields, payloadLen: nat)
    requires IPPack(f, payloadLen).out.Success?
    ensures |IPPack(f, payloadLen).out.value| == 20
  {
    var f2 := IPPack(f, payloadLen).state;
    PackHeaderLayout(VersionIhl(f2.version, f2.hdrLen), DscpEcn(f2.dscp, f2.ecn), f2.totalLen, f2.id,
                     FlagsFragHigh(f2.flag, f2.fragOffset), FragLow(f2.fragOffset), f2.ttl, f2.protocol,
                     f2.hdrChksum, f2.srcIp, f2.dstIp);
  }

  /** The id after `pack`, and the fields it leaves alone: only the total
      length, the checksum and the id change; on success the id has advanced
      and lies in 1..0xFFFF, on failure it is untouched. */
  lemma {:induction false} IPPackState(f: IPFields, payloadLen: nat)
    ensures var s := IPPack(f, payloadLen).state;
      && s == f.(totalLen := s.totalLen, hdrChksum := s.hdrChksum, id := s.id)
      && s.totalLen == f.hdrLen * 4 + payloadLen
      && (IPPack(f, payloadLen).out.Success? ==> s.id == NextId(f.id) && 1 <= s.id <= MAX16)
      && (IPPack(f, payloadLen).out.Failure? ==> s.id == f.id && s.hdrChksum == 0)
  {
    var f1 := Prepared(f, payloadLen);
    if Serialize(f1).Success? {
      SerializeSucceeds(f1);
    }
  }

  /** The header `pack` returns: 20 bytes in the RFC 791 order; the total
      length in bytes 2-3; the ADVANCED id in bytes 4-5; in bytes 10-11 the
      checksum of the first serialisation, which carried the OLD id and a
      zero checksum; every other byte as in that first serialisation. */
  lemma {:induction false} IPPackOutput(f: IPFields, payloadLen: nat)
    requires IPPack(f, payloadLen).out.Success?
    ensures Serialize(Prepared(f, payloadLen)).Success?
    ensures var o := IPPack(f, payloadLen).out.value;
      var draft := Serialize(Prepared(f, payloadLen)).value;
      && |o| == 20 && |draft| == 20
      && o[0] == VersionIhl(f.version, f.hdrLen) && o[1] == DscpEcn(f.dscp, f.ecn)
      && Be16(o, 2) == f.hdrLen * 4 + payloadLen
      && Be16(o, 4) == NextId(f.id) && Be16(draft, 4) == f.id
      && o[6] == FlagsFragHigh(f.flag, f.fragOffset) && o[7] == FragLow(f.fragOffset)
      && o[8] == f.ttl && o[9] == f.protocol
      && Be16(o, 10) == Checksum(draft) && Be16(draft, 10) == 0
      && Be32(o, 12) == f.srcIp && Be32(o, 16) == f.dstIp
      && o == draft[..4] + U16(NextId(f.id)) + draft[6..10] + U16(Checksum(draft)) + draft[12..]
  {
    var f1 := Prepared(f, payloadLen);
    SerializeSucceeds(f1);
    SerializeSplice(f1, IPPack(f, payloadLen).state);
  }

  /** The mismatch `pack` reproduces: the checksum it writes is right for the
      header with the old id, which is never emitted; the header it emits
      checksums to 0xFFFE instead of 0, whatever the fields. */
  lemma {:induction false} EmittedChecksum(f: IPFields, payloadLen: nat)
    requires IPPack(f, payloadLen).out.Success?
    ensures var draft := Serialize(Prepared(f, payloadLen)).value;
      Checksum(draft[..10] + U16(Checksum(draft)) + draft[12..]) == 0
    ensures Checksum(IPPack(f, payloadLen).out.value) == 0xFFFE
  {
    IPPackOutput(f, payloadLen);
    var draft := Serialize(Prepared(f, payloadLen)).value;
    var front, middle, tail := draft[..4], draft[6..10], draft[12..];
    SerializedWords(Prepared(f, payloadLen));
    assert U16(0) == [0, 0];
    assert Res(NextId(f.id)) == Res(f.id + 1);
    ChecksumAfterIncrement(front, f.id, NextId(f.id), middle, tail);
    ChecksumSelfVerifies(draft[..10], tail);
    assert draft[..10] + [0, 0] + tail == draft;
  }

  /** The first header of a fresh generator whose addresses have been set to
      `src` and `dst`: 0x45 (version 4, five 32-bit words), DSCP and ECN 0,
      total length 20 + payloadLen, id 2 (the default 1 advanced before the
      second serialisation), flags 0x40 (don't fragment), TTL 255, the
      protocol's number and the two addresses. It succeeds exactly when the
      total length fits 16 bits and the addresses fit 32 bits. */
  lemma {:induction false} DefaultHeader(p: IPProtocol, src: nat, dst: nat, payloadLen: nat)
    ensures var d := Defaults(p).(srcIp := src, dstIp := dst);
      IPPack(d, payloadLen).out.Success? <==> payloadLen <= MAX16 - 20 && src <= MAX32 && dst <= MAX32
    ensures payloadLen <= MAX16 - 20 && src <= MAX32 && dst <= MAX32 ==>
      var d := Defaults(p).(srcIp := src, dstIp := dst);
      var o := IPPack(d, payloadLen).out.value;
      && o[0] == 0x45 && o[1] == 0 && Be16(o, 2) == 20 + payloadLen && Be16(o, 4) == 2
      && o[6] == 0x40 && o[7] == 0 && o[8] == 255 && o[9] == p.Value()
      && Be32(o, 12) == src && Be32(o, 16) == dst
      && IPPack(d, payloadLen).state.id == 2
  {
    var d := Defaults(p).(srcIp := src, dstIp := dst);
    IPPackSucceeds(d, payloadLen);
    if payloadLen <= MAX16 - 20 && src <= MAX32 && dst <= MAX32 {
      IPPackOutput(d, payloadLen);
      PackedBytes(d);
    }
  }

  /** Packing again without changing any field gives a header that differs
      from the previous one only in the id (bytes 4-5) and the checksum
      (bytes 10-11). */
  lemma {:induction false} IPRepack(f: IPFields, payloadLen: nat)
    requires IPPack(f, payloadLen).out.Success?
    ensures IPPack(IPPack(f, payloadLen).state, payloadLen).out.Success?
    ensures var o1 := IPPack(f, payloadLen).out.value;
      var o2 := IPPack(IPPack(f, payloadLen).state, payloadLen).out.value;
      |o1| == 20 && |o2| == 20 && o2[..4] == o1[..4] && o2[6..10] == o1[6..10] && o2[12..] == o1[12..]
  {
    var g := IPPack(f, payloadLen).state;
    IPPackState(f, payloadLen);
    assert Prepared(g, payloadLen) == Prepared(f, payloadLen).(id := g.id);
    IPPackSucceeds(f, payloadLen);
    IPPackSucceeds(g, payloadLen);
    IPPackState(g, payloadLen);
    SerializeSplice(g, IPPack(g, payloadLen).state);
    var o1 := IPPack(f, payloadLen).out.value;
    var o2 := IPPack(g, payloadLen).out.value;
    assert o1 == Serialize(g).value;
  }

  // ------------------------------------------------------------------
  // A header inside a packet
  // ------------------------------------------------------------------

  /** The IP header's protocol and total length, read in the whole packet. */
  lemma {:induction false} IPHeaderPrefix(o: seq<Byte>, iph: seq<Byte>)
    requires |iph| == 20 && |o| >= 20 && o[..20] == iph
    ensures o[9] == iph[9] && Be16(o, 2) == Be16(iph, 2)
  {
    assert o[9] == o[..20][9] && o[2] == o[..20][2] && o[3] == o[..20][3];
  }

  /** Two packets that share everything after a 20-byte IP header whose
      bytes agree outside 4-5 and 10-11 agree outside those bytes. */
  lemma {:induction false} SameAfterIPHeader(o1: seq<Byte>, o2: seq<Byte>, iph1: seq<Byte>, iph2: seq<Byte>,
                                             rest: seq<Byte>)
    requires |iph1| == 20 && |iph2| == 20 && o1 == iph1 + rest && o2 == iph2 + rest
    requires iph2[..4] == iph1[..4] && iph2[6..10] == iph1[6..10] && iph2[12..] == iph1[12..]
    ensures |o2| == |o1| && o2[..4] == o1[..4] && o2[6..10] == o1[6..10] && o2[12..] == o1[12..]
  {
    assert o1[..4] == iph1[..4] && o2[..4] == iph2[..4];
    assert o1[6..10] == iph1[6..10] && o2[6..10] == iph2[6..10];
    assert o1[12..] == iph1[12..] + rest && o2[12..] == iph2[12..] + rest;
  }

  /** The IP header builder. */
  class IPGenerator {
    var version: nat
    var hdrLen: nat
    var dscp: nat
    var ecn: nat
    var totalLen: nat
    var id: nat
    var flag: nat
    var fragOffset: nat
    var ttl: nat
    var protocol: nat
    var hdrChksum: nat
    var srcIp: nat
    var dstIp: nat

    function Fields(): IPFields
      reads this
    {
      IPFields(version, hdrLen, dscp, ecn, totalLen, id, flag, fragOffset, ttl,
               protocol, hdrChksum, srcIp, dstIp)
    }

    constructor (ipProtocol: IPProtocol)
      ensures Fields() == Defaults(ipProtocol)
    {
      version := 4;
      hdrLen := 5;
      dscp := 0;
      ecn := 0;
      totalLen := 0;
      id := 1;
      flag := 2;
      fragOffset := 0;
      ttl := 255;
      protocol := ipProtocol.Value();
      hdrChksum := 0;
      srcIp := 0;
      dstIp := 0;
    }

    /** `set_src_ip`, given the address as the 32-bit integer that
        `ipaddress.IPv4Address` yields. */
    method SetSrcIp(addr: nat)
      requires addr <= MAX32
      modifies this
      ensures Fields() == old(Fields()).(srcIp := addr)
    {
      srcIp := addr;
    }

    /** `set_dst_ip`, given the address as a 32-bit integer. */
    method SetDstIp(addr: nat)
      requires addr <= MAX32
      modifies this
      ensures Fields() == old(Fields()).(dstIp := addr)
    {
      dstIp := addr;
    }

    /** `pack(payloadLen)`. */
    method Pack(payloadLen: nat) returns (out: Result<seq<Byte>>)
      modifies this
      ensures Fields() == IPPack(old(Fields()), payloadLen).state
      ensures out == IPPack(old(Fields()), payloadLen).out
    {
      ghost var f1 := Prepared(Fields(), payloadLen);
      totalLen := hdrLen * 4 + payloadLen;
      hdrChksum := 0;
      assert Fields() == f1;
      var b0 := VersionIhl(version, hdrLen);
      var b1 := DscpEcn(dscp, ecn);
      var b6 := FlagsFragHigh(flag, fragOffset);
      var b7 := FragLow(fragOffset);
      var draft := PackHeader(b0, b1, totalLen, id, b6, b7, ttl, protocol, hdrChksum, srcIp, dstIp);
      assert draft == Serialize(f1);
      if draft.Failure? {
        return Failure(draft.error);
      }
      hdrChksum := Chksum(draft.value);
      if id < 0xFFFF {
        id := id + 1;
      } else {
        id := 1;
      }
      assert Fields() == f1.(hdrChksum := Checksum(draft.value), id := NextId(f1.id));
      out := PackHeader(b0, b1, totalLen, id, b6, b7, ttl, protocol, hdrChksum, srcIp, dstIp);
    }
  }
}
