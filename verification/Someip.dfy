/** SOME/IP and SOME/IP-TP headers. */
module Someip {
  import opened Bytes

  const HEADER_SIZE: nat := 16
  const TP_HEADER_SIZE: nat := 4
  const TP_FLAG: nat := 0x20
  const SERVICE_ID: U16 := 0x6000
  const MSG_TYPE_NOTIFICATION: nat := 0x02

  const EVENT_RDI: U16 := 0x8002
  const EVENT_SHII: U16 := 0x8003
  const EVENT_SPI: U16 := 0x8004

  datatype Header = Header(serviceId: U16, methodId: U16, length: U32, clientId: U16, sessionId: U16,
                           protocolVersion: Byte, interfaceVersion: Byte, messageType: Byte, returnCode: Byte)

  /** someip_deserialize: big-endian message id, length and request id, then four single bytes. */
  function Deserialize(buf: seq<Byte>): Option<Header> {
    if |buf| < HEADER_SIZE then None
    else
      var messageId, requestId := UnpackBe32(buf, 0), UnpackBe32(buf, 8);
      Some(Header(messageId / 0x1_0000, messageId % 0x1_0000, UnpackBe32(buf, 4),
                  requestId / 0x1_0000, requestId % 0x1_0000, buf[12], buf[13], buf[14], buf[15]))
  }

  /** someip_validate: our service, and a notification once the upper three type bits are masked off. */
  predicate Valid(h: Header) {
    h.serviceId == SERVICE_ID && h.messageType % 0x20 == MSG_TYPE_NOTIFICATION
  }

  predicate IsTp(messageType: Byte) {
    messageType / TP_FLAG % 2 == 1
  }

  datatype TpHeader = TpHeader(offset: U32, more: bool)

  lemma WholeUnits(raw: nat)
    ensures raw / 16 * 16 <= raw && raw / 16 * 16 % 16 == 0
  {
  }

  /** someip_tp_deserialize: the offset counts 16-byte units in the upper 28 bits. */
  function TpDeserialize(buf: seq<Byte>, at: nat): (h: TpHeader)
    requires at + 4 <= |buf|
    ensures h.offset % 16 == 0
  {
    var raw := UnpackBe32(buf, at);
    WholeUnits(raw);
    TpHeader(raw / 16 * 16, raw % 2 == 1)
  }

  // ----- The sender's side -----

  function Serialize(h: Header): (p: seq<Byte>)
    ensures |p| == HEADER_SIZE
  {
    PackBe32(h.serviceId * 0x1_0000 + h.methodId) + PackBe32(h.length) + PackBe32(h.clientId * 0x1_0000 + h.sessionId)
    + [h.protocolVersion, h.interfaceVersion, h.messageType, h.returnCode]
  }

  function TpSerialize(h: TpHeader): (p: seq<Byte>)
    requires h.offset % 16 == 0
    ensures |p| == TP_HEADER_SIZE
  {
    PackBe32(h.offset + if h.more then 1 else 0)
  }

  lemma PairSplit(hi: U16, lo: U16)
    ensures (hi * 0x1_0000 + lo) / 0x1_0000 == hi && (hi * 0x1_0000 + lo) % 0x1_0000 == lo
  {
  }

  lemma HeaderRoundTrip(h: Header, rest: seq<Byte>)
    ensures Deserialize(Serialize(h) + rest) == Some(h)
  {
    var p := Serialize(h) + rest;
    var m, r := h.serviceId * 0x1_0000 + h.methodId, h.clientId * 0x1_0000 + h.sessionId;
    assert p[0..4] == PackBe32(m) && p[4..8] == PackBe32(h.length) && p[8..12] == PackBe32(r);
    PairSplit(h.serviceId, h.methodId);
    PairSplit(h.clientId, h.sessionId);
    Be32RoundTrip(p, 0, m);
    Be32RoundTrip(p, 4, h.length);
    Be32RoundTrip(p, 8, r);
  }

  lemma UnitsOf(units: nat, flag: nat)
    requires flag < 2
    ensures (16 * units + flag) / 16 == units
  {
  }

  lemma Parity(half: nat, flag: nat)
    requires flag < 2
    ensures (2 * half + flag) % 2 == flag
  {
  }

  lemma TpHeaderRoundTrip(h: TpHeader, a: seq<Byte>, b: seq<Byte>)
    requires h.offset % 16 == 0
    ensures TpDeserialize(a + TpSerialize(h) + b, |a|) == h
  {
    var flag := if h.more then 1 else 0;
    HeldAfter(a, TpSerialize(h), b);
    Be32RoundTrip(a + TpSerialize(h) + b, |a|, h.offset + flag);
    UnitsOf(h.offset / 16, flag);
    Parity(h.offset / 2, flag);
  }

  // ----- The headers as numbers -----

  /** Where every header field lies; anything of 16 bytes or more has a header. */
  lemma HeaderLayout(buf: seq<Byte>)
    requires |buf| >= 16
    ensures Deserialize(buf).Some?
    ensures var h := Deserialize(buf).value;
            && h.serviceId == BeNumber(buf[0..2]) && h.methodId == BeNumber(buf[2..4])
            && h.length == BeNumber(buf[4..8])
            && h.clientId == BeNumber(buf[8..10]) && h.sessionId == BeNumber(buf[10..12])
            && h.protocolVersion == buf[12] && h.interfaceVersion == buf[13]
            && h.messageType == buf[14] && h.returnCode == buf[15]
  {
    Be32Halves(buf, 0);
    Be32IsNumber(buf, 4);
    Be32Halves(buf, 8);
  }

  /** The offset is the TP word without its lowest four bits, and the lowest of those the more flag. */
  lemma TpHeaderLayout(buf: seq<Byte>, at: nat)
    requires at + 4 <= |buf|
    ensures var word := BeNumber(buf[at..at + 4]);
            TpDeserialize(buf, at).offset == word - word % 16 && (TpDeserialize(buf, at).more <==> word % 2 == 1)
  {
    Be32IsNumber(buf, at);
  }

  /** Ours is what carries service 0x6000 and type 2 below the upper three bits; of those the lowest is the TP flag. */
  lemma ValidExactly(h: Header)
    ensures Valid(h) <==> h.serviceId == 0x6000 && h.messageType % 32 == 2
    ensures IsTp(h.messageType) <==> h.messageType % 64 >= 32
  {
    assert h.messageType / 32 % 2 == h.messageType % 64 / 32;
  }
}
