/** The SHII and SPI datagram paths: never segmented, one E2E check, one parser each. */
module SideStreams {
  import opened Bytes
  import Someip
  import E2e
  import Shii
  import Spi

  // The payload behind a valid header of the wanted event; the TP flag is not looked at.
  function PayloadFor(event: U16, d: seq<Byte>): Option<seq<Byte>> {
    match Someip.Deserialize(d)
    case None => None
    case Some(h) => if Someip.Valid(h) && h.methodId == event then Some(d[Someip.HEADER_SIZE..]) else None
  }

  /** Exactly a notification of the wanted event has a payload, and it is what follows the 16 header bytes. */
  lemma PayloadExactly(event: U16, h: Someip.Header, body: seq<Byte>)
    ensures PayloadFor(event, Someip.Serialize(h) + body)
         == if h.serviceId == 0x6000 && h.methodId == event && h.messageType % 32 == 2 then Some(body) else None
  {
    Someip.HeaderRoundTrip(h, body);
    Someip.ValidExactly(h);
    assert (Someip.Serialize(h) + body)[16..] == body;
  }

  function IsoFor(flags: E2e.Flags, event: U16, dataId: U32, d: seq<Byte>): Option<seq<Byte>> {
    match PayloadFor(event, d)
    case None => None
    case Some(p) => match E2e.Consumed(flags, p, dataId) case None => None case Some(s) => Some(s.iso)
  }

  method ReceiveIso(flags: E2e.Flags, event: U16, dataId: U32, d: seq<Byte>) returns (iso: Option<seq<Byte>>)
    ensures iso == IsoFor(flags, event, dataId, d)
  {
    if |d| < Someip.HEADER_SIZE {
      return None;
    }
    var hdr := Someip.Deserialize(d);
    if hdr.None? || !Someip.Valid(hdr.value) {
      return None;
    }
    if hdr.value.methodId != event {
      return None;
    }
    var stripped := E2e.Consume(flags, d[Someip.HEADER_SIZE..], dataId);
    if stripped.None? {
      return None;
    }
    return Some(stripped.value.iso);
  }

  function ShiDelivered(flags: E2e.Flags, d: seq<Byte>): Option<Shii.Message> {
    match IsoFor(flags, Someip.EVENT_SHII, E2e.DATA_ID_SHII, d)
    case None => None
    case Some(iso) => match Shii.Decoded(iso) case None => None case Some(w) => Some(Shii.MessageOf(w))
  }

  function SpiDelivered(flags: E2e.Flags, d: seq<Byte>): Option<Spi.Message> {
    match IsoFor(flags, Someip.EVENT_SPI, E2e.DATA_ID_SPI, d)
    case None => None
    case Some(iso) => match Spi.Decoded(iso) case None => None case Some(w) => Some(Spi.MessageOf(w))
  }

  lemma IsoExactly(flags: E2e.Flags, event: U16, dataId: U32, h: Someip.Header, body: seq<Byte>)
    ensures IsoFor(flags, event, dataId, Someip.Serialize(h) + body)
         == if && h.serviceId == 0x6000 && h.methodId == event && h.messageType % 32 == 2
               && E2e.Consumed(flags, body, dataId).Some?
            then Some(body[20..]) else None
  {
    PayloadExactly(event, h, body);
    E2e.AcceptedExactly(flags, body, dataId);
  }

  /** Which datagrams deliver an SHII message, and which: service, event, type, E2E and format in one condition. */
  lemma ShiExactly(flags: E2e.Flags, h: Someip.Header, body: seq<Byte>, msg: Shii.Message)
    ensures ShiDelivered(flags, Someip.Serialize(h) + body) == Some(msg) <==>
              && h.serviceId == 0x6000 && h.methodId == 0x8003 && h.messageType % 32 == 2
              && E2e.Consumed(flags, body, 0x6000_8003).Some?
              && Shii.Decoded(body[20..]).Some? && msg == Shii.MessageOf(Shii.Decoded(body[20..]).value)
  {
    IsoExactly(flags, 0x8003, 0x6000_8003, h, body);
  }

  /** And an SPI message likewise. */
  lemma SpiExactly(flags: E2e.Flags, h: Someip.Header, body: seq<Byte>, msg: Spi.Message)
    ensures SpiDelivered(flags, Someip.Serialize(h) + body) == Some(msg) <==>
              && h.serviceId == 0x6000 && h.methodId == 0x8004 && h.messageType % 32 == 2
              && E2e.Consumed(flags, body, 0x6000_8004).Some?
              && Spi.Decoded(body[20..]).Some? && msg == Spi.MessageOf(Spi.Decoded(body[20..]).value)
  {
    IsoExactly(flags, 0x8004, 0x6000_8004, h, body);
  }

  method ProcessShiDatagram(flags: E2e.Flags, d: seq<Byte>) returns (msg: Option<Shii.Message>)
    ensures msg == ShiDelivered(flags, d)
  {
    var iso := ReceiveIso(flags, Someip.EVENT_SHII, E2e.DATA_ID_SHII, d);
    if iso.None? {
      return None;
    }
    msg := Shii.Parse(iso.value);
  }

  method ProcessSpiDatagram(flags: E2e.Flags, d: seq<Byte>) returns (msg: Option<Spi.Message>)
    ensures msg == SpiDelivered(flags, d)
  {
    var iso := ReceiveIso(flags, Someip.EVENT_SPI, E2e.DATA_ID_SPI, d);
    if iso.None? {
      return None;
    }
    msg := Spi.Parse(iso.value);
  }

  function Notification(event: U16, length: U32, session: U16): Someip.Header {
    Someip.Header(Someip.SERVICE_ID, event, length, 1, session, 1, 1, 0x02, 0)
  }

  lemma NotificationPayload(event: U16, length: U32, session: U16, p: seq<Byte>)
    ensures PayloadFor(event, Someip.Serialize(Notification(event, length, session)) + p) == Some(p)
  {
    Someip.HeaderRoundTrip(Notification(event, length, session), p);
    assert (Someip.Serialize(Notification(event, length, session)) + p)[16..] == p;
  }

  lemma ProtectedIso(flags: E2e.Flags, event: U16, dataId: U32, counter: U32, length: U32, session: U16, iso: seq<Byte>)
    requires |iso| < 0x1_0000_0000
    ensures var d := Someip.Serialize(Notification(event, length, session)) + E2e.Protect(counter, dataId, iso);
            IsoFor(flags, event, dataId, d) == Some(iso)
  {
    E2e.ProtectAccepted(flags, counter, dataId, iso);
    NotificationPayload(event, length, session, E2e.Protect(counter, dataId, iso));
  }

  /** A protected SHII message in a notification is delivered, its arrays cut to what the driver stores. */
  lemma ShiEndToEnd(flags: E2e.Flags, counter: U32, length: U32, session: U16, w: Shii.Wire)
    requires Shii.Sendable(w) && |Shii.Encode(w)| < 0x1_0000_0000
    ensures var p := E2e.Protect(counter, E2e.DATA_ID_SHII, Shii.Encode(w));
            var d := Someip.Serialize(Notification(Someip.EVENT_SHII, length, session)) + p;
            ShiDelivered(flags, d) == Some(Shii.MessageOf(w))
  {
    ProtectedIso(flags, Someip.EVENT_SHII, E2e.DATA_ID_SHII, counter, length, session, Shii.Encode(w));
    Shii.DecodesEncoded(w, [], Shii.Encode(w));
  }

  /** And a protected SPI message likewise. */
  lemma SpiEndToEnd(flags: E2e.Flags, counter: U32, length: U32, session: U16, w: Spi.Wire)
    requires Spi.Sendable(w) && |Spi.Encode(w)| < 0x1_0000_0000
    ensures var p := E2e.Protect(counter, E2e.DATA_ID_SPI, Spi.Encode(w));
            var d := Someip.Serialize(Notification(Someip.EVENT_SPI, length, session)) + p;
            SpiDelivered(flags, d) == Some(Spi.MessageOf(w))
  {
    var iso := Spi.Encode(w);
    ProtectedIso(flags, Someip.EVENT_SPI, E2e.DATA_ID_SPI, counter, length, session, iso);
    assert iso + [] == iso;
    Spi.DecodesEncoded(w, [], iso);
  }
}
