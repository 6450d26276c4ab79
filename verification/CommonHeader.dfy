/** The 24-byte common interface header that opens every RDI, SHII and SPI payload. */
module CommonHeader {
  import opened Bytes

  const SIZE: nat := 24

  datatype Common = Common(major: Byte, minor: Byte, patch: Byte, interfaceId: Byte, numServingSensors: Byte,
                           sensorId: Byte, timestamp: U64, messageCounter: U32, cycleTime: U32,
                           cycleTimeVariation: Byte, dataQualifier: Byte)

  function CommonOf(p: seq<Byte>): Common
    requires |p| >= SIZE
  {
    Common(p[0], p[1], p[2], p[3], p[4], p[5], UnpackLe64(p, 6), UnpackLe32(p, 14), UnpackLe32(p, 18), p[22], p[23])
  }

  function CommonBytes(c: Common): (p: seq<Byte>)
    ensures |p| == SIZE
  {
    [c.major, c.minor, c.patch, c.interfaceId, c.numServingSensors, c.sensorId]
    + PackLe64(c.timestamp) + PackLe32(c.messageCounter) + PackLe32(c.cycleTime)
    + [c.cycleTimeVariation, c.dataQualifier]
  }

  lemma CommonRoundTrip(p: seq<Byte>, c: Common)
    requires Holds(p, 0, CommonBytes(c))
    ensures CommonOf(p) == c
  {
    var b := CommonBytes(c);
    assert p[0..24] == b;
    assert b[6..14] == PackLe64(c.timestamp) && b[14..18] == PackLe32(c.messageCounter);
    assert b[18..22] == PackLe32(c.cycleTime);
    HeldPart(p, 0, b, 6, 14);
    HeldPart(p, 0, b, 14, 18);
    HeldPart(p, 0, b, 18, 22);
    Le64RoundTrip(p, 6, c.timestamp);
    Le32RoundTrip(p, 14, c.messageCounter);
    Le32RoundTrip(p, 18, c.cycleTime);
    HeldEnds(p, c);
  }

  lemma HeldEnds(p: seq<Byte>, c: Common)
    requires Holds(p, 0, CommonBytes(c))
    ensures p[0] == c.major && p[1] == c.minor && p[2] == c.patch && p[3] == c.interfaceId
         && p[4] == c.numServingSensors && p[5] == c.sensorId
         && p[22] == c.cycleTimeVariation && p[23] == c.dataQualifier
  {
    var b := CommonBytes(c);
    forall i | 0 <= i < 24 ensures p[i] == b[i] { HeldByte(p, 0, b, i); }
  }

  lemma {:induction false} CommonInverse(p: seq<Byte>)
    requires |p| >= SIZE
    ensures CommonBytes(CommonOf(p)) == p[..SIZE]
  {
    Le64Inverse(p, 6);
    Le32Inverse(p, 14);
    Le32Inverse(p, 18);
    assert p[..24] == p[..6] + p[6..14] + p[14..18] + p[18..22] + p[22..24];
  }

  /** Where every field lies, as a number. */
  lemma CommonLayout(p: seq<Byte>)
    requires |p| >= 24
    ensures var c := CommonOf(p);
            && c.major == p[0] && c.minor == p[1] && c.patch == p[2] && c.interfaceId == p[3]
            && c.numServingSensors == p[4] && c.sensorId == p[5] && c.timestamp == LeNumber(p[6..14])
            && c.messageCounter == LeNumber(p[14..18]) && c.cycleTime == LeNumber(p[18..22])
            && c.cycleTimeVariation == p[22] && c.dataQualifier == p[23]
  {
    Le64IsNumber(p, 6);
    Le32IsNumber(p, 14);
    Le32IsNumber(p, 18);
  }
}
