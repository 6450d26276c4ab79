/** The AUTOSAR E2E Profile 7 header in front of every RDI, SHII and SPI payload. */
module E2e {
  import opened Bytes
  import opened Crc64
  import opened Gf2
  import opened Polynomial

  const HEADER_SIZE: nat := 20
  const OFFSET_LENGTH: nat := 8
  const OFFSET_COUNTER: nat := 12
  const OFFSET_DATA_ID: nat := 16

  const DATA_ID_RDI: U32 := 0x60008002
  const DATA_ID_SHII: U32 := 0x60008003
  const DATA_ID_SPI: U32 := 0x60008004

  datatype Header = Header(crc: U64, length: U32, counter: U32, dataId: U32)

  datatype Status = Ok | CrcMismatch | TooShort

  /**
   * The run-time parameters validate_e2e and e2e_strict as they are read for one payload. The strict one is
   * read for the checksum and again for length and data id, and may change in between.
   */
  datatype Flags = Flags(validate: bool, strict: bool, strictAgain: bool)

  // What remains of a payload once its E2E header is taken off.
  datatype Stripped = Stripped(iso: seq<Byte>, header: Header)

  function HeaderOf(buf: seq<Byte>): Header
    requires |buf| >= HEADER_SIZE
  {
    Header(UnpackBe64(buf, 0), UnpackBe32(buf, OFFSET_LENGTH), UnpackBe32(buf, OFFSET_COUNTER),
           UnpackBe32(buf, OFFSET_DATA_ID))
  }

  /** e2e_parse. */
  function Parse(buf: seq<Byte>): Option<Header> {
    if |buf| < HEADER_SIZE then None else Some(HeaderOf(buf))
  }

  function StatusOf(buf: seq<Byte>): Status {
    if |buf| < HEADER_SIZE then TooShort
    else if Crc(buf[OFFSET_LENGTH..]) == HeaderOf(buf).crc then Ok
    else CrcMismatch
  }

  /** e2e_validate: the checksum covers everything after its own field. */
  method Validate(buf: seq<Byte>) returns (status: Status, out: Option<Header>)
    ensures status == StatusOf(buf) && out == Parse(buf)
  {
    out := Parse(buf);
    if out.None? {
      return TooShort, None;
    }
    var raw := Update(ALL_ONES, buf[OFFSET_LENGTH..]);
    var crc := Xor64(raw, ALL_ONES);
    status := if crc == out.value.crc then Ok else CrcMismatch;
  }

  // Length and data id as the receiver expects them.
  predicate MetadataOk(buf: seq<Byte>, expectedId: U32)
    requires |buf| >= HEADER_SIZE
  {
    HeaderOf(buf).length == |buf| - HEADER_SIZE && HeaderOf(buf).dataId == expectedId
  }

  predicate Rejected(flags: Flags, buf: seq<Byte>, expectedId: U32) {
    || |buf| < HEADER_SIZE
    || (flags.strict && flags.validate && StatusOf(buf) == CrcMismatch)
    || (flags.strictAgain && !MetadataOk(buf, expectedId))
  }

  function Consumed(flags: Flags, buf: seq<Byte>, expectedId: U32): Option<Stripped> {
    if Rejected(flags, buf, expectedId) then None else Some(Stripped(buf[HEADER_SIZE..], HeaderOf(buf)))
  }

  /** consume_e2e_header, branch by branch. */
  method Consume(flags: Flags, payload: seq<Byte>, expectedId: U32) returns (r: Option<Stripped>)
    ensures r == Consumed(flags, payload, expectedId)
  {
    if |payload| < HEADER_SIZE {
      return None;
    }
    var status, e2e := Ok, None;
    if flags.validate {
      status, e2e := Validate(payload);
    } else {
      e2e := Parse(payload);
      if e2e.None? {
        status := TooShort;
      }
    }
    if status == TooShort {
      return None;
    }
    var isoLen := |payload| - HEADER_SIZE;
    var metadataOk := true;
    if e2e.value.length != isoLen {
      metadataOk := false;
    }
    if e2e.value.dataId != expectedId {
      metadataOk := false;
    }
    if status == CrcMismatch {
      if flags.strict {
        return None;
      }
    }
    if !metadataOk && flags.strictAgain {
      return None;
    }
    r := Some(Stripped(payload[HEADER_SIZE..], e2e.value));
  }

  // ----- The sender's side -----

  function Covered(counter: U32, dataId: U32, iso: seq<Byte>): (p: seq<Byte>)
    requires |iso| < 0x1_0000_0000
    ensures |p| == 12 + |iso|
  {
    PackBe32(|iso|) + PackBe32(counter) + PackBe32(dataId) + iso
  }

  /** The protected payload a sensor sends. */
  function Protect(counter: U32, dataId: U32, iso: seq<Byte>): (p: seq<Byte>)
    requires |iso| < 0x1_0000_0000
    ensures |p| == HEADER_SIZE + |iso|
  {
    PackBe64(Crc(Covered(counter, dataId, iso))) + Covered(counter, dataId, iso)
  }

  lemma CoveredFields(counter: U32, dataId: U32, iso: seq<Byte>)
    requires |iso| < 0x1_0000_0000
    ensures var c := Covered(counter, dataId, iso);
            UnpackBe32(c, 0) == |iso| && UnpackBe32(c, 4) == counter && UnpackBe32(c, 8) == dataId && c[12..] == iso
  {
    var c := Covered(counter, dataId, iso);
    assert c[0..4] == PackBe32(|iso|) && c[4..8] == PackBe32(counter) && c[8..12] == PackBe32(dataId);
    Be32RoundTrip(c, 0, |iso|);
    Be32RoundTrip(c, 4, counter);
    Be32RoundTrip(c, 8, dataId);
  }

  lemma ProtectFields(counter: U32, dataId: U32, iso: seq<Byte>)
    requires |iso| < 0x1_0000_0000
    ensures var p := Protect(counter, dataId, iso);
            HeaderOf(p) == Header(Crc(p[OFFSET_LENGTH..]), |iso|, counter, dataId) && p[HEADER_SIZE..] == iso
  {
    var p, c := Protect(counter, dataId, iso), Covered(counter, dataId, iso);
    assert p[8..] == c && p[20..] == c[12..];
    assert p[0..8] == PackBe64(Crc(c));
    CoveredFields(counter, dataId, iso);
    Be64RoundTrip(p, 0, Crc(c));
  }

  /** A protected payload is accepted under any flags and yields the ISO payload that went in. */
  lemma ProtectAccepted(flags: Flags, counter: U32, dataId: U32, iso: seq<Byte>)
    requires |iso| < 0x1_0000_0000
    ensures var p := Protect(counter, dataId, iso);
            StatusOf(p) == Ok && Consumed(flags, p, dataId) == Some(Stripped(iso, HeaderOf(p)))
  {
    ProtectFields(counter, dataId, iso);
  }

  // ----- What strictness means -----

  const ALL_ON := Flags(true, true, true)

  // The same validation, and strict wherever the other is.
  predicate AtLeastAsStrict(a: Flags, b: Flags) {
    a.validate == b.validate && (b.strict ==> a.strict) && (b.strictAgain ==> a.strictAgain)
  }

  /**
   * With all flags on, a payload gets through exactly when checksum, length and data id all match;
   * strictness only ever removes payloads, never changes one.
   */
  lemma StrictIsARestriction(a: Flags, b: Flags, buf: seq<Byte>, expectedId: U32)
    requires AtLeastAsStrict(a, b)
    ensures Consumed(ALL_ON, buf, expectedId).Some? <==> StatusOf(buf) == Ok && MetadataOk(buf, expectedId)
    ensures Consumed(a, buf, expectedId).Some? ==> Consumed(a, buf, expectedId) == Consumed(b, buf, expectedId)
  {
  }

  /** Where every header field lies, as a number. */
  lemma HeaderLayout(buf: seq<Byte>)
    requires |buf| >= 20
    ensures HeaderOf(buf).crc == BeNumber(buf[0..8]) && HeaderOf(buf).length == BeNumber(buf[8..12])
    ensures HeaderOf(buf).counter == BeNumber(buf[12..16]) && HeaderOf(buf).dataId == BeNumber(buf[16..20])
  {
    Be64IsNumber(buf, 0);
    Be32IsNumber(buf, 8);
    Be32IsNumber(buf, 12);
    Be32IsNumber(buf, 16);
  }

  /**
   * What gets through, for every payload and all flags, in terms of its bytes: the checksum counts only
   * while validating and strict, length and data id only while strict, and nothing else but the size does.
   */
  lemma AcceptedExactly(flags: Flags, buf: seq<Byte>, expectedId: U32)
    ensures Consumed(flags, buf, expectedId).Some? <==>
              && |buf| >= 20
              && (flags.validate && flags.strict ==> Crc(buf[8..]) == BeNumber(buf[0..8]))
              && (flags.strictAgain ==> BeNumber(buf[8..12]) == |buf| - 20 && BeNumber(buf[16..20]) == expectedId)
    ensures Consumed(flags, buf, expectedId).Some? ==>
              Consumed(flags, buf, expectedId) == Some(Stripped(buf[20..], HeaderOf(buf)))
  {
    if |buf| >= 20 { HeaderLayout(buf); }
  }

  /** With strictness off everything long enough gets through, damaged or not, validated or not. */
  lemma LenientAccepts(validate: bool, buf: seq<Byte>, expectedId: U32)
    requires |buf| >= 20
    ensures Consumed(Flags(validate, false, false), buf, expectedId) == Some(Stripped(buf[20..], HeaderOf(buf)))
  {
    AcceptedExactly(Flags(validate, false, false), buf, expectedId);
  }

  /** Without validation the checksum field decides nothing. */
  lemma UnvalidatedIgnoresChecksum(flags: Flags, p: seq<Byte>, q: seq<Byte>, expectedId: U32)
    requires !flags.validate && |p| == |q| >= 20 && p[8..] == q[8..]
    ensures Consumed(flags, p, expectedId).Some? <==> Consumed(flags, q, expectedId).Some?
  {
    AcceptedExactly(flags, p, expectedId);
    AcceptedExactly(flags, q, expectedId);
    assert p[8..12] == p[8..][0..4] && p[16..20] == p[8..][8..12];
    assert q[8..12] == q[8..][0..4] && q[16..20] == q[8..][8..12];
  }

  /** A change of the strict flag between its two readings gives the verdict of before or of after, no third one. */
  lemma ReadingsInBetween(validate: bool, a: bool, b: bool, buf: seq<Byte>, expectedId: U32)
    ensures var r := Consumed(Flags(validate, a, b), buf, expectedId);
            || r == Consumed(Flags(validate, a, a), buf, expectedId)
            || r == Consumed(Flags(validate, b, b), buf, expectedId)
  {
  }

  // The covered bytes of `buf` and `bad` agree outside `n` message bits from `from`.
  ghost predicate CoveredAgreeOutside(buf: seq<Byte>, bad: seq<Byte>, from: nat, n: nat)
    requires |buf| == |bad| >= HEADER_SIZE
  {
    AgreeOutside(buf[OFFSET_LENGTH..], bad[OFFSET_LENGTH..], from, n)
  }

  /** Corrupting an accepted payload within 64 consecutive covered bits is always reported. */
  lemma CoveredBurstCaught(buf: seq<Byte>, bad: seq<Byte>, from: nat)
    requires StatusOf(buf) == Ok && |bad| == |buf| && bad != buf
    requires bad[..OFFSET_LENGTH] == buf[..OFFSET_LENGTH] && CoveredAgreeOutside(buf, bad, from, 64)
    ensures StatusOf(bad) == CrcMismatch
  {
    var c, d := buf[OFFSET_LENGTH..], bad[OFFSET_LENGTH..];
    assert buf == buf[..OFFSET_LENGTH] + c && bad == bad[..OFFSET_LENGTH] + d;
    BurstDetected(c, d, from);
    FieldLocal(buf, bad);
  }

  /** So is any corruption of the checksum field itself. */
  lemma ChecksumFieldCaught(buf: seq<Byte>, bad: seq<Byte>)
    requires StatusOf(buf) == Ok && |bad| == |buf| && bad != buf
    requires bad[OFFSET_LENGTH..] == buf[OFFSET_LENGTH..]
    ensures StatusOf(bad) == CrcMismatch
  {
    assert buf == buf[..OFFSET_LENGTH] + buf[OFFSET_LENGTH..] && bad == bad[..OFFSET_LENGTH] + bad[OFFSET_LENGTH..];
    if UnpackBe64(buf, 0) == UnpackBe64(bad, 0) {
      Be64Injective(buf, bad);
    }
  }

  /** The covered bytes with the checksum field behind them, as one polynomial. */
  function CodewordOf(buf: seq<Byte>): (c: Bits)
    requires |buf| >= HEADER_SIZE
    ensures |c| == 8 * |buf|
  {
    Codeword(buf[OFFSET_LENGTH..], HeaderOf(buf).crc)
  }

  /**
   * Exactly which alterations of an accepted payload, anywhere in it, field and covered bytes alike,
   * still validate: those that add a multiple of the generator to its codeword.
   */
  lemma AlteredValidIffMultiple(buf: seq<Byte>, bad: seq<Byte>)
    requires StatusOf(buf) == Ok && |bad| == |buf|
    ensures StatusOf(bad) == Ok
       <==> exists q: Bits :: |q| == 8 * |buf| - 64 && Times(q, GENERATOR) == Xor(CodewordOf(buf), CodewordOf(bad))
  {
    CodewordIffMultiple(buf[OFFSET_LENGTH..], bad[OFFSET_LENGTH..], HeaderOf(bad).crc);
  }

  lemma OddCodeword(buf: seq<Byte>)
    requires |buf| >= HEADER_SIZE
    ensures Odd(CodewordOf(buf)) <==> Odd(BitsOfBytes(buf))
  {
    var field, covered := buf[..OFFSET_LENGTH], buf[OFFSET_LENGTH..];
    Be64Bits(buf);
    OddBackwards(field);
    OddAdds(BitsOfBytes(covered), Reg(HeaderOf(buf).crc));
    assert buf == field + covered;
    BitsOfBytesAdds(field, covered);
    OddAdds(BitsOfBytes(field), BitsOfBytes(covered));
  }

  /** Altering an odd number of bits of an accepted payload, wherever they are, is always reported. */
  lemma OddChangeCaught(buf: seq<Byte>, bad: seq<Byte>)
    requires StatusOf(buf) == Ok && |bad| == |buf|
    requires Odd(Xor(BitsOfBytes(buf), BitsOfBytes(bad)))
    ensures StatusOf(bad) == CrcMismatch
  {
    AlteredValidIffMultiple(buf, bad);
    if StatusOf(bad) == Ok {
      var q: Bits :| |q| == 8 * |buf| - 64 && Times(q, GENERATOR) == Xor(CodewordOf(buf), CodewordOf(bad));
      GeneratorIsOdd();
      MultipleIsEven(q, GENERATOR);
      OddXor(CodewordOf(buf), CodewordOf(bad));
      OddXor(BitsOfBytes(buf), BitsOfBytes(bad));
      OddCodeword(buf);
      OddCodeword(bad);
      assert false;
    }
  }

  lemma FieldLocal(p: seq<Byte>, q: seq<Byte>)
    requires |p| >= 8 && |q| >= 8 && p[..8] == q[..8]
    ensures UnpackBe64(p, 0) == UnpackBe64(q, 0)
  {
    assert forall i :: 0 <= i < 8 ==> p[i] == p[..8][i] && q[i] == q[..8][i];
  }

  lemma Be32Injective(p: seq<Byte>, q: seq<Byte>, at: nat)
    requires at + 4 <= |p| && at + 4 <= |q| && UnpackBe32(p, at) == UnpackBe32(q, at)
    ensures p[at..at + 4] == q[at..at + 4]
  {
    var a: nat, b: nat, c: nat, d: nat := p[at], p[at + 1], p[at + 2], p[at + 3];
    var a': nat, b': nat, c': nat, d': nat := q[at], q[at + 1], q[at + 2], q[at + 3];
    assert a == a' && b == b' && c == c' && d == d';
  }

  lemma Be64Injective(p: seq<Byte>, q: seq<Byte>)
    requires |p| >= 8 && |q| >= 8 && UnpackBe64(p, 0) == UnpackBe64(q, 0)
    ensures p[..8] == q[..8]
  {
    Be32Injective(p, q, 0);
    Be32Injective(p, q, 4);
    assert p[..8] == p[0..4] + p[4..8] && q[..8] == q[0..4] + q[4..8];
  }
}
