/**
 * The 188-byte MPEG transport packet and its decoder (ISO/IEC 13818-1, section 2.4.3.2 for the
 * header and sections 2.4.3.4-2.4.3.5 for the adaptation field). `ParsePacket` reads the buffer
 * from its position to its limit with explicit offsets in place of the ByteBuffer cursor.
 */
module MtsPacket {
  import opened Wrappers
  import opened NioUtils

  const PacketSize: nat := 188
  const TsMarker: byte := 0x47

  /** `x & mask != 0` for a single-bit mask. */
  predicate HasBit(x: int, mask: nat)
    requires mask > 0
  {
    (x / mask) % 2 == 1
  }

  /** A Java `byte` read with `ByteBuffer.get()`: the octet as a signed value. */
  function SignedByte(b: byte): (r: int)
    ensures -128 <= r < 128
    ensures (r + 256) % 256 == b
  {
    if b < 128 then b else b - 256
  }

  /** A Program Clock Reference: 33-bit base in 90 kHz units and a 9-bit extension. */
  datatype Pcr = Pcr(base: int, extension: int) {
    /**
     * PCR.getValue: the clock in 27 MHz ticks (section 2.4.2.2). For a base and an extension in
     * range the value is non-negative and gives both back.
     */
    function Value(): (v: int)
      ensures 0 <= base && 0 <= extension < 300 ==> 0 <= v && v / 300 == base && v % 300 == extension
    {
      base * 300 + extension
    }
  }

  /**
   * PCR.setValue: its body is not part of this model; what callers rely on is that the
   * value read back afterwards is the value set.
   */
  function PcrOfValue(v: int): (p: Pcr)
    ensures p.Value() == v
    ensures v >= 0 ==> 0 <= p.base && 0 <= p.extension < 300
  {
    Pcr(v / 300, v % 300)
  }

  /** Six octets read big-endian into a 48-bit number. */
  function Be48(b: seq<byte>): (r: int)
    requires |b| == 6
    ensures 0 <= r < 0x1_0000_0000_0000
  {
    (b[0] as int) * 0x100_0000_0000 + (b[1] as int) * 0x1_0000_0000 + (b[2] as int) * 0x100_0000
      + (b[3] as int) * 0x1_0000 + (b[4] as int) * 0x100 + (b[5] as int)
  }

  /** A PCR or OPCR field: base is bits 47..15, the six reserved bits 14..9 are ignored, extension is bits 8..0. */
  function DecodePcr(b: seq<byte>): (p: Pcr)
    requires |b| == 6
    ensures 0 <= p.base < 0x2_0000_0000
    ensures 0 <= p.extension < 512
    ensures p.Value() >= 0
  {
    var bits := Be48(b);
    Pcr(bits / 0x8000, bits % 0x200)
  }

  /** Reference encoder for a PCR field, with the reserved bits set to one. */
  function PcrBytes(base: int, extension: int): (b: seq<byte>)
    requires 0 <= base < 0x2_0000_0000 && 0 <= extension < 512
    ensures |b| == 6
  {
    var bits := base * 0x8000 + 0x7E00 + extension;
    [bits / 0x100_0000_0000, (bits / 0x1_0000_0000) % 0x100, (bits / 0x100_0000) % 0x100,
     (bits / 0x1_0000) % 0x100, (bits / 0x100) % 0x100, bits % 0x100]
  }

  lemma Be48OfBytes(bits: int)
    requires 0 <= bits < 0x1_0000_0000_0000
    ensures Be48([bits / 0x100_0000_0000, (bits / 0x1_0000_0000) % 0x100, (bits / 0x100_0000) % 0x100,
                  (bits / 0x1_0000) % 0x100, (bits / 0x100) % 0x100, bits % 0x100]) == bits
  {
    var q1 := bits / 0x100;
    var q2 := q1 / 0x100;
    var q3 := q2 / 0x100;
    var q4 := q3 / 0x100;
    var q5 := q4 / 0x100;
    assert bits / 0x1_0000 == q2;
    assert bits / 0x100_0000 == q3;
    assert bits / 0x1_0000_0000 == q4;
    assert bits / 0x100_0000_0000 == q5;
    assert bits == q1 * 0x100 + bits % 0x100;
    assert q1 == q2 * 0x100 + q1 % 0x100;
    assert q2 == q3 * 0x100 + q2 % 0x100;
    assert q3 == q4 * 0x100 + q3 % 0x100;
    assert q4 == q5 * 0x100 + q4 % 0x100;
  }

  lemma PcrFieldsOfBits(base: int, extension: int)
    requires 0 <= base && 0 <= extension < 512
    ensures (base * 0x8000 + 0x7E00 + extension) / 0x8000 == base
    ensures (base * 0x8000 + 0x7E00 + extension) % 0x200 == extension
  {
    var low := 0x7E00 + extension;
    assert 0 <= low < 0x8000;
    assert base * 0x8000 + 0x7E00 + extension == (base * 0x40 + 0x3F) * 0x200 + extension;
  }

  /** Decoding the reference encoding gives back base and extension: the PCR field round-trips. */
  lemma {:induction false} PcrRoundTrip(base: int, extension: int)
    requires 0 <= base < 0x2_0000_0000 && 0 <= extension < 512
    ensures DecodePcr(PcrBytes(base, extension)) == Pcr(base, extension)
  {
    var bits := base * 0x8000 + 0x7E00 + extension;
    Be48OfBytes(bits);
    assert Be48(PcrBytes(base, extension)) == bits;
    PcrFieldsOfBits(base, extension);
  }

  /** A clock value in range survives setValue, encoding and decoding. */
  lemma PcrValueRoundTrip(v: int)
    requires 0 <= v < 0x2_0000_0000 * 300
    ensures var p := PcrOfValue(v); DecodePcr(PcrBytes(p.base, p.extension)).Value() == v
  {
    var p := PcrOfValue(v);
    PcrRoundTrip(p.base, p.extension);
  }

  datatype AdaptationField = AdaptationField(
    discontinuityIndicator: bool,
    randomAccessIndicator: bool,
    elementaryStreamPriorityIndicator: bool,
    pcr: Option<Pcr>,                  // present exactly when the PCR flag is set
    opcr: Option<Pcr>,                 // present exactly when the OPCR flag is set
    splicingPointFlag: bool,
    transportPrivateDataFlag: bool,
    adaptationFieldExtensionFlag: bool,
    spliceCountdown: int)
  {
    predicate PcrFlag() { pcr.Some? }
    predicate OpcrFlag() { opcr.Some? }
  }

  /**
   * MTSPacket: header fields, the optional adaptation field, the bytes of the packet buffer
   * (`packet`) and where in them the payload view starts. The payload is null unless
   * `containsPayload`.
   */
  datatype Packet = Packet(
    transportErrorIndicator: bool,
    payloadUnitStartIndicator: bool,
    transportPriority: bool,
    pid: int,
    scramblingControl: int,
    adaptationFieldExist: bool,
    containsPayload: bool,
    continuityCounter: int,
    adaptationField: Option<AdaptationField>,
    packet: seq<byte>,
    payloadStart: nat)
  {
    predicate Valid() {
      payloadStart <= |packet|
    }

    function Payload(): seq<byte>
      requires Valid()
    {
      packet[payloadStart..]
    }

    /** The PCR carried in the adaptation field, if any. */
    function PcrValue(): Option<int> {
      if adaptationField.Some? && adaptationField.value.pcr.Some?
      then Some(adaptationField.value.pcr.value.Value())
      else None
    }
  }

  datatype ParseError = InvalidSyncByte | BufferUnderflow

  /** How many bytes `parsePacket` reads: the header, and the adaptation field's fixed-order optional fields. */
  function BytesRead(buf: seq<byte>): nat
    requires |buf| >= 4
  {
    if !HasBit(buf[3], 0x20) then 4
    else if |buf| < 6 then 6
    else
      6 + (if HasBit(buf[5], 0x10) then 6 else 0) + (if HasBit(buf[5], 0x08) then 6 else 0)
      + (if HasBit(buf[5], 0x04) then 1 else 0)
  }

  /** What every successfully parsed packet satisfies. */
  predicate WellFormed(p: Packet) {
    && p.Valid()
    && 0 <= p.pid < 0x2000
    && 0 <= p.continuityCounter < 16
    && p.scramblingControl in {0, 0x40, 0x80, 0xC0}
    && (p.adaptationField.Some? <==> p.adaptationFieldExist)
    && (p.adaptationField.Some? ==> !p.adaptationField.value.splicingPointFlag ==> p.adaptationField.value.spliceCountdown == 0)
    && |p.packet| >= 4 && p.packet[0] == TsMarker
  }

  /**
   * The adaptation field starting at offset 4, and the offset where the payload starts.
   * The cursor ends at 5 + adaptation_field_length: `skip` moves backward as well when the
   * flags claimed more bytes than the declared length, and stops at the limit.
   */
  function ParseAdaptationField(buf: seq<byte>): (r: Result<(AdaptationField, nat), ParseError>)
    requires |buf| >= 4 && HasBit(buf[3], 0x20)
    ensures r.Success? <==> |buf| >= BytesRead(buf)
    ensures r.Success? ==> r.value.1 == Min(5 + buf[4] as int, |buf|)
    ensures r.Success? ==> (r.value.0.pcr.Some? <==> HasBit(buf[5], 0x10))
    ensures r.Success? ==> (r.value.0.opcr.Some? <==> HasBit(buf[5], 0x08))
    ensures r.Success? ==> HasBit(buf[5], 0x10) ==> r.value.0.pcr == Some(DecodePcr(buf[6..12]))
  {
    if |buf| < 6 then Failure(BufferUnderflow)
    else
      var length := buf[4];
      var flags := buf[5];
      var remaining := length as int - 1;
      var pcrFlag := HasBit(flags, 0x10);
      var opcrFlag := HasBit(flags, 0x08);
      var splicingPointFlag := HasBit(flags, 0x04);
      var pos1 := if pcrFlag then 12 else 6;
      var pos2 := if opcrFlag then pos1 + 6 else pos1;
      var pos3 := if splicingPointFlag then pos2 + 1 else pos2;
      if |buf| < pos3 then Failure(BufferUnderflow)
      else
        var pcr := if pcrFlag then Some(DecodePcr(buf[6..12])) else None;
        var opcr := if opcrFlag then Some(DecodePcr(buf[pos1..pos1 + 6])) else None;
        var spliceCountdown := if splicingPointFlag then SignedByte(buf[pos2]) else 0;
        var left := remaining - (pos3 - 6);
        var end := pos3 + SkipAmount(|buf| - pos3, left);
        var af := AdaptationField(
          HasBit(flags, 0x80), HasBit(flags, 0x40), HasBit(flags, 0x20),
          pcr, opcr, splicingPointFlag, HasBit(flags, 0x02), HasBit(flags, 0x01), spliceCountdown);
        Success((af, end))
  }

  /**
   * MTSPacket.parsePacket over the bytes between the buffer's position and its limit.
   * A wrong sync byte fails the precondition check; running out of bytes raises a buffer underflow.
   */
  function ParsePacket(buf: seq<byte>): (r: Result<Packet, ParseError>)
    ensures r == Failure(InvalidSyncByte) <==> |buf| >= 1 && buf[0] != TsMarker
    ensures r.Success? <==> |buf| >= 4 && buf[0] == TsMarker && |buf| >= BytesRead(buf)
    ensures r.Success? ==> WellFormed(r.value) && r.value.packet == buf
    ensures r.Success? ==> r.value.payloadStart == if HasBit(buf[3], 0x20) then Min(5 + buf[4] as int, |buf|) else 4
  {
    if |buf| < 1 then Failure(BufferUnderflow)
    else if buf[0] != TsMarker then Failure(InvalidSyncByte)
    else if |buf| < 4 then Failure(BufferUnderflow)
    else
      var bcBytes := (buf[1] as int) * 0x100 + buf[2] as int;
      var dByte := buf[3];
      var adaptationFieldExist := HasBit(dByte, 0x20);
      var af := if adaptationFieldExist then ParseAdaptationField(buf) else Success((AdaptationField(false, false, false, None, None, false, false, false, 0), 4));
      if af.Failure? then Failure(af.error)
      else
        Success(Packet(
          HasBit(bcBytes, 0x8000),
          HasBit(bcBytes, 0x4000),
          HasBit(bcBytes, 0x2000),
          bcBytes % 0x2000,
          (dByte / 0x40) * 0x40,
          adaptationFieldExist,
          HasBit(dByte, 0x10),
          dByte % 0x10,
          if adaptationFieldExist then Some(af.value.0) else None,
          buf,
          af.value.1))
  }

  /** Reference encoder for the four header bytes of section 2.4.3.2 (sync byte first). */
  function HeaderBytes(tei: bool, pusi: bool, priority: bool, pid: int, scrambling: int,
                       adaptation: bool, payload: bool, cc: int): (b: seq<byte>)
    requires 0 <= pid < 0x2000 && 0 <= scrambling < 4 && 0 <= cc < 16
    ensures |b| == 4 && b[0] == TsMarker
  {
    var word := (if tei then 0x8000 else 0) + (if pusi then 0x4000 else 0) + (if priority then 0x2000 else 0) + pid;
    [TsMarker, word / 0x100, word % 0x100,
     scrambling * 0x40 + (if adaptation then 0x20 else 0) + (if payload then 0x10 else 0) + cc]
  }

  /** Parsing a header built by the reference encoder gives back every header field; without an adaptation field the payload starts at offset 4. */
  lemma {:induction false} HeaderRoundTrip(tei: bool, pusi: bool, priority: bool, pid: int, scrambling: int,
                                          payload: bool, cc: int, rest: seq<byte>)
    requires 0 <= pid < 0x2000 && 0 <= scrambling < 4 && 0 <= cc < 16
    ensures var r := ParsePacket(HeaderBytes(tei, pusi, priority, pid, scrambling, false, payload, cc) + rest);
      && r.Success?
      && r.value.transportErrorIndicator == tei
      && r.value.payloadUnitStartIndicator == pusi
      && r.value.transportPriority == priority
      && r.value.pid == pid
      && r.value.scramblingControl == scrambling * 0x40
      && !r.value.adaptationFieldExist && r.value.adaptationField.None?
      && r.value.containsPayload == payload
      && r.value.continuityCounter == cc
      && r.value.payloadStart == 4
  {
    var h := HeaderBytes(tei, pusi, priority, pid, scrambling, false, payload, cc);
    var buf := h + rest;
    var word := (if tei then 0x8000 else 0) + (if pusi then 0x4000 else 0) + (if priority then 0x2000 else 0) + pid;
    assert (buf[1] as int) * 0x100 + buf[2] as int == word;
    var d := scrambling * 0x40 + (if payload then 0x10 else 0) + cc;
    assert buf[3] == d;
    assert !HasBit(d, 0x20);
  }

  /** A PCR written at offset 6 behind an adaptation field header is the PCR the parser returns. */
  lemma {:induction false} AdaptationPcrRoundTrip(header: seq<byte>, length: byte, flags: byte, base: int, extension: int, rest: seq<byte>)
    requires |header| == 4 && header[0] == TsMarker && HasBit(header[3], 0x20)
    requires HasBit(flags, 0x10) && !HasBit(flags, 0x08) && !HasBit(flags, 0x04)
    requires 0 <= base < 0x2_0000_0000 && 0 <= extension < 512
    ensures var r := ParsePacket(header + [length, flags] + PcrBytes(base, extension) + rest);
      && r.Success? && r.value.adaptationField.Some?
      && r.value.adaptationField.value.pcr == Some(Pcr(base, extension))
      && r.value.PcrValue() == Some(base * 300 + extension)
  {
    var buf := header + [length, flags] + PcrBytes(base, extension) + rest;
    assert buf[6..12] == PcrBytes(base, extension);
    PcrRoundTrip(base, extension);
  }
}
