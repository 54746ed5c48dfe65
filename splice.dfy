/**
 * The per-PID splice tables shared by ContinuityFixer and both MultiMTSSource versions, and the
 * rewriting of continuity counters (ISO/IEC 13818-1, section 2.4.3.3), PES PTS (sections
 * 2.4.3.6-2.4.3.7) and PCR across a source boundary. The three classes of the repository carry
 * the same code with three differences, captured by a Policy: the gap added to PTS and PCR, and
 * whether a PID missing from the previous source is tolerated (defaults to 0) or dereferenced.
 *
 * The tables keep, for the packets the source stores in maps, what is read back from them:
 * the rewritten continuity counter and the rewritten PCR value.
 */
module Splice {
  import opened Wrappers
  import opened NioUtils
  import opened MtsPacket

  /** Java's `a % 16` on int: truncating, the remainder carries the sign of the dividend. */
  function JavaRem16(a: int): (r: int)
    ensures -16 < r < 16
    ensures a >= 0 ==> r >= 0
    ensures a <= 0 ==> r <= 0
    ensures (a - r) % 16 == 0
  {
    if a >= 0 then a % 16 else -((-a) % 16)
  }

  function Lookup(m: map<int, int>, k: int): int {
    if k in m then m[k] else 0
  }

  // ---------------------------------------------------------------------------------------
  // PTS in a PES header: presence test and the 33-bit field of bytes 9..13
  // ---------------------------------------------------------------------------------------

  const Two15: int := 0x8000
  const Two30: int := 0x4000_0000
  const Two31: int := 0x8000_0000
  const Two32: int := 0x1_0000_0000
  const Two33: int := 0x2_0000_0000

  datatype PtsProbe = NoPts | PtsAt(pts: int) | OutOfBounds

  /** A big-endian 16-bit word read with getShort, as unsigned. */
  function Word(b: seq<byte>, i: nat): (w: int)
    requires i + 2 <= |b|
    ensures 0 <= w < 0x1_0000
  {
    (b[i] as int) * 0x100 + b[i + 1] as int
  }

  /**
   * The PTS as the source decodes it: `((b9 & 0xE) << 29) | ((w10 & 0xFFFE) << 14) | ((w12 & 0xFFFE) >> 1)`
   * evaluated in 32-bit int and widened to long. The shift drops PTS bit 32 and puts bit 31 in the sign.
   */
  function JavaPts(payload: seq<byte>): (pts: int)
    requires |payload| >= 14
    ensures -Two31 <= pts < Two31
  {
    var u := ((payload[9] as int / 2) % 4) * Two30 + (Word(payload, 10) / 2) * Two15 + Word(payload, 12) / 2;
    if u >= Two31 then u - Two32 else u
  }

  /** The 33-bit PTS of section 2.4.3.7: PTS[32..30] in byte 9, PTS[29..15] and PTS[14..0] in the next two words. */
  function Pts33(payload: seq<byte>): (pts: int)
    requires |payload| >= 14
    ensures 0 <= pts < Two33
  {
    ((payload[9] as int / 2) % 8) * Two30 + (Word(payload, 10) / 2) * Two15 + Word(payload, 12) / 2
  }

  /**
   * The probe fixPTS makes: a payload starting 00 00 01 whose flag byte 7 has bit 0x80 carries a
   * PTS. Reading past the end of the payload view throws IndexOutOfBoundsException.
   */
  function ProbePts(payload: seq<byte>): (r: PtsProbe)
    ensures r.PtsAt? <==> |payload| >= 14 && payload[0] == 0 && payload[1] == 0 && payload[2] == 1 && HasBit(payload[7], 0x80)
    ensures r.PtsAt? ==> r.pts == JavaPts(payload)
    ensures |payload| >= 14 ==> !r.OutOfBounds?
  {
    if |payload| < 1 then OutOfBounds
    else if payload[0] != 0 then NoPts
    else if |payload| < 2 then OutOfBounds
    else if payload[1] != 0 then NoPts
    else if |payload| < 3 then OutOfBounds
    else if payload[2] != 1 then NoPts
    else if |payload| < 8 then OutOfBounds
    else if !HasBit(Word(payload, 6), 0x80) then NoPts
    else if |payload| < 14 then OutOfBounds
    else PtsAt(JavaPts(payload))
  }

  /**
   * The three writes of fixPTS: byte 9 = 0x20 | PTS[32..30] << 1 | 1, then the two words with
   * their marker bit. The masks act on the long's two's complement, so what is written is the
   * value modulo 2^33.
   */
  function WritePts(payload: seq<byte>, v: int): (r: seq<byte>)
    requires |payload| >= 14
    ensures |r| == |payload|
    ensures r[..9] == payload[..9] && r[14..] == payload[14..]
  {
    var w := v % Two33;
    var b9 := 0x21 + ((w / Two30) % 8) * 2;
    var w10 := 1 + ((w / Two15) % Two15) * 2;
    var w12 := 1 + (w % Two15) * 2;
    payload[..9] + [b9, w10 / 0x100, w10 % 0x100, w12 / 0x100, w12 % 0x100] + payload[14..]
  }

  lemma WordOfBytes(w: int)
    requires 0 <= w < 0x1_0000
    ensures (w / 0x100) * 0x100 + w % 0x100 == w
  {
  }

  /** The rewritten field decodes, per section 2.4.3.7, to the written value modulo 2^33. */
  lemma {:induction false} WritePtsRoundTrip33(payload: seq<byte>, v: int)
    requires |payload| >= 14
    ensures Pts33(WritePts(payload, v)) == v % Two33
  {
    var w := v % Two33;
    var r := WritePts(payload, v);
    var h := w / Two30;
    var m := (w / Two15) % Two15;
    var l := w % Two15;
    assert 0 <= h < 8;
    assert r[9] as int == 0x21 + h * 2;
    assert (r[9] as int / 2) % 8 == h;
    var w10 := 1 + m * 2;
    var w12 := 1 + l * 2;
    WordOfBytes(w10);
    WordOfBytes(w12);
    assert Word(r, 10) == w10;
    assert Word(r, 12) == w12;
    assert w10 / 2 == m && w12 / 2 == l;
    assert w / Two15 == h * Two15 + m;
    assert w == (w / Two15) * Two15 + l;
  }

  /** Below 2^31 the source's 32-bit decoding reads back exactly what fixPTS wrote. */
  lemma {:induction false} WritePtsRoundTrip(payload: seq<byte>, v: int)
    requires |payload| >= 14
    requires 0 <= v < Two31
    ensures JavaPts(WritePts(payload, v)) == v
  {
    var r := WritePts(payload, v);
    WritePtsRoundTrip33(payload, v);
    assert v % Two33 == v;
    assert Pts33(r) % Two32 == v;
    JavaPtsIsSignedLow32(r);
  }

  /** The source's decoding is the low 32 bits of the 33-bit PTS, read as a signed int. */
  lemma {:induction false} JavaPtsIsSignedLow32(payload: seq<byte>)
    requires |payload| >= 14
    ensures var u := Pts33(payload) % Two32; JavaPts(payload) == if u >= Two31 then u - Two32 else u
  {
    var top := (payload[9] as int / 2) % 8;
    var rest := (Word(payload, 10) / 2) * Two15 + Word(payload, 12) / 2;
    assert 0 <= rest < Two30;
    assert top % 4 == (if top >= 4 then top - 4 else top);
    assert Pts33(payload) == top * Two30 + rest;
    if top >= 4 {
      assert Pts33(payload) % Two32 == (top - 4) * Two30 + rest;
    } else {
      assert Pts33(payload) % Two32 == top * Two30 + rest;
    }
  }

  /** A PTS of 2^31 or more is written correctly but read back wrongly (about 6.6 hours at 90 kHz). */
  lemma PtsAboveTwo31ReadsBackNegative(payload: seq<byte>)
    requires |payload| >= 14
    ensures JavaPts(WritePts(payload, Two31)) == -Two31
    ensures Pts33(WritePts(payload, Two31)) == Two31
  {
    WritePtsRoundTrip33(payload, Two31);
    JavaPtsIsSignedLow32(WritePts(payload, Two31));
  }

  // ---------------------------------------------------------------------------------------
  // The tables and one fixing step
  // ---------------------------------------------------------------------------------------

  /** What differs between the three copies of the fixing code. */
  datatype Policy = Policy(ptsGap: int, pcrGap: int, strictLookups: bool)

  /** ContinuityFixer: 100 ms gap (9000 ticks at 90 kHz, 2,700,000 at 27 MHz), missing PIDs default to 0. */
  const FixerPolicy := Policy(100 * ((27000000 / 300) / 1000), 100 * (27000000 / 1000), false)
  /** sources/MultiMTSSource: no gap, missing PIDs default to 0. */
  const SequencerPolicy := Policy(0, 0, false)
  /** The older MultiMTSSource: no gap, and a PID missing from the previous source is unboxed as null. */
  const LegacySequencerPolicy := Policy(0, 0, true)

  datatype FixError = IndexOutOfBounds | NullPointer

  datatype Tables = Tables(
    pcrPackets: map<int, int>,                  // PID -> PCR value of its latest PCR packet (after rewriting)
    allPackets: map<int, int>,                  // PID -> continuity counter of its latest packet (after rewriting)
    ptss: map<int, int>,                        // PID -> latest PTS (after rewriting)
    lastPTSsOfPreviousSource: map<int, int>,
    lastPCRsOfPreviousSource: map<int, int>,
    firstPCRsOfCurrentSource: map<int, int>,
    firstPTSsOfCurrentSource: map<int, int>,
    lastPacketsOfPreviousSource: map<int, int>, // PID -> continuity counter of its last packet in the previous source
    firstPacketsOfCurrentSource: set<int>,      // PIDs seen in the current source
    continuityFixes: map<int, int>)             // PID -> counter offset, never cleared

  const EmptyTables := Tables(map[], map[], map[], map[], map[], map[], map[], map[], {}, map[])

  /** Once past the first source, every PID seen in the current source has its counter offset. */
  predicate Inv(t: Tables, subsequent: bool) {
    subsequent ==> t.firstPacketsOfCurrentSource <= t.continuityFixes.Keys
  }

  datatype FixResult = FixResult(tables: Tables, packet: Packet, error: Option<FixError>)

  /** The counter offset fixed by the first packet of a PID in a later source. */
  function CounterFix(t: Tables, p: Packet): int {
    (if p.pid in t.lastPacketsOfPreviousSource then t.lastPacketsOfPreviousSource[p.pid] - p.continuityCounter else 0)
      + (if p.containsPayload then 1 else 0)
  }

  datatype CounterStep = CounterStep(tables: Tables, counter: int, error: Option<FixError>)

  /**
   * Steps 1-2: record the packet under its PID and, on the PID's first packet in a later source,
   * fix its counter offset from the last counter of the previous source. Under strict lookups an
   * absent previous packet is unboxed as null.
   */
  function NoteFirst(t: Tables, p: Packet, subsequent: bool, policy: Policy): (r: CounterStep)
    ensures r.tables == t.(allPackets := t.allPackets[p.pid := p.continuityCounter],
                           firstPacketsOfCurrentSource := t.firstPacketsOfCurrentSource + {p.pid},
                           continuityFixes := r.tables.continuityFixes)
    ensures r.counter == p.continuityCounter
    ensures r.error.Some? ==> r.error == Some(NullPointer) && subsequent
    ensures r.error.None? && subsequent && p.pid !in t.firstPacketsOfCurrentSource ==> p.pid in r.tables.continuityFixes
  {
    var pid := p.pid;
    var t1 := t.(allPackets := t.allPackets[pid := p.continuityCounter],
                 firstPacketsOfCurrentSource := t.firstPacketsOfCurrentSource + {pid});
    if !subsequent || pid in t.firstPacketsOfCurrentSource then CounterStep(t1, p.continuityCounter, None)
    else if policy.strictLookups && pid !in t.lastPacketsOfPreviousSource then CounterStep(t1, p.continuityCounter, Some(NullPointer))
    else CounterStep(t1.(continuityFixes := t1.continuityFixes[pid := CounterFix(t, p)]), p.continuityCounter, None)
  }

  /**
   * Steps 1-3: after NoteFirst, a later source's packet gets its counter shifted by the PID's
   * offset, with Java's remainder. The offset of a PID whose first packet failed earlier in this
   * source is absent and unboxed as null.
   */
  function StepCounter(t: Tables, p: Packet, subsequent: bool, policy: Policy): (r: CounterStep)
    ensures r.error.None? && Inv(t, subsequent) ==> Inv(r.tables, subsequent)
    ensures r.error.None? ==> r.tables.allPackets == t.allPackets[p.pid := r.counter]
    ensures r.error.Some? ==> r.error == Some(NullPointer) && subsequent && r.counter == p.continuityCounter
    ensures !subsequent ==> r.counter == p.continuityCounter
    ensures r.tables == t.(allPackets := r.tables.allPackets, firstPacketsOfCurrentSource := r.tables.firstPacketsOfCurrentSource,
                           continuityFixes := r.tables.continuityFixes)
  {
    var a := NoteFirst(t, p, subsequent, policy);
    if a.error.Some? || !subsequent then a
    else if p.pid !in a.tables.continuityFixes then CounterStep(a.tables, p.continuityCounter, Some(NullPointer))
    else
      var cc := JavaRem16(p.continuityCounter + a.tables.continuityFixes[p.pid]);
      CounterStep(a.tables.(allPackets := a.tables.allPackets[p.pid := cc]), cc, None)
  }

  /** The counter step applied to the packet. */
  function FixCounter(t: Tables, p: Packet, subsequent: bool, policy: Policy): (r: FixResult)
    ensures r.error.None? && Inv(t, subsequent) ==> Inv(r.tables, subsequent)
    ensures r.error.None? ==> r.tables.allPackets == t.allPackets[p.pid := r.packet.continuityCounter]
    ensures r.packet == p.(continuityCounter := r.packet.continuityCounter)
    ensures r.error.Some? ==> r.error == Some(NullPointer) && subsequent
  {
    var c := StepCounter(t, p, subsequent, policy);
    FixResult(c.tables, p.(continuityCounter := c.counter), c.error)
  }

  /** Step 4: record the first PTS of the PID in this source; in a later source re-base and rewrite it. */
  function FixPts(t: Tables, p: Packet, subsequent: bool, policy: Policy): (r: FixResult)
    requires p.Valid()
    ensures r.packet.Valid() && |r.packet.packet| == |p.packet|
    ensures r.packet == p.(packet := r.packet.packet)
    ensures r.tables == t.(ptss := r.tables.ptss, firstPTSsOfCurrentSource := r.tables.firstPTSsOfCurrentSource)
    ensures r.error == Some(IndexOutOfBounds) <==> p.containsPayload && ProbePts(p.Payload()).OutOfBounds?
    ensures !(p.containsPayload && ProbePts(p.Payload()).PtsAt?) ==> r.tables == t && r.packet == p
  {
    if !p.containsPayload then FixResult(t, p, None)
    else
      match ProbePts(p.Payload())
      case OutOfBounds => FixResult(t, p, Some(IndexOutOfBounds))
      case NoPts => FixResult(t, p, None)
      case PtsAt(pts) =>
        var pid := p.pid;
        var t1 := if pid in t.firstPTSsOfCurrentSource then t
                  else t.(firstPTSsOfCurrentSource := t.firstPTSsOfCurrentSource[pid := pts]);
        if !subsequent then
          FixResult(t1.(ptss := t1.ptss[pid := pts]), p, None)
        else if policy.strictLookups && pid !in t1.lastPTSsOfPreviousSource then
          FixResult(t1, p, Some(NullPointer))
        else
          var newPts := Lookup(t1.lastPTSsOfPreviousSource, pid) + (pts - t1.firstPTSsOfCurrentSource[pid]) + policy.ptsGap;
          FixResult(t1.(ptss := t1.ptss[pid := newPts]), WithPts(p, newPts), None)
  }

  /** In the first source fixPTS leaves the packet alone and records its PTS as the PID's latest. */
  lemma FixPtsFirstSource(t: Tables, p: Packet, policy: Policy)
    requires p.Valid() && p.containsPayload && ProbePts(p.Payload()).PtsAt?
    ensures var r := FixPts(t, p, false, policy);
      && r.error.None? && r.packet == p
      && p.pid in r.tables.ptss && r.tables.ptss[p.pid] == JavaPts(p.Payload())
      && p.pid in r.tables.firstPTSsOfCurrentSource && r.tables.firstPTSsOfCurrentSource[p.pid] ==
         if p.pid in t.firstPTSsOfCurrentSource then t.firstPTSsOfCurrentSource[p.pid] else JavaPts(p.Payload())
  {
  }

  /**
   * In a later source fixPTS re-bases the PTS to the previous source's last PTS on the PID (0 when
   * absent) plus its distance from the PID's first PTS of this source, plus the gap, and both
   * records that value and writes it into the packet (modulo 2^33).
   */
  lemma {:induction false} FixPtsLaterSource(t: Tables, p: Packet, policy: Policy)
    requires p.Valid() && p.containsPayload && ProbePts(p.Payload()).PtsAt?
    requires FixPts(t, p, true, policy).error.None?
    ensures var r := FixPts(t, p, true, policy);
      var pts := JavaPts(p.Payload());
      var first := if p.pid in t.firstPTSsOfCurrentSource then t.firstPTSsOfCurrentSource[p.pid] else pts;
      var v := Lookup(t.lastPTSsOfPreviousSource, p.pid) + (pts - first) + policy.ptsGap;
      && p.pid in r.tables.firstPTSsOfCurrentSource && r.tables.firstPTSsOfCurrentSource[p.pid] == first
      && p.pid in r.tables.ptss && r.tables.ptss[p.pid] == v
      && Pts33(r.packet.Payload()) == v % Two33
  {
    var r := FixPts(t, p, true, policy);
    var pts := JavaPts(p.Payload());
    var first := if p.pid in t.firstPTSsOfCurrentSource then t.firstPTSsOfCurrentSource[p.pid] else pts;
    var v := Lookup(t.lastPTSsOfPreviousSource, p.pid) + (pts - first) + policy.ptsGap;
    assert ProbePts(p.Payload()) == PtsAt(pts);
    assert r.packet == WithPts(p, v) && r.tables.ptss[p.pid] == v;
    WithPtsRoundTrip(p, v);
  }

  /** The packet with `v` written into its PES header's PTS field. */
  function WithPts(p: Packet, v: int): (q: Packet)
    requires p.Valid() && |p.Payload()| >= 14
  {
    p.(packet := p.packet[..p.payloadStart] + WritePts(p.Payload(), v))
  }

  lemma WithPtsRoundTrip(p: Packet, v: int)
    requires p.Valid() && |p.Payload()| >= 14
    ensures WithPts(p, v).Valid() && Pts33(WithPts(p, v).Payload()) == v % Two33
  {
    assert WithPts(p, v).Payload() == WritePts(p.Payload(), v);
    WritePtsRoundTrip33(p.Payload(), v);
  }

  /**
   * rewritePCR in a later source: the PCR moves to the previous source's last PCR on the PID
   * (0 when absent, or null under strict lookups) plus its distance from this source's first
   * PCR, plus the gap.
   */
  function RewritePcr(t: Tables, p: Packet, policy: Policy): (r: FixResult)
    requires p.adaptationField.Some? && p.adaptationField.value.pcr.Some? && p.pid in t.firstPCRsOfCurrentSource
    ensures r.tables == t
    ensures r.error.Some? <==> policy.strictLookups && p.pid !in t.lastPCRsOfPreviousSource
    ensures r.error.Some? ==> r.error == Some(NullPointer) && r.packet == p
    ensures r.error.None? ==> r.packet.PcrValue() == Some(Lookup(t.lastPCRsOfPreviousSource, p.pid)
        + (p.adaptationField.value.pcr.value.Value() - t.firstPCRsOfCurrentSource[p.pid]) + policy.pcrGap)
    ensures r.packet == p.(adaptationField := r.packet.adaptationField)
  {
    if policy.strictLookups && p.pid !in t.lastPCRsOfPreviousSource then FixResult(t, p, Some(NullPointer))
    else
      var newPcr := Lookup(t.lastPCRsOfPreviousSource, p.pid)
        + (p.adaptationField.value.pcr.value.Value() - t.firstPCRsOfCurrentSource[p.pid]) + policy.pcrGap;
      var pcr := PcrOfValue(newPcr);
      FixResult(t, p.(adaptationField := Some(p.adaptationField.value.(pcr := Some(pcr)))), None)
  }

  /**
   * Step 5: record the first PCR of the PID in this source; in a later source rewrite it; keep
   * the PCR value the packet leaves with.
   */
  function FixPcr(t: Tables, p: Packet, subsequent: bool, policy: Policy): (r: FixResult)
    ensures r.tables == t.(pcrPackets := r.tables.pcrPackets, firstPCRsOfCurrentSource := r.tables.firstPCRsOfCurrentSource)
    ensures r.packet == p.(adaptationField := r.packet.adaptationField)
    ensures r.packet.PcrValue().Some? <==> p.PcrValue().Some?
  {
    if !(p.adaptationFieldExist && p.adaptationField.Some? && p.adaptationField.value.pcr.Some?) then FixResult(t, p, None)
    else
      var pid := p.pid;
      var t1 := if pid in t.firstPCRsOfCurrentSource then t
                else t.(firstPCRsOfCurrentSource := t.firstPCRsOfCurrentSource[pid := p.adaptationField.value.pcr.value.Value()]);
      var w := if subsequent then RewritePcr(t1, p, policy) else FixResult(t1, p, None);
      if w.error.Some? then w
      else FixResult(t1.(pcrPackets := t1.pcrPackets[pid := w.packet.PcrValue().value]), w.packet, None)
  }

  /** fixContinuity: the three steps in order; an exception stops the remaining steps, keeping the updates made so far. */
  function Fix(t: Tables, p: Packet, subsequent: bool, policy: Policy): (r: FixResult)
    requires p.Valid()
    ensures r.packet.Valid()
    ensures r.error.None? && Inv(t, subsequent) ==> Inv(r.tables, subsequent)
    ensures r.packet.pid == p.pid && r.packet.containsPayload == p.containsPayload
    ensures r.packet.payloadStart == p.payloadStart && |r.packet.packet| == |p.packet|
  {
    var c := FixCounter(t, p, subsequent, policy);
    if c.error.Some? then c
    else
      var s := FixPts(c.tables, c.packet, subsequent, policy);
      if s.error.Some? then s
      else FixPcr(s.tables, s.packet, subsequent, policy)
  }

  /**
   * nextSource / switchSource: the running maps become the previous source's last values and are
   * cleared with the current source's first values. The counter offsets are kept.
   */
  function Switch(t: Tables): (r: Tables)
    ensures Inv(r, true)
    ensures r.pcrPackets == map[] && r.allPackets == map[] && r.ptss == map[]
    ensures r.firstPCRsOfCurrentSource == map[] && r.firstPTSsOfCurrentSource == map[] && r.firstPacketsOfCurrentSource == {}
  {
    Tables(map[], map[], map[], t.ptss, t.pcrPackets, map[], map[], t.allPackets, {}, t.continuityFixes)
  }

  // ---------------------------------------------------------------------------------------
  // What the fixing promises
  // ---------------------------------------------------------------------------------------

  /** In the first source nothing is rewritten: counter, PTS bytes and PCR leave as they came. */
  lemma FirstSourceUnchanged(t: Tables, p: Packet, policy: Policy)
    requires p.Valid()
    ensures Fix(t, p, false, policy).packet == p
    ensures Fix(t, p, false, policy).error != Some(NullPointer)
  {
  }

  /** The tables remember what was emitted: the stored counter and PCR are those of the returned packet. */
  lemma {:induction false} TablesRecordEmitted(t: Tables, p: Packet, subsequent: bool, policy: Policy)
    requires p.Valid()
    requires Fix(t, p, subsequent, policy).error.None?
    ensures var r := Fix(t, p, subsequent, policy);
      && r.tables.allPackets[p.pid] == r.packet.continuityCounter
      && (r.packet.PcrValue().Some? && p.adaptationFieldExist ==> r.tables.pcrPackets[p.pid] == r.packet.PcrValue().value)
  {
    var c := FixCounter(t, p, subsequent, policy);
    var s := FixPts(c.tables, c.packet, subsequent, policy);
    var r := FixPcr(s.tables, s.packet, subsequent, policy);
    assert r.tables.allPackets == c.tables.allPackets;
  }

  /**
   * The latest PTS the tables keep for a PID (what the next switch hands on) is the one the
   * emitted packet carries: as the source decodes it in the first source, and modulo 2^33 in a
   * later one, where it was written.
   */
  lemma {:induction false} PtsRecordsEmitted(t: Tables, p: Packet, subsequent: bool, policy: Policy)
    requires p.Valid() && p.containsPayload && ProbePts(p.Payload()).PtsAt?
    requires Fix(t, p, subsequent, policy).error.None?
    ensures var r := Fix(t, p, subsequent, policy);
      && p.pid in r.tables.ptss
      && (subsequent ==> Pts33(r.packet.Payload()) == r.tables.ptss[p.pid] % Two33)
      && (!subsequent ==> r.tables.ptss[p.pid] == JavaPts(r.packet.Payload()))
  {
    var c := FixCounter(t, p, subsequent, policy);
    FixKeepsPts(t, p, subsequent, policy);
    assert c.packet.Payload() == p.Payload();
    if subsequent {
      FixPtsLaterSource(c.tables, c.packet, policy);
    } else {
      FixPtsFirstSource(c.tables, c.packet, policy);
    }
  }

  /** The PCR step leaves the PTS table and the packet bytes as the PTS step left them. */
  lemma FixKeepsPts(t: Tables, p: Packet, subsequent: bool, policy: Policy)
    requires p.Valid() && Fix(t, p, subsequent, policy).error.None?
    ensures var c := FixCounter(t, p, subsequent, policy);
      var s := FixPts(c.tables, c.packet, subsequent, policy);
      var r := Fix(t, p, subsequent, policy);
      && c.error.None? && s.error.None?
      && r.tables.ptss == s.tables.ptss && r.packet.packet == s.packet.packet
      && r.packet.payloadStart == s.packet.payloadStart
  {
  }

  /**
   * The first packet of a PID in a later source continues the counter of that PID's last packet
   * in the previous source: congruent to it plus one if the packet carries payload (plus zero
   * otherwise), and exactly that value when the previous counter was in 0..15.
   */
  lemma {:induction false} SpliceContinuity(t: Tables, q: Packet, policy: Policy)
    requires q.Valid() && 0 <= q.continuityCounter < 16
    requires q.pid in t.allPackets
    ensures var r := Fix(Switch(t), q, true, policy);
      var expected := t.allPackets[q.pid] + (if q.containsPayload then 1 else 0);
      && (r.packet.continuityCounter - expected) % 16 == 0
      && (0 <= t.allPackets[q.pid] < 16 ==> r.packet.continuityCounter == expected % 16)
  {
    var u := Switch(t);
    var c := FixCounter(u, q, true, policy);
    var k := q.continuityCounter + CounterFix(u, q);
    var expected := t.allPackets[q.pid] + (if q.containsPayload then 1 else 0);
    assert k == expected;
    assert c.packet.continuityCounter == JavaRem16(k);
    assert c.error.None?;
    var r := Fix(u, q, true, policy);
    assert r.packet.continuityCounter == c.packet.continuityCounter by {
      var s := FixPts(c.tables, c.packet, true, policy);
    }
  }

  /**
   * A PID the previous source never carried starts, under tolerant lookups, from an offset of 0
   * (plus one for a payload): its first packet keeps its own counter, plus one if it carries
   * payload, with Java's remainder.
   */
  /**
   * With defaulting lookups, the first packet of a PID the previous source did not carry finds
   * counter 0 there and keeps its own counter, plus one when it carries a payload.
   */
  lemma {:induction false} NewPidKeepsCounter(t: Tables, q: Packet, policy: Policy)
    requires q.Valid() && !policy.strictLookups
    requires q.pid !in t.allPackets
    ensures var r := Fix(Switch(t), q, true, policy);
      && r.error != Some(NullPointer)
      && r.packet.continuityCounter == JavaRem16(q.continuityCounter + (if q.containsPayload then 1 else 0))
  {
    var u := Switch(t);
    var c := FixCounter(u, q, true, policy);
    assert CounterFix(u, q) == (if q.containsPayload then 1 else 0);
    assert c.error.None?;
    assert c.packet.continuityCounter == JavaRem16(q.continuityCounter + CounterFix(u, q));
    var s := FixPts(c.tables, c.packet, true, policy);
    assert s.error != Some(NullPointer) && s.packet.continuityCounter == c.packet.continuityCounter;
  }

  /** Later packets of the PID keep the offset fixed by its first packet, with Java's remainder. */
  lemma {:induction false} LaterPacketsKeepOffset(t: Tables, p: Packet, policy: Policy)
    requires p.Valid() && Inv(t, true)
    requires p.pid in t.firstPacketsOfCurrentSource
    ensures Fix(t, p, true, policy).packet.continuityCounter == JavaRem16(p.continuityCounter + t.continuityFixes[p.pid])
  {
    var c := FixCounter(t, p, true, policy);
    var s := FixPts(c.tables, c.packet, true, policy);
  }

  /**
   * Java's remainder lets the counter go negative: a PID whose previous source ended at 0 and
   * whose new source starts at 15 and wraps to 0 is rewritten to -14 on the wrapped packet.
   */
  lemma NegativeCounterAfterWrap(t: Tables, first: Packet, later: Packet, policy: Policy)
    requires first.Valid() && later.Valid() && first.pid == later.pid
    requires first.continuityCounter == 15 && first.containsPayload
    requires later.continuityCounter == 0
    requires t.allPackets == map[first.pid := 0]
    ensures var r1 := Fix(Switch(t), first, true, policy);
      r1.error.None? ==> Fix(r1.tables, later, true, policy).packet.continuityCounter == -14
  {
    var r1 := Fix(Switch(t), first, true, policy);
    if r1.error.None? {
      WrapOffset(t, first, policy);
      LaterPacketsKeepOffset(r1.tables, later, policy);
    }
  }

  /** The offset that NegativeCounterAfterWrap relies on: 0 - 15 + 1. */
  lemma WrapOffset(t: Tables, first: Packet, policy: Policy)
    requires first.Valid() && first.continuityCounter == 15 && first.containsPayload
    requires t.allPackets == map[first.pid := 0]
    ensures var r1 := Fix(Switch(t), first, true, policy);
      r1.error.None? ==>
        Inv(r1.tables, true) && first.pid in r1.tables.firstPacketsOfCurrentSource && r1.tables.continuityFixes[first.pid] == -14
  {
    var u := Switch(t);
    var c := FixCounter(u, first, true, policy);
    if c.error.None? {
      assert c.tables.continuityFixes[first.pid] == -14;
      var s := FixPts(c.tables, c.packet, true, policy);
      assert s.tables.continuityFixes == c.tables.continuityFixes;
    }
  }

  /** A PID absent from the previous source makes the legacy sequencer fail on its first packet. */
  lemma StrictLookupFails(t: Tables, p: Packet)
    requires p.Valid()
    requires p.pid !in t.allPackets
    ensures Fix(Switch(t), p, true, LegacySequencerPolicy).error == Some(NullPointer)
  {
  }

  /**
   * With tolerant lookups (ContinuityFixer, sources/MultiMTSSource) and the invariant kept since
   * the last switch, fixing never dereferences an absent entry; only a short PES payload can throw.
   */
  lemma {:induction false} TolerantFixNeverNull(t: Tables, p: Packet, subsequent: bool, policy: Policy)
    requires p.Valid() && Inv(t, subsequent) && !policy.strictLookups
    ensures Fix(t, p, subsequent, policy).error != Some(NullPointer)
    ensures Fix(t, p, subsequent, policy).error.None? <==> !(p.containsPayload && ProbePts(p.Payload()).OutOfBounds?)
  {
    var c := FixCounter(t, p, subsequent, policy);
    assert c.error.None?;
    assert c.packet.Payload() == p.Payload();
  }

  /**
   * The first PCR of a PID in a later source is placed `pcrGap` ticks after the last PCR the
   * previous source emitted on that PID (0 when it had none).
   */
  lemma {:induction false} SplicePcr(t: Tables, q: Packet, policy: Policy)
    requires q.Valid() && q.adaptationFieldExist && q.PcrValue().Some?
    requires !policy.strictLookups || q.pid in t.pcrPackets
    requires Fix(Switch(t), q, true, policy).error.None?
    ensures Fix(Switch(t), q, true, policy).packet.PcrValue() == Some(Lookup(t.pcrPackets, q.pid) + policy.pcrGap)
  {
    var u := Switch(t);
    var c := FixCounter(u, q, true, policy);
    var s := FixPts(c.tables, c.packet, true, policy);
    assert s.tables.firstPCRsOfCurrentSource == map[];
    assert s.packet.PcrValue() == q.PcrValue();
  }

  /** Later PCRs of the PID keep their distance from the first PCR of this source. */
  lemma {:induction false} PcrKeepsDistance(t: Tables, p: Packet, policy: Policy)
    requires p.Valid() && Inv(t, true) && p.adaptationFieldExist && p.PcrValue().Some?
    requires p.pid in t.firstPCRsOfCurrentSource
    requires Fix(t, p, true, policy).error.None?
    ensures Fix(t, p, true, policy).packet.PcrValue()
      == Some(Lookup(t.lastPCRsOfPreviousSource, p.pid) + policy.pcrGap + (p.PcrValue().value - t.firstPCRsOfCurrentSource[p.pid]))
  {
    var c := FixCounter(t, p, true, policy);
    assert c.error.None? && c.tables.firstPCRsOfCurrentSource == t.firstPCRsOfCurrentSource;
    var s := FixPts(c.tables, c.packet, true, policy);
    assert s.error.None? && s.packet.PcrValue() == p.PcrValue();
    assert s.tables.firstPCRsOfCurrentSource == t.firstPCRsOfCurrentSource;
    assert s.tables.lastPCRsOfPreviousSource == t.lastPCRsOfPreviousSource;
    assert Fix(t, p, true, policy) == FixPcr(s.tables, s.packet, true, policy);
  }

  /**
   * Later PTSs of the PID keep their distance from the PID's first PTS of this source: each is
   * re-based by the same amount, recorded, and written modulo 2^33.
   */
  lemma {:induction false} PtsKeepsDistance(t: Tables, p: Packet, policy: Policy)
    requires p.Valid() && p.containsPayload && ProbePts(p.Payload()).PtsAt?
    requires p.pid in t.firstPTSsOfCurrentSource
    requires Fix(t, p, true, policy).error.None?
    ensures var r := Fix(t, p, true, policy);
      var v := Lookup(t.lastPTSsOfPreviousSource, p.pid) + policy.ptsGap
        + (JavaPts(p.Payload()) - t.firstPTSsOfCurrentSource[p.pid]);
      && p.pid in r.tables.ptss && r.tables.ptss[p.pid] == v
      && Pts33(r.packet.Payload()) == v % Two33
  {
    var c := FixCounter(t, p, true, policy);
    FixKeepsPts(t, p, true, policy);
    assert c.packet.Payload() == p.Payload();
    assert c.tables.firstPTSsOfCurrentSource == t.firstPTSsOfCurrentSource;
    assert c.tables.lastPTSsOfPreviousSource == t.lastPTSsOfPreviousSource;
    FixPtsLaterSource(c.tables, c.packet, policy);
  }

  /**
   * The first PTS of a PID in a later source is written `ptsGap` ticks after the last PTS the
   * previous source recorded on that PID (0 when it had none), and recorded as the latest PTS.
   */
  lemma {:induction false} SplicePts(t: Tables, q: Packet, policy: Policy)
    requires q.Valid() && q.containsPayload && ProbePts(q.Payload()).PtsAt?
    requires Fix(Switch(t), q, true, policy).error.None?
    ensures var r := Fix(Switch(t), q, true, policy);
      && r.tables.ptss[q.pid] == Lookup(t.ptss, q.pid) + policy.ptsGap
      && Pts33(r.packet.Payload()) == (Lookup(t.ptss, q.pid) + policy.ptsGap) % Two33
  {
    var u := Switch(t);
    var c := FixCounter(u, q, true, policy);
    assert c.error.None? && c.packet.Payload() == q.Payload();
    assert c.tables.firstPTSsOfCurrentSource == map[] && c.tables.lastPTSsOfPreviousSource == t.ptss;
    FixPtsLaterSource(c.tables, c.packet, policy);
  }
}
