/**
 * The per-PID maps as mutable fields, updated statement by statement in the order of the
 * repository's fixContinuity / fixPTS / fixPCR / rewritePCR and nextSource / switchSource, and
 * proved to compute what module Splice specifies.
 */
module SpliceState {
  import opened Wrappers
  import opened NioUtils
  import opened MtsPacket
  import opened Splice

  class SpliceState {
    var pcrPackets: map<int, int>
    var allPackets: map<int, int>
    var ptss: map<int, int>
    var lastPTSsOfPreviousSource: map<int, int>
    var lastPCRsOfPreviousSource: map<int, int>
    var firstPCRsOfCurrentSource: map<int, int>
    var firstPTSsOfCurrentSource: map<int, int>
    var lastPacketsOfPreviousSource: map<int, int>
    var firstPacketsOfCurrentSource: set<int>
    var continuityFixes: map<int, int>

    /** The fields as one value. */
    function Model(): Tables
      reads this
    {
      Tables(pcrPackets, allPackets, ptss, lastPTSsOfPreviousSource, lastPCRsOfPreviousSource,
             firstPCRsOfCurrentSource, firstPTSsOfCurrentSource, lastPacketsOfPreviousSource,
             firstPacketsOfCurrentSource, continuityFixes)
    }

    /** All maps start empty. */
    constructor ()
      ensures Model() == EmptyTables
    {
      pcrPackets := map[];
      allPackets := map[];
      ptss := map[];
      lastPTSsOfPreviousSource := map[];
      lastPCRsOfPreviousSource := map[];
      firstPCRsOfCurrentSource := map[];
      firstPTSsOfCurrentSource := map[];
      lastPacketsOfPreviousSource := map[];
      firstPacketsOfCurrentSource := {};
      continuityFixes := map[];
    }

    /** The first half of fixContinuity: record the packet, and fix the offset on the PID's first packet. */
    method NoteFirst(p: Packet, subsequent: bool, policy: Policy) returns (error: Option<FixError>)
      modifies this
      ensures var r := Splice.NoteFirst(old(Model()), p, subsequent, policy);
        Model() == r.tables && error == r.error
    {
      var pid := p.pid;
      allPackets := allPackets[pid := p.continuityCounter];
      if pid !in firstPacketsOfCurrentSource {
        firstPacketsOfCurrentSource := firstPacketsOfCurrentSource + {pid};
        if subsequent {
          if policy.strictLookups && pid !in lastPacketsOfPreviousSource {
            return Some(NullPointer);
          }
          var fix := if pid in lastPacketsOfPreviousSource then lastPacketsOfPreviousSource[pid] - p.continuityCounter else 0;
          if p.containsPayload {
            fix := fix + 1;
          }
          continuityFixes := continuityFixes[pid := fix];
        }
      }
      error := None;
    }

    /** The counter part of fixContinuity. */
    method FixCounter(p: Packet, subsequent: bool, policy: Policy) returns (q: Packet, error: Option<FixError>)
      modifies this
      ensures var r := Splice.FixCounter(old(Model()), p, subsequent, policy);
        Model() == r.tables && q == r.packet && error == r.error
    {
      q := p;
      error := NoteFirst(p, subsequent, policy);
      if error.Some? || !subsequent {
        return;
      }
      if p.pid !in continuityFixes {
        return q, Some(NullPointer);
      }
      q := q.(continuityCounter := JavaRem16(q.continuityCounter + continuityFixes[p.pid]));
      // the map holds the packet object, so it sees the new counter
      allPackets := allPackets[p.pid := q.continuityCounter];
    }

    /** fixPTS. */
    method FixPts(p: Packet, subsequent: bool, policy: Policy) returns (q: Packet, error: Option<FixError>)
      requires p.Valid()
      modifies this
      ensures var r := Splice.FixPts(old(Model()), p, subsequent, policy);
        Model() == r.tables && q == r.packet && error == r.error
    {
      q := p;
      error := None;
      if !q.containsPayload {
        return;
      }
      var probe := ProbePts(q.Payload());
      if probe.OutOfBounds? {
        return q, Some(IndexOutOfBounds);
      }
      if probe.NoPts? {
        return;
      }
      var pid := q.pid;
      var pts := probe.pts;
      if pid !in firstPTSsOfCurrentSource {
        firstPTSsOfCurrentSource := firstPTSsOfCurrentSource[pid := pts];
      }
      if subsequent {
        if policy.strictLookups && pid !in lastPTSsOfPreviousSource {
          return q, Some(NullPointer);
        }
        var last := if pid in lastPTSsOfPreviousSource then lastPTSsOfPreviousSource[pid] else 0;
        var newPts := last + (pts - firstPTSsOfCurrentSource[pid]) + policy.ptsGap;
        q := WithPts(q, newPts);
        pts := newPts;
      }
      ptss := ptss[pid := pts];
    }

    /** fixPCR: record the PID's first PCR of this source, rewrite it, remember the PCR packet. */
    method FixPcr(p: Packet, subsequent: bool, policy: Policy) returns (q: Packet, error: Option<FixError>)
      modifies this
      ensures var r := Splice.FixPcr(old(Model()), p, subsequent, policy);
        Model() == r.tables && q == r.packet && error == r.error
    {
      q := p;
      error := None;
      if !(p.adaptationFieldExist && p.adaptationField.Some? && p.adaptationField.value.pcr.Some?) {
        return;
      }
      var pid := p.pid;
      if pid !in firstPCRsOfCurrentSource {
        firstPCRsOfCurrentSource := firstPCRsOfCurrentSource[pid := p.adaptationField.value.pcr.value.Value()];
      }
      ghost var t1 := Model();
      if subsequent {
        q, error := RewritePcr(p, policy);
        if error.Some? {
          return;
        }
      }
      assert q.PcrValue().Some?;
      pcrPackets := pcrPackets[pid := q.PcrValue().value];
      assert Model() == t1.(pcrPackets := t1.pcrPackets[pid := q.PcrValue().value]);
    }

    /** rewritePCR, for a later source. */
    method RewritePcr(p: Packet, policy: Policy) returns (q: Packet, error: Option<FixError>)
      requires p.adaptationField.Some? && p.adaptationField.value.pcr.Some? && p.pid in firstPCRsOfCurrentSource
      ensures var r := Splice.RewritePcr(Model(), p, policy); q == r.packet && error == r.error
    {
      if policy.strictLookups && p.pid !in lastPCRsOfPreviousSource {
        return p, Some(NullPointer);
      }
      var last := if p.pid in lastPCRsOfPreviousSource then lastPCRsOfPreviousSource[p.pid] else 0;
      var newPcr := last + (p.adaptationField.value.pcr.value.Value() - firstPCRsOfCurrentSource[p.pid]) + policy.pcrGap;
      q := p.(adaptationField := Some(p.adaptationField.value.(pcr := Some(PcrOfValue(newPcr)))));
      error := None;
    }

    /** fixContinuity: counter, then PTS, then PCR; an exception skips the rest. */
    method Fix(p: Packet, subsequent: bool, policy: Policy) returns (q: Packet, error: Option<FixError>)
      requires p.Valid()
      modifies this
      ensures var r := Splice.Fix(old(Model()), p, subsequent, policy);
        Model() == r.tables && q == r.packet && error == r.error
    {
      q, error := FixCounter(p, subsequent, policy);
      if error.Some? {
        return;
      }
      q, error := FixPts(q, subsequent, policy);
      if error.Some? {
        return;
      }
      q, error := FixPcr(q, subsequent, policy);
    }

    /**
     * nextSource / switchSource: clear the per-source maps, copy the PCR values of the packets
     * in pcrPackets, the PTS map and the packet map into the previous-source maps, then clear
     * the running maps.
     */
    method SwitchSource()
      modifies this
      ensures Model() == Switch(old(Model()))
    {
      firstPCRsOfCurrentSource := map[];
      lastPCRsOfPreviousSource := map[];
      firstPTSsOfCurrentSource := map[];
      lastPTSsOfPreviousSource := map[];
      firstPacketsOfCurrentSource := {};
      lastPacketsOfPreviousSource := map[];
      // the loop over the PCR packets stores each one's PCR value under its PID, which is its key here
      lastPCRsOfPreviousSource := pcrPackets;
      lastPTSsOfPreviousSource := ptss;
      lastPacketsOfPreviousSource := allPackets;
      pcrPackets := map[];
      ptss := map[];
      allPackets := map[];
    }
  }
}
