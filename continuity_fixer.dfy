/**
 * sources/ContinuityFixer: rewrites the packets of consecutive sources so that continuity
 * counters, PTS and PCR carry on across each source boundary, with a 100 ms gap. The per-PID
 * maps are those of SpliceState; `firstSource` is cleared by the first nextSource.
 */
module ContinuityFixer {
  import opened Wrappers
  import opened MtsPacket
  import opened Splice
  import opened SpliceState

  class ContinuityFixer {
    const tables: SpliceState
    var firstSource: bool

    /** Once past the first source, every PID seen since the last switch has its counter offset. */
    ghost predicate Valid()
      reads this, tables
    {
      Inv(tables.Model(), !firstSource)
    }

    constructor ()
      ensures Valid() && firstSource && tables.Model() == EmptyTables
      ensures fresh(tables)
    {
      tables := new SpliceState();
      firstSource := true;
    }

    /** nextSource: the running maps become the previous source's, and later packets are rewritten. */
    method NextSource()
      modifies this, tables
      ensures !firstSource && Valid()
      ensures tables.Model() == Switch(old(tables.Model()))
    {
      tables.SwitchSource();
      firstSource := false;
    }

    /**
     * fixContinuity: in the first source the packet is only recorded; afterwards its counter,
     * PTS and PCR are rewritten. Missing entries default to 0, so nothing is ever unboxed as null;
     * only a PES payload cut short before its PTS throws.
     */
    method FixContinuity(p: Packet) returns (q: Packet, error: Option<FixError>)
      requires p.Valid() && Valid()
      modifies tables
      ensures Valid()
      ensures var r := Fix(old(tables.Model()), p, !firstSource, FixerPolicy);
        tables.Model() == r.tables && q == r.packet && error == r.error
      ensures error != Some(NullPointer)
      ensures error.None? <==> !(p.containsPayload && ProbePts(p.Payload()).OutOfBounds?)
      ensures firstSource ==> q == p
    {
      TolerantFixNeverNull(tables.Model(), p, !firstSource, FixerPolicy);
      if firstSource {
        FirstSourceUnchanged(tables.Model(), p, FixerPolicy);
      }
      q, error := tables.Fix(p, !firstSource, FixerPolicy);
    }
  }
}
