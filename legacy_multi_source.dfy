/**
 * The older org.taktik.mpegts.MultiMTSSource: the same sequencing as sources/MultiMTSSource, but
 * it accepts an empty list of sources, switches the tables only when another source follows,
 * and unboxes the previous source's entries without a null check, so a PID (or a PTS or PCR
 * stream) that the previous source did not carry throws a NullPointerException.
 */
module LegacyMultiSource {
  import opened Wrappers
  import opened MtsPacket
  import opened Splice
  import opened SpliceState
  import opened SourceSequence

  class MultiMtsSource {
    const fixContinuity: bool
    const sources: seq<seq<Packet>>
    var idx: nat
    var pos: nat
    const tables: SpliceState

    ghost predicate Valid()
      reads this
    {
      AllValid(sources) && (idx < |sources| ==> pos <= |sources[idx]|)
    }

    constructor (fixContinuity: bool, sources: seq<seq<Packet>>)
      requires AllValid(sources)
      ensures Valid() && fresh(tables)
      ensures this.fixContinuity == fixContinuity && this.sources == sources
      ensures idx == 0 && pos == 0 && tables.Model() == EmptyTables
    {
      this.fixContinuity := fixContinuity;
      this.sources := sources;
      idx := 0;
      pos := 0;
      tables := new SpliceState();
    }

    /** switchSource: only the tables, and only when fixing. */
    method SwitchSource()
      modifies tables
      ensures tables.Model() == if fixContinuity then Switch(old(tables.Model())) else old(tables.Model())
    {
      if fixContinuity {
        tables.SwitchSource();
      }
    }

    /**
     * nextPacket: null once idx passes the last source; otherwise the current source's next
     * packet, fixed when asked, or the next source's after moving on (switching the tables
     * only if there is a next source).
     */
    method NextPacket() returns (r: Result<Option<Packet>, FixError>)
      requires Valid()
      modifies this, tables
      ensures Valid()
      ensures var s := Next(sources, old(idx), old(pos), old(tables.Model()), fixContinuity, LegacySequencerPolicy, false);
        idx == s.idx && pos == s.pos && tables.Model() == s.tables && r == s.result
      decreases |sources| - idx
    {
      if idx >= |sources| {
        return Success(None);
      }
      if pos < |sources[idx]| {
        var p := sources[idx][pos];
        pos := pos + 1;
        if fixContinuity {
          var q, error := tables.Fix(p, idx > 0, LegacySequencerPolicy);
          if error.Some? {
            return Failure(error.value);
          }
          return Success(Some(q));
        }
        return Success(Some(p));
      }
      idx := idx + 1;
      pos := 0;
      if idx < |sources| {
        SwitchSource();
      }
      r := NextPacket();
    }
  }

  /**
   * With fixing on, when a later source starts on a PID that the previous source's packet map
   * does not hold, nextPacket throws instead of returning the packet.
   */
  lemma NewPidInLaterSourceFails(sources: seq<seq<Packet>>, idx: nat, t: Tables)
    requires AllValid(sources) && 0 < idx < |sources| && sources[idx] != []
    requires sources[idx][0].pid !in t.allPackets
    ensures Next(sources, idx, 0, Switch(t), true, LegacySequencerPolicy, false).result == Failure(NullPointer)
  {
    StrictLookupFails(t, sources[idx][0]);
  }

  /** MultiMTSSourceBuilder of the older class. */
  class MultiMtsSourceBuilder {
    var sources: seq<seq<Packet>>
    var fixContinuity: bool

    constructor ()
      ensures sources == [] && !fixContinuity
    {
      sources := [];
      fixContinuity := false;
    }

    method AddSource(source: seq<Packet>)
      modifies this
      ensures sources == old(sources) + [source] && fixContinuity == old(fixContinuity)
    {
      sources := sources + [source];
    }

    /** addSources: as in the newer builder, the collection is appended to itself and the builder is left as it was. */
    method AddSources(collection: seq<seq<Packet>>) returns (collectionAfter: seq<seq<Packet>>)
      ensures collectionAfter == collection + collection
      ensures |collectionAfter| == 2 * |collection|
    {
      collectionAfter := collection + collection;
    }

    method SetSources(sources: seq<seq<Packet>>)
      modifies this
      ensures this.sources == sources && fixContinuity == old(fixContinuity)
    {
      this.sources := sources;
    }

    method SetFixContinuity(fixContinuity: bool)
      modifies this
      ensures this.fixContinuity == fixContinuity && sources == old(sources)
    {
      this.fixContinuity := fixContinuity;
    }

    /** build: any list of sources, the empty one included. */
    method Build() returns (s: MultiMtsSource)
      requires AllValid(sources)
      ensures fresh(s) && s.Valid() && s.sources == sources && s.fixContinuity == fixContinuity
      ensures s.idx == 0 && s.pos == 0
    {
      s := new MultiMtsSource(fixContinuity, sources);
    }
  }
}
