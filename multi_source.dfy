/**
 * sources/MultiMTSSource: plays several sources one after the other, optionally fixing
 * continuity counters, PTS and PCR across the boundaries (no gap, missing PIDs default to 0).
 * The constructor refuses an empty list of sources.
 */
module MultiSource {
  import opened Wrappers
  import opened MtsPacket
  import opened Splice
  import opened SpliceState
  import opened SourceSequence

  datatype BuildError = IllegalArgument

  class MultiMtsSource {
    const fixContinuity: bool
    const sources: seq<seq<Packet>>
    var idx: nat          // index of the current source; currentSource is null once it reaches |sources|
    var pos: nat          // packets already taken from the current source
    const tables: SpliceState

    ghost predicate Valid()
      reads this, tables
    {
      && AllValid(sources) && |sources| > 0
      && (idx < |sources| ==> pos <= |sources[idx]|)
      && (fixContinuity ==> Inv(tables.Model(), idx > 0))
    }

    constructor (fixContinuity: bool, sources: seq<seq<Packet>>)
      requires AllValid(sources) && |sources| > 0
      ensures Valid() && fresh(tables)
      ensures this.fixContinuity == fixContinuity && this.sources == sources
      ensures idx == 0 && pos == 0 && tables.Model() == EmptyTables
    {
      this.fixContinuity := fixContinuity;
      this.sources := sources;
      idx := 0;
      pos := 0;
      tables := new SpliceState();
    }

    /** The checked construction: an empty list of sources is an IllegalArgumentException. */
    static method Create(fixContinuity: bool, sources: seq<seq<Packet>>) returns (r: Result<MultiMtsSource, BuildError>)
      requires AllValid(sources)
      ensures r.Failure? <==> sources == []
      ensures r.Success? ==> fresh(r.value) && r.value.Valid() && r.value.sources == sources
      ensures r.Success? ==> r.value.fixContinuity == fixContinuity && r.value.idx == 0 && r.value.pos == 0
    {
      if |sources| == 0 {
        return Failure(IllegalArgument);
      }
      var s := new MultiMtsSource(fixContinuity, sources);
      r := Success(s);
    }

    /**
     * nextPacket: null once the sources are exhausted; otherwise the current source's next
     * packet, fixed when asked, or, when the current source is exhausted, the first packet of
     * the sources after it. A fixing exception propagates.
     */
    method NextPacket() returns (r: Result<Option<Packet>, FixError>)
      requires Valid()
      modifies this, tables
      ensures Valid()
      ensures var s := Next(sources, old(idx), old(pos), old(tables.Model()), fixContinuity, SequencerPolicy, true);
        idx == s.idx && pos == s.pos && tables.Model() == s.tables && r == s.result
      ensures r != Failure(NullPointer)
      decreases |sources| - idx
    {
      if idx >= |sources| {
        return Success(None);
      }
      if pos < |sources[idx]| {
        var p := sources[idx][pos];
        pos := pos + 1;
        if fixContinuity {
          var q, error := FixContinuity(p);
          if error.Some? {
            return Failure(error.value);
          }
          return Success(Some(q));
        }
        return Success(Some(p));
      }
      SwitchSource();
      r := NextPacket();
    }

    /** switchSource: the tables are switched when fixing, and the next source becomes current. */
    method SwitchSource()
      requires Valid() && idx < |sources|
      modifies this, tables
      ensures Valid()
      ensures idx == old(idx) + 1 && pos == 0
      ensures tables.Model() == if fixContinuity then Switch(old(tables.Model())) else old(tables.Model())
    {
      if fixContinuity {
        tables.SwitchSource();
      }
      idx := idx + 1;
      pos := 0;
    }

    /** fixContinuity: the splice fixing with rewriting from the second source on. */
    method FixContinuity(p: Packet) returns (q: Packet, error: Option<FixError>)
      requires p.Valid() && fixContinuity && Inv(tables.Model(), idx > 0)
      modifies tables
      ensures Inv(tables.Model(), idx > 0)
      ensures var f := Fix(old(tables.Model()), p, idx > 0, SequencerPolicy);
        tables.Model() == f.tables && q == f.packet && error == f.error
      ensures error != Some(NullPointer)
    {
      TolerantFixNeverNull(tables.Model(), p, idx > 0, SequencerPolicy);
      q, error := tables.Fix(p, idx > 0, SequencerPolicy);
    }
  }

  /** One nextPacket without fixing, in terms of `rest`, what the sources still hold. */
  method NextUnfixed(s: MultiMtsSource, ghost rest: seq<Packet>) returns (r: Result<Option<Packet>, FixError>)
    requires s.Valid() && !s.fixContinuity
    requires rest == Remaining(s.sources, s.idx, s.pos)
    modifies s, s.tables
    ensures s.Valid()
    ensures rest == [] ==> r == Success(None)
    ensures rest != [] ==> r == Success(Some(rest[0])) && Remaining(s.sources, s.idx, s.pos) == rest[1..]
  {
    NextConsumesHead(s.sources, s.idx, s.pos, s.tables.Model(), false, SequencerPolicy, true);
    NextReturnsHead(s.sources, s.idx, s.pos, s.tables.Model(), false, SequencerPolicy, true);
    r := s.NextPacket();
  }

  /** Without fixing, reading until null yields exactly the packets the sources still hold, in order. */
  method DrainUnfixed(s: MultiMtsSource) returns (out: seq<Packet>)
    requires s.Valid() && !s.fixContinuity
    modifies s, s.tables
    ensures out == old(Remaining(s.sources, s.idx, s.pos))
  {
    out := [];
    ghost var total := Remaining(s.sources, s.idx, s.pos);
    ghost var rest := total;
    var done := false;
    while !done
      invariant s.Valid() && !s.fixContinuity
      invariant !done ==> rest == Remaining(s.sources, s.idx, s.pos)
      invariant total == out + rest
      invariant done ==> rest == []
      decreases |rest| + (if done then 0 else 1)
    {
      var r := NextUnfixed(s, rest);
      if r == Success(None) {
        done := true;
      } else {
        assert rest == [rest[0]] + rest[1..];
        out := out + [r.value.value];
        rest := rest[1..];
      }
    }
  }

  /** MultiMTSSourceBuilder. */
  class MultiMtsSourceBuilder {
    var sources: seq<seq<Packet>>
    var fixContinuity: bool

    constructor ()
      ensures sources == [] && !fixContinuity
    {
      sources := [];
      fixContinuity := false;
    }

    method AddSource(source: seq<Packet>)
      modifies this
      ensures sources == old(sources) + [source] && fixContinuity == old(fixContinuity)
    {
      sources := sources + [source];
    }

    /**
     * addSources: the parameter has the field's name, so the collection is appended to itself
     * and the builder's own list is left as it was. The collection after the call is returned.
     */
    method AddSources(collection: seq<seq<Packet>>) returns (collectionAfter: seq<seq<Packet>>)
      ensures collectionAfter == collection + collection
      ensures |collectionAfter| == 2 * |collection|
    {
      collectionAfter := collection + collection;
    }

    method SetSources(sources: seq<seq<Packet>>)
      modifies this
      ensures this.sources == sources && fixContinuity == old(fixContinuity)
    {
      this.sources := sources;
    }

    method SetFixContinuity(fixContinuity: bool)
      modifies this
      ensures this.fixContinuity == fixContinuity && sources == old(sources)
    {
      this.fixContinuity := fixContinuity;
    }

    /** build: fails on an empty source list. */
    method Build() returns (r: Result<MultiMtsSource, BuildError>)
      requires AllValid(sources)
      ensures r.Failure? <==> sources == []
      ensures r.Success? ==> fresh(r.value) && r.value.Valid() && r.value.sources == sources
      ensures r.Success? ==> r.value.fixContinuity == fixContinuity && r.value.idx == 0 && r.value.pos == 0
    {
      r := MultiMtsSource.Create(fixContinuity, sources);
    }
  }
}
