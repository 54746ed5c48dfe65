/**
 * What the two MultiMTSSource classes do on each nextPacket, as a function of the sources'
 * packets, the current source index and read position, and the splice tables: take the current
 * source's next packet and fix it, or switch to the next source and try again, until the sources
 * run out.
 *
 * Each underlying source is the finite sequence of packets it yields before returning null.
 */
module SourceSequence {
  import opened Wrappers
  import opened MtsPacket
  import opened Splice

  /** Every packet of every source is a well-formed view (its payload offset lies within it). */
  predicate AllValid(sources: seq<seq<Packet>>) {
    forall i, j :: 0 <= i < |sources| && 0 <= j < |sources[i]| ==> sources[i][j].Valid()
  }

  /** The packets of the sources, one source after another. */
  function Flatten(sources: seq<seq<Packet>>): (r: seq<Packet>)
    ensures |r| == 0 <==> forall i :: 0 <= i < |sources| ==> sources[i] == []
  {
    if sources == [] then [] else sources[0] + Flatten(sources[1..])
  }

  /** What the sequence still has to yield from source `idx`, read up to `pos`. */
  function Remaining(sources: seq<seq<Packet>>, idx: nat, pos: nat): seq<Packet> {
    if idx >= |sources| then []
    else (if pos <= |sources[idx]| then sources[idx][pos..] else []) + Flatten(sources[idx + 1..])
  }

  datatype Step = Step(idx: nat, pos: nat, tables: Tables, result: Result<Option<Packet>, FixError>)

  /**
   * One nextPacket. With `fix` set, packets go through the splice fixing, in a later source
   * (idx > 0) with rewriting. An exhausted source is switched away from; `switchAfterLast` says
   * whether the tables are also switched when the last source runs out (sources/MultiMTSSource
   * does, the older class does not). A fixing exception propagates after the packet was taken.
   */
  function Next(sources: seq<seq<Packet>>, idx: nat, pos: nat, t: Tables, fix: bool, policy: Policy, switchAfterLast: bool): (r: Step)
    requires AllValid(sources)
    ensures r.idx >= idx
    ensures idx < |sources| && pos >= |sources[idx]| ==> r.idx > idx
    ensures r.result == Success(None) <==> r.idx >= |sources|
    ensures r.result != Success(None) ==> r.idx < |sources| && 0 < r.pos <= |sources[r.idx]|
    decreases |sources| - idx
  {
    if idx >= |sources| then Step(idx, pos, t, Success(None))
    else if pos < |sources[idx]| then
      var raw := sources[idx][pos];
      if !fix then Step(idx, pos + 1, t, Success(Some(raw)))
      else
        var f := Fix(t, raw, idx > 0, policy);
        Step(idx, pos + 1, f.tables, if f.error.Some? then Failure(f.error.value) else Success(Some(f.packet)))
    else
      var t' := if fix && (switchAfterLast || idx + 1 < |sources|) then Switch(t) else t;
      Next(sources, idx + 1, 0, t', fix, policy, switchAfterLast)
  }

  /** An exhausted source adds nothing: what remains is what the next source and those after it hold. */
  lemma RemainingSkip(sources: seq<seq<Packet>>, idx: nat, pos: nat)
    requires idx < |sources| && pos >= |sources[idx]|
    ensures Remaining(sources, idx, pos) == Remaining(sources, idx + 1, 0)
  {
    if idx + 1 < |sources| {
      assert sources[idx + 1..] == [sources[idx + 1]] + sources[idx + 2..];
      assert sources[idx + 1..][1..] == sources[idx + 2..];
    }
  }

  /** Taking the next packet of the current source leaves the rest of the sequence. */
  lemma RemainingTake(sources: seq<seq<Packet>>, idx: nat, pos: nat)
    requires idx < |sources| && pos < |sources[idx]|
    ensures var rem := Remaining(sources, idx, pos);
      rem != [] && rem[0] == sources[idx][pos] && Remaining(sources, idx, pos + 1) == rem[1..]
  {
    var rem := Remaining(sources, idx, pos);
    assert rem == sources[idx][pos..] + Flatten(sources[idx + 1..]);
    assert rem[1..] == sources[idx][pos + 1..] + Flatten(sources[idx + 1..]);
  }

  /**
   * nextPacket walks the concatenation of the sources: it returns null exactly when nothing is
   * left, otherwise it consumes the next packet.
   */
  lemma {:induction false} NextConsumesHead(sources: seq<seq<Packet>>, idx: nat, pos: nat, t: Tables, fix: bool, policy: Policy, switchAfterLast: bool)
    requires AllValid(sources)
    requires idx < |sources| ==> pos <= |sources[idx]|
    ensures var r := Next(sources, idx, pos, t, fix, policy, switchAfterLast);
      var rem := Remaining(sources, idx, pos);
      && (r.result == Success(None) <==> rem == [])
      && (r.idx < |sources| ==> r.pos <= |sources[r.idx]|)
      && (rem != [] ==> Remaining(sources, r.idx, r.pos) == rem[1..])
    decreases |sources| - idx
  {
    if idx < |sources| {
      if pos < |sources[idx]| {
        RemainingTake(sources, idx, pos);
      } else {
        var t' := if fix && (switchAfterLast || idx + 1 < |sources|) then Switch(t) else t;
        NextConsumesHead(sources, idx + 1, 0, t', fix, policy, switchAfterLast);
        RemainingSkip(sources, idx, pos);
      }
    }
  }

  /**
   * The packet nextPacket returns is the head of what remains: as is without fixing, and with
   * fixing, unless the fixing threw, its rewritten form with the same PID.
   */
  lemma {:induction false} NextReturnsHead(sources: seq<seq<Packet>>, idx: nat, pos: nat, t: Tables, fix: bool, policy: Policy, switchAfterLast: bool)
    requires AllValid(sources)
    requires idx < |sources| ==> pos <= |sources[idx]|
    ensures var r := Next(sources, idx, pos, t, fix, policy, switchAfterLast);
      var rem := Remaining(sources, idx, pos);
      && (rem != [] && !fix ==> r.result == Success(Some(rem[0])))
      && (rem != [] && r.result.Success? ==> r.result.value.Some? && r.result.value.value.pid == rem[0].pid)
    decreases |sources| - idx
  {
    if idx < |sources| {
      if pos < |sources[idx]| {
        RemainingTake(sources, idx, pos);
      } else {
        var t' := if fix && (switchAfterLast || idx + 1 < |sources|) then Switch(t) else t;
        NextReturnsHead(sources, idx + 1, 0, t', fix, policy, switchAfterLast);
        NextConsumesHead(sources, idx + 1, 0, t', fix, policy, switchAfterLast);
        RemainingSkip(sources, idx, pos);
      }
    }
  }

  /** Once nextPacket has returned null it keeps returning null and changes nothing. */
  lemma {:induction false} EndIsSticky(sources: seq<seq<Packet>>, idx: nat, pos: nat, t: Tables, fix: bool, policy: Policy, switchAfterLast: bool)
    requires AllValid(sources)
    requires Next(sources, idx, pos, t, fix, policy, switchAfterLast).result == Success(None)
    ensures var r := Next(sources, idx, pos, t, fix, policy, switchAfterLast);
      Next(sources, r.idx, r.pos, r.tables, fix, policy, switchAfterLast) == r
    decreases |sources| - idx
  {
    if idx < |sources| {
      if pos < |sources[idx]| {
      } else {
        var t' := if fix && (switchAfterLast || idx + 1 < |sources|) then Switch(t) else t;
        EndIsSticky(sources, idx + 1, 0, t', fix, policy, switchAfterLast);
      }
    }
  }

  /**
   * With tolerant lookups and the tables switched at every source change (sources/MultiMTSSource)
   * the tables keep their invariant from one call to the next, and nextPacket never fails on an
   * absent map entry.
   */
  lemma {:induction false} TolerantNextNeverNull(sources: seq<seq<Packet>>, idx: nat, pos: nat, t: Tables, policy: Policy)
    requires AllValid(sources) && !policy.strictLookups
    requires Inv(t, idx > 0)
    ensures var r := Next(sources, idx, pos, t, true, policy, true);
      r.result != Failure(NullPointer) && Inv(r.tables, r.idx > 0)
    decreases |sources| - idx
  {
    if idx < |sources| {
      if pos < |sources[idx]| {
        TolerantFixNeverNull(t, sources[idx][pos], idx > 0, policy);
      } else {
        TolerantNextNeverNull(sources, idx + 1, 0, Switch(t), policy);
      }
    }
  }
}
