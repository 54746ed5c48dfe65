/**
 * sources/LoopingMTSSource: plays a resettable source over and over. A pass that ends starts the
 * next loop; the source is reset and read again as long as there is no loop limit or the new
 * loop number is within it, otherwise null is returned.
 */
module LoopingSource {
  import opened Wrappers
  import opened MtsPacket
  import opened Sources

  /** `xs` played `n` times in a row. */
  function Repeat(xs: seq<Packet>, n: nat): (r: seq<Packet>)
  {
    if n == 0 then [] else xs + Repeat(xs, n - 1)
  }

  /** n passes hold n times as many packets as one. */
  lemma {:induction false} RepeatLength(xs: seq<Packet>, n: nat)
    ensures |Repeat(xs, n)| == n * |xs|
  {
    if n > 0 {
      RepeatLength(xs, n - 1);
    }
  }

  /** Whether loop number `loop` may be played under the limit (null means no limit). */
  predicate Continues(maxLoops: Option<int>, loop: int) {
    maxLoops.None? || loop <= maxLoops.value
  }

  class LoopingMtsSource {
    const source: PacketSource
    const fixContinuity: bool     // stored, never read
    const maxLoops: Option<int>
    var currentLoop: int
    var closed: bool

    ghost predicate Valid()
      reads this, source
    {
      source.Valid() && currentLoop >= 1
    }

    /** The first loop is loop 1. */
    constructor (source: PacketSource, fixContinuity: bool, maxLoops: Option<int>)
      requires source.Valid()
      ensures Valid() && this.source == source && this.fixContinuity == fixContinuity && this.maxLoops == maxLoops
      ensures currentLoop == 1 && !closed
    {
      this.source := source;
      this.fixContinuity := fixContinuity;
      this.maxLoops := maxLoops;
      currentLoop := 1;
      closed := false;
    }

    /**
     * nextPacketInternal: a packet of the wrapped source is passed on as is. When the pass ends
     * the loop number goes up, and if that loop may be played the source is reset and read again.
     */
    method NextPacketInternal() returns (r: Result<Option<Packet>, SourceError>)
      requires Valid()
      modifies source`pos, source`resets, this`currentLoop
      ensures Valid()
      ensures source.closed ==> r == Failure(IllegalState) && currentLoop == old(currentLoop)
      ensures source.closed ==> source.pos == old(source.pos) && source.resets == old(source.resets)
      ensures !source.closed && old(source.pos) < |source.packets| ==>
        r == Success(Some(source.packets[old(source.pos)])) && source.pos == old(source.pos) + 1
      ensures !source.closed && old(source.pos) < |source.packets| ==>
        currentLoop == old(currentLoop) && source.resets == old(source.resets)
      ensures !source.closed && old(source.pos) == |source.packets| ==> currentLoop == old(currentLoop) + 1
      ensures !source.closed && old(source.pos) == |source.packets| && !Continues(maxLoops, currentLoop) ==>
        r == Success(None) && source.pos == old(source.pos) && source.resets == old(source.resets)
      ensures !source.closed && old(source.pos) == |source.packets| && Continues(maxLoops, currentLoop) ==>
        source.resets == old(source.resets) + 1
      ensures !source.closed && old(source.pos) == |source.packets| && Continues(maxLoops, currentLoop) ==>
        if source.packets == [] then r == Success(None) && source.pos == 0
        else r == Success(Some(source.packets[0])) && source.pos == 1
    {
      r := source.NextPacket();
      if r == Success(None) {
        currentLoop := currentLoop + 1;
        if maxLoops.None? || currentLoop <= maxLoops.value {
          source.Reset();
          r := source.NextPacket();
        }
      }
    }

    /** nextPacket of the base class: a closed looping source throws without reading. */
    method NextPacket() returns (r: Result<Option<Packet>, SourceError>)
      requires Valid()
      modifies source`pos, source`resets, this`currentLoop
      ensures Valid()
      ensures closed ==> r == Failure(IllegalState) && currentLoop == old(currentLoop)
      ensures closed ==> source.pos == old(source.pos) && source.resets == old(source.resets)
      ensures !closed && !source.closed && old(source.pos) < |source.packets| ==>
        r == Success(Some(source.packets[old(source.pos)])) && source.pos == old(source.pos) + 1
      ensures !closed && !source.closed && old(source.pos) < |source.packets| ==>
        currentLoop == old(currentLoop) && source.resets == old(source.resets)
      ensures !closed && !source.closed && old(source.pos) == |source.packets| ==> currentLoop == old(currentLoop) + 1
      ensures !closed && !source.closed && old(source.pos) == |source.packets| && !Continues(maxLoops, currentLoop) ==>
        r == Success(None) && source.pos == old(source.pos) && source.resets == old(source.resets)
      ensures !closed && !source.closed && old(source.pos) == |source.packets| && Continues(maxLoops, currentLoop) ==>
        source.resets == old(source.resets) + 1
      ensures !closed && !source.closed && old(source.pos) == |source.packets| && Continues(maxLoops, currentLoop) ==>
        if source.packets == [] then r == Success(None) && source.pos == 0
        else r == Success(Some(source.packets[0])) && source.pos == 1
    {
      if closed {
        return Failure(IllegalState);
      }
      r := NextPacketInternal();
    }

    /** close: closeInternal closes the wrapped source; the looping source ends closed regardless. */
    method Close() returns (error: Option<SourceError>)
      modifies this`closed, source`closed, source`closeInternalCalls
      ensures closed && source.closed
      ensures source.closeInternalCalls == old(source.closeInternalCalls) + 1
      ensures error == if source.closeFails then Some(CloseFailed) else None
    {
      error := source.Close();
      closed := true;
    }
  }

  /**
   * With a limit of k loops over a source that yields at least one packet per pass, reading
   * until null yields the pass k times over, and the source is reset k - 1 times.
   */
  method DrainLimited(s: LoopingMtsSource, k: nat) returns (out: seq<Packet>)
    requires s.Valid() && !s.closed && !s.source.closed
    requires s.maxLoops == Some(k) && k >= 1
    requires s.currentLoop == 1 && s.source.pos == 0 && s.source.packets != []
    modifies s`currentLoop, s.source`pos, s.source`resets
    ensures out == Repeat(s.source.packets, k)
    ensures |out| == k * |s.source.packets|
    ensures s.source.resets == old(s.source.resets) + k - 1
  {
    var xs := s.source.packets;
    out := [];
    var done := false;
    while !done
      invariant s.Valid() && !s.closed && !s.source.closed && s.source.packets == xs
      invariant !done ==> 1 <= s.currentLoop <= k
      invariant !done ==> out + xs[s.source.pos..] + Repeat(xs, k - s.currentLoop) == Repeat(xs, k)
      invariant !done ==> s.source.resets == old(s.source.resets) + s.currentLoop - 1
      invariant done ==> out == Repeat(xs, k) && s.source.resets == old(s.source.resets) + k - 1
      decreases !done, k - s.currentLoop, |xs| - s.source.pos
    {
      ghost var pos := s.source.pos;
      ghost var loop := s.currentLoop;
      var r := s.NextPacket();
      if r == Success(None) {
        assert pos == |xs| && loop == k;
        assert xs[pos..] == [];
        done := true;
      } else {
        if pos < |xs| {
          assert xs[pos..] == [xs[pos]] + xs[pos + 1..];
        } else {
          assert Repeat(xs, k - loop) == xs + Repeat(xs, k - s.currentLoop);
          assert xs == [xs[0]] + xs[1..];
        }
        out := out + [r.value.value];
      }
    }
    RepeatLength(xs, k);
  }

  /** LoopingMTSSourceBuilder. */
  class LoopingMtsSourceBuilder {
    var source: PacketSource?
    var fixContinuity: bool
    var maxLoops: Option<int>

    constructor ()
      ensures source == null && !fixContinuity && maxLoops == None
    {
      source := null;
      fixContinuity := false;
      maxLoops := None;
    }

    method SetSource(source: PacketSource?)
      modifies this
      ensures this.source == source && fixContinuity == old(fixContinuity) && maxLoops == old(maxLoops)
    {
      this.source := source;
    }

    method SetFixContinuity(fixContinuity: bool)
      modifies this
      ensures this.fixContinuity == fixContinuity && source == old(source) && maxLoops == old(maxLoops)
    {
      this.fixContinuity := fixContinuity;
    }

    method SetMaxLoops(maxLoops: Option<int>)
      modifies this
      ensures this.maxLoops == maxLoops && source == old(source) && fixContinuity == old(fixContinuity)
    {
      this.maxLoops := maxLoops;
    }

    /** build: the source must be set, and a loop limit, when given, must be positive. */
    method Build() returns (r: Result<LoopingMtsSource, BuildError>)
      requires source != null ==> source.Valid()
      ensures r.Failure? && r.error == NullPointer <==> source == null
      ensures r.Failure? && r.error == IllegalArgument <==> source != null && maxLoops.Some? && maxLoops.value <= 0
      ensures r.Success? ==> fresh(r.value) && r.value.Valid() && r.value.source == source
      ensures r.Success? ==> r.value.maxLoops == maxLoops && r.value.fixContinuity == fixContinuity
      ensures r.Success? ==> r.value.currentLoop == 1 && !r.value.closed
    {
      if source == null {
        return Failure(NullPointer);
      }
      if !(maxLoops.None? || maxLoops.value > 0) {
        return Failure(IllegalArgument);
      }
      var s := new LoopingMtsSource(source, fixContinuity, maxLoops);
      r := Success(s);
    }
  }
}
