/**
 * Streamer.stream: sends every packet of the source to the sink, in order, until the source
 * returns null, and paces the packets by their PCRs. A PCR (one with the discontinuity
 * indicator clear) is compared with the previous one: the sleep is the PCR distance in
 * nanoseconds less the wall-clock time elapsed since then. A PCR that does not increase, or a
 * sleep above 100 ms, flags a reset, which forgets the pacing state at the top of the next
 * iteration.
 *
 * System.nanoTime is an input: `clock[i]` is its reading while the i-th packet is handled.
 * Thread.sleep is an output: the durations slept, one per packet, are returned.
 */
module Streamer {
  import opened Wrappers
  import opened MtsPacket
  import opened Sources

  /** The largest PCR sleep accepted: 100 ms in nanoseconds. */
  const MaxSleepNanos: int := 100000000

  /** The loop's pacing variables (averageSleep is never set and is left out). */
  datatype Pacing = Pacing(
    packetCount: nat,
    pcrCount: nat,
    firstPcrValue: Option<int>,
    firstPcrTime: Option<int>,
    lastPcrValue: Option<int>,
    lastPcrTime: Option<int>,
    resetState: bool)

  /** The state before the first packet and after each reset. */
  const Start: Pacing := Pacing(0, 0, None, None, None, None, false)

  /** The PCR a packet paces by: one carried in the adaptation field with the discontinuity indicator clear. */
  function PacingPcr(p: Packet): (r: Option<int>)
    ensures r.Some? <==> p.PcrValue().Some? && !p.adaptationField.value.discontinuityIndicator
    ensures r.Some? ==> r == p.PcrValue()
  {
    if p.adaptationField.Some? && p.adaptationField.value.pcr.Some? && !p.adaptationField.value.discontinuityIndicator
    then Some(p.adaptationField.value.pcr.value.Value())
    else None
  }

  /** The top of the loop: a flagged reset clears the pacing state. */
  function Restarted(s: Pacing): (r: Pacing)
    ensures !r.resetState
    ensures r.lastPcrValue.Some? ==> r == s
  {
    if s.resetState then Start else s
  }

  /** The distance between two PCRs in nanoseconds, less the clock time elapsed between them. */
  function PcrSleep(pcr: int, lastPcr: int, now: int, lastTime: int): int {
    (pcr - lastPcr) / 27 * 1000 - (now - lastTime)
  }

  /** What one packet does to the pacing state, and the sleep it computes. */
  datatype Paced = Paced(state: Pacing, sleepNanos: int)

  /** The handling of a pacing PCR, in a state just past the top of the loop. */
  function OnPcr(s: Pacing, pcr: int, now: int): (r: Paced)
  {
    var first := if s.firstPcrValue.None? || s.firstPcrTime.None? then (Some(pcr), Some(now)) else (s.firstPcrValue, s.firstPcrTime);
    var hasLast := s.lastPcrValue.Some? && s.lastPcrTime.Some?;
    var discontinuity := hasLast && pcr <= s.lastPcrValue.value;
    var previous := if hasLast && !discontinuity then Some(PcrSleep(pcr, s.lastPcrValue.value, now, s.lastPcrTime.value)) else None;
    var tooHigh := previous.Some? && previous.value > MaxSleepNanos;
    var sleep := if previous.Some? && !tooHigh then previous.value else 0;
    Paced(
      s.(pcrCount := s.pcrCount + 1, firstPcrValue := first.0, firstPcrTime := first.1,
         lastPcrValue := Some(pcr), lastPcrTime := Some(now + sleep),
         resetState := s.resetState || discontinuity || tooHigh),
      sleep)
  }

  /** One iteration of the loop for a packet, with the clock reading `now`. */
  function Step(s: Pacing, p: Packet, now: int): (r: Paced)
    ensures r.sleepNanos <= MaxSleepNanos
    ensures r.state.packetCount == Restarted(s).packetCount + 1
  {
    var s0 := Restarted(s);
    var paced := if PacingPcr(p).Some? then OnPcr(s0, PacingPcr(p).value, now) else Paced(s0, 0);
    paced.(state := paced.state.(packetCount := paced.state.packetCount + 1))
  }

  /** Thread.sleep is called only for a positive sleep. */
  function Slept(sleepNanos: int): (r: int)
    ensures 0 <= r && r >= sleepNanos
    ensures r > 0 ==> r == sleepNanos
  {
    if sleepNanos > 0 then sleepNanos else 0
  }

  datatype Trace = Trace(state: Pacing, sleeps: seq<int>)

  /** The loop over the packets `ps`, from state `s`: the final state and what was slept per packet. */
  function Run(s: Pacing, ps: seq<Packet>, clock: seq<int>): (r: Trace)
    requires |clock| >= |ps|
    ensures |r.sleeps| == |ps|
    ensures forall i :: 0 <= i < |ps| ==> 0 <= r.sleeps[i] <= MaxSleepNanos
  {
    if ps == [] then Trace(s, [])
    else
      var before := Run(s, ps[..|ps| - 1], clock);
      var paced := Step(before.state, ps[|ps| - 1], clock[|ps| - 1]);
      Trace(paced.state, before.sleeps + [Slept(paced.sleepNanos)])
  }

  /** A packet without a pacing PCR sleeps nothing and leaves the PCR state as the top of the loop left it. */
  lemma OnlyPcrsPace(s: Pacing, p: Packet, now: int)
    requires PacingPcr(p).None?
    ensures var r := Step(s, p, now);
      && r.sleepNanos == 0
      && r.state == Restarted(s).(packetCount := Restarted(s).packetCount + 1)
  {
  }

  /**
   * The first pacing PCR after the start or a reset only records itself: no sleep, and it
   * becomes both the first and the last PCR, at the current time.
   */
  lemma FirstPcrOnlyRecords(s: Pacing, p: Packet, now: int)
    requires PacingPcr(p).Some? && Restarted(s).lastPcrValue.None? && Restarted(s).firstPcrValue.None?
    ensures var r := Step(s, p, now);
      && r.sleepNanos == 0 && !r.state.resetState
      && r.state.firstPcrValue == PacingPcr(p) && r.state.firstPcrTime == Some(now)
      && r.state.lastPcrValue == PacingPcr(p) && r.state.lastPcrTime == Some(now)
  {
  }

  /**
   * A later pacing PCR above the last one sleeps for the PCR distance less the time elapsed,
   * unless that exceeds 100 ms, which sleeps nothing and flags a reset. Either way the last PCR
   * becomes this one, timed at the current time plus the sleep: after a sleep, at the last PCR's
   * time plus the PCR distance.
   */
  lemma SleepFollowsPcrDistance(s: Pacing, p: Packet, now: int)
    requires PacingPcr(p).Some?
    requires Restarted(s).lastPcrValue.Some? && Restarted(s).lastPcrTime.Some?
    requires PacingPcr(p).value > Restarted(s).lastPcrValue.value
    ensures var s0 := Restarted(s);
      var pcr := PacingPcr(p).value;
      var d := PcrSleep(pcr, s0.lastPcrValue.value, now, s0.lastPcrTime.value);
      var r := Step(s, p, now);
      && (r.sleepNanos == if d <= MaxSleepNanos then d else 0)
      && (r.state.resetState <==> d > MaxSleepNanos)
      && r.state.lastPcrValue == Some(pcr)
      && (d <= MaxSleepNanos ==> r.state.lastPcrTime == Some(s0.lastPcrTime.value + (pcr - s0.lastPcrValue.value) / 27 * 1000))
  {
  }

  /**
   * A reset is flagged exactly when a pacing PCR follows a recorded one and either does not
   * increase or asks for a sleep above 100 ms; it sleeps nothing.
   */
  lemma ResetWhen(s: Pacing, p: Packet, now: int)
    ensures var s0 := Restarted(s);
      var r := Step(s, p, now);
      r.state.resetState <==>
        && PacingPcr(p).Some? && s0.lastPcrValue.Some? && s0.lastPcrTime.Some?
        && (PacingPcr(p).value <= s0.lastPcrValue.value
            || PcrSleep(PacingPcr(p).value, s0.lastPcrValue.value, now, s0.lastPcrTime.value) > MaxSleepNanos)
    ensures Step(s, p, now).state.resetState ==> Step(s, p, now).sleepNanos == 0
  {
  }

  /** A sleep is only ever computed from a pacing PCR above a recorded one. */
  lemma SleepNeedsIncreasingPcr(s: Pacing, p: Packet, now: int)
    requires Step(s, p, now).sleepNanos != 0
    ensures PacingPcr(p).Some? && Restarted(s).lastPcrValue.Some?
    ensures PacingPcr(p).value > Restarted(s).lastPcrValue.value
  {
  }

  /** A stream without pacing PCRs is sent without sleeping. */
  lemma {:induction false} NoPcrNoSleep(s: Pacing, ps: seq<Packet>, clock: seq<int>)
    requires |clock| >= |ps|
    requires forall i :: 0 <= i < |ps| ==> PacingPcr(ps[i]).None?
    ensures forall i :: 0 <= i < |ps| ==> Run(s, ps, clock).sleeps[i] == 0
  {
    if ps != [] {
      NoPcrNoSleep(s, ps[..|ps| - 1], clock);
      OnlyPcrsPace(Run(s, ps[..|ps| - 1], clock).state, ps[|ps| - 1], clock[|ps| - 1]);
    }
  }

  /** MTSSink: records what it is sent. */
  class Sink {
    var sent: seq<Packet>

    constructor ()
      ensures sent == []
    {
      sent := [];
    }

    method Send(p: Packet)
      modifies this
      ensures sent == old(sent) + [p]
    {
      sent := sent + [p];
    }
  }

  class Streamer {
    const source: PacketSource
    const sink: Sink

    constructor (source: PacketSource, sink: Sink)
      ensures this.source == source && this.sink == sink
    {
      this.source := source;
      this.sink := sink;
    }

    /**
     * stream: the loop reads packets until null and sends each one; its pacing variables follow
     * `Run`. A closed source throws on the first read.
     */
    method Stream(clock: seq<int>) returns (sleeps: seq<int>, error: Option<SourceError>)
      requires source.Valid() && |clock| >= |source.packets| - source.pos
      modifies source`pos, sink
      ensures source.closed ==> error == Some(IllegalState) && sink.sent == old(sink.sent) && sleeps == []
      ensures !source.closed ==> error == None && source.pos == |source.packets|
      ensures !source.closed ==> sink.sent == old(sink.sent) + old(source.packets[source.pos..])
      ensures !source.closed ==> sleeps == Run(Start, old(source.packets[source.pos..]), clock).sleeps
    {
      ghost var ps := source.packets[source.pos..];
      var state := Start;
      sleeps := [];
      error := None;
      var i := 0;
      while true
        invariant source.Valid() && source.packets[old(source.pos)..] == ps
        invariant old(source.pos) <= source.pos && i == source.pos - old(source.pos) && i <= |ps|
        invariant source.closed ==> i == 0
        invariant sink.sent == old(sink.sent) + ps[..i]
        invariant Run(Start, ps[..i], clock) == Trace(state, sleeps)
        decreases |source.packets| - source.pos
      {
        var r := source.NextPacket();
        if r.Failure? {
          return sleeps, Some(r.error);
        }
        if r.value.None? {
          break;
        }
        var p := r.value.value;
        var sleepNanos;
        state, sleepNanos := PacePacket(state, p, clock[i]);
        sleeps := sleeps + [Slept(sleepNanos)];
        sink.Send(p);
        assert ps[..i + 1][..i] == ps[..i];
        i := i + 1;
      }
      assert ps[..i] == ps;
    }
  }

  /**
   * The pacing part of one iteration of stream's loop, on its local variables: the reset at the
   * top, then the PCR handling, then the packet count.
   */
  method PacePacket(s: Pacing, p: Packet, now: int) returns (t: Pacing, sleepNanos: int)
    ensures Paced(t, sleepNanos) == Step(s, p, now)
  {
    var resetState := s.resetState;
    var packetCount := s.packetCount;
    var pcrCount := s.pcrCount;
    var firstPcrValue := s.firstPcrValue;
    var firstPcrTime := s.firstPcrTime;
    var lastPcrValue := s.lastPcrValue;
    var lastPcrTime := s.lastPcrTime;
    if resetState {
      packetCount := 0;
      pcrCount := 0;
      firstPcrValue := None;
      firstPcrTime := None;
      lastPcrValue := None;
      lastPcrTime := None;
      resetState := false;
    }
    sleepNanos := 0;
    if p.adaptationField.Some? && p.adaptationField.value.pcr.Some? && !p.adaptationField.value.discontinuityIndicator {
      var pcrValue := p.adaptationField.value.pcr.value.Value();
      var pcrTime := now;
      pcrCount := pcrCount + 1;
      if firstPcrValue.None? || firstPcrTime.None? {
        firstPcrValue := Some(pcrValue);
        firstPcrTime := Some(pcrTime);
      }
      var sleepNanosPrevious: Option<int> := None;
      if lastPcrValue.Some? && lastPcrTime.Some? {
        if pcrValue <= lastPcrValue.value {
          resetState := true;
        } else {
          sleepNanosPrevious := Some((pcrValue - lastPcrValue.value) / 27 * 1000 - (pcrTime - lastPcrTime.value));
        }
      }
      if sleepNanosPrevious.Some? {
        if sleepNanosPrevious.value > MaxSleepNanos {
          resetState := true;
        } else {
          sleepNanos := sleepNanosPrevious.value;
        }
      }
      lastPcrValue := Some(pcrValue);
      lastPcrTime := Some(pcrTime + sleepNanos);
    }
    packetCount := packetCount + 1;
    t := Pacing(packetCount, pcrCount, firstPcrValue, firstPcrTime, lastPcrValue, lastPcrTime, resetState);
  }

  /** StreamerBuilder. */
  class StreamerBuilder {
    var sink: Sink?
    var source: PacketSource?

    constructor ()
      ensures sink == null && source == null
    {
      sink := null;
      source := null;
    }

    method SetSink(sink: Sink?)
      modifies this
      ensures this.sink == sink && source == old(source)
    {
      this.sink := sink;
    }

    method SetSource(source: PacketSource?)
      modifies this
      ensures this.source == source && sink == old(sink)
    {
      this.source := source;
    }

    /** build: both the sink and the source must be set. */
    method Build() returns (r: Result<Streamer, BuildError>)
      ensures r.Failure? <==> sink == null || source == null
      ensures r.Failure? ==> r.error == NullPointer
      ensures r.Success? ==> fresh(r.value) && r.value.sink == sink && r.value.source == source
    {
      if sink == null || source == null {
        return Failure(NullPointer);
      }
      var s := new Streamer(source, sink);
      r := Success(s);
    }
  }
}
