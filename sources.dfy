/**
 * sources/AbstractMTSSource, the base of every packet source: a closed flag guards nextPacket,
 * and close always leaves the source closed, whether or not closeInternal throws.
 *
 * The resettable sources the base is extended by (files, seekable channels) are modelled by one
 * class over the finite sequence of packets a pass over them yields: nextPacketInternal returns
 * them in order and then null, and reset starts the pass again.
 */
module Sources {
  import opened Wrappers
  import opened MtsPacket

  /** What nextPacket and close throw. */
  datatype SourceError = IllegalState | CloseFailed

  /** What the builders' Guava checks throw. */
  datatype BuildError = NullPointer | IllegalArgument

  class PacketSource {
    const packets: seq<Packet>
    const closeFails: bool        // whether closeInternal throws
    var pos: nat                  // packets already yielded in this pass
    var closed: bool
    ghost var closeInternalCalls: nat
    ghost var resets: nat

    ghost predicate Valid()
      reads this
    {
      pos <= |packets|
    }

    /** A new source is open, at the start of its first pass. */
    constructor (packets: seq<Packet>, closeFails: bool)
      ensures Valid() && this.packets == packets && this.closeFails == closeFails
      ensures pos == 0 && !closed && closeInternalCalls == 0 && resets == 0
    {
      this.packets := packets;
      this.closeFails := closeFails;
      pos := 0;
      closed := false;
      closeInternalCalls := 0;
      resets := 0;
    }

    /** nextPacketInternal: the pass's next packet, or null once the pass is over. */
    method NextPacketInternal() returns (r: Option<Packet>)
      requires Valid()
      modifies this`pos
      ensures Valid()
      ensures old(pos) < |packets| ==> r == Some(packets[old(pos)]) && pos == old(pos) + 1
      ensures old(pos) == |packets| ==> r == None && pos == old(pos)
    {
      if pos < |packets| {
        r := Some(packets[pos]);
        pos := pos + 1;
      } else {
        r := None;
      }
    }

    /**
     * nextPacket: a closed source throws IllegalStateException without reading; an open one
     * returns what nextPacketInternal returns.
     */
    method NextPacket() returns (r: Result<Option<Packet>, SourceError>)
      requires Valid()
      modifies this`pos
      ensures Valid()
      ensures closed ==> r == Failure(IllegalState) && pos == old(pos)
      ensures !closed && old(pos) < |packets| ==> r == Success(Some(packets[old(pos)])) && pos == old(pos) + 1
      ensures !closed && old(pos) == |packets| ==> r == Success(None) && pos == old(pos)
    {
      if closed {
        return Failure(IllegalState);
      }
      var p := NextPacketInternal();
      r := Success(p);
    }

    /** closeInternal of the resettable source; whether it throws is given by `closeFails`. */
    method CloseInternal() returns (error: Option<SourceError>)
      modifies this`closeInternalCalls
      ensures closeInternalCalls == old(closeInternalCalls) + 1
      ensures error == if closeFails then Some(CloseFailed) else None
    {
      closeInternalCalls := closeInternalCalls + 1;
      error := if closeFails then Some(CloseFailed) else None;
    }

    /**
     * close: closeInternal runs on every call, closed or not, and the source ends closed even
     * when closeInternal throws (the finally block); the exception is passed on.
     */
    method Close() returns (error: Option<SourceError>)
      modifies this`closed, this`closeInternalCalls
      ensures closed
      ensures closeInternalCalls == old(closeInternalCalls) + 1
      ensures error == if closeFails then Some(CloseFailed) else None
    {
      error := CloseInternal();
      closed := true;
    }

    /** finalize: closes the source only if it is still open. */
    method Finalize() returns (error: Option<SourceError>)
      modifies this`closed, this`closeInternalCalls
      ensures closed
      ensures old(closed) ==> closeInternalCalls == old(closeInternalCalls) && error == None
      ensures !old(closed) ==> closeInternalCalls == old(closeInternalCalls) + 1
      ensures !old(closed) ==> error == if closeFails then Some(CloseFailed) else None
    {
      error := None;
      if !closed {
        error := Close();
      }
    }

    /** reset of ResettableMTSSource: the next pass starts from the first packet. */
    method Reset()
      modifies this`pos, this`resets
      ensures Valid() && pos == 0 && resets == old(resets) + 1
    {
      pos := 0;
      resets := resets + 1;
    }
  }
}
