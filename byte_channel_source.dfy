/**
 * sources/AbstractByteChannelMTSSource: cuts transport packets out of a byte channel read into
 * a 188000-byte buffer. The scan skips bytes up to a sync marker (0x47) and takes the 188 bytes
 * there when they end the buffer or are followed by another marker; a short tail of a full
 * buffer is carried over to the front of a fresh one before reading on.
 *
 * The channel is the finite sequence of bytes it delivers before its end of stream; `readPos`
 * says how many have been read. NIOUtils.read, which reads until the buffer is full or the
 * channel ends, is `Refill`.
 */
module ByteChannelSource {
  import opened Wrappers
  import opened NioUtils
  import opened MtsPacket
  import opened Sources

  /** BUFFER_SIZE: room for 1000 packets. */
  const BufferSize: nat := 188000

  /** The unwritten part of a freshly allocated buffer. */
  function Zeros(n: nat): (r: seq<byte>)
    ensures |r| == n && forall i :: 0 <= i < n ==> r[i] == 0
  {
    seq(n, _ => 0)
  }

  /** What the scan at a marker comes to: the channel's end, a rejected candidate, or a candidate packet. */
  datatype Scan = EndOfStream | Skipped | Candidate(bytes: seq<byte>)

  /** What one turn of the scan comes to: the channel's end, a packet, or another turn. */
  datatype Outcome = End | Got(packet: Packet) | Retry

  /** A packet starts at `start` of `s` and is followed by the next marker or by the end of `s`. */
  predicate Framed(s: seq<byte>, start: int) {
    && 0 <= start && start + PacketSize <= |s| && s[start] == TsMarker
    && (start + PacketSize == |s| || s[start + PacketSize] == TsMarker)
  }

  /** No packet is framed at any offset from `from` up to, but not including, `to`. */
  ghost predicate NoneFramed(s: seq<byte>, from: int, to: int) {
    forall k :: from <= k < to ==> !Framed(s, k)
  }

  lemma NoneFramedJoin(s: seq<byte>, a: int, b: int, c: int)
    requires NoneFramed(s, a, b) && NoneFramed(s, b, c)
    ensures NoneFramed(s, a, c)
  {
  }

  /** Nothing is framed where fewer than 188 bytes of the channel remain. */
  lemma NoneFramedNearEnd(s: seq<byte>, a: int, b: int, c: int)
    requires NoneFramed(s, a, b) && |s| < b + PacketSize
    ensures NoneFramed(s, a, c)
  {
  }

  /** A 188-byte candidate that starts with a marker always parses: the header and adaptation fields fit. */
  lemma CandidateParses(bytes: seq<byte>)
    requires |bytes| == PacketSize && bytes[0] == TsMarker
    ensures ParsePacket(bytes).Success? && ParsePacket(bytes).value.packet == bytes
  {
    assert BytesRead(bytes) <= 19;
  }

  class ByteChannelMtsSource {
    const channel: seq<byte>
    const closeFails: bool        // whether closing the channel throws
    var readPos: nat              // bytes read from the channel so far
    var buffer: seq<byte>         // the buffer's contents up to its limit
    var position: nat             // the buffer's position
    var closed: bool
    var channelOpen: bool

    /** A flipped buffer: it holds the bytes read last from the channel. */
    ghost predicate Window()
      reads this
    {
      |buffer| <= readPos <= |channel| && buffer == channel[readPos - |buffer|..readPos]
    }

    /**
     * A buffer left unflipped by a read that found the channel at its end: it is full, and
     * nothing but zeros lies ahead of the position.
     */
    ghost predicate Drained()
      reads this
    {
      && readPos == |channel| && |buffer| == BufferSize && position <= |buffer|
      && forall i :: position <= i < |buffer| ==> buffer[i] == 0
    }

    /** A buffer that is not full was the channel's last: the read that filled it met the end. */
    ghost predicate Valid()
      reads this
    {
      && position <= |buffer| <= BufferSize && readPos <= |channel|
      && ((Window() && (|buffer| < BufferSize ==> readPos == |channel|)) || Drained())
    }

    /** Where in the channel the buffer's position lies. */
    ghost function Offset(): int
      reads this
    {
      readPos - |buffer| + position
    }

    /** Bytes still to read from the channel weigh more than bytes still to scan in the buffer. */
    ghost function Measure(): int
      reads this
    {
      (|channel| - readPos) * 188001 + (|buffer| - position)
    }

    /** The constructor fills the first buffer. */
    constructor (channel: seq<byte>, closeFails: bool)
      ensures Valid() && Window() && Offset() == 0
      ensures this.channel == channel && this.closeFails == closeFails && !closed && channelOpen
    {
      this.channel := channel;
      this.closeFails := closeFails;
      readPos := 0;
      buffer := [];
      position := 0;
      closed := false;
      channelOpen := true;
      new;
      FillBuffer();
      assert readPos == Min(BufferSize, |channel|) && Offset() == 0;
    }

    /** fillBuffer: a fresh buffer read full (or up to the channel's end) and flipped. */
    method FillBuffer()
      requires readPos <= |channel|
      modifies this`buffer, this`position, this`readPos
      ensures Valid() && Window() && position == 0 && Offset() == old(readPos)
      ensures readPos == old(readPos) + Min(BufferSize, |channel| - old(readPos))
    {
      var n := Refill([]);
      Flip();
    }

    /**
     * lastBuffer: the buffer's limit is below its capacity. Such a buffer was filled by a read
     * that met the channel's end.
     */
    predicate LastBuffer()
      reads this
      ensures LastBuffer() && Valid() ==> readPos == |channel|
    {
      |buffer| < BufferSize
    }

    /**
     * A fresh buffer holding `kept`, then NIOUtils.read: the channel's next bytes until the buffer
     * is full or the channel ends. Returns how many were read; the buffer is not flipped.
     */
    method Refill(kept: seq<byte>) returns (n: nat)
      requires |kept| < BufferSize && readPos <= |channel|
      modifies this`buffer, this`position, this`readPos
      ensures n == Min(BufferSize - |kept|, |channel| - old(readPos))
      ensures readPos == old(readPos) + n
      ensures buffer == kept + channel[old(readPos)..readPos] + Zeros(BufferSize - |kept| - n)
      ensures position == |kept| + n
    {
      n := Min(BufferSize - |kept|, |channel| - readPos);
      buffer := kept + channel[readPos..readPos + n] + Zeros(BufferSize - |kept| - n);
      position := |kept| + n;
      readPos := readPos + n;
    }

    /** ByteBuffer.flip: the limit comes down to the position, which goes back to 0. */
    method Flip()
      requires position <= |buffer|
      modifies this`buffer, this`position
      ensures buffer == old(buffer[..position]) && position == 0
    {
      buffer := buffer[..position];
      position := 0;
    }

    /**
     * The candidate at the position is taken when exactly one packet's worth remains or a marker
     * follows one packet further on; the position then moves past it. Otherwise the scan moves
     * on by one byte.
     */
    method TakeCandidate() returns (candidate: Option<seq<byte>>)
      requires Valid() && Window() && position + PacketSize <= |buffer| && buffer[position] == TsMarker
      modifies this`position
      ensures Valid() && Window() && Measure() < old(Measure())
      ensures var p := old(position);
        if |buffer| - p == PacketSize || buffer[p + PacketSize] == TsMarker
        then candidate == Some(buffer[p..p + PacketSize]) && position == p + PacketSize
        else candidate == None && position == p + 1
      ensures candidate.Some? ==> candidate.value == channel[old(Offset())..Offset()] && channel[old(Offset())] == TsMarker
      ensures candidate.Some? ==> Offset() == readPos || channel[Offset()] == TsMarker
      ensures Framed(channel, old(Offset())) ==> candidate.Some?
    {
      ghost var off := Offset();
      assert buffer[position..position + PacketSize] == channel[off..off + PacketSize];
      if |buffer| - position == PacketSize || buffer[position + PacketSize] == TsMarker {
        candidate := Some(buffer[position..position + PacketSize]);
        position := position + PacketSize;
      } else {
        candidate := None;
        position := position + 1;
      }
    }

    /**
     * nextPacketInternal's NEW BUFFER branch: the tail from the position is carried to the
     * front of a fresh buffer, which is read on from the channel and, unless nothing could be
     * read, flipped. Returns how many bytes were read.
     */
    method CarryOver() returns (n: nat)
      requires Valid() && Window() && !LastBuffer() && position < |buffer| && |buffer| - position < PacketSize
      requires buffer[position] == TsMarker
      modifies this`buffer, this`position, this`readPos
      ensures Valid() && old(readPos) <= readPos
      ensures n == 0 ==> readPos == |channel| && |channel| < old(Offset()) + PacketSize
      ensures n > 0 ==> Window() && position == 0 && Offset() == old(Offset()) && buffer[0] == TsMarker
      ensures n > 0 ==> Measure() < old(Measure())
      ensures Framed(channel, old(Offset())) ==> n > 0 && |buffer| >= PacketSize
    {
      ghost var off := Offset();
      n := Refill(buffer[position..]);
      if n <= 0 {
        return;
      }
      Flip();
      assert buffer == channel[off..readPos];
    }

    /**
     * An exhausted buffer that is not the last is replaced by a fresh one read from the channel,
     * flipped unless nothing could be read. Returns how many bytes were read.
     */
    method NextBuffer() returns (n: nat)
      requires Valid() && position == |buffer| && !LastBuffer()
      modifies this`buffer, this`position, this`readPos
      ensures Valid() && old(readPos) <= readPos
      ensures n == 0 <==> old(readPos) == |channel|
      ensures n == 0 ==> readPos == |channel|
      ensures n > 0 ==> old(Window()) && Window() && position == 0 && Offset() == old(Offset())
      ensures n > 0 ==> Measure() < old(Measure())
    {
      n := Refill([]);
      if n <= 0 {
        return;
      }
      Flip();
    }

    /**
     * The `!buffer.hasRemaining()` step of the scan: with nothing left to scan, the last buffer
     * means the end (false), and any other is replaced by a fresh read, which may find the
     * channel at its end. Otherwise there is a byte at the position, still at the same offset.
     */
    method EnsureRemaining() returns (more: bool)
      requires Valid()
      modifies this`buffer, this`position, this`readPos
      ensures Valid() && old(readPos) <= readPos
      ensures !more ==> readPos == |channel| && old(Offset()) == |channel|
      ensures more ==> position < |buffer| && Offset() == old(Offset()) && Measure() <= old(Measure())
      ensures more ==> (old(Window()) ==> Window()) && (old(Drained()) ==> Drained())
      ensures old(Window()) && old(Offset()) < |channel| ==> more
    {
      if position == |buffer| {
        if LastBuffer() {
          return false;
        }
        var n := NextBuffer();
        if n <= 0 {
          return false;
        }
      }
      more := true;
    }

    /** A byte that is not a marker is skipped. */
    method SkipByte()
      requires Valid() && position < |buffer| && buffer[position] != TsMarker
      modifies this`position
      ensures Valid() && position == old(position) + 1 && Measure() == old(Measure()) - 1
      ensures (old(Window()) ==> Window()) && (old(Drained()) ==> Drained())
      ensures !(old(Window()) && Framed(channel, old(Offset())))
    {
      position := position + 1;
    }

    /**
     * One turn of the inner loop: with nothing left to scan the buffer is replaced (or the
     * channel has ended); a byte other than a marker is then skipped.
     */
    method SeekStep() returns (more: bool, atMarker: bool)
      requires Valid()
      modifies this`buffer, this`position, this`readPos
      ensures Valid() && old(readPos) <= readPos
      ensures !more ==> readPos == |channel| && old(Offset()) == |channel|
      ensures more ==> Measure() <= old(Measure()) && (old(Window()) ==> Window()) && (old(Drained()) ==> Drained())
      ensures more && atMarker ==> position < |buffer| && buffer[position] == TsMarker && Offset() == old(Offset())
      ensures more && !atMarker ==> Offset() == old(Offset()) + 1 && Measure() < old(Measure())
      ensures more && !atMarker ==> !(old(Window()) && Framed(channel, old(Offset())))
    {
      atMarker := false;
      more := EnsureRemaining();
      if !more {
        return;
      }
      if buffer[position] == TsMarker {
        atMarker := true;
      } else {
        SkipByte();
      }
    }

    /**
     * The inner loop of nextPacketInternal: bytes other than a marker are skipped one at a time,
     * and an exhausted buffer that is not the last is replaced by a fresh read. Either a marker
     * is found at the position, or the channel is read to its end (the caller returns null).
     * A marker at the offset is found where it is.
     */
    method SeekMarker() returns (found: bool)
      requires Valid()
      modifies this`buffer, this`position, this`readPos
      ensures Valid() && old(readPos) <= readPos
      ensures found ==> Measure() <= old(Measure())
      ensures found ==> old(Window()) && Window() && old(Offset()) <= Offset()
      ensures found ==> position < |buffer| && buffer[position] == TsMarker
      ensures !found ==> readPos == |channel|
      ensures old(Window()) && Framed(channel, old(Offset())) ==> found && Offset() == old(Offset())
      ensures found ==> NoneFramed(channel, old(Offset()), Offset())
      ensures !found && old(Window()) ==> NoneFramed(channel, old(Offset()), |channel|)
    {
      ghost var start := Offset();
      ghost var framed := Window() && Framed(channel, start);
      ghost var window := Window();
      found := false;
      while !found
        invariant Valid() && old(readPos) <= readPos && Measure() <= old(Measure())
        invariant window ==> Window() && start <= Offset() && NoneFramed(channel, start, Offset())
        invariant !window ==> Drained()
        invariant framed ==> Offset() == start
        invariant found ==> Window() && position < |buffer| && buffer[position] == TsMarker
        decreases !found, Measure()
      {
        var more, atMarker := SeekStep();
        if !more {
          return false;
        }
        found := atMarker;
      }
    }

    /**
     * The rest of nextPacketInternal's scan, at a marker: with a packet's worth left in the
     * buffer the candidate is tried; with less, a buffer that is not the last has its tail
     * carried to the front of a fresh buffer read on from the channel, and the candidate is
     * tried there. Otherwise the channel has ended.
     */
    method FrameAtMarker() returns (s: Scan)
      requires Valid() && Window() && position < |buffer| && buffer[position] == TsMarker
      modifies this`buffer, this`position, this`readPos
      ensures Valid() && old(readPos) <= readPos
      ensures s.EndOfStream? ==> readPos == |channel| && |channel| < old(Offset()) + PacketSize
      ensures s.Skipped? ==> Offset() == old(Offset()) + 1
      ensures !s.EndOfStream? ==> Window() && old(Offset()) < Offset() && Measure() < old(Measure())
      ensures s.Candidate? ==> Offset() == old(Offset()) + PacketSize && s.bytes == channel[old(Offset())..Offset()]
      ensures s.Candidate? ==> channel[old(Offset())] == TsMarker
      ensures s.Candidate? ==> Offset() == readPos || channel[Offset()] == TsMarker
      ensures Framed(channel, old(Offset())) ==> s.Candidate?
    {
      var candidate: Option<seq<byte>>;
      if |buffer| - position >= PacketSize {
        candidate := TakeCandidate();
      } else if !LastBuffer() {
        var n := CarryOver();
        if n <= 0 {
          return EndOfStream;
        }
        if |buffer| - position >= PacketSize {
          candidate := TakeCandidate();
        } else {
          return EndOfStream;
        }
      } else {
        return EndOfStream;
      }
      s := if candidate.Some? then Candidate(candidate.value) else Skipped;
    }

    /**
     * The scan at a marker, with the candidate parsed (a candidate that fails to parse would be
     * dropped, but one that starts with a marker always parses).
     */
    method ParseAtMarker() returns (o: Outcome)
      requires Valid() && Window() && position < |buffer| && buffer[position] == TsMarker
      modifies this`buffer, this`position, this`readPos
      ensures Valid() && old(readPos) <= readPos
      ensures o.End? ==> readPos == |channel| && |channel| < old(Offset()) + PacketSize
      ensures !o.End? ==> Window() && old(Offset()) < Offset() && Measure() < old(Measure())
      ensures o.Got? ==> Offset() == old(Offset()) + PacketSize && o.packet.packet == channel[old(Offset())..Offset()]
      ensures o.Got? ==> channel[old(Offset())] == TsMarker && (Offset() == readPos || channel[Offset()] == TsMarker)
      ensures o.Retry? ==> Offset() == old(Offset()) + 1 && !Framed(channel, old(Offset()))
      ensures Framed(channel, old(Offset())) ==> o.Got?
    {
      var s := FrameAtMarker();
      if s.EndOfStream? {
        return End;
      }
      o := Retry;
      if s.Candidate? {
        CandidateParses(s.bytes);
        var parsed := ParsePacket(s.bytes);
        if parsed.Success? {
          o := Got(parsed.value);
        }
      }
    }

    /**
     * One turn of nextPacketInternal's outer loop: find a marker, try the candidate there, and
     * parse it (a candidate that fails to parse is dropped and the loop goes on).
     */
    method ScanOnce() returns (o: Outcome)
      requires Valid()
      modifies this`buffer, this`position, this`readPos
      ensures Valid() && old(readPos) <= readPos
      ensures o.End? ==> readPos == |channel|
      ensures !o.End? ==> old(Window()) && Window() && old(Offset()) < Offset() && Measure() < old(Measure())
      ensures o.Got? ==> old(Offset()) + PacketSize <= Offset() && o.packet.packet == channel[Offset() - PacketSize..Offset()]
      ensures o.Got? ==> channel[Offset() - PacketSize] == TsMarker
      ensures o.Got? ==> Offset() == readPos || channel[Offset()] == TsMarker
      ensures old(Window()) && Framed(channel, old(Offset())) ==> o.Got? && Offset() == old(Offset()) + PacketSize
      ensures o.End? && old(Window()) ==> NoneFramed(channel, old(Offset()), |channel|)
      ensures o.Got? ==> NoneFramed(channel, old(Offset()), Offset() - PacketSize)
      ensures o.Retry? ==> NoneFramed(channel, old(Offset()), Offset())
    {
      ghost var start := Offset();
      var found := SeekMarker();
      if !found {
        return End;
      }
      ghost var mid := Offset();
      o := ParseAtMarker();
      if o.End? {
        NoneFramedNearEnd(channel, start, mid, |channel|);
      }
    }

    /**
     * nextPacketInternal. A packet returned is the 188 channel bytes just before the new
     * offset, starting with a marker and followed by a marker or by the end of what was read;
     * it lies past the old offset. Null is returned only once the channel is read to its end.
     * A packet framed at the offset is returned with nothing skipped.
     */
    method NextPacketInternal() returns (r: Option<Packet>)
      requires Valid()
      modifies this`buffer, this`position, this`readPos
      ensures Valid() && old(readPos) <= readPos
      ensures r.Some? ==> old(Window()) && Window() && old(Offset()) + PacketSize <= Offset()
      ensures r.Some? ==> r.value.packet == channel[Offset() - PacketSize..Offset()]
      ensures r.Some? ==> channel[Offset() - PacketSize] == TsMarker
      ensures r.Some? ==> Offset() == readPos || channel[Offset()] == TsMarker
      ensures r.None? ==> readPos == |channel|
      ensures old(Window()) && Framed(channel, old(Offset())) ==> r.Some? && Offset() == old(Offset()) + PacketSize
      ensures r.Some? ==> NoneFramed(channel, old(Offset()), Offset() - PacketSize)
      ensures r.None? && old(Window()) ==> NoneFramed(channel, old(Offset()), |channel|)
    {
      ghost var start := Offset();
      ghost var framed := Window() && Framed(channel, start);
      ghost var window := Window();
      while true
        invariant Valid() && old(readPos) <= readPos
        invariant window ==> Window() && start <= Offset() && NoneFramed(channel, start, Offset())
        invariant framed ==> Offset() == start
        invariant !window ==> !Window()
        decreases Measure()
      {
        ghost var here := Offset();
        var o := ScanOnce();
        if o.End? {
          if window {
            NoneFramedJoin(channel, start, here, |channel|);
          }
          return None;
        }
        if o.Got? {
          NoneFramedJoin(channel, start, here, Offset() - PacketSize);
          return Some(o.packet);
        }
        NoneFramedJoin(channel, start, here, Offset());
      }
    }

    /** nextPacket of the base class: a closed source throws without reading. */
    method NextPacket() returns (r: Result<Option<Packet>, SourceError>)
      requires Valid()
      modifies this`buffer, this`position, this`readPos
      ensures Valid() && old(readPos) <= readPos
      ensures closed ==> r == Failure(IllegalState) && readPos == old(readPos) && Offset() == old(Offset())
      ensures !closed ==> r.Success?
      ensures r.Success? && r.value.Some? ==> old(Window()) && Window() && old(Offset()) + PacketSize <= Offset()
      ensures r.Success? && r.value.Some? ==> r.value.value.packet == channel[Offset() - PacketSize..Offset()]
      ensures r.Success? && r.value.Some? ==> channel[Offset() - PacketSize] == TsMarker
      ensures r.Success? && r.value.Some? ==> Offset() == readPos || channel[Offset()] == TsMarker
      ensures r.Success? && r.value.None? ==> readPos == |channel|
      ensures !closed && old(Window()) && Framed(channel, old(Offset())) ==>
        r.Success? && r.value.Some? && Offset() == old(Offset()) + PacketSize
      ensures r.Success? && r.value.Some? ==> NoneFramed(channel, old(Offset()), Offset() - PacketSize)
      ensures r.Success? && r.value.None? && old(Window()) ==> NoneFramed(channel, old(Offset()), |channel|)
    {
      if closed {
        return Failure(IllegalState);
      }
      var p := NextPacketInternal();
      r := Success(p);
    }

    /** close: closeInternal closes the channel; the source ends closed even if that throws. */
    method Close() returns (error: Option<SourceError>)
      modifies this`closed, this`channelOpen
      ensures closed && !channelOpen
      ensures error == if closeFails then Some(CloseFailed) else None
    {
      channelOpen := false;
      error := if closeFails then Some(CloseFailed) else None;
      closed := true;
    }
  }

  /** The channel is a whole number of packets, each beginning with a marker. */
  predicate Aligned(channel: seq<byte>) {
    && |channel| % PacketSize == 0
    && forall i :: 0 <= i < |channel| && i % PacketSize == 0 ==> channel[i] == TsMarker
  }

  /** In an aligned channel every packet boundary before the end frames a packet. */
  lemma AlignedFramed(channel: seq<byte>, k: nat)
    requires Aligned(channel) && k * 188 < |channel|
    ensures Framed(channel, k * 188)
  {
    assert (k * 188) % 188 == 0;
    assert (k * 188 + 188) % 188 == 0;
    assert |channel| == (|channel| / 188) * 188;
  }

  /**
   * Reading an aligned channel from its start until null yields its packets one after another,
   * with nothing skipped and nothing left over.
   */
  method DrainAligned(s: ByteChannelMtsSource) returns (out: seq<Packet>)
    requires s.Valid() && s.Window() && s.Offset() == 0 && !s.closed && Aligned(s.channel)
    modifies s`buffer, s`position, s`readPos
    ensures |out| * 188 == |s.channel|
    ensures forall i :: 0 <= i < |out| ==> out[i].packet == s.channel[i * 188..i * 188 + 188]
  {
    out := [];
    var done := false;
    while !done
      invariant s.Valid() && !s.closed
      invariant |out| * 188 <= |s.channel|
      invariant !done ==> s.Window() && s.Offset() == |out| * 188
      invariant done ==> |out| * 188 == |s.channel|
      invariant forall i :: 0 <= i < |out| ==> out[i].packet == s.channel[i * 188..i * 188 + 188]
      decreases !done, |s.channel| - |out| * 188
    {
      if |out| * 188 < |s.channel| {
        AlignedFramed(s.channel, |out|);
      }
      var r := s.NextPacket();
      if r.value.None? {
        done := true;
      } else {
        out := out + [r.value.value];
      }
    }
  }
}
