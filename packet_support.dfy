/**
 * PacketSupport: a packet backed by a byte buffer that is parsed once on construction and
 * re-serialized lazily, only when a mutation has marked it dirty. `parse` and `write` belong to
 * subclasses; here they are hooks whose calls are counted.
 */
module PacketSupport {
  import opened NioUtils

  datatype BufferOutcome = Returned(buffer: ByteBuffer?) | NullPointerException

  class PacketSupport {
    var buffer: ByteBuffer?
    var dirty: bool
    ghost var parses: nat   // calls of the subclass's parse()
    ghost var writes: nat   // calls of the subclass's write()

    /** The no-argument constructor: no buffer yet, clean. */
    constructor Empty()
      ensures buffer == null && !dirty
      ensures parses == 0 && writes == 0
    {
      buffer := null;
      dirty := false;
      parses := 0;
      writes := 0;
    }

    /** The buffer constructor: rewinds, parses once, rewinds again and starts clean. */
    constructor FromBuffer(buffer: ByteBuffer)
      requires buffer.Valid()
      modifies buffer
      ensures this.buffer == buffer && buffer.Valid() && buffer.position == 0
      ensures buffer.content == old(buffer.content) && buffer.limit == old(buffer.limit)
      ensures !dirty
      ensures parses == 1 && writes == 0
    {
      this.buffer := buffer;
      parses := 0;
      writes := 0;
      dirty := false;
      new;
      buffer.Rewind();
      Parse();
      buffer.Rewind();
      dirty := false;
    }

    /** Hook for the subclass's decoder. */
    method Parse()
      modifies this`parses
      ensures parses == old(parses) + 1
    {
      parses := parses + 1;
    }

    /**
     * Hook for the subclass's encoder: it re-serializes the packet into its buffer in place;
     * `image` is what the buffer holds afterwards. Without a buffer nothing is written.
     */
    method Write(image: seq<byte>)
      requires buffer != null ==> buffer.Valid() && |image| == |buffer.content|
      modifies this`writes, buffer
      ensures writes == old(writes) + 1
      ensures buffer != null ==> buffer.Valid() && buffer.content == image
      ensures buffer != null ==> buffer.position == old(buffer.position) && buffer.limit == old(buffer.limit)
    {
      writes := writes + 1;
      if buffer != null {
        buffer.content := image;
      }
    }

    /**
     * getBuffer: re-serializes (into `image`) only when dirty, then hands out the same buffer
     * object. A dirty packet without a buffer fails on the rewind, after the write, and stays dirty.
     */
    method GetBuffer(image: seq<byte>) returns (r: BufferOutcome)
      requires buffer != null ==> buffer.Valid() && |image| == |buffer.content|
      modifies this`dirty, this`writes, buffer
      ensures buffer == old(buffer) && parses == old(parses)
      ensures buffer != null ==> buffer.Valid() && buffer.limit == old(buffer.limit)
      ensures buffer != null ==> buffer.content == if old(dirty) then image else old(buffer.content)
      ensures writes == old(writes) + (if old(dirty) then 1 else 0)
      ensures old(dirty) && buffer == null ==> r == NullPointerException && dirty
      ensures !(old(dirty) && buffer == null) ==> r == Returned(buffer) && !dirty
      ensures old(dirty) && buffer != null ==> buffer.position == 0
      ensures !old(dirty) && buffer != null ==> buffer.position == old(buffer.position)
    {
      if dirty {
        Write(image);
        if buffer == null {
          return NullPointerException;
        }
        buffer.Rewind();
        dirty := false;
      }
      r := Returned(buffer);
    }

    /** markDirty: sets the flag and nothing else. */
    method MarkDirty()
      modifies this`dirty
      ensures dirty
    {
      dirty := true;
    }
  }

  /**
   * Two getBuffer calls with no markDirty in between write at most once and return the same
   * buffer, holding what the one write left there. Only a dirty packet without a buffer (the
   * no-argument constructor) writes on both calls, failing each time.
   */
  method GetBufferTwice(s: PacketSupport, image: seq<byte>) returns (first: BufferOutcome, second: BufferOutcome)
    requires s.buffer != null ==> s.buffer.Valid() && |image| == |s.buffer.content|
    modifies s, s.buffer
    ensures s.buffer == old(s.buffer)
    ensures s.buffer != null || !old(s.dirty) ==>
      first == second == Returned(s.buffer) && !s.dirty && s.writes == old(s.writes) + (if old(s.dirty) then 1 else 0)
    ensures s.buffer != null ==> s.buffer.content == if old(s.dirty) then image else old(s.buffer.content)
    ensures s.buffer == null && old(s.dirty) ==>
      first == second == NullPointerException && s.dirty && s.writes == old(s.writes) + 2
  {
    first := s.GetBuffer(image);
    second := s.GetBuffer(image);
  }
}
