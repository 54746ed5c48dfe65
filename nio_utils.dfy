/** The byte buffer cursor used by the parsers, and `NIOUtils.skip`. */
module NioUtils {

  type byte = x: int | 0 <= x < 256

  function Min(a: int, b: int): (r: int)
    ensures r <= a && r <= b && (r == a || r == b)
  {
    if a <= b then a else b
  }

  /** The amount `skip` moves by: the smaller of what remains and what was asked for. */
  function SkipAmount(remaining: int, count: int): (r: int)
    ensures r <= remaining && r <= count
    ensures r == remaining || r == count
  {
    Min(remaining, count)
  }

  /** The mutable part of a java.nio.ByteBuffer that the core relies on: contents, position and limit. */
  class ByteBuffer {
    var content: seq<byte>
    var position: int
    var limit: int

    ghost predicate Valid()
      reads this
    {
      0 <= position <= limit <= |content|
    }

    function Remaining(): int
      reads this
    {
      limit - position
    }

    constructor (content: seq<byte>)
      ensures Valid() && this.content == content
      ensures position == 0 && limit == |content|
    {
      this.content := content;
      position := 0;
      limit := |content|;
    }

    method Rewind()
      requires Valid()
      modifies this`position
      ensures Valid() && position == 0
    {
      position := 0;
    }
  }

  /**
   * Moves the position by min(remaining, count) and returns that amount. A negative count moves
   * backwards; `Buffer.position` rejects a negative target, which callers must avoid.
   */
  method Skip(buffer: ByteBuffer, count: int) returns (toSkip: int)
    requires buffer.Valid()
    requires buffer.position + count >= 0
    modifies buffer`position
    ensures buffer.Valid()
    ensures toSkip == SkipAmount(old(buffer.Remaining()), count)
    ensures buffer.position == old(buffer.position) + toSkip
    ensures count >= old(buffer.Remaining()) ==> buffer.position == buffer.limit
    ensures count < 0 ==> buffer.position == old(buffer.position) + count
  {
    toSkip := Min(buffer.Remaining(), count);
    buffer.position := buffer.position + toSkip;
  }
}
