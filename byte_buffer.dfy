/** The part of `java.nio.ByteBuffer` the framing loop relies on: a fixed
    sequence of bytes up to the buffer's limit, a position, `rewind`, and the
    relative bulk `get` that copies bytes into an array and advances the
    position. */
module NioByteBuffer {
  import opened HidFraming

  class ByteBuffer {
    /** The bytes from index 0 up to the limit; `get` never changes them. */
    const content: seq<byte>
    /** The index of the next byte a relative `get` reads. */
    var position: nat

    ghost predicate Valid()
      reads this
    {
      position <= |content|
    }

    /** A buffer over `content` whose position is `position`. */
    constructor (content: seq<byte>, position: nat)
      requires position <= |content|
      ensures Valid()
      ensures this.content == content && this.position == position
    {
      this.content := content;
      this.position := position;
    }

    /** Sets the position back to zero; the bytes stay as they are. */
    method Rewind()
      modifies this
      ensures Valid() && position == 0
    {
      position := 0;
    }

    /** Relative bulk get: copies `length` bytes from the position into
        `dst[offset .. offset + length]` and advances the position by
        `length`. When fewer than `length` bytes remain before the limit it
        transfers nothing and reports the underflow with `ok == false`. */
    method Get(dst: array<byte>, offset: nat, length: nat) returns (ok: bool)
      requires Valid()
      requires offset + length <= dst.Length
      modifies this, dst
      ensures Valid()
      ensures ok <==> old(position) + length <= |content|
      ensures ok ==> position == old(position) + length
      ensures ok ==>
        dst[..] == old(dst[..offset]) + content[old(position) .. old(position) + length] + old(dst[offset + length..])
      ensures !ok ==> position == old(position) && dst[..] == old(dst[..])
    {
      if position + length > |content| {
        return false;
      }
      var k := 0;
      while k < length
        invariant 0 <= k <= length
        invariant position == old(position)
        invariant forall j :: 0 <= j < dst.Length ==>
          dst[j] == if offset <= j < offset + k then content[position + j - offset] else old(dst[j])
      {
        dst[offset + k] := content[position + k];
        k := k + 1;
      }
      ghost var copied := old(dst[..offset]) + content[position .. position + length] + old(dst[offset + length..]);
      assert |copied| == dst.Length;
      forall j | 0 <= j < dst.Length
        ensures dst[j] == copied[j]
      {
      }
      assert dst[..] == copied;
      position := position + length;
      ok := true;
    }
  }
}
