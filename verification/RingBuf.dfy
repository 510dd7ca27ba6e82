/** The byte ring of ringbuf.c: separate read and write pointers and a fill count. */
module RingBuf {
  import opened BitBytes

  class Ring {
    const data: array<byte>
    var readAt: nat
    var writeAt: nat
    var fill: nat

    /** RINGBUF_Init, for a size the source accepts. */
    constructor (size: nat)
      requires size >= 2
      ensures Valid() && fresh(data) && data.Length == size && Contents() == []
    {
      data := new byte[size](_ => 0);
      readAt, writeAt, fill := 0, 0, 0;
    }

    /** The write pointer is `fill` slots after the read pointer, around the end. */
    ghost predicate Valid() reads this {
      && readAt < data.Length && fill <= data.Length
      && writeAt == if readAt + fill < data.Length then readAt + fill else readAt + fill - data.Length
    }

    /** The `k`-th oldest byte. */
    ghost function Slot(k: nat): nat
      requires Valid() && k < data.Length
      reads this
    {
      if readAt + k < data.Length then readAt + k else readAt + k - data.Length
    }

    /** The bytes in the ring, oldest first. */
    ghost function Contents(): (s: seq<byte>)
      requires Valid()
      reads this, data
      ensures |s| == fill
    {
      seq(fill, k requires 0 <= k < fill && Valid() reads this, data => data[Slot(k)])
    }

    /** RINGBUF_Put: refused exactly when the ring is full. */
    method Put(c: byte) returns (ok: bool)
      requires Valid()
      modifies this, data
      ensures Valid()
      ensures ok <==> old(fill) < data.Length
      ensures Contents() == if ok then old(Contents()) + [c] else old(Contents())
    {
      if fill >= data.Length {
        return false;
      }
      ghost var was := Contents();
      fill := fill + 1;
      data[writeAt] := c;
      writeAt := writeAt + 1;
      if writeAt >= data.Length {
        writeAt := 0;
      }
      assert Contents() == was + [c];
      ok := true;
    }

    /** RINGBUF_Get: refused exactly when the ring is empty. */
    method Get() returns (ok: bool, c: byte)
      requires Valid()
      modifies this
      ensures Valid()
      ensures ok <==> old(fill) > 0
      ensures ok ==> [c] + Contents() == old(Contents())
      ensures !ok ==> Contents() == old(Contents())
    {
      c := 0;
      if fill == 0 {
        return false, c;
      }
      ghost var was := Contents();
      fill := fill - 1;
      c := data[readAt];
      readAt := readAt + 1;
      if readAt >= data.Length {
        readAt := 0;
      }
      assert [c] + Contents() == was;
      ok := true;
    }
  }
}
