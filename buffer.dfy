/**
 * The growable byte buffer the codec reads frames from and writes frames to (the
 * `BytesMut` of the `bytes` crate, through its `Buf` and `BufMut` traits). Reading
 * consumes bytes from the front; writing appends at the back. A `Cursor` over a slice
 * is the same reader over a copy, so it is a second buffer here.
 */
module Buffer {
  import opened Wire

  class ByteBuffer {
    /** The readable bytes, front first. */
    var bytes: seq<uint8>

    constructor (init: seq<uint8>)
      ensures bytes == init
    {
      bytes := init;
    }

    /** `get_u8`: takes the first byte (the source panics when there is none). */
    method GetU8() returns (x: uint8)
      requires 1 <= |bytes|
      modifies this
      ensures x == old(bytes)[0] && bytes == old(bytes)[1..]
    {
      x := bytes[0];
      bytes := bytes[1..];
    }

    /** `get_u16_le`: takes two bytes, low byte first. */
    method GetU16Le() returns (x: uint16)
      requires 2 <= |bytes|
      modifies this
      ensures x == LeU16(old(bytes)[0], old(bytes)[1]) && bytes == old(bytes)[2..]
    {
      x := LeU16(bytes[0], bytes[1]);
      bytes := bytes[2..];
    }

    /** `get_u32_le`: takes four bytes, lowest byte first. */
    method GetU32Le() returns (x: uint32)
      requires 4 <= |bytes|
      modifies this
      ensures x == LeU32(old(bytes)[0], old(bytes)[1], old(bytes)[2], old(bytes)[3])
      ensures bytes == old(bytes)[4..]
    {
      x := LeU32(bytes[0], bytes[1], bytes[2], bytes[3]);
      bytes := bytes[4..];
    }

    /** `advance(n)`: drops the first n bytes. */
    method Advance(n: nat)
      requires n <= |bytes|
      modifies this
      ensures bytes == old(bytes)[n..]
    {
      bytes := bytes[n..];
    }

    /** `put_u8`. */
    method PutU8(x: uint8)
      modifies this
      ensures bytes == old(bytes) + [x]
    {
      bytes := bytes + [x];
    }

    /** `put_u16_le`. */
    method PutU16Le(x: uint16)
      modifies this
      ensures bytes == old(bytes) + U16Le(x)
    {
      bytes := bytes + U16Le(x);
    }

    /** `put_u32_le`. */
    method PutU32Le(x: uint32)
      modifies this
      ensures bytes == old(bytes) + U32Le(x)
    {
      bytes := bytes + U32Le(x);
    }

    /** `extend`: appends a whole slice. */
    method Extend(s: seq<uint8>)
      modifies this
      ensures bytes == old(bytes) + s
    {
      bytes := bytes + s;
    }
  }
}
