/**
 * Fixed-width little-endian integers and the positional reads bincode performs on a
 * byte slice (its default "fixint, little-endian, trailing bytes allowed" encoding).
 * A read at offset p looks at bytes [p, p + width) of the slice and reports the value,
 * or UnexpectedEof when the slice ends first.
 */
module Wire {
  import opened Wrappers

  type uint8 = x: int | 0 <= x < 0x100
  type uint16 = x: int | 0 <= x < 0x1_0000
  type uint32 = x: int | 0 <= x < 0x1_0000_0000
  type int16 = x: int | -0x8000 <= x < 0x8000

  /** The errors a bincode deserialization can report for the layouts of this protocol. */
  datatype DecodeError =
    | UnexpectedEof             // the slice ended inside a field
    | InvalidLength(index: nat) // a sequence ran out of elements at this index
    | InvalidUtf8               // a text field's bytes are not UTF-8

  function LeU16(lo: uint8, hi: uint8): uint16 {
    lo + 0x100 * hi
  }

  function LeU32(b0: uint8, b1: uint8, b2: uint8, b3: uint8): uint32 {
    LeU16(b0, b1) + 0x1_0000 * LeU16(b2, b3)
  }

  /** Two's-complement reinterpretation of 16 bits (Rust's `i16::from_le_bytes`). */
  function AsI16(x: uint16): int16 {
    if x < 0x8000 then x else x - 0x1_0000
  }

  /** `put_u16_le` / bincode's serialization of a u16. */
  function U16Le(x: uint16): (r: seq<uint8>)
    ensures |r| == 2
  {
    [x % 0x100, x / 0x100]
  }

  /** `put_u32_le` / bincode's serialization of a u32. */
  function U32Le(x: uint32): (r: seq<uint8>)
    ensures |r| == 4
  {
    U16Le(x % 0x1_0000) + U16Le(x / 0x1_0000)
  }

  /** Writing a u16 and reading it back yields the same value, and vice versa. */
  lemma U16RoundTrip(x: uint16, lo: uint8, hi: uint8)
    ensures LeU16(U16Le(x)[0], U16Le(x)[1]) == x
    ensures U16Le(LeU16(lo, hi)) == [lo, hi]
  {
  }

  /** Joining a low and a high 16-bit half and splitting the result again. */
  lemma SplitJoin(lo: int, hi: int)
    requires 0 <= lo < 0x1_0000
    ensures (lo + 0x1_0000 * hi) % 0x1_0000 == lo && (lo + 0x1_0000 * hi) / 0x1_0000 == hi
  {
  }

  /** Writing a u32 and reading it back yields the same value. */
  lemma U32ReadOfWrite(x: uint32)
    ensures var w := U32Le(x); LeU32(w[0], w[1], w[2], w[3]) == x
  {
    U16RoundTrip(x % 0x1_0000, 0, 0);
    U16RoundTrip(x / 0x1_0000, 0, 0);
  }

  /** Reading four bytes as a u32 and writing it back yields the same bytes. */
  lemma U32WriteOfRead(b0: uint8, b1: uint8, b2: uint8, b3: uint8)
    ensures U32Le(LeU32(b0, b1, b2, b3)) == [b0, b1, b2, b3]
  {
    var lo: uint16, hi: uint16 := LeU16(b0, b1), LeU16(b2, b3);
    var x := LeU32(b0, b1, b2, b3);
    assert x == lo + 0x1_0000 * hi;
    SplitJoin(lo, hi);
    U16RoundTrip(lo, b0, b1);
    U16RoundTrip(hi, b2, b3);
    assert U32Le(x) == U16Le(lo) + U16Le(hi);
  }

  function ReadU8(s: seq<uint8>, p: nat): (r: Result<uint8, DecodeError>)
    ensures r.Ok? <==> p + 1 <= |s|
    ensures r.Ok? ==> r.value == s[p]
  {
    if p + 1 <= |s| then Ok(s[p]) else Err(UnexpectedEof)
  }

  function ReadU16(s: seq<uint8>, p: nat): (r: Result<uint16, DecodeError>)
    ensures r.Ok? ==> 0 <= r.value < 0x1_0000
    ensures r.Ok? <==> p + 2 <= |s|
    ensures r.Ok? ==> r.value == LeU16(s[p], s[p + 1])
  {
    if p + 2 <= |s| then Ok(LeU16(s[p], s[p + 1])) else Err(UnexpectedEof)
  }

  function ReadI16(s: seq<uint8>, p: nat): (r: Result<int16, DecodeError>)
    ensures r.Ok? ==> -0x8000 <= r.value < 0x8000
    ensures r.Ok? <==> p + 2 <= |s|
    ensures r.Ok? ==> r.value == AsI16(LeU16(s[p], s[p + 1]))
  {
    if p + 2 <= |s| then Ok(AsI16(LeU16(s[p], s[p + 1]))) else Err(UnexpectedEof)
  }

  function ReadU32(s: seq<uint8>, p: nat): (r: Result<uint32, DecodeError>)
    ensures r.Ok? ==> 0 <= r.value < 0x1_0000_0000
    ensures r.Ok? <==> p + 4 <= |s|
    ensures r.Ok? ==> r.value == LeU32(s[p], s[p + 1], s[p + 2], s[p + 3])
  {
    if p + 4 <= |s| then Ok(LeU32(s[p], s[p + 1], s[p + 2], s[p + 3])) else Err(UnexpectedEof)
  }

  /** A fixed array of `n` raw bytes, read one u8 at a time (bincode's `[u8; n]`). */
  function ReadBytes(s: seq<uint8>, p: nat, n: nat): (r: Result<seq<uint8>, DecodeError>)
    ensures r.Ok? <==> p + n <= |s|
    ensures r.Ok? ==> r.value == s[p..p + n]
  {
    if p + n <= |s| then Ok(s[p..p + n]) else Err(UnexpectedEof)
  }

  /**
   * An integer read at offset p sees only the bytes [p, p + width): two slices that agree
   * on their first k bytes read the same integer there when the field ends by k.
   */
  lemma IntegerLocal(s: seq<uint8>, t: seq<uint8>, k: nat, p: nat, width: nat)
    requires k <= |s| && k <= |t| && s[..k] == t[..k] && p + width <= k
    ensures width == 1 ==> ReadU8(s, p) == ReadU8(t, p)
    ensures width == 2 ==> ReadU16(s, p) == ReadU16(t, p) && ReadI16(s, p) == ReadI16(t, p)
    ensures width == 4 ==> ReadU32(s, p) == ReadU32(t, p)
  {
    assert forall i :: p <= i < p + width ==> s[i] == s[..k][i] == t[i];
  }

  /** The same for an array of n raw bytes at offset p. */
  lemma BytesLocal(s: seq<uint8>, t: seq<uint8>, k: nat, p: nat, n: nat)
    requires k <= |s| && k <= |t| && s[..k] == t[..k] && p + n <= k
    ensures ReadBytes(s, p, n) == ReadBytes(t, p, n)
  {
    assert s[p..p + n] == s[..k][p..p + n] == t[..k][p..p + n] == t[p..p + n];
  }
}
