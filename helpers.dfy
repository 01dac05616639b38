/**
 * The field readers of helpers.rs: scaled integers (`divide_i16_by`, `divide_u16_by`,
 * `divide_u32_by`) and fixed-length text (`parse_string`). Each reader looks at the
 * bytes of its field at offset p of the slice bincode deserializes from, like the reads
 * of module Wire.
 */
module Helpers {
  import opened Wrappers
  import opened Wire
  import opened Utf8

  /** The bytes of a Rust `String`: always valid UTF-8 when produced by `ParseString`. */
  type Text = seq<uint8>

  /** Dividing by a non-zero divisor and multiplying back is exact on the reals. */
  lemma ScaleBack(x: real, n: real)
    requires n != 0.0
    ensures (x / n) * n == x
  {
  }

  /** `divide_i16_by::<N>`: a LE i16 divided by N (exact; the source rounds to f32). */
  function DivideI16By(s: seq<uint8>, p: nat, n: int16): (r: Result<real, DecodeError>)
    requires n != 0
    ensures r.Ok? <==> ReadI16(s, p).Ok?
    ensures r.Ok? ==>
              r.value * (n as real) == ReadI16(s, p).value as real
    ensures r.Err? ==> r.error == UnexpectedEof
  {
    var v :- ReadI16(s, p);
    ScaleBack(v as real, n as real);
    Ok(v as real / n as real)
  }

  /** `divide_u16_by::<N>`: a LE u16 divided by N (exact; the source rounds to f32). */
  function DivideU16By(s: seq<uint8>, p: nat, n: int16): (r: Result<real, DecodeError>)
    requires n != 0
    ensures r.Ok? <==> ReadU16(s, p).Ok?
    ensures r.Ok? ==>
              r.value * (n as real) == ReadU16(s, p).value as real
    ensures r.Err? ==> r.error == UnexpectedEof
  {
    var v :- ReadU16(s, p);
    ScaleBack(v as real, n as real);
    Ok(v as real / n as real)
  }

  /** `divide_u32_by::<N>`: a LE u32 divided by N (exact; the source rounds to f64). */
  function DivideU32By(s: seq<uint8>, p: nat, n: int16): (r: Result<real, DecodeError>)
    requires n != 0
    ensures r.Ok? <==> ReadU32(s, p).Ok?
    ensures r.Ok? ==>
              r.value * (n as real) == ReadU32(s, p).value as real
    ensures r.Err? ==> r.error == UnexpectedEof
  {
    var v :- ReadU32(s, p);
    ScaleBack(v as real, n as real);
    Ok(v as real / n as real)
  }

  /**
   * What a serde `SeqAccess` hands to a visitor: the elements it yields in order and what
   * `next_element` returns once they are exhausted (`Ok(None)` when `afterLast` is None,
   * otherwise that error).
   */
  datatype SeqAccess = SeqAccess(items: seq<uint8>, afterLast: Option<DecodeError>)

  /**
   * The access bincode's `deserialize_tuple(length, ..)` gives a visitor at position p:
   * every byte still in the slice up to `length` of them. Once `length` elements have been
   * handed out it yields nothing more; when the slice ends before that, the next read is
   * an end-of-input error.
   */
  function BincodeTuple(s: seq<uint8>, p: nat, length: nat): (a: SeqAccess)
    ensures |a.items| == if p + length <= |s| then length else if p <= |s| then |s| - p else 0
    ensures forall i :: 0 <= i < |a.items| ==> a.items[i] == s[p + i]
    ensures p + length <= |s| ==> a.items == s[p..p + length]
    ensures a.afterLast == if p + length <= |s| then None else Some(UnexpectedEof)
  {
    var stop := if p + length <= |s| then p + length else |s|;
    SeqAccess(if p <= stop then s[p..stop] else [], if p + length <= |s| then None else Some(UnexpectedEof))
  }

  /**
   * The array `visit_seq` builds: element i is the i-th `next_element`, and the first
   * call that yields nothing fails the whole array, with `invalid_length(i)` when the
   * access ended and with the access's own error otherwise.
   */
  function ReadArray(access: SeqAccess, m: nat): (r: Result<seq<uint8>, DecodeError>)
    ensures r.Ok? <==> m <= |access.items|
    ensures r.Ok? ==> r.value == access.items[..m]
    ensures r.Err? ==> r.error == if access.afterLast.None? then InvalidLength(|access.items|)
                                  else access.afterLast.value
  {
    if m == 0 then Ok([])
    else
      var prefix :- ReadArray(access, m - 1);
      if m - 1 < |access.items| then Ok(prefix + [access.items[m - 1]])
      else if access.afterLast.None? then Err(InvalidLength(m - 1))
      else Err(access.afterLast.value)
  }

  /** `ArrayVisitor::visit_seq`: fills a zeroed array of M bytes in place, one element at a time. */
  method VisitSeq(access: SeqAccess, m: nat) returns (r: Result<seq<uint8>, DecodeError>)
    ensures r == ReadArray(access, m)
  {
    var arr := new uint8[m](_ => 0);
    for i := 0 to m
      invariant i <= |access.items|
      invariant arr[..i] == access.items[..i]
    {
      if i >= |access.items| {
        if access.afterLast.None? {
          return Err(InvalidLength(i));
        }
        return Err(access.afterLast.value);
      }
      arr[i] := access.items[i];
    }
    r := Ok(arr[..]);
    assert arr[..] == arr[..m];
  }

  /** `parse_string::<LENGTH>`: exactly LENGTH bytes, kept as they are if they are UTF-8. */
  function ParseString(access: SeqAccess, length: nat): (r: Result<Text, DecodeError>)
    ensures r.Ok? <==> length <= |access.items| && ValidUtf8(access.items[..length])
    ensures r.Ok? ==> r.value == access.items[..length]
  {
    var bytes :- ReadArray(access, length);
    if ValidUtf8(bytes) then Ok(bytes) else Err(InvalidUtf8)
  }

  /**
   * `parse_string` fails at the first missing element, rejects invalid UTF-8 without a
   * lossy replacement, and otherwise returns the LENGTH input bytes untouched: NUL
   * padding and trailing spaces stay, trimming is left to callers.
   */
  lemma ParseStringExact(access: SeqAccess, length: nat)
    ensures var r := ParseString(access, length);
      && (r.Ok? <==> length <= |access.items| && ValidUtf8(access.items[..length]))
      && (r.Ok? ==> r.value == access.items[..length] && |r.value| == length)
      && (length <= |access.items| && !ValidUtf8(access.items[..length]) ==> r == Err(InvalidUtf8))
      && (length > |access.items| && access.afterLast.None? ==>
            r == Err(InvalidLength(|access.items|)))
  {
  }

  /** A text field of `length` bytes read by bincode at offset p of the slice. */
  function ParseStringAt(s: seq<uint8>, p: nat, length: nat): (r: Result<Text, DecodeError>)
    ensures r.Ok? <==> p + length <= |s| && ValidUtf8(s[p..p + length])
    ensures r.Ok? ==> r.value == s[p..p + length]
    ensures r.Err? ==> r.error == if p + length <= |s| then InvalidUtf8 else UnexpectedEof
  {
    if p > |s| then Err(UnexpectedEof) else
    var access := BincodeTuple(s, p, length);
    ParseStringExact(access, length);
    assert p + length <= |s| ==> access.items[..length] == s[p..p + length];
    ParseString(access, length)
  }

  /**
   * A scaled integer of `width` bytes at offset p sees only those bytes: slices that agree
   * on their first k bytes read the same value there when the field ends by k.
   */
  lemma ScaledLocal(s: seq<uint8>, t: seq<uint8>, k: nat, p: nat, width: nat, n: int16)
    requires k <= |s| && k <= |t| && s[..k] == t[..k] && p + width <= k && n != 0
    ensures width == 2 ==> DivideI16By(s, p, n) == DivideI16By(t, p, n)
    ensures width == 2 ==> DivideU16By(s, p, n) == DivideU16By(t, p, n)
    ensures width == 4 ==> DivideU32By(s, p, n) == DivideU32By(t, p, n)
  {
    IntegerLocal(s, t, k, p, width);
  }

  /** The same for a text field of `length` bytes at offset p. */
  lemma TextLocal(s: seq<uint8>, t: seq<uint8>, k: nat, p: nat, length: nat)
    requires k <= |s| && k <= |t| && s[..k] == t[..k] && p + length <= k
    ensures ParseStringAt(s, p, length) == ParseStringAt(t, p, length)
  {
    BytesLocal(s, t, k, p, length);
  }
}
