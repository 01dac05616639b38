/**
 * The frame codec of codec.rs.
 *
 * A frame on the wire is
 *
 *   offset 0        start byte (0xA5)
 *   offset 1..3     N, the body length, little-endian u16
 *   offset 3..5     type code, little-endian u16
 *   offset 5, 6     two message numbers
 *   offset 7..11    data-logger serial number, little-endian u32
 *   offset 11..11+N body
 *   offset 11+N     checksum: the 8-bit wrapping sum of bytes [1, 11+N)
 *   offset 12+N     end byte (0x15)
 *
 * The decoder is specified by `DecodeFrame`, a function from the buffer contents to the
 * result and the contents left behind; `Decode` performs the same steps on a buffer in place.
 * The encoder appends one reply frame to a buffer.
 */
module Codec {
  import opened Wrappers
  import opened Wire
  import opened Utf8
  import opened Messages
  import opened Buffer

  /** Start byte, length, type code, two message numbers and serial number. */
  const HeaderLength: nat := 1 + 2 + 2 + 1 + 1 + 4
  /** Checksum and end byte. */
  const FooterLength: nat := 1 + 1

  // ---------------------------------------------------------------- checksum

  /** The plain sum of a byte sequence. */
  function Sum(s: seq<uint8>): nat {
    if s == [] then 0 else s[0] + Sum(s[1..])
  }

  /** `u8::wrapping_add`. */
  function WrappingAdd(a: uint8, b: uint8): uint8 {
    (a + b) % 0x100
  }

  lemma AddMod(a: int, b: int, c: int)
    ensures ((a + b) % 0x100 + c) % 0x100 == (a + b + c) % 0x100
  {
  }

  /** `s.iter().fold(acc, wrapping_add)`: the sum of acc and s, modulo 256. */
  function FoldWrapping(acc: uint8, s: seq<uint8>): (r: uint8)
    ensures r == (acc + Sum(s)) % 0x100
    decreases |s|
  {
    if s == [] then acc
    else
      AddMod(acc, s[0], Sum(s[1..]));
      FoldWrapping(WrappingAdd(acc, s[0]), s[1..])
  }

  /**
   * `calc_checksum`: `reduce` with wrapping addition, so the first byte starts the fold
   * and an empty slice has no checksum.
   */
  function CalcChecksum(s: seq<uint8>): (r: Option<uint8>)
    ensures r.None? <==> s == []
    ensures r.Some? ==> r.value == Sum(s) % 0x100
  {
    if s == [] then None else Some(FoldWrapping(s[0], s[1..]))
  }

  /** The sum of a concatenation is the sum of the parts. */
  lemma {:induction false} SumAppend(a: seq<uint8>, b: seq<uint8>)
    ensures Sum(a + b) == Sum(a) + Sum(b)
  {
    if a == [] {
      assert a + b == b;
    } else {
      assert (a + b)[1..] == a[1..] + b;
      SumAppend(a[1..], b);
    }
  }

  /** Replacing one byte changes the sum by exactly the difference of the two bytes. */
  lemma {:induction false} SumUpdate(s: seq<uint8>, i: nat, v: uint8)
    requires i < |s|
    ensures Sum(s[i := v]) + s[i] == Sum(s) + v
  {
    if i > 0 {
      assert s[i := v][1..] == s[1..][i - 1 := v];
      SumUpdate(s[1..], i - 1, v);
    }
  }

  /** The sum of two bytes. */
  lemma SumTwo(a: uint8, b: uint8)
    ensures Sum([a, b]) == a + b
  {
    assert [b][1..] == [];
    assert Sum([b]) == b;
    assert [a, b][1..] == [b];
  }

  /** The sum of four bytes. */
  lemma SumFour(a: uint8, b: uint8, c: uint8, d: uint8)
    ensures Sum([a, b, c, d]) == a + b + c + d
  {
    SumTwo(a, b);
    SumTwo(c, d);
    SumAppend([a, b], [c, d]);
    assert [a, b] + [c, d] == [a, b, c, d];
  }

  /** The residue modulo 256 of a number known to equal k. */
  lemma ResidueOf(x: int, k: int, r: int)
    requires x == k && k % 0x100 == r
    ensures x % 0x100 == r
  {
  }

  /** Moving a number by less than 256, but not by zero, changes it modulo 256. */
  lemma ShiftChangesResidue(x: int, d: int)
    requires -0x100 < d < 0x100 && d != 0
    ensures (x + d) % 0x100 != x % 0x100
  {
    var q, r := x / 0x100, x % 0x100;
    assert x + d == 0x100 * q + (r + d);
    if r + d < 0 {
      assert (x + d) % 0x100 == r + d + 0x100;
    } else if r + d < 0x100 {
      assert (x + d) % 0x100 == r + d;
    } else {
      assert (x + d) % 0x100 == r + d - 0x100;
    }
  }

  /** Adding a number that is not a multiple of 256 changes the residue modulo 256. */
  lemma ShiftChangesResidueMod(x: int, y: int)
    requires y % 0x100 != 0
    ensures (x + y) % 0x100 != x % 0x100
  {
    var d := y % 0x100;
    assert (x + y) % 0x100 == (x + d) % 0x100;
    ShiftChangesResidue(x, d);
  }

  /** Replacing one byte by a different one always changes the 8-bit checksum. */
  lemma ChecksumDetectsOneByte(s: seq<uint8>, i: nat, v: uint8)
    requires i < |s| && v != s[i]
    ensures CalcChecksum(s[i := v]).value != CalcChecksum(s).value
  {
    SumUpdate(s, i, v);
    ShiftChangesResidue(Sum(s), v - s[i]);
  }

  // ---------------------------------------------------------------- decoding

  datatype CodecError =
    | UnknownMessageType(code: uint16) // no request kind has this type code
    | Layout(cause: DecodeError)       // the body does not fit its layout
    | InvalidChecksum(received: uint8) // the checksum byte disagrees with the computed one

  type Decoded = Result<Option<IncomingMessage>, CodecError>

  /** The body length N announced by a header. */
  function MessageLength(b: seq<uint8>): uint16
    requires |b| >= 3
  {
    LeU16(b[1], b[2])
  }

  /** The length of the whole frame whose header starts b. */
  function FrameLength(b: seq<uint8>): nat
    requires |b| >= 3
  {
    HeaderLength + MessageLength(b) + FooterLength
  }

  /** The type code of the frame at the front of b. */
  function TypeCode(b: seq<uint8>): uint16
    requires |b| >= 5
  {
    LeU16(b[3], b[4])
  }

  /**
   * What one call of `decode` returns on a buffer holding b, together with the bytes
   * it leaves in the buffer.
   *
   * Too little data leaves the buffer untouched. Otherwise the header is consumed field
   * by field, so an unknown type code fails after 5 bytes and a body that does not fit
   * its layout fails after the 11 header bytes. The body layout is read from everything
   * after the header, which can extend past the N announced bytes. The checksum byte is
   * compared only after the body decoded; the start and end bytes are consumed unchecked.
   */
  function DecodeFrame(b: seq<uint8>): (Decoded, seq<uint8>) {
    if |b| < HeaderLength || |b| < FrameLength(b) then (Ok(None), b)
    else
      var n := MessageLength(b);
      var calculated := CalcChecksum(b[1..HeaderLength + n]).GetOr(0);
      var t := FromU16(TypeCode(b));
      if t.None? then (Err(UnknownMessageType(TypeCode(b))), b[5..])
      else
        var data := DecodeBody(t.value, b[HeaderLength..]);
        if data.Err? then (Err(Layout(data.error)), b[HeaderLength..])
        else if b[HeaderLength + n] != calculated then
          (Err(InvalidChecksum(b[HeaderLength + n])), b[HeaderLength + n + 1..])
        else
          var message := SofarMessage(data.value, t.value, b[5], b[6], LeU32(b[7], b[8], b[9], b[10]));
          (Ok(Some(message)), b[FrameLength(b)..])
  }

  /** Dropping i bytes and then j more drops i + j. */
  lemma DropTwice(s: seq<uint8>, i: nat, j: nat)
    requires i + j <= |s|
    ensures s[i..][j..] == s[i + j..]
  {
  }

  /** `SofarCodec::decode`, on the buffer in place. */
  method Decode(buf: ByteBuffer) returns (r: Decoded)
    modifies buf
    ensures (r, buf.bytes) == DecodeFrame(old(buf.bytes))
  {
    ghost var b := buf.bytes;
    if |buf.bytes| < HeaderLength {
      return Ok(None);
    }
    var peeker := new ByteBuffer(buf.bytes[..HeaderLength]);
    var start := peeker.GetU8();
    var messageLength := peeker.GetU16Le();
    if |buf.bytes| < HeaderLength + messageLength + FooterLength {
      return Ok(None);
    }
    var checksummed := CalcChecksum(buf.bytes[1..HeaderLength + messageLength + FooterLength - 2]);
    var calculated := checksummed.GetOr(0);

    start := buf.GetU8();
    var length := buf.GetU16Le();
    DropTwice(b, 1, 2);
    var code := buf.GetU16Le();
    DropTwice(b, 3, 2);
    var messageType := FromU16(code);
    if messageType.None? {
      return Err(UnknownMessageType(code));
    }
    var messageNumber := buf.GetU8();
    var messageNumber2 := buf.GetU8();
    DropTwice(b, 5, 1);
    DropTwice(b, 6, 1);
    var dataLoggerSn := buf.GetU32Le();
    DropTwice(b, 7, 4);

    var data := DecodeBody(messageType.value, buf.bytes);
    if data.Err? {
      return Err(Layout(data.error));
    }
    buf.Advance(messageLength);
    DropTwice(b, HeaderLength, messageLength);
    var checksum := buf.GetU8();
    DropTwice(b, HeaderLength + messageLength, 1);
    if checksum != calculated {
      return Err(InvalidChecksum(checksum));
    }
    var end := buf.GetU8();
    DropTwice(b, HeaderLength + messageLength + 1, 1);
    return Ok(Some(SofarMessage(data.value, messageType.value, messageNumber, messageNumber2, dataLoggerSn)));
  }

  // ---------------------------------------------------------------- framing

  /** A frame's bytes up to and including its body. */
  function Unframed(code: uint16, number: uint8, number2: uint8, sn: uint32, body: seq<uint8>): (u: seq<uint8>)
    requires |body| < 0x1_0000
    ensures |u| == HeaderLength + |body|
  {
    [0xA5] + U16Le(|body|) + U16Le(code) + [number, number2] + U32Le(sn) + body
  }

  /** A complete frame: the header and body followed by their checksum and the end byte. */
  function Frame(code: uint16, number: uint8, number2: uint8, sn: uint32, body: seq<uint8>): (f: seq<uint8>)
    requires |body| < 0x1_0000
    ensures |f| == HeaderLength + |body| + FooterLength
  {
    var u := Unframed(code, number, number2, sn, body);
    u + [CalcChecksum(u[1..]).value, 0x15]
  }

  /** The checksummed bytes of a frame sum field by field. */
  lemma UnframedSum(code: uint16, number: uint8, number2: uint8, sn: uint32, body: seq<uint8>)
    requires |body| < 0x1_0000
    ensures Sum(Unframed(code, number, number2, sn, body)[1..])
         == Sum(U16Le(|body|)) + Sum(U16Le(code)) + number + number2 + Sum(U32Le(sn)) + Sum(body)
  {
    var u := Unframed(code, number, number2, sn, body);
    var a, c, d := U16Le(|body|), U16Le(code), U32Le(sn);
    assert u[1..] == a + c + [number, number2] + d + body;
    SumAppend(a + c + [number, number2] + d, body);
    SumAppend(a + c + [number, number2], d);
    SumAppend(a + c, [number, number2]);
    SumAppend(a, c);
    SumTwo(number, number2);
  }

  /** Every field of a frame sits where the header says, and its checksum covers [1, 11+N). */
  lemma FrameShape(code: uint16, number: uint8, number2: uint8, sn: uint32, body: seq<uint8>)
    requires |body| < 0x1_0000
    ensures var f := Frame(code, number, number2, sn, body);
      && f[0] == 0xA5
      && MessageLength(f) == |body| && FrameLength(f) == |f|
      && TypeCode(f) == code && f[5] == number && f[6] == number2
      && LeU32(f[7], f[8], f[9], f[10]) == sn
      && f[HeaderLength..HeaderLength + |body|] == body
      && f[HeaderLength + |body|] == Sum(f[1..HeaderLength + |body|]) % 0x100
      && f[HeaderLength + |body| + 1] == 0x15
  {
    var u := Unframed(code, number, number2, sn, body);
    var f := Frame(code, number, number2, sn, body);
    U16RoundTrip(|body|, 0, 0);
    U16RoundTrip(code, 0, 0);
    U32ReadOfWrite(sn);
    assert f[..HeaderLength + |body|] == u;
    assert f[1..HeaderLength + |body|] == u[1..];
    assert f[HeaderLength..HeaderLength + |body|] == u[HeaderLength..] == body;
  }

  // ---------------------------------------------------------------- decoding properties

  /** The checksum byte of a complete frame is the 8-bit sum of the bytes from 1 up to it. */
  predicate ChecksumMatches(b: seq<uint8>)
    requires |b| >= HeaderLength && |b| >= FrameLength(b)
  {
    b[HeaderLength + MessageLength(b)] == Sum(b[1..HeaderLength + MessageLength(b)]) % 0x100
  }

  /** The frames `decode` accepts. */
  predicate Accepted(b: seq<uint8>) {
    && |b| >= HeaderLength && |b| >= FrameLength(b)
    && FromU16(TypeCode(b)).Some?
    && var t := FromU16(TypeCode(b)).value;
    && |b| - HeaderLength >= LayoutSize(t) && TextFieldsValid(t, b[HeaderLength..])
    && ChecksumMatches(b)
  }

  /**
   * `decode` waits for more data exactly when the buffer holds less than a header or less
   * than the frame the header announces, and then leaves the buffer as it was.
   */
  lemma DecodeNeedsMore(b: seq<uint8>)
    ensures DecodeFrame(b).0 == Ok(None) <==> |b| < HeaderLength || |b| < FrameLength(b)
    ensures DecodeFrame(b).0 == Ok(None) ==> DecodeFrame(b).1 == b
  {
  }

  /**
   * A frame that arrives in two pieces decodes as if it had arrived whole: on the first
   * piece alone, any proper prefix of the frame, `decode` waits and leaves the buffer as it
   * was; once the rest is appended, the result is that of the whole buffer.
   */
  lemma SplitDelivery(b: seq<uint8>, k: nat)
    requires |b| >= HeaderLength && |b| >= FrameLength(b) && k < FrameLength(b)
    ensures DecodeFrame(b[..k]) == (Ok(None), b[..k])
    ensures DecodeFrame(b[..k] + b[k..]) == DecodeFrame(b)
  {
    assert b[..k] + b[k..] == b;
    if k >= HeaderLength {
      assert b[..k][1] == b[1] && b[..k][2] == b[2];
    }
    DecodeNeedsMore(b[..k]);
  }

  /**
   * `decode` returns a message exactly for an accepted frame: known type code, a body that
   * fits its layout with UTF-8 texts, and a matching checksum. The header fields of the
   * message are those of the frame.
   */
  lemma DecodeSucceeds(b: seq<uint8>)
    ensures DecodeFrame(b).0.Ok? && DecodeFrame(b).0.value.Some? <==> Accepted(b)
    ensures Accepted(b) ==>
      var m := DecodeFrame(b).0.value.value;
      && Some(m.messageType) == FromU16(TypeCode(b))
      && m.messageNumber == b[5] && m.messageNumber2 == b[6]
      && m.dataLoggerSn == LeU32(b[7], b[8], b[9], b[10])
      && Ok(m.data) == DecodeBody(m.messageType, b[HeaderLength..])
  {
    if |b| >= HeaderLength && |b| >= FrameLength(b) && FromU16(TypeCode(b)).Some? {
      var n := MessageLength(b);
      BodyDecodeSucceeds(FromU16(TypeCode(b)).value, b[HeaderLength..]);
      assert CalcChecksum(b[1..HeaderLength + n]).Some?;
    }
  }

  /**
   * A complete frame of a known type whose body decodes and whose checksum matches decodes
   * to its header fields and body, and the whole frame is consumed.
   */
  lemma FrameDecodes(b: seq<uint8>, t: SofarMessageType)
    requires |b| >= HeaderLength && |b| >= FrameLength(b) && FromU16(TypeCode(b)) == Some(t)
    requires DecodeBody(t, b[HeaderLength..]).Ok?
    requires ChecksumMatches(b)
    ensures DecodeFrame(b) == (Ok(Some(SofarMessage(DecodeBody(t, b[HeaderLength..]).value, t, b[5], b[6],
                                                     LeU32(b[7], b[8], b[9], b[10])))), b[FrameLength(b)..])
  {
    assert CalcChecksum(b[1..HeaderLength + MessageLength(b)]).Some?;
  }

  /** A complete frame with an unknown type code fails after the five bytes up to the code. */
  lemma UnknownTypeFails(b: seq<uint8>)
    requires |b| >= HeaderLength && |b| >= FrameLength(b) && FromU16(TypeCode(b)).None?
    ensures DecodeFrame(b) == (Err(UnknownMessageType(TypeCode(b))), b[5..])
  {
  }

  /**
   * A complete frame of a known type whose body decodes but whose checksum does not match
   * fails, leaving only the end byte and what follows it.
   */
  lemma ChecksumMismatchFails(b: seq<uint8>, t: SofarMessageType)
    requires |b| >= HeaderLength && |b| >= FrameLength(b) && FromU16(TypeCode(b)) == Some(t)
    requires DecodeBody(t, b[HeaderLength..]).Ok? && !ChecksumMatches(b)
    ensures DecodeFrame(b)
         == (Err(InvalidChecksum(b[HeaderLength + MessageLength(b)])), b[HeaderLength + MessageLength(b) + 1..])
  {
    assert CalcChecksum(b[1..HeaderLength + MessageLength(b)]).Some?;
  }

  /** A complete frame of a known type whose body does not fit the layout fails after its header. */
  lemma LayoutErrorFails(b: seq<uint8>)
    requires |b| >= HeaderLength && |b| >= FrameLength(b) && FromU16(TypeCode(b)).Some?
    requires DecodeBody(FromU16(TypeCode(b)).value, b[HeaderLength..]).Err?
    ensures DecodeFrame(b)
         == (Err(Layout(DecodeBody(FromU16(TypeCode(b)).value, b[HeaderLength..]).error)), b[HeaderLength..])
  {
  }

  /**
   * What each outcome consumes: nothing while waiting, the whole frame on success, five
   * bytes on an unknown type code, the header on a layout error and everything but the
   * end byte on a checksum mismatch.
   */
  lemma DecodeConsumes(b: seq<uint8>)
    ensures var r, rest := DecodeFrame(b).0, DecodeFrame(b).1;
      && |rest| <= |b| && rest == b[|b| - |rest|..]
      && (r == Ok(None) ==> rest == b)
      && (r.Ok? && r.value.Some? ==> |b| - |rest| == FrameLength(b))
      && (r.Err? && r.error.UnknownMessageType? ==> |b| - |rest| == 5)
      && (r.Err? && r.error.Layout? ==> |b| - |rest| == HeaderLength)
      && (r.Err? && r.error.InvalidChecksum? ==> |b| - |rest| == FrameLength(b) - 1)
  {
  }

  /** The header fields and checksum of a frame are unchanged by whatever follows it. */
  lemma FrameFollowed(code: uint16, number: uint8, number2: uint8, sn: uint32,
                      body: seq<uint8>, rest: seq<uint8>)
    requires |body| < 0x1_0000
    ensures var f := Frame(code, number, number2, sn, body);
      var b, n := f + rest, |body|;
      && |b| >= HeaderLength && MessageLength(b) == n && FrameLength(b) == |f| <= |b|
      && TypeCode(b) == code && b[5] == number && b[6] == number2
      && LeU32(b[7], b[8], b[9], b[10]) == sn
      && b[HeaderLength..][..n] == body
      && b[HeaderLength + n] == Sum(b[1..HeaderLength + n]) % 0x100 && ChecksumMatches(b)
      && b[|f|..] == rest
  {
    var f := Frame(code, number, number2, sn, body);
    var b, n := f + rest, |body|;
    FrameShape(code, number, number2, sn, body);
    assert b[..|f|] == f;
    assert b[HeaderLength..][..n] == f[HeaderLength..HeaderLength + n];
    assert b[1..HeaderLength + n] == f[1..HeaderLength + n];
  }

  /** A prefix of a prefix is a prefix of the whole. */
  lemma PrefixOfPrefix(s: seq<uint8>, p: seq<uint8>, k: nat)
    requires k <= |p| <= |s| && s[..|p|] == p
    ensures s[..k] == p[..k]
  {
    assert s[..k] == s[..|p|][..k];
  }

  /** A body that decodes decodes the same with more bytes after it. */
  lemma BodyDecodeExtended(t: SofarMessageType, s: seq<uint8>, body: seq<uint8>)
    requires |body| <= |s| && s[..|body|] == body && DecodeBody(t, body).Ok?
    ensures DecodeBody(t, s) == DecodeBody(t, body)
  {
    BodyDecodeSucceeds(t, body);
    PrefixOfPrefix(s, body, LayoutSize(t));
    BodyDecodeLocal(t, s, body);
  }

  /**
   * A frame built from a body that decodes is decoded back to its header fields and that
   * body, whatever follows it in the buffer, and exactly that frame is consumed.
   */
  lemma FrameRoundTrip(t: SofarMessageType, number: uint8, number2: uint8, sn: uint32,
                       body: seq<uint8>, rest: seq<uint8>)
    requires |body| < 0x1_0000 && DecodeBody(t, body).Ok?
    ensures DecodeFrame(Frame(Code(t), number, number2, sn, body) + rest)
         == (Ok(Some(SofarMessage(DecodeBody(t, body).value, t, number, number2, sn))), rest)
  {
    var b := Frame(Code(t), number, number2, sn, body) + rest;
    FrameFollowed(Code(t), number, number2, sn, body, rest);
    FromU16Inverse(Code(t), t);
    BodyDecodeExtended(t, b[HeaderLength..], body);
    FrameDecodes(b, t);
  }

  /** On its own, a Data frame announcing an empty body is a layout error: the Data layout needs 151 bytes. */
  lemma EmptyDataFrameAlone(number: uint8, number2: uint8, sn: uint32)
    ensures var f := Frame(Code(Data), number, number2, sn, []);
      DecodeFrame(f).0.Err? && DecodeFrame(f).0.error.Layout? && DecodeFrame(f).1 == f[HeaderLength..]
  {
    var f := Frame(Code(Data), number, number2, sn, []);
    FrameShape(Code(Data), number, number2, sn, []);
    FromU16Inverse(Code(Data), Data);
    assert |f[HeaderLength..]| == 2;
    BodyDecodeSucceeds(Data, f[HeaderLength..]);
    LayoutErrorFails(f);
  }

  /** A body of 151 or more bytes fits the Data layout when its five text fields are ASCII. */
  lemma AsciiDataBody(body: seq<uint8>)
    requires |body| >= 151
    requires forall i :: 21 <= i < 37 || 93 <= i < 101 || 133 <= i < 141 ==> body[i] < 0x80
    ensures TextFieldsValid(Data, body) && DecodeData(body).Ok?
  {
    AsciiIsValid(body[21..37]);
    AsciiIsValid(body[93..97]);
    AsciiIsValid(body[97..101]);
    AsciiIsValid(body[133..137]);
    AsciiIsValid(body[137..141]);
    DataDecodeSucceeds(body);
  }

  /** After an empty-body Data frame, 149 or more ASCII bytes complete a valid Data layout. */
  lemma EmptyDataFrameBody(number: uint8, number2: uint8, sn: uint32, z: seq<uint8>)
    requires |z| >= 149 && forall i :: 0 <= i < |z| ==> z[i] < 0x80
    ensures var b := Frame(Code(Data), number, number2, sn, []) + z;
      |b| >= HeaderLength + LayoutSize(Data) && TextFieldsValid(Data, b[HeaderLength..])
  {
    var f := Frame(Code(Data), number, number2, sn, []);
    var body := (f + z)[HeaderLength..];
    assert body == f[HeaderLength..] + z;
    assert forall i :: 21 <= i < 141 ==> body[i] < 0x80 by {
      forall i | 21 <= i < 141 ensures body[i] < 0x80 {
        assert body[i] == z[i - 2];
      }
    }
    AsciiDataBody(body);
  }

  /** The header and checksum of an empty-body Data frame are unaffected by what follows it. */
  lemma EmptyDataFrameHeader(number: uint8, number2: uint8, sn: uint32, z: seq<uint8>)
    ensures var b := Frame(Code(Data), number, number2, sn, []) + z;
      && FromU16(TypeCode(b)) == Some(Data) && MessageLength(b) == 0
      && b[HeaderLength] == Sum(b[1..HeaderLength]) % 0x100
  {
    var f := Frame(Code(Data), number, number2, sn, []);
    FrameShape(Code(Data), number, number2, sn, []);
    FromU16Inverse(Code(Data), Data);
    assert (f + z)[1..HeaderLength] == f[1..HeaderLength];
  }

  /**
   * The body layout is read from everything after the header, not from the N announced
   * bytes: once 149 or more ASCII bytes follow an empty-body Data frame in the buffer it
   * decodes, and only its 13 bytes are consumed.
   */
  lemma EmptyDataFrameFollowed(number: uint8, number2: uint8, sn: uint32, z: seq<uint8>)
    requires |z| >= 149 && forall i :: 0 <= i < |z| ==> z[i] < 0x80
    ensures var b := Frame(Code(Data), number, number2, sn, []) + z;
      DecodeFrame(b).0.Ok? && DecodeFrame(b).0.value.Some? && DecodeFrame(b).1 == z
  {
    var b := Frame(Code(Data), number, number2, sn, []) + z;
    EmptyDataFrameBody(number, number2, sn, z);
    EmptyDataFrameHeader(number, number2, sn, z);
    assert Accepted(b);
    DecodeSucceeds(b);
    DecodeConsumes(b);
    assert b[FrameLength(b)..] == z;
  }

  /** 86 bytes whose two text fields are ASCII, and any byte after them, fit the Hello layout. */
  lemma AsciiHelloBody(s: seq<uint8>, body: seq<uint8>)
    requires |body| == 86 && |s| >= 87 && s[..86] == body
    requires forall i :: 19 <= i < 59 || 65 <= i < 81 ==> body[i] < 0x80
    ensures TextFieldsValid(Hello, s) && DecodeHello(s).Ok?
  {
    forall i | 0 <= i < 40 ensures s[19..59][i] < 0x80 {
      assert s[19..59][i] == body[19 + i];
    }
    forall i | 0 <= i < 16 ensures s[65..81][i] < 0x80 {
      assert s[65..81][i] == body[65 + i];
    }
    AsciiIsValid(s[19..59]);
    AsciiIsValid(s[65..81]);
    HelloDecodeSucceeds(s);
  }

  /**
   * The hello frame of the codec's unit tests announces N = 86 bytes, one short of the
   * 87-byte Hello layout. Such a frame still decodes, consuming exactly the frame, when its
   * two text fields are ASCII. The layout's last field, `sensor_type_list`, is then read from
   * the body's last byte and the frame's checksum byte.
   */
  lemma HelloFrameReadsChecksum(number: uint8, number2: uint8, sn: uint32, body: seq<uint8>, rest: seq<uint8>)
    requires |body| == 86 && forall i :: 19 <= i < 59 || 65 <= i < 81 ==> body[i] < 0x80
    ensures var f := Frame(Code(Hello), number, number2, sn, body);
      var r := DecodeFrame(f + rest);
      && r.0.Ok? && r.0.value.Some? && r.1 == rest
      && r.0.value.value.data.IncomingHello?
      && r.0.value.value.data.hello.sensorTypeList == LeU16(body[85], Sum(f[1..HeaderLength + 86]) % 0x100)
  {
    var f := Frame(Code(Hello), number, number2, sn, body);
    var b := f + rest;
    FrameShape(Code(Hello), number, number2, sn, body);
    FrameFollowed(Code(Hello), number, number2, sn, body, rest);
    FromU16Inverse(Code(Hello), Hello);
    var s := b[HeaderLength..];
    assert s[86] == f[HeaderLength + 86];
    AsciiHelloBody(s, body);
    assert Accepted(b);
    DecodeSucceeds(b);
    DecodeConsumes(b);
  }

  /**
   * `decode` looks only at the bytes from the length field to the checksum byte, through
   * the body decoder: two buffers of the same length that agree there, and whose bodies
   * decode alike, give the same result.
   */
  lemma SameDecodeResult(b: seq<uint8>, b': seq<uint8>)
    requires |b| == |b'| >= HeaderLength && b[1..HeaderLength] == b'[1..HeaderLength]
    requires |b| >= FrameLength(b) ==> b[1..FrameLength(b) - 1] == b'[1..FrameLength(b) - 1]
    requires FromU16(TypeCode(b)).Some? ==>
      DecodeBody(FromU16(TypeCode(b)).value, b[HeaderLength..])
      == DecodeBody(FromU16(TypeCode(b)).value, b'[HeaderLength..])
    ensures DecodeFrame(b).0 == DecodeFrame(b').0
  {
    assert b[1] == b'[1] && b[2] == b'[2] && b[3] == b'[3] && b[4] == b'[4];
    assert b[5] == b'[5] && b[6] == b'[6];
    assert b[7] == b'[7] && b[8] == b'[8] && b[9] == b'[9] && b[10] == b'[10];
    if |b| >= FrameLength(b) {
      var n := MessageLength(b);
      assert b[1..HeaderLength + n] == b[1..FrameLength(b) - 1][..HeaderLength + n - 1];
      assert b'[1..HeaderLength + n] == b'[1..FrameLength(b) - 1][..HeaderLength + n - 1];
      assert b[HeaderLength + n] == b[1..FrameLength(b) - 1][HeaderLength + n - 1];
      assert b'[HeaderLength + n] == b'[1..FrameLength(b) - 1][HeaderLength + n - 1];
    }
  }

  /** A frame whose checksum byte disagrees with the sum of its bytes is rejected. */
  lemma BadChecksumFails(b: seq<uint8>)
    requires |b| >= HeaderLength && |b| >= FrameLength(b)
    requires !ChecksumMatches(b)
    ensures DecodeFrame(b).0.Err?
  {
    assert CalcChecksum(b[1..HeaderLength + MessageLength(b)]).Some?;
  }

  /**
   * One replaced byte anywhere from the type code to the checksum byte makes an accepted
   * frame fail: the 8-bit sum no longer matches the checksum byte.
   */
  lemma CorruptionDetected(b: seq<uint8>, i: nat, v: uint8)
    requires Accepted(b)
    requires 3 <= i <= HeaderLength + MessageLength(b) && v != b[i]
    ensures DecodeFrame(b[i := v]).0.Err?
  {
    CorruptionBreaksChecksum(b, i, v);
    BadChecksumFails(b[i := v]);
  }

  /**
   * Replacing one byte from the type code to the checksum byte of a complete frame whose
   * checksum matches keeps the frame's length and makes the checksum mismatch.
   */
  lemma CorruptionBreaksChecksum(b: seq<uint8>, i: nat, v: uint8)
    requires |b| >= HeaderLength && |b| >= FrameLength(b) && ChecksumMatches(b)
    requires 3 <= i <= HeaderLength + MessageLength(b) && v != b[i]
    ensures |b[i := v]| >= FrameLength(b[i := v]) && !ChecksumMatches(b[i := v])
  {
    var b' := b[i := v];
    var n := MessageLength(b);
    assert MessageLength(b') == n;
    if i < HeaderLength + n {
      assert b'[1..HeaderLength + n] == b[1..HeaderLength + n][i - 1 := v];
      ChecksumDetectsOneByte(b[1..HeaderLength + n], i - 1, v);
      assert b'[HeaderLength + n] == b[HeaderLength + n];
    } else {
      assert b'[1..HeaderLength + n] == b[1..HeaderLength + n];
    }
  }

  /** The start byte is never looked at. */
  lemma StartByteUnchecked(b: seq<uint8>, v: uint8)
    requires |b| >= 1
    ensures DecodeFrame(b[0 := v]).0 == DecodeFrame(b).0
  {
    var b' := b[0 := v];
    if |b| >= HeaderLength {
      assert b'[1..] == b[1..];
      assert b'[1..HeaderLength] == b[1..HeaderLength];
      if |b| >= FrameLength(b) {
        assert b'[1..FrameLength(b) - 1] == b[1..FrameLength(b) - 1];
      }
      assert b'[HeaderLength..] == b[HeaderLength..];
      SameDecodeResult(b, b');
    }
  }

  /**
   * Nor is the end byte, for a frame whose layout ends at or before its checksum byte
   * (for Hello, whose layout is 87 bytes, that is any frame with N >= 86).
   */
  lemma EndByteUnchecked(b: seq<uint8>, v: uint8)
    requires |b| >= HeaderLength && |b| >= FrameLength(b)
    requires FromU16(TypeCode(b)).Some? && LayoutSize(FromU16(TypeCode(b)).value) <= MessageLength(b) + 1
    ensures DecodeFrame(b[FrameLength(b) - 1 := v]).0 == DecodeFrame(b).0
  {
    var b' := b[FrameLength(b) - 1 := v];
    var t := FromU16(TypeCode(b)).value;
    var k := LayoutSize(t);
    assert b'[1..HeaderLength] == b[1..HeaderLength];
    assert b'[1..FrameLength(b) - 1] == b[1..FrameLength(b) - 1];
    assert b'[HeaderLength..][..k] == b[HeaderLength..][..k];
    BodyDecodeLocal(t, b'[HeaderLength..], b[HeaderLength..]);
    SameDecodeResult(b, b');
  }

  // ---------------------------------------------------------------- encoding

  /** The type code of the reply to each request kind. */
  function ResponseCode(t: SofarMessageType): (code: uint16)
    ensures code == Code(t) - 0x3000
  {
    match t
    case Data => 0x1210
    case Heartbeat => 0x1710
    case Hello => 0x1110
    case HelloCd => 0x1810
    case Unknown44 => 0x1310
  }

  /**
   * A reply code is its request's code with the high byte lowered by 0x30, so no reply
   * can be mistaken for a request and different requests get different replies.
   */
  lemma ResponseCodeOfRequest(t: SofarMessageType, u: SofarMessageType)
    ensures ResponseCode(t) == Code(t) - 0x3000
    ensures FromU16(ResponseCode(t)).None?
    ensures ResponseCode(t) == ResponseCode(u) ==> t == u
  {
  }

  /** The body of a reply, as bincode serializes it. */
  function ReplyBody(item: OutgoingMessage): (body: seq<uint8>)
    ensures |body| == 10
  {
    SerializeServerResponse(item.data.response)
  }

  /** The reply frame `encode` is meant to produce: checksummed over its own bytes. */
  function ReplyFrame(item: OutgoingMessage): (f: seq<uint8>)
    ensures |f| == 23
  {
    Frame(ResponseCode(item.messageType), item.messageNumber, item.messageNumber2, item.dataLoggerSn,
          ReplyBody(item))
  }

  /**
   * What `encode` leaves in a buffer that held `prefix`: the reply's bytes are appended,
   * but the checksum is taken over everything in the buffer from its second byte on,
   * so bytes already in the buffer are summed in too.
   */
  function AppendedReply(prefix: seq<uint8>, item: OutgoingMessage): (b: seq<uint8>)
    ensures |b| == |prefix| + 23
  {
    var u := prefix + Unframed(ResponseCode(item.messageType), item.messageNumber, item.messageNumber2,
                               item.dataLoggerSn, ReplyBody(item));
    u + [CalcChecksum(u[1..]).value, 0x15]
  }

  /** `SofarCodec::encode`, as written: appends a reply to the buffer. */
  method Encode(item: OutgoingMessage, buf: ByteBuffer)
    modifies buf
    ensures buf.bytes == AppendedReply(old(buf.bytes), item)
  {
    var responseType := ResponseCode(item.messageType);
    var data := SerializeServerResponse(item.data.response);
    buf.PutU8(0xA5);
    buf.PutU16Le(|data|);
    buf.PutU16Le(responseType);
    buf.PutU8(item.messageNumber);
    buf.PutU8(item.messageNumber2);
    buf.PutU32Le(item.dataLoggerSn);
    buf.Extend(data);
    assert buf.bytes == old(buf.bytes) + Unframed(responseType, item.messageNumber, item.messageNumber2,
                                                  item.dataLoggerSn, data);
    var checksum := CalcChecksum(buf.bytes[1..]);
    buf.PutU8(checksum.value);
    buf.PutU8(0x15);
  }

  /**
   * `encode` with the checksum taken over the new frame only: the frame is built in a
   * buffer of its own and then appended.
   */
  method EncodeCorrected(item: OutgoingMessage, buf: ByteBuffer)
    modifies buf
    ensures buf.bytes == old(buf.bytes) + ReplyFrame(item)
  {
    var frame := new ByteBuffer([]);
    Encode(item, frame);
    EncodeIntoEmpty(item);
    buf.Extend(frame.bytes);
  }

  /**
   * `encode` appends a correct frame exactly when the buffer was empty or the bytes it
   * held after its first, together with the new start byte, sum to 0 modulo 256.
   */
  lemma AppendedReplyCorrectIff(prefix: seq<uint8>, item: OutgoingMessage)
    ensures AppendedReply(prefix, item) == prefix + ReplyFrame(item)
        <==> prefix == [] || (Sum(prefix[1..]) + 0xA5) % 0x100 == 0
  {
    var u := Unframed(ResponseCode(item.messageType), item.messageNumber, item.messageNumber2,
                      item.dataLoggerSn, ReplyBody(item));
    if prefix != [] {
      var w := prefix + u;
      assert w[1..] == prefix[1..] + [0xA5] + u[1..];
      SumAppend(prefix[1..] + [0xA5], u[1..]);
      SumAppend(prefix[1..], [0xA5]);
      assert Sum([0xA5]) == 0xA5;
      var correct := Sum(u[1..]) % 0x100;
      var written := (Sum(prefix[1..]) + 0xA5 + Sum(u[1..])) % 0x100;
      assert AppendedReply(prefix, item) == w + [written, 0x15];
      assert prefix + ReplyFrame(item) == w + [correct, 0x15];
      AddMod(Sum(prefix[1..]) + 0xA5, 0, Sum(u[1..]));
      if (Sum(prefix[1..]) + 0xA5) % 0x100 == 0 {
        AddMod(Sum(u[1..]), 0, Sum(prefix[1..]) + 0xA5);
        assert written == correct;
      } else {
        ShiftChangesResidueMod(Sum(u[1..]), Sum(prefix[1..]) + 0xA5);
        assert written != correct;
        assert (w + [written, 0x15])[|w|] != (w + [correct, 0x15])[|w|];
      }
    } else {
      assert prefix + u == u;
    }
  }

  /** Into an empty buffer `encode` writes the reply frame it is meant to. */
  lemma EncodeIntoEmpty(item: OutgoingMessage)
    ensures AppendedReply([], item) == ReplyFrame(item)
  {
    AppendedReplyCorrectIff([], item);
    assert [] + ReplyFrame(item) == ReplyFrame(item);
  }

  /**
   * `encode` after a first reply is still in the buffer: when the first reply's bytes
   * after its start byte sum to `tail` and tail + 0xA5 is not 0 modulo 256, the second
   * reply's checksum is wrong. For the heartbeat reply of the unit tests tail is 0x5A7
   * (`HeartbeatResponseTailSum`), so the checksum is off by 76.
   */
  lemma SecondReplyChecksumWrong(item: OutgoingMessage, tail: nat)
    requires Sum(ReplyFrame(item)[1..]) == tail && (tail + 0xA5) % 0x100 != 0
    ensures AppendedReply(ReplyFrame(item), item) != ReplyFrame(item) + ReplyFrame(item)
  {
    AppendedReplyCorrectIff(ReplyFrame(item), item);
  }

  /** The header fields of a decoded request are the frame's bytes, and its message id is the first body byte. */
  lemma RequestHeader(b: seq<uint8>, m: IncomingMessage)
    requires |b| >= HeaderLength && DecodeFrame(b).0 == Ok(Some(m))
    ensures |b| >= FrameLength(b)
    ensures Code(m.messageType) == TypeCode(b)
    ensures m.messageNumber == b[5] && m.messageNumber2 == b[6] && m.dataLoggerSn == LeU32(b[7], b[8], b[9], b[10])
    ensures MessageId(m.data) == b[HeaderLength]
  {
    DecodeSucceeds(b);
    FromU16Inverse(TypeCode(b), m.messageType);
    MessageIdIsFirstBodyByte(m.messageType, b[HeaderLength..]);
  }

  /** Where the header fields and the response fields of a reply frame sit. */
  lemma ReplyHeader(item: OutgoingMessage)
    ensures var f, r := ReplyFrame(item), item.data.response;
      && TypeCode(f) == ResponseCode(item.messageType)
      && f[5] == item.messageNumber && f[6] == item.messageNumber2
      && LeU32(f[7], f[8], f[9], f[10]) == item.dataLoggerSn
      && f[11] == r.messageId && f[12] == r.unknown1 && LeU32(f[13], f[14], f[15], f[16]) == r.timestamp
      && LeU16(f[17], f[18]) == r.unknown2 && LeU16(f[19], f[20]) == r.unknown3
  {
    var f, body := ReplyFrame(item), ReplyBody(item);
    FrameShape(ResponseCode(item.messageType), item.messageNumber, item.messageNumber2,
               item.dataLoggerSn, body);
    assert f[HeaderLength..HeaderLength + 10] == body;
    assert f[11] == body[0] && f[12] == body[1];
    assert f[13] == body[2] && f[14] == body[3] && f[15] == body[4] && f[16] == body[5];
    assert f[17] == body[6] && f[18] == body[7] && f[19] == body[8] && f[20] == body[9];
  }

  /**
   * A reply frame f answers a request with the given type code, message numbers, serial
   * number and message id: it carries the reply code of the type code, the first message
   * number plus one (255 wraps to 0), the second number and the serial number copied, the
   * id echoed, then 1, the timestamp, 0x78 and 0.
   */
  predicate Answers(f: seq<uint8>, code: uint16, number: uint8, number2: uint8, sn: uint32, id: uint8,
                    timestamp: uint32)
    requires |f| >= 21
  {
    && TypeCode(f) == code - 0x3000
    && f[5] == (if number == 0xFF then 0 else number + 1) && f[6] == number2
    && LeU32(f[7], f[8], f[9], f[10]) == sn
    && f[11] == id && f[12] == 1 && LeU32(f[13], f[14], f[15], f[16]) == timestamp
    && LeU16(f[17], f[18]) == 0x78 && LeU16(f[19], f[20]) == 0
  }

  /** The reply to a message answers the message's own header fields and message id. */
  lemma ReplyToHeader(m: IncomingMessage, timestamp: uint32, code: uint16, number: uint8, number2: uint8,
                      sn: uint32, id: uint8)
    requires Code(m.messageType) == code && MessageId(m.data) == id
    requires m.messageNumber == number && m.messageNumber2 == number2 && m.dataLoggerSn == sn
    ensures Answers(ReplyFrame(FromIncomingMessage(m, timestamp)), code, number, number2, sn, id, timestamp)
  {
    var item := FromIncomingMessage(m, timestamp);
    ReplyHeader(item);
    ResponseCodeOfRequest(m.messageType, m.messageType);
  }

  /**
   * The reply to an accepted request answers the request frame's own bytes: its type code
   * at 3, its message numbers at 5 and 6, its serial number at 7 and its first body byte.
   */
  lemma ReplyAnswersRequest(b: seq<uint8>, m: IncomingMessage, timestamp: uint32)
    requires |b| >= HeaderLength && DecodeFrame(b).0 == Ok(Some(m))
    ensures |b| > HeaderLength
    ensures Answers(ReplyFrame(FromIncomingMessage(m, timestamp)),
                    TypeCode(b), b[5], b[6], LeU32(b[7], b[8], b[9], b[10]), b[HeaderLength], timestamp)
  {
    RequestHeader(b, m);
    ReplyToHeader(m, timestamp, TypeCode(b), b[5], b[6], LeU32(b[7], b[8], b[9], b[10]), b[HeaderLength]);
  }

  /** A reply frame fed back to `decode` is rejected: no request kind has a reply's code. */
  lemma ReplyIsNotARequest(item: OutgoingMessage, rest: seq<uint8>)
    ensures DecodeFrame(ReplyFrame(item) + rest).0 == Err(UnknownMessageType(ResponseCode(item.messageType)))
  {
    var f := ReplyFrame(item);
    FrameShape(ResponseCode(item.messageType), item.messageNumber, item.messageNumber2,
               item.dataLoggerSn, ReplyBody(item));
    ResponseCodeOfRequest(item.messageType, item.messageType);
    assert (f + rest)[..|f|] == f;
  }

  // ---------------------------------------------------------------- examples

  /*
   * The heartbeat request of the codec's unit tests and the reply they expect, written
   * field by field: start byte, body length, type code, the two message numbers, the
   * serial number, the body, the checksum and the end byte.
   */
  const HeartbeatRequest: seq<uint8> :=
    [165] + [1, 0] + [16, 71] + [31, 32] + [79, 172, 254, 103] + [0] + [247, 21]
  const HeartbeatReply: seq<uint8> :=
    [165] + [10, 0] + [16, 23] + [32, 32] + [79, 172, 254, 103]
    + ([0, 1] + [141, 39, 103, 100] + [120, 0] + [0, 0]) + [201, 21]
  const HeartbeatMessage: IncomingMessage :=
    SofarMessage(IncomingHeartbeat(HeartbeatBody(0)), Heartbeat, 31, 32, 1744743503)
  const HeartbeatResponse: OutgoingMessage :=
    SofarMessage(OutgoingServerResponse(ServerResponse(0, 1, 1684481933, 0x78, 0)), Heartbeat, 32, 32, 1744743503)

  /** The little-endian bytes of the unit tests' timestamp and serial number. */
  lemma TestNumbersBytes()
    ensures U32Le(1684481933) == [141, 39, 103, 100]
    ensures U32Le(1744743503) == [79, 172, 254, 103]
  {
  }

  /** The heartbeat request of the unit tests is the frame of the heartbeat body [0]. */
  lemma HeartbeatRequestFrame()
    ensures HeartbeatRequest == Frame(0x4710, 31, 32, 1744743503, [0])
  {
    var u := Unframed(0x4710, 31, 32, 1744743503, [0]);
    TestNumbersBytes();
    assert U16Le(1) == [1, 0] && U16Le(0x4710) == [16, 71];
    UnframedSum(0x4710, 31, 32, 1744743503, [0]);
    SumTwo(1, 0);
    SumTwo(16, 71);
    SumFour(79, 172, 254, 103);
    assert Sum([0]) == 0 by { assert [0][1..] == []; }
    ResidueOf(Sum(u[1..]), 759, 247);
  }

  /** The heartbeat request of the unit tests decodes to a heartbeat and consumes the buffer. */
  lemma HeartbeatRequestDecodes()
    ensures DecodeFrame(HeartbeatRequest) == (Ok(Some(HeartbeatMessage)), [])
  {
    HeartbeatRequestFrame();
    FrameRoundTrip(Heartbeat, 31, 32, 1744743503, [0], []);
    assert HeartbeatRequest + [] == HeartbeatRequest;
  }

  /** The body of the expected reply: message id 0, then 1, the timestamp, 0x78 and 0. */
  lemma HeartbeatReplyBody()
    ensures SerializeServerResponse(ServerResponse(0, 1, 1684481933, 0x78, 0))
         == [0, 1] + [141, 39, 103, 100] + [120, 0] + [0, 0]
  {
    TestNumbersBytes();
    assert U16Le(0x78) == [120, 0] && U16Le(0) == [0, 0];
  }

  /** The checksummed bytes of the expected reply sum to 0x4C9. */
  lemma HeartbeatReplySum()
    ensures Sum(Unframed(0x1710, 32, 32, 1744743503, [0, 1] + [141, 39, 103, 100] + [120, 0] + [0, 0])[1..])
         == 0x4C9
  {
    TestNumbersBytes();
    assert U16Le(10) == [10, 0] && U16Le(0x1710) == [16, 23];
    UnframedSum(0x1710, 32, 32, 1744743503, [0, 1] + [141, 39, 103, 100] + [120, 0] + [0, 0]);
    SumTwo(10, 0);
    SumTwo(16, 23);
    SumFour(79, 172, 254, 103);
    SumAppend([0, 1] + [141, 39, 103, 100] + [120, 0], [0, 0]);
    SumAppend([0, 1] + [141, 39, 103, 100], [120, 0]);
    SumAppend([0, 1], [141, 39, 103, 100]);
    SumTwo(0, 1);
    SumFour(141, 39, 103, 100);
    SumTwo(120, 0);
    SumTwo(0, 0);
  }

  /** The expected reply is the frame of its header fields and body. */
  lemma HeartbeatReplyFrame()
    ensures Frame(0x1710, 32, 32, 1744743503, [0, 1] + [141, 39, 103, 100] + [120, 0] + [0, 0]) == HeartbeatReply
  {
    var u := Unframed(0x1710, 32, 32, 1744743503, [0, 1] + [141, 39, 103, 100] + [120, 0] + [0, 0]);
    TestNumbersBytes();
    assert U16Le(10) == [10, 0] && U16Le(0x1710) == [16, 23];
    HeartbeatReplySum();
    ResidueOf(Sum(u[1..]), 0x4C9, 201);
  }

  /** The bytes of the expected reply after its start byte sum to 0x5A7. */
  lemma HeartbeatReplyTailSum()
    ensures Sum(HeartbeatReply[1..]) == 0x5A7
  {
    var u := Unframed(0x1710, 32, 32, 1744743503, [0, 1] + [141, 39, 103, 100] + [120, 0] + [0, 0]);
    HeartbeatReplyFrame();
    HeartbeatReplySum();
    assert HeartbeatReply == u + [201, 21];
    SumAppend(u, [201, 21]);
    SumTwo(201, 21);
    assert Sum(u) == 165 + Sum(u[1..]);
    assert Sum(HeartbeatReply) == 165 + Sum(HeartbeatReply[1..]);
  }

  /** The body of the expected response. */
  lemma HeartbeatResponseBody(item: OutgoingMessage)
    requires item == HeartbeatResponse
    ensures ReplyBody(item) == [0, 1] + [141, 39, 103, 100] + [120, 0] + [0, 0]
  {
    HeartbeatReplyBody();
  }

  /** The reply frame of the expected response is the expected bytes. */
  lemma HeartbeatResponseFrame(item: OutgoingMessage)
    requires item == HeartbeatResponse
    ensures ReplyFrame(item) == HeartbeatReply
  {
    HeartbeatResponseBody(item);
    HeartbeatReplyFrame();
  }

  /** The bytes of the expected response's frame after its start byte sum to 0x5A7. */
  lemma HeartbeatResponseTailSum(item: OutgoingMessage)
    requires item == HeartbeatResponse
    ensures Sum(ReplyFrame(item)[1..]) == 0x5A7
  {
    HeartbeatResponseFrame(item);
    HeartbeatReplyTailSum();
  }

  /** The reply the unit tests expect is the one built from the decoded heartbeat. */
  lemma HeartbeatReplyBuilt()
    ensures FromIncomingMessage(HeartbeatMessage, 1684481933) == HeartbeatResponse
  {
    assert MessageId(HeartbeatMessage.data) == 0;
  }

  /** `encode` writes exactly the expected reply into an empty buffer. */
  lemma HeartbeatReplyEncodes()
    ensures AppendedReply([], HeartbeatResponse) == ReplyFrame(HeartbeatResponse) == HeartbeatReply
  {
    HeartbeatResponseFrame(HeartbeatResponse);
    EncodeIntoEmpty(HeartbeatResponse);
  }

}
