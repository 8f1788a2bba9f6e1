/**
 * The frame codec: a frame is the magic byte followed by one length-delimited
 * message. The decoder resynchronises by discarding bytes up to and including
 * the first magic byte; the encoder writes the magic byte, the length-delimited
 * request, and then the request body once more.
 */
module ProtobufMDCodec {
  import opened Wrappers
  import opened Ints
  import opened Messages
  import opened PbError
  import Prost

  /** A byte buffer consumed from the front and appended to at the back (`bytes::BytesMut`). */
  class BytesMut {
    var data: seq<byte>

    constructor (initial: seq<byte>)
      ensures data == initial
    {
      data := initial;
    }

    method IsEmpty() returns (b: bool)
      ensures b <==> |data| == 0
    {
      b := |data| == 0;
    }

    /** Removes and returns the first byte. */
    method GetU8() returns (b: byte)
      requires |data| > 0
      modifies this
      ensures b == old(data)[0] && data == old(data)[1..]
    {
      b := data[0];
      data := data[1..];
    }

    method PutU8(b: byte)
      modifies this
      ensures data == old(data) + [b]
    {
      data := data + [b];
    }

    method PutSlice(s: seq<byte>)
      modifies this
      ensures data == old(data) + s
    {
      data := data + s;
    }
  }

  /** The decoder's verdict on one buffer and what it leaves in the buffer. */
  type Decoding = (Result<Option<Response>, Error>, seq<byte>)

  /** Position of the first magic byte of `s`, if it holds one. */
  function FirstMagic(s: seq<byte>): (r: Option<nat>)
    ensures r.Some? ==> r.value < |s| && s[r.value] == MAGICK
    ensures r.Some? ==> forall j :: 0 <= j < r.value ==> s[j] != MAGICK
    ensures r.None? <==> MAGICK !in s
  {
    if |s| == 0 then None
    else if s[0] == MAGICK then Some(0)
    else
      match FirstMagic(s[1..])
      case None => None
      case Some(i) => Some(i + 1)
  }

  /**
   * What the decoder does once the magic byte is consumed: one
   * length-delimited response is parsed from `s`. A parse error equal to
   * "unexpected EOF" is taken for "need more data", not an error; any other
   * parse failure is a decode error.
   */
  function ParseAfterMagic(s: seq<byte>, decodeBody: seq<byte> -> Result<Response, Prost.DecodeError>,
                           eof: Prost.DecodeError)
    : (r: Decoding)
    ensures var (p, rest) := Prost.DecodeLengthDelimited(s, decodeBody, eof);
            && (p.Ok? ==> r == (Ok(Some(p.value)), rest))
            && (p == Err(Prost.DecodeError(Prost.UNEXPECTED_EOF)) ==> r == (Ok(None), s))
            && (p.Err? && p.error != Prost.DecodeError(Prost.UNEXPECTED_EOF) ==> r == (Err(DecoderError(p.error)), s))
  {
    var (parsed, rest) := Prost.DecodeLengthDelimited(s, decodeBody, eof);
    match parsed
    case Ok(msg) => (Ok(Some(msg)), rest)
    case Err(e) =>
      if e == Prost.DecodeError(Prost.UNEXPECTED_EOF) then (Ok(None), rest)
      else (Err(FromDecodeError(e)), rest)
  }

  /** `decode` as a function of the buffer's contents: its result and the bytes it leaves. */
  function Decoded(src: seq<byte>, decodeBody: seq<byte> -> Result<Response, Prost.DecodeError>,
                   eof: Prost.DecodeError)
    : (r: Decoding)
    ensures MAGICK !in src ==> r == (Ok(None), [])
    ensures r.0.Ok? && r.0.value.Some? ==> MAGICK in src
  {
    match FirstMagic(src)
    case None => (Ok(None), [])
    case Some(i) => ParseAfterMagic(src[i + 1..], decodeBody, eof)
  }

  /** `Response::decode_length_delimited(src)`: parses from the buffer and advances it past what was parsed. */
  method DecodeLengthDelimited(src: BytesMut, decodeBody: seq<byte> -> Result<Response, Prost.DecodeError>,
                               eof: Prost.DecodeError)
    returns (r: Result<Response, Prost.DecodeError>)
    modifies src
    ensures (r, src.data) == Prost.DecodeLengthDelimited(old(src.data), decodeBody, eof)
  {
    var (parsed, rest) := Prost.DecodeLengthDelimited(src.data, decodeBody, eof);
    src.data := rest;
    r := parsed;
  }

  /** `ProtobufMDCodec::decode`. */
  method Decode(src: BytesMut, decodeBody: seq<byte> -> Result<Response, Prost.DecodeError>,
                eof: Prost.DecodeError)
    returns (r: Result<Option<Response>, Error>)
    modifies src
    ensures (r, src.data) == Decoded(old(src.data), decodeBody, eof)
  {
    ghost var original := src.data;
    var found := false;
    while !found
      invariant |src.data| <= |original|
      invariant src.data == original[|original| - |src.data|..]
      invariant !found ==> forall j :: 0 <= j < |original| - |src.data| ==> original[j] != MAGICK
      invariant found ==> FirstMagic(original) == Some(|original| - |src.data| - 1)
      decreases |src.data|
    {
      var empty := src.IsEmpty();
      if empty {
        assert MAGICK !in original;
        return Ok(None);
      }
      var b := src.GetU8();
      found := b == MAGICK;
    }
    var parsed := DecodeLengthDelimited(src, decodeBody, eof);
    match parsed
    case Ok(msg) =>
      return Ok(Some(msg));
    case Err(e) =>
      if e == Prost.DecodeError(Prost.UNEXPECTED_EOF) {
        return Ok(None);
      }
      return Err(FromDecodeError(e));
  }

  /** The bytes `encode` appends for a request whose body serialises to `body`. */
  function EncodedFrame(body: seq<byte>): (r: seq<byte>)
    ensures |r| == 1 + |Prost.EncodeVarint(|body|)| + 2 * |body|
    ensures r[0] == MAGICK
    ensures r[1..] == Prost.EncodeLengthDelimited(body) + body
  {
    [MAGICK] + Prost.EncodeLengthDelimited(body) + body
  }

  /**
   * `ProtobufMDCodec::encode`: appends the magic byte, the length-delimited
   * request and then the request body a second time. Appending to a growable
   * buffer never runs out of room, so the result is always `Ok`.
   */
  method Encode(req: Request, buf: BytesMut, encodeBody: Request -> seq<byte>)
    returns (r: Result<(), Error>)
    modifies buf
    ensures r.Ok?
    ensures buf.data == old(buf.data) + EncodedFrame(encodeBody(req))
  {
    var body := encodeBody(req);
    buf.PutU8(MAGICK);
    buf.PutSlice(Prost.EncodeLengthDelimited(body));
    buf.PutSlice(body);
    return Ok(());
  }

  /** Bytes before the first magic byte, and the magic byte itself, are dropped before parsing. */
  lemma {:induction false} DecodeSkipsGarbage(garbage: seq<byte>, tail: seq<byte>,
                                              decodeBody: seq<byte> -> Result<Response, Prost.DecodeError>,
                                              eof: Prost.DecodeError)
    requires MAGICK !in garbage
    ensures Decoded(garbage + [MAGICK] + tail, decodeBody, eof) == ParseAfterMagic(tail, decodeBody, eof)
  {
    var s := garbage + [MAGICK] + tail;
    assert s[|garbage|] == MAGICK;
    assert s[|garbage| + 1..] == tail;
    assert FirstMagic(s) == Some(|garbage|) by {
      assert forall j :: 0 <= j < |garbage| ==> s[j] == garbage[j];
    }
  }

  /** An empty buffer is "need more data" and stays empty. */
  lemma DecodeEmpty(decodeBody: seq<byte> -> Result<Response, Prost.DecodeError>,
                    eof: Prost.DecodeError)
    ensures Decoded([], decodeBody, eof) == (Ok(None), [])
  {
  }

  /** A complete frame after any garbage decodes to the decoder's verdict on its body and leaves what followed it. */
  lemma DecodeCompleteFrame(garbage: seq<byte>, body: seq<byte>, rest: seq<byte>,
                            decodeBody: seq<byte> -> Result<Response, Prost.DecodeError>,
                            eof: Prost.DecodeError)
    requires MAGICK !in garbage
    ensures var r := Decoded(garbage + [MAGICK] + Prost.EncodeLengthDelimited(body) + rest, decodeBody, eof);
            match decodeBody(body)
            case Ok(m) => r == (Ok(Some(m)), rest)
            case Err(e) =>
              r == (if e == Prost.DecodeError(Prost.UNEXPECTED_EOF) then Ok(None) else Err(DecoderError(e)),
                    Prost.EncodeLengthDelimited(body) + rest)
  {
    var tail := Prost.EncodeLengthDelimited(body) + rest;
    assert garbage + [MAGICK] + Prost.EncodeLengthDelimited(body) + rest == garbage + [MAGICK] + tail;
    DecodeSkipsGarbage(garbage, tail, decodeBody, eof);
    Prost.LengthDelimitedRoundTrip(body, rest, decodeBody, eof);
  }

  /**
   * A frame cut short anywhere after its magic byte is "need more data" when
   * the library reports the truncation as "unexpected EOF", and a decode error
   * carrying the library's error otherwise; either way the magic byte is gone
   * from the buffer and the rest is left.
   */
  lemma DecodeTruncatedFrame(garbage: seq<byte>, body: seq<byte>, k: nat,
                             decodeBody: seq<byte> -> Result<Response, Prost.DecodeError>,
                             eof: Prost.DecodeError)
    requires MAGICK !in garbage
    requires k < |Prost.EncodeLengthDelimited(body)|
    ensures Decoded(garbage + [MAGICK] + Prost.EncodeLengthDelimited(body)[..k], decodeBody, eof)
            == (if eof == Prost.DecodeError(Prost.UNEXPECTED_EOF) then Ok(None) else Err(DecoderError(eof)),
                Prost.EncodeLengthDelimited(body)[..k])
  {
    DecodeSkipsGarbage(garbage, Prost.EncodeLengthDelimited(body)[..k], decodeBody, eof);
    Prost.LengthDelimitedTruncated(body, k, decodeBody, eof);
  }

  /**
   * Since the magic byte of a truncated frame is consumed by the call that
   * saw it truncated, the call made once the rest of the frame has
   * arrived looks for a new magic byte: when the frame holds no other, the
   * whole frame is discarded.
   */
  lemma TruncatedFrameIsNotResumed(body: seq<byte>, k: nat,
                                   decodeBody: seq<byte> -> Result<Response, Prost.DecodeError>,
                                   eof: Prost.DecodeError)
    requires k < |Prost.EncodeLengthDelimited(body)|
    requires MAGICK !in Prost.EncodeLengthDelimited(body)
    ensures var frame := Prost.EncodeLengthDelimited(body);
            var (first, left) := Decoded([MAGICK] + frame[..k], decodeBody, eof);
            && first == (if eof == Prost.DecodeError(Prost.UNEXPECTED_EOF) then Ok(None) else Err(DecoderError(eof)))
            && Decoded(left + frame[k..], decodeBody, eof) == (Ok(None), [])
  {
    var frame := Prost.EncodeLengthDelimited(body);
    DecodeTruncatedFrame([], body, k, decodeBody, eof);
    assert [] + [MAGICK] + frame[..k] == [MAGICK] + frame[..k];
    assert frame[..k] + frame[k..] == frame;
  }

  /**
   * Encoding a request and decoding the resulting frame gives back the body's
   * message, and leaves the second copy of the body that `encode` wrote in
   * the buffer.
   */
  lemma EncodedFrameDecodes(before: seq<byte>, body: seq<byte>,
                            decodeBody: seq<byte> -> Result<Response, Prost.DecodeError>,
                            eof: Prost.DecodeError)
    requires MAGICK !in before
    requires decodeBody(body).Ok?
    ensures Decoded(before + EncodedFrame(body), decodeBody, eof) == (Ok(Some(decodeBody(body).value)), body)
  {
    assert before + EncodedFrame(body) == before + [MAGICK] + Prost.EncodeLengthDelimited(body) + body;
    DecodeCompleteFrame(before, body, body, decodeBody, eof);
  }
}
