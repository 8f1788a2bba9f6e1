/**
 * The parts of the Protocol Buffers wire format the frame codec relies on:
 * the base-128 varint that prefixes a length-delimited message (wire type 2),
 * and the split of a buffer into that prefix, the message bytes and the rest.
 * How a message body is serialised is not part of this model: callers pass the
 * body encoder and decoder in as functions.
 */
module Prost {
  import opened Wrappers
  import opened Ints

  datatype EncodeError = EncodeError(required: nat, remaining: nat)

  datatype DecodeError = DecodeError(description: string)

  /** The description of the error the frame codec takes to mean "the buffer
      ends before the message does". */
  const UNEXPECTED_EOF: string := "unexpected EOF"

  /** Base-128 varint: low seven bits first, high bit set on every byte but the last. */
  function EncodeVarint(n: nat): (r: seq<byte>)
    ensures 1 <= |r|
    ensures r[|r| - 1] < 0x80
    ensures forall i :: 0 <= i < |r| - 1 ==> 0x80 <= r[i]
    decreases n
  {
    if n < 0x80 then [n] else [n % 0x80 + 0x80] + EncodeVarint(n / 0x80)
  }

  /** Reads a varint from the front of `s`: its value and how many bytes it
      took, or `None` when `s` ends before the varint's last byte. */
  function DecodeVarint(s: seq<byte>): (r: Option<(nat, nat)>)
    ensures r.Some? ==> 1 <= r.value.1 <= |s|
    ensures r.None? <==> forall i :: 0 <= i < |s| ==> 0x80 <= s[i]
  {
    if |s| == 0 then None
    else if s[0] < 0x80 then Some((s[0], 1))
    else
      match DecodeVarint(s[1..])
      case None => None
      case Some((v, k)) => Some((s[0] - 0x80 + 0x80 * v, k + 1))
  }

  /** Decoding the varint of `n`, whatever follows it, gives back `n` and consumes exactly its bytes. */
  lemma {:induction false} VarintRoundTrip(n: nat, rest: seq<byte>)
    ensures DecodeVarint(EncodeVarint(n) + rest) == Some((n, |EncodeVarint(n)|))
    decreases n
  {
    if n >= 0x80 {
      var tail := EncodeVarint(n / 0x80);
      assert EncodeVarint(n) + rest == [n % 0x80 + 0x80] + (tail + rest);
      assert (EncodeVarint(n) + rest)[1..] == tail + rest;
      VarintRoundTrip(n / 0x80, rest);
    }
  }

  /** A strict prefix of a varint is incomplete. */
  lemma VarintPrefixIncomplete(n: nat, k: nat)
    requires k < |EncodeVarint(n)|
    ensures DecodeVarint(EncodeVarint(n)[..k]) == None
  {
    var e := EncodeVarint(n);
    assert forall i :: 0 <= i < k ==> e[..k][i] == e[i];
  }

  /** The length-delimited encoding of a message body: its length as a varint, then the body. */
  function EncodeLengthDelimited(body: seq<byte>): (r: seq<byte>)
    ensures |r| == |EncodeVarint(|body|)| + |body|
    ensures r[|EncodeVarint(|body|)|..] == body
  {
    EncodeVarint(|body|) + body
  }

  /**
   * Parses one length-delimited message from the front of `s`. On success the
   * result is the decoded message and what follows it; when `s` ends before
   * the message does, the error is `eof`, the error the library reports for a
   * truncated buffer; a body the decoder rejects gives the decoder's error. A
   * failed parse leaves `s` as it was.
   */
  function DecodeLengthDelimited<M>(s: seq<byte>, decodeBody: seq<byte> -> Result<M, DecodeError>, eof: DecodeError)
    : (r: (Result<M, DecodeError>, seq<byte>))
    ensures r.0.Err? ==> r.1 == s
    ensures r.0.Ok? ==> |r.1| < |s| && r.1 == s[|s| - |r.1|..]
  {
    match DecodeVarint(s)
    case None => (Err(eof), s)
    case Some((len, k)) =>
      if |s| - k < len then (Err(eof), s)
      else
        match decodeBody(s[k..k + len])
        case Ok(m) => (Ok(m), s[k + len..])
        case Err(e) => (Err(e), s)
  }

  /** A complete length-delimited message followed by anything parses to the
      decoder's verdict on exactly that body, and a success leaves exactly what followed. */
  lemma LengthDelimitedRoundTrip<M>(body: seq<byte>, rest: seq<byte>, decodeBody: seq<byte> -> Result<M, DecodeError>,
                                    eof: DecodeError)
    ensures var r := DecodeLengthDelimited(EncodeLengthDelimited(body) + rest, decodeBody, eof);
            match decodeBody(body)
            case Ok(m) => r == (Ok(m), rest)
            case Err(e) => r == (Err(e), EncodeLengthDelimited(body) + rest)
  {
    var v := EncodeVarint(|body|);
    var s := EncodeLengthDelimited(body) + rest;
    assert s == v + (body + rest);
    VarintRoundTrip(|body|, body + rest);
    assert s[|v|..|v| + |body|] == body;
    assert s[|v| + |body|..] == rest;
  }

  /** Every strict prefix of a length-delimited message parses to the truncation error and is left whole. */
  lemma LengthDelimitedTruncated<M>(body: seq<byte>, k: nat, decodeBody: seq<byte> -> Result<M, DecodeError>,
                                    eof: DecodeError)
    requires k < |EncodeLengthDelimited(body)|
    ensures DecodeLengthDelimited(EncodeLengthDelimited(body)[..k], decodeBody, eof)
            == (Err(eof), EncodeLengthDelimited(body)[..k])
  {
    var v := EncodeVarint(|body|);
    var s := EncodeLengthDelimited(body)[..k];
    if k < |v| {
      assert s == v[..k];
      VarintPrefixIncomplete(|body|, k);
    } else {
      assert s == v + body[..k - |v|];
      VarintRoundTrip(|body|, body[..k - |v|]);
    }
  }
}
