/** The envelope encoding: what `bincode::serialize` / `bincode::deserialize`
    (bincode 1.x with its top-level defaults: fixed-width little-endian
    integers, trailing bytes allowed) do with the serde-derived layout of
    `TransactionRequest`.  A request is laid out as
      u64 length of tx_hex in bytes | UTF-8 bytes of tx_hex | u32 variant index of network
    with the fields in declaration order and the variants numbered in
    declaration order. */
module Bincode {
  import opened Wrappers
  import opened Wire
  import Utf8

  type byte = Utf8.byte

  /** Why deserialization rejected its input: the input ended early, the
      text field was not UTF-8, or the network discriminant named no variant. */
  datatype DecodeError = UnexpectedEof | InvalidUtf8Encoding | InvalidVariantIndex(index: nat)

  const LengthWidth: nat := 8
  const VariantWidth: nat := 4

  function Pow256(k: nat): (p: nat)
    ensures p > 0
  {
    if k == 0 then 1 else 256 * Pow256(k - 1)
  }

  /** n as k little-endian bytes. */
  function LeBytes(n: nat, k: nat): (bs: seq<byte>)
    requires n < Pow256(k)
    ensures |bs| == k
  {
    if k == 0 then [] else [n % 256] + LeBytes(n / 256, k - 1)
  }

  /** The unsigned number that little-endian bytes stand for. */
  function LeValue(bs: seq<byte>): (n: nat)
    ensures n < Pow256(|bs|)
  {
    if bs == [] then 0 else bs[0] + 256 * LeValue(bs[1..])
  }

  lemma {:induction false} LeValueOfBytes(n: nat, k: nat)
    requires n < Pow256(k)
    ensures LeValue(LeBytes(n, k)) == n
  {
    if k > 0 {
      var bs := LeBytes(n, k);
      assert bs[1..] == LeBytes(n / 256, k - 1);
      LeValueOfBytes(n / 256, k - 1);
    }
  }

  lemma {:induction false} LeBytesOfValue(bs: seq<byte>)
    ensures LeBytes(LeValue(bs), |bs|) == bs
  {
    if bs != [] {
      var n := LeValue(bs);
      assert n / 256 == LeValue(bs[1..]) && n % 256 == bs[0];
      LeBytesOfValue(bs[1..]);
    }
  }

  /** The discriminant serde gives each variant: its position in the
      declaration of `Network`. */
  function VariantIndex(network: Network): (i: nat)
    ensures i < 2
    ensures i == 0 <==> network == Mainnet
  {
    match network
    case Mainnet => 0
    case Testnet => 1
  }

  /** The variant a discriminant names, if any. */
  function NetworkOfIndex(i: nat): (r: Option<Network>)
    ensures r.Some? <==> i < 2
    ensures r.Some? ==> VariantIndex(r.value) == i
  {
    if i == 0 then Some(Mainnet) else if i == 1 then Some(Testnet) else None
  }

  /** A request whose text fits a u64 length prefix; every Rust `String` does. */
  predicate Encodable(req: TransactionRequest) {
    |Utf8.Encode(req.txHex)| < Pow256(LengthWidth)
  }

  /** serialize: the byte length of the text, the text, the network's
      discriminant. */
  function Encode(req: TransactionRequest): (bs: seq<byte>)
    requires Encodable(req)
    ensures |bs| == LengthWidth + |Utf8.Encode(req.txHex)| + VariantWidth
    ensures LeValue(bs[..LengthWidth]) == |Utf8.Encode(req.txHex)|
    ensures bs[LengthWidth..|bs| - VariantWidth] == Utf8.Encode(req.txHex)
    ensures LeValue(bs[|bs| - VariantWidth..]) == VariantIndex(req.network)
  {
    var text := Utf8.Encode(req.txHex);
    var header := LeBytes(|text|, LengthWidth);
    var tag := LeBytes(VariantIndex(req.network), VariantWidth);
    LeValueOfBytes(|text|, LengthWidth);
    LeValueOfBytes(VariantIndex(req.network), VariantWidth);
    var bs := header + text + tag;
    assert bs[..LengthWidth] == header && bs[LengthWidth..|bs| - VariantWidth] == text;
    assert bs[|bs| - VariantWidth..] == tag;
    bs
  }

  /** Reads one request from the front of bs; bytes after it are ignored.
      Anything shorter than the encoding of an empty request is rejected. */
  function Decode(bs: seq<byte>): (r: Result<TransactionRequest, DecodeError>)
    ensures |bs| < LengthWidth + VariantWidth ==> r.Err?
  {
    if |bs| < LengthWidth then Err(UnexpectedEof)
    else
      var len := LeValue(bs[..LengthWidth]);
      if |bs| - LengthWidth < len then Err(UnexpectedEof)
      else
        match Utf8.Decode(bs[LengthWidth..LengthWidth + len])
        case None => Err(InvalidUtf8Encoding)
        case Some(txHex) =>
          var rest := bs[LengthWidth + len..];
          if |rest| < VariantWidth then Err(UnexpectedEof)
          else
            var index := LeValue(rest[..VariantWidth]);
            match NetworkOfIndex(index)
            case None => Err(InvalidVariantIndex(index))
            case Some(network) => Ok(TransactionRequest(txHex, network))
  }

  /** Decode accepts bs when its three fields are well formed. */
  lemma DecodeOfFields(bs: seq<byte>, len: nat, txHex: string, network: Network)
    requires LengthWidth + len + VariantWidth <= |bs|
    requires LeValue(bs[..LengthWidth]) == len
    requires Utf8.Decode(bs[LengthWidth..LengthWidth + len]) == Some(txHex)
    requires NetworkOfIndex(LeValue(bs[LengthWidth + len..][..VariantWidth])) == Some(network)
    ensures Decode(bs) == Ok(TransactionRequest(txHex, network))
  {
  }

  lemma FieldSlices(header: seq<byte>, text: seq<byte>, tag: seq<byte>, trailing: seq<byte>)
    ensures (header + text + tag + trailing)[..|header|] == header
    ensures (header + text + tag + trailing)[|header|..|header| + |text|] == text
    ensures (header + text + tag + trailing)[|header| + |text|..][..|tag|] == tag
  {
    var bs := header + text + tag + trailing;
    assert bs[|header| + |text|..] == tag + trailing;
  }

  /** Round trip: decoding the encoding of a request, followed by anything
      at all, gives the request back. */
  lemma {:induction false} DecodeEncode(req: TransactionRequest, trailing: seq<byte>)
    requires Encodable(req)
    ensures Decode(Encode(req) + trailing) == Ok(req)
  {
    var text := Utf8.Encode(req.txHex);
    var header := LeBytes(|text|, LengthWidth);
    var tag := LeBytes(VariantIndex(req.network), VariantWidth);
    var bs := header + text + tag + trailing;
    assert Encode(req) + trailing == bs;
    FieldSlices(header, text, tag, trailing);
    LeValueOfBytes(|text|, LengthWidth);
    Utf8.DecodeEncode(req.txHex);
    LeValueOfBytes(VariantIndex(req.network), VariantWidth);
    DecodeOfFields(bs, |text|, req.txHex, req.network);
  }

  /** Three consecutive slices at the front of bs, glued back, form a prefix of bs. */
  lemma FieldsPrefix(bs: seq<byte>, len: nat)
    requires LengthWidth + len + VariantWidth <= |bs|
    ensures bs[..LengthWidth] + bs[LengthWidth..LengthWidth + len] + bs[LengthWidth + len..][..VariantWidth] <= bs
  {
    assert bs[..LengthWidth] + bs[LengthWidth..LengthWidth + len] + bs[LengthWidth + len..][..VariantWidth]
        == bs[..LengthWidth + len + VariantWidth];
  }

  /** The three fields Decode read when it accepted bs; they lie, in order,
      at the front of bs. */
  lemma DecodedFields(bs: seq<byte>) returns (header: seq<byte>, body: seq<byte>, tag: seq<byte>)
    requires Decode(bs).Ok?
    ensures |header| == LengthWidth && |tag| == VariantWidth && LeValue(header) == |body|
    ensures Utf8.Decode(body) == Some(Decode(bs).value.txHex)
    ensures NetworkOfIndex(LeValue(tag)) == Some(Decode(bs).value.network)
    ensures header + body + tag <= bs
  {
    var len := LeValue(bs[..LengthWidth]);
    header, body, tag := bs[..LengthWidth], bs[LengthWidth..LengthWidth + len], bs[LengthWidth + len..][..VariantWidth];
    FieldsPrefix(bs, len);
  }

  /** Three well-formed fields are the encoding of the request they hold. */
  lemma EncodeOfFields(header: seq<byte>, body: seq<byte>, tag: seq<byte>, req: TransactionRequest)
    requires |header| == LengthWidth && |tag| == VariantWidth
    requires LeValue(header) == |body|
    requires Utf8.Decode(body) == Some(req.txHex)
    requires NetworkOfIndex(LeValue(tag)) == Some(req.network)
    ensures Encodable(req) && Encode(req) == header + body + tag
  {
    Utf8.EncodeDecode(body);
    LeBytesOfValue(header);
    LeBytesOfValue(tag);
  }

  /** Nothing partial: whatever Decode accepts begins with the full encoding
      of the request it returns. */
  lemma DecodeSound(bs: seq<byte>)
    requires Decode(bs).Ok?
    ensures Encodable(Decode(bs).value)
    ensures Encode(Decode(bs).value) <= bs
  {
    var header, body, tag := DecodedFields(bs);
    EncodeOfFields(header, body, tag, Decode(bs).value);
  }

  /** Decode accepts a request exactly when the input begins with that
      request's encoding. */
  lemma DecodeExactly(bs: seq<byte>, req: TransactionRequest)
    ensures Decode(bs) == Ok(req) <==> Encodable(req) && Encode(req) <= bs
  {
    if Decode(bs) == Ok(req) {
      DecodeSound(bs);
    }
    if Encodable(req) && Encode(req) <= bs {
      var e := Encode(req);
      assert bs == e + bs[|e|..];
      DecodeEncode(req, bs[|e|..]);
    }
  }

  /** A truncated envelope is rejected: no proper prefix of an encoding
      decodes to anything. */
  lemma TruncatedRejected(req: TransactionRequest, k: nat)
    requires Encodable(req)
    requires k < |Encode(req)|
    ensures Decode(Encode(req)[..k]).Err?
  {
    var e := Encode(req);
    var cut := e[..k];
    if Decode(cut).Ok? {
      var other := Decode(cut).value;
      DecodeExactly(cut, other);
      assert Encode(other) <= e;
      DecodeExactly(e, other);
      DecodeExactly(e, req);
      assert false;
    }
  }
}
