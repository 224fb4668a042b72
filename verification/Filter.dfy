/**
 The account filters: `verify` limits the size of a memcmp pattern, `bytes`
 decodes it, `convert_to_raw_bytes` changes its representation in place and
 `bytes_match` compares it at an offset. The functions on values come first,
 then the class whose field the conversion overwrites.
 */
module Filter {
  import opened Wrappers
  import opened Radix
  import B58 = Base58
  import B64 = Base64

  const MAX_DATA_SIZE := 128
  const MAX_DATA_BASE58_SIZE := 175
  const MAX_DATA_BASE64_SIZE := 172

  datatype MemcmpEncodedBytes =
    | Base58(text: seq<byte>)
    | Base64(text: seq<byte>)
    | Bytes(bytes: seq<byte>)

  datatype RpcFilterError =
    | DataTooLarge
    | Base58DecodeError(base58: B58.DecodeError)
    | Base64DecodeError(base64: B64.DecodeError)

  // ---------------------------------------------------- functions on values

  function DecodeBase58(s: seq<byte>): Result<seq<byte>, RpcFilterError> {
    match B58.Decode(s)
    case Ok(bs) => Ok(bs)
    case Err(e) => Err(Base58DecodeError(e))
  }

  function DecodeBase64(s: seq<byte>): Result<seq<byte>, RpcFilterError> {
    match B64.Decode(s)
    case Ok(bs) => Ok(bs)
    case Err(e) => Err(Base64DecodeError(e))
  }

  function Decoded(e: MemcmpEncodedBytes): Result<seq<byte>, RpcFilterError> {
    match e
    case Base58(s) => DecodeBase58(s)
    case Base64(s) => DecodeBase64(s)
    case Bytes(bs) => Ok(bs)
  }

  function CheckSize(decoded: Result<seq<byte>, RpcFilterError>): Result<(), RpcFilterError> {
    match decoded
    case Err(e) => Err(e)
    case Ok(bs) => if |bs| > MAX_DATA_SIZE then Err(DataTooLarge) else Ok(())
  }

  function VerifyBytes(e: MemcmpEncodedBytes): Result<(), RpcFilterError> {
    match e
    case Base58(s) =>
      if |s| > MAX_DATA_BASE58_SIZE then Err(DataTooLarge) else CheckSize(DecodeBase58(s))
    case Base64(s) =>
      if |s| > MAX_DATA_BASE64_SIZE then Err(DataTooLarge) else CheckSize(DecodeBase64(s))
    case Bytes(bs) =>
      if |bs| > MAX_DATA_SIZE then Err(DataTooLarge) else Ok(())
  }

  function ToRaw(e: MemcmpEncodedBytes): Result<MemcmpEncodedBytes, RpcFilterError> {
    match e
    case Bytes(_) => Ok(e)
    case _ =>
      match Decoded(e)
      case Ok(bs) => Ok(Bytes(bs))
      case Err(error) => Err(error)
  }

  function BytesOf(e: MemcmpEncodedBytes): Option<seq<byte>> {
    match Decoded(e)
    case Ok(bs) => Some(bs)
    case Err(_) => None
  }

  predicate MatchAt(offset: nat, bs: seq<byte>, data: seq<byte>) {
    if offset > |data| then false
    else if |data[offset..]| < |bs| then false
    else data[offset..offset + |bs|] == bs
  }

  predicate Matches(offset: nat, e: MemcmpEncodedBytes, data: seq<byte>) {
    match BytesOf(e)
    case Some(bs) => MatchAt(offset, bs, data)
    case None => false
  }

  // ------------------------------------------------ what verify really tests

  // The length test on a string never decides anything for a string that
  // decodes: a filter is accepted exactly when it decodes to at most 128 bytes.
  lemma VerifyIsDecodedSize(e: MemcmpEncodedBytes)
    ensures VerifyBytes(e).Ok? <==> Decoded(e).Ok? && |Decoded(e).value| <= MAX_DATA_SIZE
  {
    match e
    case Base58(s) => VerifyBase58(s);
    case Base64(s) => VerifyBase64(s);
    case Bytes(_) =>
  }

  lemma VerifyBase58(s: seq<byte>)
    ensures VerifyBytes(Base58(s)).Ok? <==> B58.Decode(s).Ok? && |B58.Decode(s).value| <= MAX_DATA_SIZE
  {
    if |s| > MAX_DATA_BASE58_SIZE && B58.Decode(s).Ok? {
      B58.DecodedSize(s);
    }
  }

  // 172 octets of base64 hold up to 129 bytes, and one group more at least 130.
  lemma MoreThan43Groups(n: nat)
    requires (n + 2) / 3 * 4 > MAX_DATA_BASE64_SIZE
    ensures n >= 130
  {
  }

  // Base64 strings over the limit decode to at least 130 bytes.
  lemma LongBase64(s: seq<byte>)
    requires B64.Decode(s).Ok? && |s| > MAX_DATA_BASE64_SIZE
    ensures |B64.Decode(s).value| >= 130
  {
    B64.DecodedLength(s);
    MoreThan43Groups(|B64.Decode(s).value|);
  }

  lemma VerifyBase64(s: seq<byte>)
    ensures VerifyBytes(Base64(s)).Ok? <==> B64.Decode(s).Ok? && |B64.Decode(s).value| <= MAX_DATA_SIZE
  {
    if |s| > MAX_DATA_BASE64_SIZE && B64.Decode(s).Ok? {
      LongBase64(s);
    }
  }

  function TextLimit(e: MemcmpEncodedBytes): nat
    requires !e.Bytes?
  {
    if e.Base58? then MAX_DATA_BASE58_SIZE else MAX_DATA_BASE64_SIZE
  }

  // The one thing the length test changes is the error of a long string that does not decode.
  lemma LengthTestChangesOnlyErrors(e: MemcmpEncodedBytes)
    ensures VerifyBytes(e) != CheckSize(Decoded(e))
            <==> !e.Bytes? && Decoded(e).Err? && |e.text| > TextLimit(e)
  {
    VerifyIsDecodedSize(e);
  }

  // Encoding at most 128 bytes stays within both limits, and only then is the result accepted.
  lemma EncodersPassVerify(bs: seq<byte>)
    ensures VerifyBytes(Base58(B58.Encode(bs))).Ok? <==> |bs| <= MAX_DATA_SIZE
    ensures VerifyBytes(Base64(B64.Encode(bs))).Ok? <==> |bs| <= MAX_DATA_SIZE
    ensures |bs| <= MAX_DATA_SIZE ==> |B58.Encode(bs)| <= MAX_DATA_BASE58_SIZE
    ensures |bs| <= MAX_DATA_SIZE ==> |B64.Encode(bs)| <= MAX_DATA_BASE64_SIZE
  {
    B58.DecodeEncode(bs);
    VerifyIsDecodedSize(Base58(B58.Encode(bs)));
    B64.DecodeEncode(bs);
    VerifyIsDecodedSize(Base64(B64.Encode(bs)));
    B64.EncodedLength(bs);
    if |bs| <= MAX_DATA_SIZE {
      B58.EncodedSize(bs);
    }
  }

  // Neither limit can be lowered: 128 bytes of 0xff reach both.
  lemma LimitsAreReached(bs: seq<byte>)
    requires |bs| == MAX_DATA_SIZE && forall i :: 0 <= i < |bs| ==> bs[i] == 255
    ensures |B58.Encode(bs)| == MAX_DATA_BASE58_SIZE
    ensures |B64.Encode(bs)| == MAX_DATA_BASE64_SIZE
  {
    B58.LongestEncoding(bs);
    B64.EncodedLength(bs);
  }

  lemma Exactly43Groups(n: nat)
    requires 127 <= n <= 129
    ensures (n + 2) / 3 * 4 == MAX_DATA_BASE64_SIZE
  {
  }

  lemma FullBase64(bs: seq<byte>)
    requires 127 <= |bs| <= 129
    ensures |B64.Encode(bs)| == MAX_DATA_BASE64_SIZE
  {
    B64.EncodedLength(bs);
    Exactly43Groups(|bs|);
  }

  lemma TooLargeInBase64(bs: seq<byte>)
    requires |bs| == MAX_DATA_SIZE + 1
    ensures |B64.Encode(bs)| == MAX_DATA_BASE64_SIZE
    ensures VerifyBytes(Base64(B64.Encode(bs))) == Err(DataTooLarge)
  {
    FullBase64(bs);
    B64.DecodeEncode(bs);
  }

  // The second test is still needed: strings within the limits can decode to 129 bytes.
  lemma DecodedTestIsNeeded(ones: seq<byte>, bs: seq<byte>)
    requires |ones| == 129 && forall i :: 0 <= i < |ones| ==> ones[i] == 49
    requires |bs| == 129
    ensures |ones| <= MAX_DATA_BASE58_SIZE && VerifyBytes(Base58(ones)) == Err(DataTooLarge)
    ensures |B64.Encode(bs)| == MAX_DATA_BASE64_SIZE && VerifyBytes(Base64(B64.Encode(bs))) == Err(DataTooLarge)
  {
    B58.OnesDecode(ones);
    TooLargeInBase64(bs);
  }

  // ------------------------------------------------- converting to raw bytes

  // Conversion commutes with verification (same verdict, same error) although
  // the raw form has no string to measure, and it changes no comparison; doing
  // it again changes nothing. It is possible exactly when the bytes are known.
  lemma ConversionKeepsMeaning(e: MemcmpEncodedBytes, offset: nat, data: seq<byte>)
    ensures ToRaw(e).Ok? <==> BytesOf(e).Some?
    ensures ToRaw(e).Ok? ==>
              var raw := ToRaw(e).value;
              && VerifyBytes(raw) == VerifyBytes(e)
              && Matches(offset, raw, data) == Matches(offset, e, data)
              && ToRaw(raw) == Ok(raw)
  {
    VerifyIsDecodedSize(e);
    LengthTestChangesOnlyErrors(e);
  }

  // When it fails, the error is the one verify reports exactly for strings within the limit.
  lemma ConversionErrorVersusVerify(e: MemcmpEncodedBytes)
    requires ToRaw(e).Err?
    ensures !e.Bytes? && VerifyBytes(e).Err?
    ensures VerifyBytes(e).error == ToRaw(e).error <==> |e.text| <= TextLimit(e)
  {
    LengthTestChangesOnlyErrors(e);
  }

  // bytes_match is a statement about the data alone: prefix, pattern, suffix.
  // Whenever the slice to compare is formed its end is within the data, so the
  // sum of offset and length is a valid usize whether or not the slices agree.
  lemma MatchMeaning(offset: nat, bs: seq<byte>, data: seq<byte>)
    ensures MatchAt(offset, bs, data) <==> exists p, s :: data == p + bs + s && |p| == offset
    ensures offset <= |data| && |data[offset..]| >= |bs| ==> offset + |bs| <= |data|
    ensures MatchAt(offset, bs, data) ==> offset <= |data| && |data[offset..]| >= |bs|
  {
    if MatchAt(offset, bs, data) {
      assert data == data[..offset] + bs + data[offset + |bs|..];
    }
    if exists p, s :: data == p + bs + s && |p| == offset {
      var p, s :| data == p + bs + s && |p| == offset;
      assert data[offset..offset + |bs|] == bs;
    }
  }

  lemma MatchesMeaning(offset: nat, e: MemcmpEncodedBytes, data: seq<byte>)
    ensures Matches(offset, e, data)
            <==> Decoded(e).Ok? && exists p, s :: data == p + Decoded(e).value + s && |p| == offset
  {
    if Decoded(e).Ok? {
      MatchMeaning(offset, Decoded(e).value, data);
    }
  }

  // ------------------------------------------------------------ JSON reading

  datatype Encoding = EncBase58 | EncBase64 | EncBytes

  datatype DataType = Encoded(text: seq<byte>) | Raw(bytes: seq<byte>)

  datatype RpcMemcmpInner = RpcMemcmpInner(bytes: DataType, encoding: Option<Encoding>)

  // The derived Serialize: tag "encoding", content "bytes".
  function Serialize(e: MemcmpEncodedBytes): RpcMemcmpInner {
    match e
    case Base58(s) => RpcMemcmpInner(Encoded(s), Some(EncBase58))
    case Base64(s) => RpcMemcmpInner(Encoded(s), Some(EncBase64))
    case Bytes(bs) => RpcMemcmpInner(Raw(bs), Some(EncBytes))
  }

  // The hand-written Deserialize.
  function Deserialize(data: RpcMemcmpInner): MemcmpEncodedBytes {
    match data.bytes
    case Encoded(s) =>
      (match if data.encoding.Some? then data.encoding.value else EncBase58
       case EncBase64 => Base64(s)
       case _ => Base58(s))
    case Raw(bs) => Bytes(bs)
  }

  // Text is base64 exactly if it is tagged so and base58 otherwise, also untagged
  // or tagged as bytes; raw data is raw whatever the tag.
  lemma ReadsExactly(data: RpcMemcmpInner, s: seq<byte>)
    ensures Deserialize(data) == Base64(s) <==> data == RpcMemcmpInner(Encoded(s), Some(EncBase64))
    ensures Deserialize(data) == Base58(s) <==> data.bytes == Encoded(s) && data.encoding != Some(EncBase64)
    ensures Deserialize(data) == Bytes(s) <==> data.bytes == Raw(s)
  {
  }

  // Reading undoes writing, and writing undoes reading exactly when the
  // encoding names the form the data has.
  lemma SerializeRoundTrip(e: MemcmpEncodedBytes, data: RpcMemcmpInner)
    ensures Deserialize(Serialize(e)) == e
    ensures Serialize(Deserialize(data)) == data
            <==> data.encoding.Some? && (data.bytes.Raw? <==> data.encoding.value == EncBytes)
  {
  }

  // --------------------------------------------------------------- the class

  class Memcmp {
    const offset: nat
    var bytes: MemcmpEncodedBytes

    constructor (offset: nat, encodedBytes: MemcmpEncodedBytes)
      ensures this.offset == offset && bytes == encodedBytes
    {
      this.offset := offset;
      bytes := encodedBytes;
    }

    constructor NewRawBytes(offset: nat, bs: seq<byte>)
      ensures this.offset == offset && bytes == Bytes(bs)
      ensures GetBytes() == Some(bs)
    {
      this.offset := offset;
      bytes := Bytes(bs);
    }

    constructor NewBase58Encoded(offset: nat, bs: seq<byte>)
      ensures this.offset == offset && bytes == Base58(B58.Encode(bs))
      ensures GetBytes() == Some(bs)
      ensures VerifyBytes(bytes).Ok? <==> |bs| <= MAX_DATA_SIZE
    {
      var text := B58.EncodeLoop(bs);
      this.offset := offset;
      bytes := Base58(text);
      B58.DecodeEncode(bs);
      EncodersPassVerify(bs);
    }

    function GetBytes(): Option<seq<byte>>
      reads this
    {
      BytesOf(bytes)
    }

    // On success the decoded bytes replace the string and nothing that the
    // filter means has changed; on failure the filter is untouched.
    method ConvertToRawBytes() returns (r: Result<(), RpcFilterError>)
      modifies this
      ensures r.Ok? <==> old(GetBytes()).Some?
      ensures r.Ok? ==> bytes == Bytes(old(GetBytes()).value)
      ensures r.Ok? ==> GetBytes() == old(GetBytes()) && VerifyBytes(bytes) == old(VerifyBytes(bytes))
      ensures r.Ok? ==> forall data :: BytesMatch(data) == old(BytesMatch(data))
      ensures r.Err? ==> bytes == old(bytes) && Decoded(bytes) == Err(r.error)
    {
      ghost var before := bytes;
      match bytes {
        case Base58(text) =>
          var decoded := B58.DecodeLoop(text);
          match decoded {
            case Err(e) => return Err(Base58DecodeError(e));
            case Ok(bs) => bytes := Bytes(bs);
          }
        case Base64(text) =>
          var decoded := B64.DecodeLoop(text);
          match decoded {
            case Err(e) => return Err(Base64DecodeError(e));
            case Ok(bs) => bytes := Bytes(bs);
          }
        case Bytes(_) =>
      }
      assert ToRaw(before) == Ok(bytes);
      ConversionKeepsMeaning(before, offset, []);
      r := Ok(());
    }

    predicate BytesMatch(data: seq<byte>)
      reads this
    {
      Matches(offset, bytes, data)
    }

    function RawBytesAsRef(): (r: Option<seq<byte>>)
      reads this
      ensures r.Some? ==> r == GetBytes()
      ensures r.None? <==> !bytes.Bytes?
    {
      if bytes.Bytes? then Some(bytes.bytes) else None
    }
  }

  datatype RpcFilterType =
    | DataSize(size: nat)
    | MemcmpFilter(compare: Memcmp)
    | TokenAccountState

  function Footprint(f: RpcFilterType): set<object> {
    if f.MemcmpFilter? then {f.compare} else {}
  }

  function Verify(f: RpcFilterType): Result<(), RpcFilterError>
    reads Footprint(f)
  {
    match f
    case DataSize(_) => Ok(())
    case MemcmpFilter(compare) => VerifyBytes(compare.bytes)
    case TokenAccountState => Ok(())
  }

  // Exactly which filters are accepted: every filter that is no memcmp filter, and
  // a memcmp filter exactly if its pattern decodes to at most 128 bytes. A refused
  // one is too large, as a string or in bytes, or does not decode.
  lemma VerifyExactly(f: RpcFilterType)
    ensures Verify(f).Ok?
            <==> (f.MemcmpFilter? ==> Decoded(f.compare.bytes).Ok? && |Decoded(f.compare.bytes).value| <= 128)
    ensures Verify(f) == Err(DataTooLarge)
            <==> && f.MemcmpFilter?
                 && var e := f.compare.bytes;
                    if Decoded(e).Ok? then |Decoded(e).value| > 128
                    else |e.text| > (if e.Base58? then 175 else 172)
    ensures Verify(f).Err? && Verify(f) != Err(DataTooLarge) ==>
              Decoded(f.compare.bytes) == Err(Verify(f).error)
  {
    if f.MemcmpFilter? {
      VerifyIsDecodedSize(f.compare.bytes);
      LengthTestChangesOnlyErrors(f.compare.bytes);
    }
  }

  // What a pattern stands for, by the decoders: the error of a string keeps the
  // decoder's own.
  lemma DecodedExactly(s: seq<byte>)
    ensures match B58.Decode(s)
            case Ok(bs) => Decoded(Base58(s)) == Ok(bs)
            case Err(e) => Decoded(Base58(s)) == Err(Base58DecodeError(e))
    ensures match B64.Decode(s)
            case Ok(bs) => Decoded(Base64(s)) == Ok(bs)
            case Err(e) => Decoded(Base64(s)) == Err(Base64DecodeError(e))
    ensures Decoded(Bytes(s)) == Ok(s)
  {
  }

  // `validAccountData` stands for the SPL token test, which is not part of this model.
  predicate Allows(f: RpcFilterType, data: seq<byte>, validAccountData: seq<byte> -> bool)
    reads Footprint(f)
  {
    match f
    case DataSize(size) => |data| == size
    case MemcmpFilter(compare) => compare.BytesMatch(data)
    case TokenAccountState => validAccountData(data)
  }

  // Exactly which accounts a filter admits: those of the given size, those whose
  // data holds the decoded pattern at the offset, or those the token test admits.
  lemma AllowsExactly(f: RpcFilterType, data: seq<byte>, valid: seq<byte> -> bool)
    ensures Allows(f, data, valid)
            <==> match f
                 case DataSize(size) => |data| == size
                 case TokenAccountState => valid(data)
                 case MemcmpFilter(compare) =>
                   && Decoded(compare.bytes).Ok?
                   && exists p, s :: data == p + Decoded(compare.bytes).value + s && |p| == compare.offset
  {
    if f.MemcmpFilter? {
      MatchesMeaning(f.compare.offset, f.compare.bytes, data);
    }
  }

  // A verified memcmp filter admits an account exactly when the account's data
  // holds, at the offset, a pattern of at most 128 bytes.
  lemma AllowedByVerifiedFilter(f: RpcFilterType, data: seq<byte>, valid: seq<byte> -> bool)
    requires f.MemcmpFilter? && Verify(f).Ok?
    ensures f.compare.GetBytes().Some? && |f.compare.GetBytes().value| <= MAX_DATA_SIZE
    ensures Allows(f, data, valid)
            <==> exists p, s :: data == p + f.compare.GetBytes().value + s && |p| == f.compare.offset
  {
    VerifyIsDecodedSize(f.compare.bytes);
    MatchesMeaning(f.compare.offset, f.compare.bytes, data);
  }
}
