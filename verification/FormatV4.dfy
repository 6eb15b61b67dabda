/**
 * The v4 container of the Rust crate. Its JSON header codec is a parameter: nothing is assumed
 * of it except, for the round trip, that it reads back the headers it prints.
 */
module FormatV4 {
  import opened BlockEngine
  import opened Bytes
  import opened Chaining
  import opened Kdf
  import opened Padding
  import opened Primitives
  import opened PublicHeader
  import opened Wrappers

  const MAX_HEADER_BYTES: nat := 4096

  datatype HeaderV4 = HeaderV4(version: byte, iterations: u32, salt: Bytes16, nonce: Bytes16, originalLength: u64)

  datatype HeaderCodec = HeaderCodec(
    toJson: HeaderV4 -> bytes,
    fromJson: bytes -> Result<HeaderV4, KrcmError>)

  /** The codec reads back every header that `encrypt_v4` can print, and prints at most 4096 bytes. */
  ghost predicate Faithful(codec: HeaderCodec)
  {
    forall h: HeaderV4 {:trigger codec.toJson(h)} ::
      h.version == 4 && 1 <= h.iterations <= 1_000_000 ==>
        codec.fromJson(codec.toJson(h)) == Ok(h) && 0 < |codec.toJson(h)| <= 4096
  }

  function MagicV4(): (m: bytes)
    ensures |m| == 8
  {
    Ascii("AMPCRYPT")
  }

  /** Magic, header length, header, ciphertext and tag. */
  function AssembleV4(header: bytes, ciphertext: bytes, tag: bytes): bytes
  {
    MagicV4() + BE4(|header|) + header + ciphertext + tag
  }

  /** The container for given header bytes and the keys they lead to. */
  ghost function SealV4(P: Primitives, header: bytes, nonce: bytes, encKey: Digest, authKey: Digest, data: bytes): bytes
  {
    var ciphertext := Encrypted(Chain(P, V4, encKey, nonce), Pad(data));
    AssembleV4(header, ciphertext, MakeTag(P, authKey, header, ciphertext))
  }

  ghost function EncryptV4(
      P: Primitives, codec: HeaderCodec, data: bytes, password: bytes, iterations: u32, salt: Bytes16, nonce: Bytes16)
    : Result<bytes, KrcmError>
    requires |data| < TWO64
  {
    if iterations == 0 || iterations > MAX_PBKDF2_ITERATIONS then Err(InvalidParameter) else
      var header := HeaderV4(4, iterations, salt, nonce, |data|);
      var keys :- DeriveKeys(P, password, salt, iterations);
      Ok(SealV4(P, codec.toJson(header), nonce, keys.0, keys.1, data))
  }

  datatype OuterV4 = OuterV4(header: bytes, ciphertext: bytes, tag: Digest)

  /** The framing guards of `decrypt_v4`. */
  function SplitV4(container: bytes): Result<OuterV4, KrcmError>
  {
    if |container| < 44 || container[..8] != MagicV4() then Err(Format) else
      var headerLen := ReadU32(container[8..12]);
      var end := 12 + headerLen;
      if headerLen == 0 || headerLen > MAX_HEADER_BYTES || end + 32 > |container| then Err(Format) else
        Ok(OuterV4(container[12..end], container[end..|container| - 32], container[|container| - 32..]))
  }

  ghost function DecryptV4(P: Primitives, codec: HeaderCodec, container: bytes, password: bytes)
    : Result<bytes, KrcmError>
  {
    var o :- SplitV4(container);
    var header :- codec.fromJson(o.header);
    var keys :- DeriveKeys(P, password, header.salt, header.iterations);
    if o.tag != MakeTag(P, keys.1, o.header, o.ciphertext) then Err(Authentication)
    else if |o.ciphertext| % 32 != 0 then Err(Format)
    else
      var plain :- Unpad(Decrypted(Chain(P, V4, keys.0, header.nonce), o.ciphertext));
      if |plain| != header.originalLength then Err(Authentication) else Ok(plain)
  }

  lemma SplitV4Exact(container: bytes, o: OuterV4)
    ensures SplitV4(container) == Ok(o)
      <==> 0 < |o.header| <= 4096 && container == AssembleV4(o.header, o.ciphertext, o.tag)
  {
    hide BE4, ReadU32, MagicV4;
    var n := |o.header|;
    if SplitV4(container) == Ok(o) {
      BE4Read(container[8..12]);
      assert container == container[..8] + container[8..12] + container[12..12 + n]
        + container[12 + n..|container| - 32] + container[|container| - 32..];
    }
    if 0 < n <= MAX_HEADER_BYTES && container == AssembleV4(o.header, o.ciphertext, o.tag) {
      ReadBE4(n);
      V4Slices(o);
    }
  }

  lemma V4Slices(o: OuterV4)
    ensures var c := AssembleV4(o.header, o.ciphertext, o.tag); var end := 12 + |o.header|;
      && |c| == end + |o.ciphertext| + 32 && c[..8] == MagicV4() && c[8..12] == BE4(|o.header|)
      && c[12..end] == o.header && c[end..|c| - 32] == o.ciphertext && c[|c| - 32..] == o.tag
  {
    hide BE4, MagicV4;
    var c, end := AssembleV4(o.header, o.ciphertext, o.tag), 12 + |o.header|;
    var front := MagicV4() + BE4(|o.header|) + o.header;
    assert c == front + (o.ciphertext + o.tag);
    assert c[..end] == front && c[end..] == o.ciphertext + o.tag;
    assert c[..8] == front[..8] && c[8..12] == front[8..12] && c[12..end] == front[12..end];
  }

  /**
   * `decrypt_v4` yields `data` exactly on the containers that seal `data` under their own header
   * bytes, when these read as a header that gives the right length and leads to keys.
   */
  lemma V4AcceptedExactly(P: Primitives, codec: HeaderCodec, container: bytes, password: bytes, data: bytes)
    ensures DecryptV4(P, codec, container, password) == Ok(data) <==>
      exists header: bytes :: SealsV4(P, codec, container, password, header, data)
  {
    hide SealsV4;
    if DecryptV4(P, codec, container, password) == Ok(data) {
      AcceptedV4IsSealed(P, codec, container, password, data);
    }
    forall header: bytes | SealsV4(P, codec, container, password, header, data)
      ensures DecryptV4(P, codec, container, password) == Ok(data)
    {
      SealedV4IsAccepted(P, codec, container, password, header, data);
    }
  }

  ghost predicate SealsV4(
    P: Primitives, codec: HeaderCodec, container: bytes, password: bytes, header: bytes, data: bytes)
  {
    && 0 < |header| <= MAX_HEADER_BYTES
    && var h := codec.fromJson(header);
       && h.Ok? && h.value.originalLength == |data|
       && var keys := DeriveKeys(P, password, h.value.salt, h.value.iterations);
          keys.Ok? && container == SealV4(P, header, h.value.nonce, keys.value.0, keys.value.1, data)
  }

  lemma AcceptedV4IsSealed(P: Primitives, codec: HeaderCodec, container: bytes, password: bytes, data: bytes)
    requires DecryptV4(P, codec, container, password) == Ok(data)
    ensures SplitV4(container).Ok? && SealsV4(P, codec, container, password, SplitV4(container).value.header, data)
  {
    hide SplitV4, AssembleV4, Unpad, Pad, Encrypted, Decrypted, DeriveKeys, MakeTag;
    var o := SplitV4(container).value;
    SplitV4Exact(container, o);
    var header := codec.fromJson(o.header).value;
    var chain := Chain(P, V4, DeriveKeys(P, password, header.salt, header.iterations).value.0, header.nonce);
    PaddingIsBijection(data, Decrypted(chain, o.ciphertext));
    ChainRoundTrip(chain, o.ciphertext);
  }

  lemma SealedV4IsAccepted(
      P: Primitives, codec: HeaderCodec, container: bytes, password: bytes, header: bytes, data: bytes)
    requires SealsV4(P, codec, container, password, header, data)
    ensures DecryptV4(P, codec, container, password) == Ok(data)
  {
    hide SplitV4, AssembleV4, Unpad, Pad, Encrypted, Decrypted, DeriveKeys, MakeTag;
    var h := codec.fromJson(header).value;
    var keys := DeriveKeys(P, password, h.salt, h.iterations).value;
    var chain := Chain(P, V4, keys.0, h.nonce);
    var ciphertext := Encrypted(chain, Pad(data));
    SplitV4Exact(container, OuterV4(header, ciphertext, MakeTag(P, keys.1, header, ciphertext)));
    ChainRoundTrip(chain, Pad(data));
    PaddingIsBijection(data, Pad(data));
  }

  /** With a faithful header codec, v4 decryption returns exactly what was encrypted. */
  lemma V4RoundTrip(
      P: Primitives, codec: HeaderCodec, data: bytes, password: bytes, iterations: u32, salt: Bytes16, nonce: Bytes16)
    requires |data| < TWO64 && Faithful(codec)
    requires EncryptV4(P, codec, data, password, iterations, salt, nonce).Ok?
    ensures var container := EncryptV4(P, codec, data, password, iterations, salt, nonce).value;
      DecryptV4(P, codec, container, password) == Ok(data)
  {
    hide SealV4, DeriveKeys, DecryptV4;
    var header := codec.toJson(HeaderV4(4, iterations, salt, nonce, |data|));
    var container := EncryptV4(P, codec, data, password, iterations, salt, nonce).value;
    SealedV4IsAccepted(P, codec, container, password, header, data);
  }

  /** Encryption succeeds exactly on iterations in range and a password; the iterations are looked at first. */
  lemma V4Succeeds(
      P: Primitives, codec: HeaderCodec, data: bytes, password: bytes, iterations: u32, salt: Bytes16, nonce: Bytes16)
    requires |data| < TWO64
    ensures var r := EncryptV4(P, codec, data, password, iterations, salt, nonce);
      if !(1 <= iterations <= 1_000_000) then r == Err(InvalidParameter)
      else if password == [] then r == Err(InvalidPassword)
      else r.Ok?
  {
    hide SealV4, Ascii;
  }

  /** The padded plaintext, so that a sealed container shows its own length. */
  lemma SealedV4Length(P: Primitives, header: bytes, nonce: bytes, encKey: Digest, authKey: Digest, data: bytes)
    ensures |SealV4(P, header, nonce, encKey, authKey, data)| == 12 + |header| + |Pad(data)| + 32
    ensures MagicV4() <= SealV4(P, header, nonce, encKey, authKey, data)
  {
    hide Encrypted, Pad, MakeTag, MagicV4;
  }

  // ----- What the tag is about -----

  ghost function AuthKeyV4(P: Primitives, codec: HeaderCodec, container: bytes, password: bytes): Digest
    requires DecryptV4(P, codec, container, password).Ok?
  {
    var h := codec.fromJson(SplitV4(container).value.header).value;
    DeriveKeys(P, password, h.salt, h.iterations).value.1
  }

  /** An accepted container ends in the HMAC of everything between the header's length field and the tag. */
  lemma AcceptedV4IsTagged(P: Primitives, codec: HeaderCodec, container: bytes, password: bytes)
    requires DecryptV4(P, codec, container, password).Ok?
    ensures |container| >= 44
    ensures var n := |container|;
      container[n - 32..] == P.hmac(AuthKeyV4(P, codec, container, password), container[12..n - 32])
  {
    hide Unpad, Decrypted, DeriveKeys, ReadU32, MagicV4;
    var n, end := |container|, 12 + ReadU32(container[8..12]);
    assert container[12..n - 32] == container[12..end] + container[end..n - 32];
  }

  /**
   * Two different containers accepted under one authentication key with equal tags and headers of
   * one length exhibit two different inputs with the same HMAC value. The tag's input has no length
   * fields, so headers of different lengths are not covered: there the inputs may be the same.
   */
  lemma V4TagBinds(P: Primitives, codec: HeaderCodec, c: bytes, p: bytes, d: bytes, q: bytes)
    requires DecryptV4(P, codec, c, p).Ok? && DecryptV4(P, codec, d, q).Ok? && c != d
    requires AuthKeyV4(P, codec, c, p) == AuthKeyV4(P, codec, d, q)
    requires c[|c| - 32..] == d[|d| - 32..]
    requires |SplitV4(c).value.header| == |SplitV4(d).value.header|
    ensures c[12..|c| - 32] != d[12..|d| - 32]
    ensures var key := AuthKeyV4(P, codec, c, p); P.hmac(key, c[12..|c| - 32]) == P.hmac(key, d[12..|d| - 32])
  {
    hide DecryptV4, AuthKeyV4;
    AcceptedV4IsTagged(P, codec, c, p);
    AcceptedV4IsTagged(P, codec, d, q);
    SplitOfAccepted(P, codec, c, p);
    SplitOfAccepted(P, codec, d, q);
    hide SplitV4;
    PartsOfContainer(c);
    PartsOfContainer(d);
  }

  lemma SplitOfAccepted(P: Primitives, codec: HeaderCodec, container: bytes, password: bytes)
    requires DecryptV4(P, codec, container, password).Ok?
    ensures SplitV4(container).Ok? && |container| >= 44
    ensures container[..12] == MagicV4() + BE4(|SplitV4(container).value.header|)
  {
    hide Unpad, Decrypted, DeriveKeys, MagicV4, AssembleV4, MakeTag, SplitV4;
    var o := SplitV4(container).value;
    SplitV4Exact(container, o);
    FrontOfAssembled(o.header, o.ciphertext, o.tag);
  }

  lemma FrontOfAssembled(header: bytes, ciphertext: bytes, tag: Digest)
    ensures |AssembleV4(header, ciphertext, tag)| >= 44
    ensures AssembleV4(header, ciphertext, tag)[..12] == MagicV4() + BE4(|header|)
  {
    hide BE4, MagicV4;
  }

  lemma PartsOfContainer(c: bytes)
    requires |c| >= 44
    ensures c == c[..12] + c[12..|c| - 32] + c[|c| - 32..]
  {
  }

  // ----- Which error a refused container gets -----

  /** Behind framing, header and keys a wrong tag is Authentication; behind a right one, no whole blocks is Format. */
  lemma AnswersOfV4(P: Primitives, codec: HeaderCodec, container: bytes, password: bytes)
    ensures SplitV4(container).Err? ==> DecryptV4(P, codec, container, password) == Err(Format)
    ensures SplitV4(container).Ok? && codec.fromJson(SplitV4(container).value.header).Ok? ==>
      var o := SplitV4(container).value; var h := codec.fromJson(o.header).value;
      var r := DecryptV4(P, codec, container, password);
      if password == [] then r == Err(InvalidPassword)
      else if h.iterations == 0 || h.iterations > 1_000_000 then r == Err(InvalidParameter)
      else
        var key := DeriveKeys(P, password, h.salt, h.iterations).value.1;
        && (o.tag != P.hmac(key, o.header + o.ciphertext) ==> r == Err(Authentication))
        && (o.tag == P.hmac(key, o.header + o.ciphertext) ==>
             if o.ciphertext == [] || |o.ciphertext| % 32 != 0 then r == Err(Format)
             else r.Ok? || r == Err(Authentication))
  {
    hide MagicV4, ReadU32, Unpad, Decrypted, Ascii;
    if SplitV4(container).Ok? && codec.fromJson(SplitV4(container).value.header).Ok? {
      var o := SplitV4(container).value;
      var h := codec.fromJson(o.header).value;
      var keys := DeriveKeys(P, password, h.salt, h.iterations);
      if keys.Ok? && |o.ciphertext| % 32 == 0 {
        UnpadErrors(Decrypted(Chain(P, V4, keys.value.0, h.nonce), o.ciphertext));
      }
    }
  }

  /** Only the header codec can answer UnsupportedVersion. */
  lemma RefusedByCodec(P: Primitives, codec: HeaderCodec, container: bytes, password: bytes)
    ensures DecryptV4(P, codec, container, password) == Err(UnsupportedVersion) <==>
      SplitV4(container).Ok? && codec.fromJson(SplitV4(container).value.header) == Err(UnsupportedVersion)
  {
    AnswersOfV4(P, codec, container, password);
    hide SplitV4, DeriveKeys, Unpad, Decrypted, MakeTag;
  }

  lemma V4WritesHeader(
      P: Primitives, codec: HeaderCodec, data: bytes, password: bytes, iterations: u32, salt: Bytes16, nonce: Bytes16)
    requires |data| < TWO64 && EncryptV4(P, codec, data, password, iterations, salt, nonce).Ok?
    ensures var c := EncryptV4(P, codec, data, password, iterations, salt, nonce).value;
      var header := codec.toJson(HeaderV4(4, iterations, salt, nonce, |data|));
      |c| >= 44 + |header| && c[12..12 + |header|] == header
  {
    hide DeriveKeys, SealV4;
    var keys := DeriveKeys(P, password, salt, iterations).value;
    SealedV4Header(P, codec.toJson(HeaderV4(4, iterations, salt, nonce, |data|)), nonce, keys.0, keys.1, data);
  }

  lemma SealedV4Header(P: Primitives, header: bytes, nonce: bytes, encKey: Digest, authKey: Digest, data: bytes)
    ensures var c := SealV4(P, header, nonce, encKey, authKey, data);
      |c| >= 44 + |header| && c[12..12 + |header|] == header
  {
    hide Encrypted, MakeTag, AssembleV4, Pad;
    var ciphertext := Encrypted(Chain(P, V4, encKey, nonce), Pad(data));
    V4Slices(OuterV4(header, ciphertext, MakeTag(P, authKey, header, ciphertext)));
  }
}
