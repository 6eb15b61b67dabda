/** `encrypt_auto` and `decrypt_auto`: dispatch on the leading magic. */
module Dispatch {
  import opened Bytes
  import opened FormatV4
  import opened FormatV5
  import opened FormatV5Answers
  import opened FormatV5Theorems
  import opened Primitives
  import opened PublicHeader
  import opened Wrappers
  import Inner
  import Kdf
  import Segments
  import SegmentTable

  datatype EncryptOptions =
    | UseV4(iterations: u32, salt: Bytes16, nonce: Bytes16)
    | UseV5(opts: Options, padding: bytes)

  ghost function EncryptAuto(P: Primitives, codec: HeaderCodec, data: bytes, password: bytes, how: EncryptOptions)
    : Result<bytes, KrcmError>
    requires |data| < TWO64
  {
    match how
    case UseV4(iterations, salt, nonce) => EncryptV4(P, codec, data, password, iterations, salt, nonce)
    case UseV5(opts, padding) => EncryptV5(P, data, password, opts, padding)
  }

  ghost function DecryptAuto(P: Primitives, codec: HeaderCodec, container: bytes, password: bytes)
    : Result<bytes, KrcmError>
  {
    if MagicV4() <= container then DecryptV4(P, codec, container, password)
    else if Magic() <= container then DecryptV5(P, container, password)
    else Err(UnsupportedVersion)
  }

  lemma MagicsDiffer(container: bytes)
    ensures !(MagicV4() <= container && Magic() <= container)
  {
    assert MagicV4()[0] == 'A' as int && Magic()[0] == 'K' as int;
  }

  lemma SealStartsWithMagic(P: Primitives, keys: Kdf.V5Keys, nonce: Bytes16, header: bytes, segs: seq<bytes>)
    ensures Magic() <= Seal(P, keys, nonce, header, segs)
  {
    hide Magic, SyntheticIv, Tag, SegmentTable.Serialized, Segments.EntriesFrom, Segments.CiphersFrom;
  }

  /** What `encrypt_auto` asks of its caller. */
  predicate Encryptable(P: Primitives, password: bytes, how: EncryptOptions)
  {
    match how
    case UseV4(iterations, _, _) => password != [] && 1 <= iterations <= 1_000_000
    case UseV5(opts, _) => Kdf.KeyDerivable(P, password, opts.salt, opts.kdf)
  }

  lemma AutoSucceeds(P: Primitives, codec: HeaderCodec, data: bytes, password: bytes, how: EncryptOptions)
    requires |data| < TWO64
    ensures EncryptAuto(P, codec, data, password, how).Ok? <==> Encryptable(P, password, how)
  {
    hide EncryptV5, Kdf.KeyDerivable, SealV4;
    if how.UseV5? {
      EncryptSucceeds(P, data, password, how.opts, how.padding);
    }
  }

  /** End to end: whatever `encrypt_auto` returns, `decrypt_auto` opens to the data. */
  lemma AutoRoundTrip(P: Primitives, codec: HeaderCodec, data: bytes, password: bytes, how: EncryptOptions)
    requires |data| < TWO64 && (how.UseV4? ==> Faithful(codec))
    requires Encryptable(P, password, how)
    ensures EncryptAuto(P, codec, data, password, how).Ok?
    ensures |EncryptAuto(P, codec, data, password, how).value| < TWO64 ==>
      DecryptAuto(P, codec, EncryptAuto(P, codec, data, password, how).value, password) == Ok(data)
  {
    AutoSucceeds(P, codec, data, password, how);
    hide Magic, MagicV4, Faithful, DecryptV4, DecryptV5, SealV4, Seal;
    hide Kdf.DeriveKeys, Kdf.DeriveRootKey, Kdf.KeyDerivable;
    var container := EncryptAuto(P, codec, data, password, how).value;
    if |container| >= TWO64 {
      return;
    }
    MagicsDiffer(container);
    match how
    case UseV4(iterations, salt, nonce) =>
      var header := codec.toJson(HeaderV4(4, iterations, salt, nonce, |data|));
      var keys := Kdf.DeriveKeys(P, password, salt, iterations).value;
      SealedV4Length(P, header, nonce, keys.0, keys.1, data);
      V4RoundTrip(P, codec, data, password, iterations, salt, nonce);
    case UseV5(opts, padding) =>
      var keys := Kdf.DeriveV5Keys(P, Kdf.DeriveRootKey(P, password, opts.salt, opts.kdf).value);
      var inner := Inner.PackInner(P, data, padding);
      SealStartsWithMagic(P, keys, opts.publicNonce, PublicHeader.PackHeader(opts).value,
        Segments.Chunks(inner, SegmentSizeFor(opts.segmentSize)));
      V5RoundTrip(P, data, password, opts, padding);
  }

  /** A container gets UnsupportedVersion exactly when it starts with neither magic, or the v4 header codec says so. */
  lemma UnsupportedExactly(P: Primitives, codec: HeaderCodec, container: bytes, password: bytes)
    ensures DecryptAuto(P, codec, container, password) == Err(UnsupportedVersion) <==>
      || (!(MagicV4() <= container) && !(Magic() <= container))
      || (MagicV4() <= container && SplitV4(container).Ok?
          && codec.fromJson(SplitV4(container).value.header) == Err(UnsupportedVersion))
  {
    hide Magic, MagicV4, DecryptV4, DecryptV5, SplitV4;
    if MagicV4() <= container {
      RefusedByCodec(P, codec, container, password);
    } else {
      AnswersOfDecrypt(P, container, password);
    }
  }

  /** The header that `encrypt_auto` writes carries the caller's values, in the place the version gives it. */
  lemma AutoWritesHeader(P: Primitives, codec: HeaderCodec, data: bytes, password: bytes, how: EncryptOptions)
    requires |data| < TWO64 && Encryptable(P, password, how)
    ensures EncryptAuto(P, codec, data, password, how).Ok?
    ensures var container := EncryptAuto(P, codec, data, password, how).value;
      match how
      case UseV4(iterations, salt, nonce) =>
        var header := codec.toJson(HeaderV4(4, iterations, salt, nonce, |data|));
        |container| >= 44 + |header| && container[12..12 + |header|] == header
      case UseV5(opts, _) =>
        |container| >= 77 && HasLayout(container[13..77], opts)
  {
    AutoSucceeds(P, codec, data, password, how);
    hide EncryptV4, EncryptV5, Encryptable, HasLayout, Faithful;
    match how
    case UseV4(iterations, salt, nonce) =>
      V4WritesHeader(P, codec, data, password, iterations, salt, nonce);
    case UseV5(opts, padding) =>
      V5WritesHeader(P, data, password, opts, padding);
  }
}
