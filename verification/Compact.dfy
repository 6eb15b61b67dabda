/** The Python compact container: a fixed 45-byte header, and either block engine on reading. */
module Compact {
  import opened Agreement
  import opened Bytes
  import opened Chaining
  import opened Kdf
  import opened Padding
  import opened Primitives
  import opened PythonEngine
  import opened Wrappers

  const HEADER_BYTES: nat := 45
  const COMPACT_VERSION: nat := 4

  datatype Header = Header(version: nat, iterations: nat, originalLength: nat, salt: bytes, nonce: bytes)

  function CompactMagic(): (m: bytes)
    ensures |m| == 8
  {
    Ascii("AMPCMPCT")
  }

  /** `struct.pack(">BIQ16s16s", ...)`. */
  function Print(h: Header): (s: bytes)
    requires h.version < 256 && |h.salt| == 16 && |h.nonce| == 16
    ensures |s| == HEADER_BYTES
  {
    [h.version] + BE4(h.iterations) + BE8(h.originalLength) + h.salt + h.nonce
  }

  predicate Readable(h: Header)
  {
    && (h.version == 3 || h.version == 4) && 1 <= h.iterations <= MAX_PBKDF2_ITERATIONS
    && h.originalLength < TWO64 && |h.salt| == 16 && |h.nonce| == 16
  }

  function PackHeader(iterations: int, originalLength: int, salt: bytes, nonce: bytes): Result<bytes, PyError>
  {
    if |salt| != 16 || |nonce| != 16 then Err(ValueError)
    else if iterations < 1 || iterations > MAX_PBKDF2_ITERATIONS then Err(ValueError)
    else if originalLength < 0 || originalLength >= TWO64 then Err(ValueError)
    else Ok(Print(Header(COMPACT_VERSION, iterations, originalLength, salt, nonce)))
  }

  function UnpackHeader(header: bytes): Result<Header, PyError>
  {
    if |header| != HEADER_BYTES then Err(FormatError) else
      var h := Header(header[0], ReadU32(header[1..5]), ReadU64(header[5..13]), header[13..29], header[29..45]);
      if h.version != 3 && h.version != 4 then Err(FormatError)
      else if h.iterations < 1 || h.iterations > MAX_PBKDF2_ITERATIONS then Err(FormatError)
      else Ok(h)
  }

  lemma HeaderFieldsRejoin(s: bytes)
    requires |s| == HEADER_BYTES
    ensures s == [s[0]] + s[1..5] + s[5..13] + s[13..29] + s[29..45]
  {
  }

  /** The codec's two directions meet exactly on the readable headers. */
  lemma HeaderCodecExact(s: bytes, h: Header)
    ensures UnpackHeader(s) == Ok(h) <==> Readable(h) && s == Print(h)
  {
    hide BE4, BE8, ReadU32, ReadU64;
    if UnpackHeader(s) == Ok(h) {
      BE4Read(s[1..5]);
      BE8Read(s[5..13]);
      HeaderFieldsRejoin(s);
    }
    if Readable(h) && s == Print(h) {
      ReadBE4(h.iterations);
      ReadBE8(h.originalLength);
      assert s[1..5] == BE4(h.iterations) && s[5..13] == BE8(h.originalLength);
      assert s[13..29] == h.salt && s[29..45] == h.nonce;
    }
  }

  function PyDeriveKeys(P: Primitives, password: bytes, salt: bytes, iterations: int): Result<(Digest, Digest), PyError>
  {
    if password == [] || |salt| != 16 || iterations < 1 || iterations > MAX_PBKDF2_ITERATIONS then Err(ValueError)
    else
      var root := P.pbkdf2Wide(password, salt, iterations);
      Ok((P.hmac(root[..32], Ascii("AMPC-ENC")), P.hmac(root[32..], Ascii("AMPC-AUTH"))))
  }

  /** `_unpad`, which is the Rust `unpad` with Python's exceptions. */
  function PyUnpad(data: bytes): Result<bytes, PyError>
  {
    match Unpad(data)
    case Ok(plain) => Ok(plain)
    case Err(e) => Err(if e == Format then FormatError else AuthenticationError)
  }

  /** `encrypt_bytes_compact` with the salt and nonce it drew; `native` as for the entry points. */
  ghost function EncryptCompact(
      P: Primitives, data: bytes, password: bytes, iterations: int, salt: bytes, nonce: bytes, native: bool)
    : Result<bytes, PyError>
  {
    if |salt| != 16 || |nonce| != 16 then Err(ValueError) else
      var keys :- PyDeriveKeys(P, password, salt, iterations);
      var header :- PackHeader(iterations, |data|, salt, nonce);
      var ciphertext :- EncryptEntry(P, COMPACT_VERSION, keys.0, nonce, Pad(data), native);
      Ok(CompactMagic() + header + ciphertext + MakeTag(P, keys.1, header, ciphertext))
  }

  ghost function DecryptCompact(P: Primitives, container: bytes, password: bytes, native: bool): Result<bytes, PyError>
  {
    var n := |container|;
    if n < 85 then Err(FormatError)
    else if container[..8] != CompactMagic() then Err(FormatError)
    else
      var header, ciphertext, tag := container[8..53], container[53..n - 32], container[n - 32..];
      var h :- UnpackHeader(header);
      var keys :- PyDeriveKeys(P, password, h.salt, h.iterations);
      if tag != MakeTag(P, keys.1, header, ciphertext) then Err(AuthenticationError) else
      var padded :- DecryptEntry(P, h.version, keys.0, h.nonce, ciphertext, native);
      var plain :- PyUnpad(padded);
      if |plain| != h.originalLength then Err(AuthenticationError) else Ok(plain)
  }

  /** The engine's ciphertext of `data` under the version, nonce and keys that a header leads to. */
  ghost function CompactCipher(P: Primitives, h: Header, encKey: Digest, data: bytes): (out: bytes)
    ensures |out| % 32 == 0
  {
    Encrypted(ChainOf(P, h.version, encKey, h.nonce), Pad(data))
  }

  /** `container` is the version-h.version compact form of `data`, and reading it raises no OverflowError. */
  ghost predicate IsCompact(
      P: Primitives, container: bytes, password: bytes, h: Header, data: bytes, native: bool)
  {
    && Readable(h) && h.originalLength == |data| && password != []
    && var keys := PyDeriveKeys(P, password, h.salt, h.iterations);
       var ciphertext := CompactCipher(P, h, keys.value.0, data);
       && EntryRuns(P, h.version, keys.value.0, h.nonce, ciphertext, native)
       && container == CompactMagic() + Print(h) + ciphertext + MakeTag(P, keys.value.1, Print(h), ciphertext)
  }

  lemma CompactSlices(header: bytes, ciphertext: bytes, tag: bytes)
    requires |header| == 45 && |tag| == 32
    ensures var c := CompactMagic() + header + ciphertext + tag; var n := |c|;
      && n == 85 + |ciphertext| && c[..8] == CompactMagic() && c[8..53] == header
      && c[53..n - 32] == ciphertext && c[n - 32..] == tag
  {
    hide CompactMagic;
    var c := CompactMagic() + header + ciphertext + tag;
    assert c[53..] == ciphertext + tag;
  }

  lemma CompactIsAccepted(P: Primitives, container: bytes, password: bytes, h: Header, data: bytes, native: bool)
    requires IsCompact(P, container, password, h, data, native)
    ensures DecryptCompact(P, container, password, native) == Ok(data)
  {
    hide CompactMagic, Print, MakeTag, Encrypted, Decrypted, DecryptEntry, EntryRuns, UnpackHeader, Unpad, Pad;
    var keys := PyDeriveKeys(P, password, h.salt, h.iterations).value;
    var ciphertext := CompactCipher(P, h, keys.0, data);
    CompactSlices(Print(h), ciphertext, MakeTag(P, keys.1, Print(h), ciphertext));
    HeaderCodecExact(Print(h), h);
    ChainRoundTrip(ChainOf(P, h.version, keys.0, h.nonce), Pad(data));
    EntryIsEngine(P, h.version, keys.0, h.nonce, ciphertext, native);
    PaddingIsBijection(data, Pad(data));
  }

  lemma CompactRejoins(c: bytes)
    requires |c| >= 85
    ensures var n := |c|; c == c[..8] + c[8..53] + c[53..n - 32] + c[n - 32..]
  {
  }

  lemma AcceptedIsAligned(
      P: Primitives, version: int, key: bytes, nonce: bytes, ciphertext: bytes, native: bool)
    requires DecryptEntry(P, version, key, nonce, ciphertext, native).Ok?
    ensures |ciphertext| % 32 == 0
  {
    hide PyDecryptFrom, Decrypted;
  }

  lemma AcceptedIsCompact(P: Primitives, container: bytes, password: bytes, native: bool) returns (h: Header)
    requires DecryptCompact(P, container, password, native).Ok?
    ensures IsCompact(P, container, password, h, DecryptCompact(P, container, password, native).value, native)
  {
    hide CompactMagic, Print, MakeTag, Encrypted, Decrypted, EntryRuns, UnpackHeader, Unpad, Pad, DecryptEntry;
    var n, data := |container|, DecryptCompact(P, container, password, native).value;
    var header, ciphertext, tag := container[8..53], container[53..n - 32], container[n - 32..];
    h := UnpackHeader(header).value;
    HeaderCodecExact(header, h);
    var keys := PyDeriveKeys(P, password, h.salt, h.iterations).value;
    var chain := ChainOf(P, h.version, keys.0, h.nonce);
    AcceptedIsAligned(P, h.version, keys.0, h.nonce, ciphertext, native);
    EntryIsEngine(P, h.version, keys.0, h.nonce, ciphertext, native);
    ChainRoundTrip(chain, ciphertext);
    PaddingIsBijection(data, Decrypted(chain, ciphertext));
    CompactRejoins(container);
  }

  /**
   * The compact reader yields `data` exactly on the compact forms of `data`, with either engine,
   * whether or not the extension is loaded.
   */
  lemma CompactAcceptedExactly(P: Primitives, container: bytes, password: bytes, data: bytes, native: bool)
    ensures DecryptCompact(P, container, password, native) == Ok(data)
      <==> exists h :: IsCompact(P, container, password, h, data, native)
  {
    hide IsCompact, DecryptCompact;
    if DecryptCompact(P, container, password, native) == Ok(data) {
      var h := AcceptedIsCompact(P, container, password, native);
    }
    forall h | IsCompact(P, container, password, h, data, native)
      ensures DecryptCompact(P, container, password, native) == Ok(data)
    {
      CompactIsAccepted(P, container, password, h, data, native);
    }
  }

  /** What the writer asks of its caller and of its random source. */
  predicate Writable(data: bytes, password: bytes, iterations: int, salt: bytes, nonce: bytes)
  {
    && |salt| == 16 && |nonce| == 16 && password != []
    && 1 <= iterations <= 1_000_000 && |data| < TWO64
  }

  /** The header of a written container: version 4 and the caller's values. */
  function WrittenHeader(data: bytes, iterations: int, salt: bytes, nonce: bytes): Header
    requires iterations >= 0
  {
    Header(4, iterations, |data|, salt, nonce)
  }

  /** The writer's own steps run: the extension is loaded, or its ciphertext's draws fit. */
  ghost predicate WriterRuns(
      P: Primitives, data: bytes, password: bytes, iterations: int, salt: bytes, nonce: bytes, native: bool)
    requires Writable(data, password, iterations, salt, nonce)
  {
    var h := WrittenHeader(data, iterations, salt, nonce);
    var key := PyDeriveKeys(P, password, salt, iterations).value.0;
    EntryRuns(P, COMPACT_VERSION, key, nonce, CompactCipher(P, h, key, data), native)
  }

  lemma WriterRefuses(
      P: Primitives, data: bytes, password: bytes, iterations: int, salt: bytes, nonce: bytes, native: bool)
    requires !Writable(data, password, iterations, salt, nonce)
    ensures EncryptCompact(P, data, password, iterations, salt, nonce, native) == Err(ValueError)
  {
    hide CompactMagic, Print, MakeTag, EncryptEntry, Pad, Ascii;
  }

  lemma WritableParts(P: Primitives, data: bytes, password: bytes, iterations: int, salt: bytes, nonce: bytes)
    requires Writable(data, password, iterations, salt, nonce)
    ensures PyDeriveKeys(P, password, salt, iterations).Ok? && Readable(WrittenHeader(data, iterations, salt, nonce))
    ensures var h := WrittenHeader(data, iterations, salt, nonce);
      h.version == COMPACT_VERSION && h.iterations == iterations && h.originalLength == |data|
      && h.salt == salt && h.nonce == nonce
    ensures PackHeader(iterations, |data|, salt, nonce) == Ok(Print(WrittenHeader(data, iterations, salt, nonce)))
  {
    hide Print, Ascii;
  }

  lemma EntryOfWritten(
      P: Primitives, data: bytes, iterations: nat, salt: bytes, nonce: bytes, key: Digest, native: bool)
    requires |nonce| == 16
    ensures var out := CompactCipher(P, WrittenHeader(data, iterations, salt, nonce), key, data);
      EncryptEntry(P, COMPACT_VERSION, key, nonce, Pad(data), native)
        == Guarded(EntryRuns(P, COMPACT_VERSION, key, nonce, out, native), out)
  {
    hide Encrypted, Decrypted, EncryptEntry, DecryptEntry, EntryRuns, Pad;
    EntryIsEngine(P, COMPACT_VERSION, key, nonce, Pad(data), native);
  }

  lemma WriterWrites(
      P: Primitives, data: bytes, password: bytes, iterations: int, salt: bytes, nonce: bytes, native: bool)
    requires Writable(data, password, iterations, salt, nonce)
    ensures var r := EncryptCompact(P, data, password, iterations, salt, nonce, native);
      if WriterRuns(P, data, password, iterations, salt, nonce, native)
      then r.Ok? && IsCompact(P, r.value, password, WrittenHeader(data, iterations, salt, nonce), data, native)
      else r == Err(OverflowError)
  {
    hide CompactMagic, Print, MakeTag, CompactCipher, EncryptEntry, EntryRuns, Pad, PyDeriveKeys, PackHeader;
    hide Encrypted, ChainOf, Readable, WrittenHeader;
    WritableParts(P, data, password, iterations, salt, nonce);
    EntryOfWritten(P, data, iterations, salt, nonce, PyDeriveKeys(P, password, salt, iterations).value.0, native);
  }

  /** The writer succeeds exactly on writable arguments when its steps run; else it raises one of two exceptions. */
  lemma CompactSucceeds(
      P: Primitives, data: bytes, password: bytes, iterations: int, salt: bytes, nonce: bytes, native: bool)
    ensures var r := EncryptCompact(P, data, password, iterations, salt, nonce, native);
      if !Writable(data, password, iterations, salt, nonce) then r == Err(ValueError)
      else if !WriterRuns(P, data, password, iterations, salt, nonce, native) then r == Err(OverflowError)
      else r.Ok? && IsCompact(P, r.value, password, WrittenHeader(data, iterations, salt, nonce), data, native)
  {
    hide EncryptCompact, WriterRuns, IsCompact;
    if Writable(data, password, iterations, salt, nonce) {
      WriterWrites(P, data, password, iterations, salt, nonce, native);
    } else {
      WriterRefuses(P, data, password, iterations, salt, nonce, native);
    }
  }

  /**
   * A written container reads back as its data wherever the reader's steps run, and raises
   * OverflowError elsewhere; the extension may be loaded at one end and not at the other.
   */
  lemma CompactRoundTrip(
      P: Primitives, data: bytes, password: bytes, iterations: int, salt: bytes, nonce: bytes, there: bool, back: bool)
    requires Writable(data, password, iterations, salt, nonce)
    requires WriterRuns(P, data, password, iterations, salt, nonce, there)
    ensures EncryptCompact(P, data, password, iterations, salt, nonce, there).Ok?
    ensures DecryptCompact(P, EncryptCompact(P, data, password, iterations, salt, nonce, there).value, password, back)
      == if WriterRuns(P, data, password, iterations, salt, nonce, back) then Ok(data) else Err(OverflowError)
  {
    hide DecryptCompact, EncryptCompact, WriterRuns, IsCompact;
    CompactSucceeds(P, data, password, iterations, salt, nonce, there);
    var container := EncryptCompact(P, data, password, iterations, salt, nonce, there).value;
    var h := WrittenHeader(data, iterations, salt, nonce);
    SameBytes(P, container, data, password, iterations, salt, nonce, there, back);
    if WriterRuns(P, data, password, iterations, salt, nonce, back) {
      CompactIsAccepted(P, container, password, h, data, back);
    } else {
      UnfitIsRaised(P, container, password, h, data, there, back);
    }
  }

  /** Whether the extension is loaded shows in the steps that run, never in the bytes. */
  lemma SameBytes(
      P: Primitives, container: bytes, data: bytes, password: bytes, iterations: int, salt: bytes, nonce: bytes,
      there: bool, back: bool)
    requires Writable(data, password, iterations, salt, nonce)
    requires IsCompact(P, container, password, WrittenHeader(data, iterations, salt, nonce), data, there)
    ensures IsCompact(P, container, password, WrittenHeader(data, iterations, salt, nonce), data, back)
      <==> WriterRuns(P, data, password, iterations, salt, nonce, back)
  {
    hide CompactMagic, Print, MakeTag, Encrypted, EntryRuns, Pad;
  }

  lemma UnfitIsRaised(
      P: Primitives, container: bytes, password: bytes, h: Header, data: bytes, there: bool, back: bool)
    requires IsCompact(P, container, password, h, data, there) && !IsCompact(P, container, password, h, data, back)
    ensures DecryptCompact(P, container, password, back) == Err(OverflowError)
  {
    hide CompactMagic, Print, MakeTag, Encrypted, Decrypted, DecryptEntry, EntryRuns, UnpackHeader, Unpad, Pad;
    var keys := PyDeriveKeys(P, password, h.salt, h.iterations).value;
    var ciphertext := CompactCipher(P, h, keys.0, data);
    CompactSlices(Print(h), ciphertext, MakeTag(P, keys.1, Print(h), ciphertext));
    HeaderCodecExact(Print(h), h);
    EntryIsEngine(P, h.version, keys.0, h.nonce, ciphertext, back);
  }

  // ----- What the tag is about -----

  /** The reference derives the keys that the Rust crate derives, and refuses the same arguments. */
  lemma PyKeysAgree(P: Primitives, password: bytes, salt: bytes, iterations: u32)
    ensures PyDeriveKeys(P, password, salt, iterations).Ok? <==> DeriveKeys(P, password, salt, iterations).Ok?
    ensures DeriveKeys(P, password, salt, iterations).Ok? ==>
      PyDeriveKeys(P, password, salt, iterations).value == DeriveKeys(P, password, salt, iterations).value
    ensures PyDeriveKeys(P, password, salt, iterations).Err? ==>
      PyDeriveKeys(P, password, salt, iterations) == Err(ValueError)
    ensures DeriveKeys(P, password, salt, iterations).Err? ==>
      DeriveKeys(P, password, salt, iterations) == Err(if password == [] then InvalidPassword else InvalidParameter)
  {
    hide Ascii;
  }

  ghost function AuthKey(P: Primitives, container: bytes, password: bytes, native: bool): Digest
    requires DecryptCompact(P, container, password, native).Ok?
  {
    var h := UnpackHeader(container[8..53]).value;
    PyDeriveKeys(P, password, h.salt, h.iterations).value.1
  }

  /** An accepted container ends in the HMAC of everything between magic and tag: header and ciphertext. */
  lemma AcceptedIsTagged(P: Primitives, container: bytes, password: bytes, native: bool)
    requires DecryptCompact(P, container, password, native).Ok?
    ensures |container| >= 85 && container[..8] == CompactMagic()
    ensures var n := |container|;
      container[n - 32..] == P.hmac(AuthKey(P, container, password, native), container[8..n - 32])
  {
    hide DecryptEntry, PyUnpad, PyDeriveKeys, UnpackHeader, CompactMagic;
    var n := |container|;
    assert container[8..n - 32] == container[8..53] + container[53..n - 32];
  }

  /**
   * Two different containers accepted under one authentication key with equal tags exhibit two
   * different inputs with the same HMAC value; the whole header is part of them.
   */
  lemma CompactTagBinds(P: Primitives, c: bytes, p: bytes, d: bytes, q: bytes, native: bool)
    requires DecryptCompact(P, c, p, native).Ok? && DecryptCompact(P, d, q, native).Ok? && c != d
    requires AuthKey(P, c, p, native) == AuthKey(P, d, q, native)
    requires c[|c| - 32..] == d[|d| - 32..]
    ensures c[8..|c| - 32] != d[8..|d| - 32]
    ensures var key := AuthKey(P, c, p, native); P.hmac(key, c[8..|c| - 32]) == P.hmac(key, d[8..|d| - 32])
  {
    AcceptedIsTagged(P, c, p, native);
    AcceptedIsTagged(P, d, q, native);
    hide DecryptCompact, AuthKey, CompactMagic;
    MagicBodyTag(c);
    MagicBodyTag(d);
  }

  lemma MagicBodyTag(c: bytes)
    requires |c| >= 85
    ensures c == c[..8] + c[8..|c| - 32] + c[|c| - 32..]
  {
  }

  // ----- Which exception a refused container raises -----

  /** Behind framing, header and password: a wrong tag is an AuthenticationError, bad lengths a FormatError. */
  lemma AnswersOfCompact(P: Primitives, container: bytes, password: bytes, native: bool)
    ensures var n, r := |container|, DecryptCompact(P, container, password, native);
      if n < 85 || container[..8] != CompactMagic() || UnpackHeader(container[8..53]).Err? then r == Err(FormatError)
      else if password == [] then r == Err(ValueError)
      else
        var h := UnpackHeader(container[8..53]).value;
        var keys := PyDeriveKeys(P, password, h.salt, h.iterations).value;
        if container[n - 32..] != P.hmac(keys.1, container[8..n - 32]) then r == Err(AuthenticationError)
        else if n == 85 then r == Err(FormatError)
        else if n % 32 != 21 then r == Err(if native && h.version == 4 then ValueError else FormatError)
        else if !EntryRuns(P, h.version, keys.0, h.nonce, container[53..n - 32], native) then r == Err(OverflowError)
        else r.Ok? || r == Err(AuthenticationError)
  {
    hide EntryRuns, Encrypted, Decrypted, Unpad, Pad, Print, CompactMagic, PyDecryptFrom, DecryptEntry;
    var n := |container|;
    if n >= 85 && UnpackHeader(container[8..53]).Ok? && password != [] {
      var h := UnpackHeader(container[8..53]).value;
      HeaderCodecExact(container[8..53], h);
      hide UnpackHeader;
      var keys := PyDeriveKeys(P, password, h.salt, h.iterations).value;
      var ct := container[53..n - 32];
      assert container[8..n - 32] == container[8..53] + ct;
      assert n == 85 ==> ct == [];
      EntryAnswers(P, h.version, keys.0, h.nonce, ct, native);
    } else if n >= 85 {
      HeaderErrors(container[8..53]);
    }
  }

  lemma HeaderErrors(header: bytes)
    ensures UnpackHeader(header).Err? ==> UnpackHeader(header) == Err(FormatError)
  {
    hide ReadU32, ReadU64;
  }

  lemma EmptyRuns(P: Primitives, version: int, key: bytes, nonce: bytes, native: bool)
    ensures EntryRuns(P, version, key, nonce, [], native)
  {
  }

  lemma EntryAnswers(P: Primitives, version: int, key: bytes, nonce: bytes, ct: bytes, native: bool)
    requires BindingAccepts(key, nonce)
    ensures ct == [] ==> EntryRuns(P, version, key, nonce, ct, native)
    ensures var r := DecryptEntry(P, version, key, nonce, ct, native);
      if |ct| % 32 != 0 then r == Err(if native && version == 4 then ValueError else FormatError)
      else if !EntryRuns(P, version, key, nonce, ct, native) then r == Err(OverflowError)
      else
        && r.Ok? && |r.value| == |ct|
        && (if ct == [] then PyUnpad(r.value) == Err(FormatError)
            else PyUnpad(r.value).Err? ==> PyUnpad(r.value) == Err(AuthenticationError))
  {
    EmptyRuns(P, version, key, nonce, native);
    hide EntryRuns, Decrypted, PyDecryptFrom, PyUnpad;
    if |ct| % 32 == 0 {
      hide DecryptEntry;
      EntryIsEngine(P, version, key, nonce, ct, native);
      PyUnpadErrors(Decrypted(ChainOf(P, version, key, nonce), ct));
    }
  }

  lemma PyUnpadErrors(padded: bytes)
    requires |padded| % 32 == 0
    ensures if padded == [] then PyUnpad(padded) == Err(FormatError)
      else PyUnpad(padded).Err? ==> PyUnpad(padded) == Err(AuthenticationError)
  {
    hide Unpad;
    UnpadErrors(padded);
  }
}
