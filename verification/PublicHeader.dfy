/** The fixed 64-byte public header of a v5 container. */
module PublicHeader {
  import opened Bytes
  import opened Inner
  import opened Kdf
  import opened Modular
  import opened Wrappers

  const HEADER_V5_SIZE: nat := 64

  /** A salt or a nonce. */
  type Bytes16 = s: bytes | |s| == 16 witness seq(16, _ => 0)

  /** The caller's options, with salt and nonce as drawn or given. */
  datatype Options = Options(
    kdf: KdfParams, policy: PaddingPolicy, segmentSize: nat, workers: nat, salt: Bytes16, publicNonce: Bytes16)

  datatype Parsed = Parsed(kdf: KdfParams, salt: Bytes16, publicNonce: Bytes16)

  function Magic(): (m: bytes)
    ensures |m| == 8
  {
    Ascii("KRCMSPN\0")
  }

  /** The exponent of the next power of two: the least k with n <= 2^k. */
  function CeilLog2(n: nat): (k: nat)
    requires n > 0
    ensures n <= Pow2(k) && (k > 0 ==> Pow2(k - 1) < n)
  {
    if n == 1 then 0 else 1 + CeilLog2((n + 1) / 2)
  }

  /** The requested size, but at least one block. */
  function SegmentSizeFor(requested: nat): (size: nat)
    ensures size >= 32 && size >= requested && (size == 32 || size == requested)
  {
    if requested < 32 then 32 else requested
  }

  /** The fifteen bytes 10 to 24: KDF number, flags, and the fields of the KDF in use. */
  function KdfFields(kdf: KdfParams): (f: bytes)
    ensures |f| == 15
  {
    match kdf
    case Pbkdf2(iterations) => [1, 0] + BE4(iterations) + [0] + BE4(0) + BE4(0)
    case Scrypt(nLog2, r, p) => [2, 0] + BE4(0) + [nLog2] + BE4(r) + BE4(p)
  }

  /** All 64 bytes of a header, by the offsets the source writes the fields to. */
  predicate HasLayout(h: bytes, opts: Options)
  {
    && |h| == HEADER_V5_SIZE
    && h[0..8] == Magic() && h[8] == 5 && h[9] == 1 && h[11] == 0
    && h[10] == (if opts.kdf.Pbkdf2? then 1 else 2)
    && h[12..16] == (if opts.kdf.Pbkdf2? then BE4(opts.kdf.iterations) else BE4(0))
    && h[16] == (if opts.kdf.Scrypt? then opts.kdf.nLog2 else 0)
    && h[17..21] == (if opts.kdf.Scrypt? then BE4(opts.kdf.r) else BE4(0))
    && h[21..25] == (if opts.kdf.Scrypt? then BE4(opts.kdf.p) else BE4(0))
    && h[25] == CeilLog2(SegmentSizeFor(opts.segmentSize)) % 256
    && h[26] == (if opts.policy.MinimalBlock? then 0 else 1)
    && h[27..32] == Zeros(5)
    && h[32..48] == opts.salt && h[48..64] == opts.publicNonce
  }

  function Printed(opts: Options): (h: bytes)
    ensures |h| == HEADER_V5_SIZE
  {
    Magic() + [5, 1] + KdfFields(opts.kdf)
      + [CeilLog2(SegmentSizeFor(opts.segmentSize)) % 256, if opts.policy.MinimalBlock? then 0 else 1]
      + Zeros(5) + opts.salt + opts.publicNonce
  }

  function PackHeader(opts: Options): (r: Result<bytes, KrcmError>)
    ensures r.Ok? <==> ValidParams(opts.kdf)
    ensures r.Ok? ==> HasLayout(r.value, opts)
    ensures r.Err? ==> r.error == InvalidParameter
  {
    hide CeilLog2, Zeros, Magic, HasLayout, KdfFields;
    if !ValidParams(opts.kdf) then Err(InvalidParameter) else
      LayoutOfPack(opts);
      Ok(Printed(opts))
  }

  lemma KdfFieldsLayout(kdf: KdfParams)
    ensures var f := KdfFields(kdf);
      && f[0] == (if kdf.Pbkdf2? then 1 else 2) && f[1] == 0
      && f[2..6] == (if kdf.Pbkdf2? then BE4(kdf.iterations) else BE4(0))
      && f[6] == (if kdf.Scrypt? then kdf.nLog2 else 0)
      && f[7..11] == (if kdf.Scrypt? then BE4(kdf.r) else BE4(0))
      && f[11..15] == (if kdf.Scrypt? then BE4(kdf.p) else BE4(0))
  {
    hide BE4;
  }

  lemma LayoutOfPack(opts: Options)
    ensures HasLayout(Printed(opts), opts)
  {
    hide KdfFields, BE4, CeilLog2, Zeros, Magic;
    var h, f := Printed(opts), KdfFields(opts.kdf);
    KdfFieldsLayout(opts.kdf);
    SlicesOfPack(opts);
    hide Printed;
    assert h[10] == h[10..25][0] && h[11] == h[10..25][1] && h[16] == h[10..25][6];
    SliceOfSlice(h, 10, 25, 2, 6);
    SliceOfSlice(h, 10, 25, 7, 11);
    SliceOfSlice(h, 10, 25, 11, 15);
  }

  lemma SlicesOfPack(opts: Options)
    ensures var h := Printed(opts);
      && h[0..8] == Magic() && h[8] == 5 && h[9] == 1 && h[10..25] == KdfFields(opts.kdf)
      && h[25] == CeilLog2(SegmentSizeFor(opts.segmentSize)) % 256
      && h[26] == (if opts.policy.MinimalBlock? then 0 else 1)
      && h[27..32] == Zeros(5) && h[32..48] == opts.salt && h[48..64] == opts.publicNonce
  {
    hide KdfFields, CeilLog2, Zeros, Magic;
  }

  function ParseHeader(header: bytes): Result<Parsed, KrcmError>
  {
    if |header| != HEADER_V5_SIZE || header[0..8] != Magic() || header[8] != 5 then Err(Format)
    else if header[9] != 1 || header[11] != 0 || (exists i :: 27 <= i < 32 && header[i] != 0) then Err(Format)
    else if header[26] > 1 then Err(InvalidParameter)
    else if header[10] == 1 then
      Ok(Parsed(Pbkdf2(ReadU32(header[12..16])), header[32..48], header[48..64]))
    else if header[10] == 2 then
      Ok(Parsed(Scrypt(header[16], ReadU32(header[17..21]), ReadU32(header[21..25])), header[32..48], header[48..64]))
    else Err(InvalidParameter)
  }

  /** Parsing a packed header gives back the KDF, the salt and the nonce. */
  lemma ParseOfPack(opts: Options)
    requires ValidParams(opts.kdf)
    ensures ParseHeader(PackHeader(opts).value) == Ok(Parsed(opts.kdf, opts.salt, opts.publicNonce))
  {
    var h := PackHeader(opts).value;
    hide PackHeader, ReadU32, BE4, Ascii, CeilLog2, ValidParams;
    assert forall i :: 27 <= i < 32 ==> h[i] == h[27..32][i - 27];
    match opts.kdf
    case Pbkdf2(iterations) =>
      ReadBE4(iterations);
    case Scrypt(_, r, p) =>
      ReadBE4(r);
      ReadBE4(p);
  }

  /**
   * Two readable headers parse alike exactly when they agree on the KDF number, on the fields of
   * that KDF, and on salt and nonce. Bytes 25 and 26 and the fields of the other KDF are free.
   */
  lemma ParseAlike(g: bytes, h: bytes)
    requires ParseHeader(g).Ok? && ParseHeader(h).Ok?
    ensures ParseHeader(g) == ParseHeader(h) <==>
      && g[10] == h[10] && g[32..] == h[32..]
      && (if g[10] == 1 then g[12..16] == h[12..16] else g[16..25] == h[16..25])
  {
    hide ReadU32, Ascii;
    SaltAndNonce(g, h);
    if g[10] == h[10] == 1 {
      SameRead(g[12..16], h[12..16]);
    } else if g[10] == h[10] == 2 {
      SameRead(g[17..21], h[17..21]);
      SameRead(g[21..25], h[21..25]);
      ScryptFields(g, h);
    }
  }

  lemma SameRead(a: bytes, b: bytes)
    requires |a| == |b| == 4
    ensures ReadU32(a) == ReadU32(b) <==> a == b
  {
    hide ReadU32, BE4;
    BE4Read(a);
    BE4Read(b);
  }

  lemma SaltAndNonce(g: bytes, h: bytes)
    requires |g| == |h| == HEADER_V5_SIZE
    ensures g[32..] == h[32..] <==> g[32..48] == h[32..48] && g[48..64] == h[48..64]
  {
    assert g[32..] == g[32..48] + g[48..64] && h[32..] == h[32..48] + h[48..64];
    assert g[32..48] == g[32..][..16] && g[48..64] == g[32..][16..];
    assert h[32..48] == h[32..][..16] && h[48..64] == h[32..][16..];
  }

  lemma ScryptFields(g: bytes, h: bytes)
    requires |g| == |h| == HEADER_V5_SIZE
    ensures g[16..25] == h[16..25] <==> g[16] == h[16] && g[17..21] == h[17..21] && g[21..25] == h[21..25]
  {
    assert g[16..25] == [g[16]] + g[17..21] + g[21..25] && h[16..25] == [h[16]] + h[17..21] + h[21..25];
    assert g[16] == g[16..25][0] && g[17..21] == g[16..25][1..5] && g[21..25] == g[16..25][5..];
    assert h[16] == h[16..25][0] && h[17..21] == h[16..25][1..5] && h[21..25] == h[16..25][5..];
  }

  /** What a packed header tells beyond what its parse gives: the segment size's exponent and the policy's kind. */
  lemma PackTellsApart(o: Options, p: Options)
    requires ValidParams(o.kdf) && ValidParams(p.kdf)
    ensures PackHeader(o) == PackHeader(p) <==>
      && o.kdf == p.kdf && o.salt == p.salt && o.publicNonce == p.publicNonce
      && CeilLog2(SegmentSizeFor(o.segmentSize)) % 256 == CeilLog2(SegmentSizeFor(p.segmentSize)) % 256
      && o.policy.MinimalBlock? == p.policy.MinimalBlock?
  {
    ParseOfPack(o);
    ParseOfPack(p);
    hide ParseHeader, CeilLog2, ValidParams, BE4, Ascii;
  }

  /** A header is refused with InvalidParameter exactly when other values of bytes 10 and 26 would make it readable. */
  lemma ParseErrors(h: bytes)
    ensures ParseHeader(h).Err? ==> ParseHeader(h).error in {Format, InvalidParameter}
    ensures ParseHeader(h) == Err(InvalidParameter)
      <==> ParseHeader(h).Err? && |h| == HEADER_V5_SIZE && ParseHeader(h[10 := 1][26 := 0]).Ok?
  {
    hide ReadU32, Magic;
    if |h| == HEADER_V5_SIZE {
      var g := h[10 := 1][26 := 0];
      assert g[0..8] == h[0..8];
      assert forall i :: 27 <= i < 32 ==> g[i] == h[i];
    }
  }

  /** The bytes a parser does not look at, besides bounding byte 26: number 25, and the fields of the other KDF. */
  predicate Free(kdf: KdfParams, i: nat)
  {
    i == 25 || (if kdf.Pbkdf2? then 16 <= i < 25 else 12 <= i < 16)
  }

  predicate SameButFree(h: bytes, g: bytes, kdf: KdfParams)
  {
    |h| == |g| == HEADER_V5_SIZE && forall i :: 0 <= i < HEADER_V5_SIZE && !Free(kdf, i) ==> h[i] == g[i]
  }

  /** A header is read as `p` exactly when, but for free bytes, it is printed from `p` under some padding policy. */
  lemma ParseExact(h: bytes, p: Parsed)
    ensures ParseHeader(h) == Ok(p) <==>
      exists policy :: SameButFree(h, Printed(Options(p.kdf, policy, 32, 1, p.salt, p.publicNonce)), p.kdf)
  {
    hide ParseHeader, SameButFree, Printed;
    var policy := if |h| > 26 && h[26] == 0 then MinimalBlock else RandomBlocks(1);
    if ParseHeader(h) == Ok(p) {
      ParsedIsPrinted(h, p, policy);
    }
    forall policy ensures SameButFree(h, Printed(Options(p.kdf, policy, 32, 1, p.salt, p.publicNonce)), p.kdf) ==>
      ParseHeader(h) == Ok(p)
    {
      if SameButFree(h, Printed(Options(p.kdf, policy, 32, 1, p.salt, p.publicNonce)), p.kdf) {
        PrintedIsParsed(h, p, policy);
      }
    }
  }

  lemma SameBySlices(h: bytes, g: bytes, kdf: KdfParams)
    requires |h| == |g| == HEADER_V5_SIZE
    ensures SameButFree(h, g, kdf) <==>
      && h[0..8] == g[0..8] && h[8] == g[8] && h[9] == g[9] && h[10] == g[10] && h[11] == g[11]
      && (if kdf.Pbkdf2? then h[12..16] == g[12..16]
          else h[16] == g[16] && h[17..21] == g[17..21] && h[21..25] == g[21..25])
      && h[26] == g[26] && h[27..32] == g[27..32] && h[32..48] == g[32..48] && h[48..64] == g[48..64]
  {
    SamePart(h, g, 0, 8);
    SamePart(h, g, 12, 16);
    SamePart(h, g, 17, 21);
    SamePart(h, g, 21, 25);
    SamePart(h, g, 27, 32);
    SamePart(h, g, 32, 48);
    SamePart(h, g, 48, 64);
  }

  lemma SamePart(h: bytes, g: bytes, a: nat, b: nat)
    requires |h| == |g| && a <= b <= |h|
    ensures h[a..b] == g[a..b] <==> forall i :: a <= i < b ==> h[i] == g[i]
  {
    if h[a..b] == g[a..b] {
      forall i | a <= i < b ensures h[i] == g[i] {
        assert h[i] == h[a..b][i - a] && g[i] == g[a..b][i - a];
      }
    }
  }

  lemma ParsedIsPrinted(h: bytes, p: Parsed, policy: PaddingPolicy)
    requires ParseHeader(h) == Ok(p) && policy == if |h| > 26 && h[26] == 0 then MinimalBlock else RandomBlocks(1)
    ensures SameButFree(h, Printed(Options(p.kdf, policy, 32, 1, p.salt, p.publicNonce)), p.kdf)
  {
    hide ReadU32, BE4, Magic, CeilLog2, SameButFree, Printed;
    var opts := Options(p.kdf, policy, 32, 1, p.salt, p.publicNonce);
    var g := Printed(opts);
    LayoutOfPack(opts);
    SameBySlices(h, g, p.kdf);
    BE4Read(h[12..16]);
    BE4Read(h[17..21]);
    BE4Read(h[21..25]);
    assert forall i :: 27 <= i < 32 ==> h[27..32][i - 27] == h[i];
    assert h[27..32] == Zeros(5);
  }

  lemma PrintedIsParsed(h: bytes, p: Parsed, policy: PaddingPolicy)
    requires SameButFree(h, Printed(Options(p.kdf, policy, 32, 1, p.salt, p.publicNonce)), p.kdf)
    ensures ParseHeader(h) == Ok(p)
  {
    hide ReadU32, BE4, Magic, CeilLog2, Printed;
    var opts := Options(p.kdf, policy, 32, 1, p.salt, p.publicNonce);
    LayoutOfPack(opts);
    assert |h| == HEADER_V5_SIZE;
    SameBySlices(h, Printed(opts), p.kdf);
    hide SameButFree;
    assert forall i :: 27 <= i < 32 ==> h[i] == h[27..32][i - 27];
    match p.kdf
    case Pbkdf2(iterations) =>
      ReadBE4(iterations);
    case Scrypt(_, r, q) =>
      ReadBE4(r);
      ReadBE4(q);
  }
}
