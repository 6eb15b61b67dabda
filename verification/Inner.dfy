/** The v5 inner plaintext: a 76-byte header, the payload, and arbitrary trailing padding. */
module Inner {
  import opened Bytes
  import opened Modular
  import opened Primitives
  import opened Wrappers

  const HEADER_BYTES: nat := 76

  datatype PaddingPolicy = MinimalBlock | RandomBlocks(maxBlocks: byte)

  datatype Info = Info(originalLength: nat, payloadLength: nat)

  /** The most padding blocks a policy allows. */
  function MaxPaddingBlocks(policy: PaddingPolicy): (k: nat)
    ensures policy.MinimalBlock? ==> k == 0
    ensures policy.RandomBlocks? ==> k <= 15 && k <= policy.maxBlocks && (k == 15 || k == policy.maxBlocks)
  {
    match policy
    case MinimalBlock => 0
    case RandomBlocks(maxBlocks) => if maxBlocks < 15 then maxBlocks else 15
  }

  /** How many random bytes `pack_inner` appends, given the random count byte. */
  function PaddingLength(policy: PaddingPolicy, count: byte): (n: nat)
    ensures n % 32 == 0 && n <= MaxPaddingBlocks(policy) * 32
    ensures (count - n / 32) % (MaxPaddingBlocks(policy) + 1) == 0
  {
    hide Residue;
    match policy
    case MinimalBlock => 0
    case RandomBlocks(_) =>
      var limit := MaxPaddingBlocks(policy);
      if limit == 0 then 0 else
        var k := Residue(count, limit + 1);
        WholeBlocks(k);
        32 * k
  }

  /** `count % m`, as a number of blocks. */
  function Residue(count: nat, m: nat): (k: nat)
    requires m > 0
    ensures k < m && (count - k) % m == 0
  {
    assert count - count % m == (count / m) * m;
    ModShift(0, count / m, m);
    count % m
  }

  lemma WholeBlocks(k: nat)
    ensures (32 * k) % 32 == 0 && (32 * k) / 32 == k
  {
  }

  /** Every permitted number of blocks comes up, and nothing fixes it but the count byte's residue. */
  lemma EveryPaddingComesUp(policy: PaddingPolicy, n: nat)
    ensures (exists count: byte :: PaddingLength(policy, count) == n)
      <==> n % 32 == 0 && n <= MaxPaddingBlocks(policy) * 32
  {
    if n % 32 == 0 && n <= MaxPaddingBlocks(policy) * 32 {
      var k: byte := n / 32;
      ModSmall(k, MaxPaddingBlocks(policy) + 1);
      assert PaddingLength(policy, k) == n;
    }
  }

  function InnerHeader(original: nat, payload: nat, digest: Digest): (h: bytes)
    ensures |h| == HEADER_BYTES
  {
    Ascii("KRCMIN5\0") + [1] + [0] + BE2(0) + BE8(original) + BE8(payload) + digest
      + BE2(1) + BE2(32) + BE2(10) + Zeros(10)
  }

  /** `pack_inner`, with the random bytes as a parameter. */
  function PackInner(P: Primitives, data: bytes, padding: bytes): (inner: bytes)
    ensures |inner| == HEADER_BYTES + |data| + |padding|
    ensures inner[HEADER_BYTES..HEADER_BYTES + |data|] == data && inner[HEADER_BYTES + |data|..] == padding
  {
    hide InnerHeader;
    InnerHeader(|data|, |data|, P.sha256(data)) + data + padding
  }

  /** The guards before the first length that the header states. */
  predicate InnerPrefix(inner: bytes)
  {
    && |inner| >= HEADER_BYTES && inner[0..8] == Ascii("KRCMIN5\0") && inner[8] == 1
    && inner[9] == 0 && inner[10..12] == [0, 0]
    && ReadU16(inner[60..62]) == 1 && ReadU16(inner[62..64]) == 32 && ReadU16(inner[64..66]) == 10
    && (forall i :: 66 <= i < 76 ==> inner[i] == 0)
  }

  function InspectInner(P: Primitives, inner: bytes): (r: Result<Info, KrcmError>)
    ensures r.Ok? ==> HEADER_BYTES + r.value.payloadLength <= |inner|
    ensures r.Ok? ==> r.value.originalLength <= r.value.payloadLength
  {
    if !InnerPrefix(inner) then Err(Authentication)
    else
      var original, payload := ReadU64(inner[12..20]), ReadU64(inner[20..28]);
      if HEADER_BYTES + payload > |inner| || original > payload then Err(Authentication)
      else if inner[28..60] != P.sha256(inner[HEADER_BYTES..HEADER_BYTES + payload]) then Err(Authentication)
      else Ok(Info(original, payload))
  }

  function UnpackInner(P: Primitives, inner: bytes): Result<bytes, KrcmError>
  {
    var info :- InspectInner(P, inner);
    Ok(inner[HEADER_BYTES..HEADER_BYTES + info.payloadLength][..info.originalLength])
  }

  /** The header's fields sit where the reader looks for them. */
  lemma HeaderFields(original: nat, payload: nat, digest: Digest)
    ensures var h := InnerHeader(original, payload, digest);
      && h[0..8] == Ascii("KRCMIN5\0") && h[8] == 1 && h[9] == 0 && h[10..12] == BE2(0)
      && h[12..20] == BE8(original) && h[20..28] == BE8(payload) && h[28..60] == digest
      && h[60..62] == BE2(1) && h[62..64] == BE2(32) && h[64..66] == BE2(10) && h[66..76] == Zeros(10)
  {
    hide BE2, BE8, Ascii, Zeros;
  }

  /** A header with the expected fields is the printed one. */
  lemma HeaderFromFields(h: bytes, original: nat, payload: nat, digest: Digest)
    requires |h| == HEADER_BYTES
    requires h[0..8] == Ascii("KRCMIN5\0") && h[8] == 1 && h[9] == 0 && h[10..12] == BE2(0)
    requires h[12..20] == BE8(original) && h[20..28] == BE8(payload) && h[28..60] == digest
    requires h[60..62] == BE2(1) && h[62..64] == BE2(32) && h[64..66] == BE2(10) && h[66..76] == Zeros(10)
    ensures h == InnerHeader(original, payload, digest)
  {
    hide BE2, BE8, Ascii, Zeros;
    assert h[8..9] == [1] && h[9..10] == [0];
    assert h == h[0..8] + h[8..9] + h[9..10] + h[10..12] + h[12..20] + h[20..28] + h[28..60]
      + h[60..62] + h[62..64] + h[64..66] + h[66..76];
  }

  /**
   * The reader accepts exactly a printed header with the payload's own hash, then at least the
   * payload it announces; everything after the payload is free.
   */
  lemma InspectInnerExact(P: Primitives, inner: bytes, info: Info)
    requires info.payloadLength < TWO64
    ensures InspectInner(P, inner) == Ok(info) <==>
      && info.originalLength <= info.payloadLength
      && HEADER_BYTES + info.payloadLength <= |inner|
      && inner[..HEADER_BYTES] == InnerHeader(info.originalLength, info.payloadLength,
           P.sha256(inner[HEADER_BYTES..HEADER_BYTES + info.payloadLength]))
  {
    hide InnerHeader, InspectInner;
    if InspectInner(P, inner) == Ok(info) {
      AcceptedIsPrinted(P, inner, info);
    } else if HEADER_BYTES + info.payloadLength <= |inner| && info.originalLength <= info.payloadLength {
      if inner[..HEADER_BYTES] == InnerHeader(info.originalLength, info.payloadLength,
        P.sha256(inner[HEADER_BYTES..HEADER_BYTES + info.payloadLength]))
      {
        PrintedIsAccepted(P, inner, info);
      }
    }
  }

  lemma AcceptedIsPrinted(P: Primitives, inner: bytes, info: Info)
    requires InspectInner(P, inner) == Ok(info)
    ensures HEADER_BYTES + info.payloadLength <= |inner|
    ensures inner[..HEADER_BYTES] == InnerHeader(info.originalLength, info.payloadLength,
      P.sha256(inner[HEADER_BYTES..HEADER_BYTES + info.payloadLength]))
  {
    hide BE2, BE8, Ascii, InnerHeader, ReadU16, ReadU64;
    var h := inner[..HEADER_BYTES];
    FieldsOfPrefix(inner, h);
    SmallWords();
    BE8Read(h[12..20]);
    BE8Read(h[20..28]);
    BE2Read(h[60..62]);
    BE2Read(h[62..64]);
    BE2Read(h[64..66]);
    assert inner[66..76] == Zeros(10);
    HeaderFromFields(h, info.originalLength, info.payloadLength, h[28..60]);
  }

  lemma FieldsOfPrefix(inner: bytes, h: bytes)
    requires |inner| >= HEADER_BYTES && h == inner[..HEADER_BYTES]
    ensures h[0..8] == inner[0..8] && h[8] == inner[8] && h[9] == inner[9] && h[10..12] == inner[10..12]
    ensures h[12..20] == inner[12..20] && h[20..28] == inner[20..28] && h[28..60] == inner[28..60]
    ensures h[60..62] == inner[60..62] && h[62..64] == inner[62..64] && h[64..66] == inner[64..66]
    ensures h[66..76] == inner[66..76]
  {
  }

  lemma SmallWords()
    ensures BE2(0) == [0, 0] && ReadU16(BE2(1)) == 1 && ReadU16(BE2(32)) == 32 && ReadU16(BE2(10)) == 10
  {
    ReadBE2(1);
    ReadBE2(32);
    ReadBE2(10);
  }

  lemma PrintedIsAccepted(P: Primitives, inner: bytes, info: Info)
    requires info.originalLength <= info.payloadLength < TWO64
    requires HEADER_BYTES + info.payloadLength <= |inner|
    requires inner[..HEADER_BYTES] == InnerHeader(info.originalLength, info.payloadLength,
      P.sha256(inner[HEADER_BYTES..HEADER_BYTES + info.payloadLength]))
    ensures InspectInner(P, inner) == Ok(info)
  {
    hide BE2, BE8, Ascii, InnerHeader, ReadU16, ReadU64;
    var h := inner[..HEADER_BYTES];
    var payload := inner[HEADER_BYTES..HEADER_BYTES + info.payloadLength];
    HeaderFields(info.originalLength, info.payloadLength, P.sha256(payload));
    FieldsOfPrefix(inner, h);
    SmallWords();
    ReadBE8(info.originalLength);
    ReadBE8(info.payloadLength);
    forall i | 66 <= i < 76 ensures inner[i] == 0 {
      assert inner[i] == inner[66..76][i - 66];
    }
  }

  /** What is packed unpacks to itself, whatever the padding. */
  lemma UnpackOfPack(P: Primitives, data: bytes, padding: bytes)
    requires |data| < TWO64
    ensures UnpackInner(P, PackInner(P, data, padding)) == Ok(data)
  {
    hide InnerHeader, InspectInner;
    var inner := PackInner(P, data, padding);
    assert inner[HEADER_BYTES..HEADER_BYTES + |data|] == data;
    assert inner[..HEADER_BYTES] == InnerHeader(|data|, |data|, P.sha256(data));
    InspectInnerExact(P, inner, Info(|data|, |data|));
    assert data[..|data|] == data;
  }

  /**
   * Unpacking yields `data` exactly on a header that states its length, the payload's length and the
   * payload's hash, then a payload that starts with `data`, then anything.
   */
  lemma UnpackInnerExact(P: Primitives, inner: bytes, data: bytes)
    requires |inner| < TWO64
    ensures UnpackInner(P, inner) == Ok(data) <==>
      exists payload: bytes :: data <= payload && IsInner(P, inner, data, payload)
  {
    hide InnerHeader, InspectInner;
    if UnpackInner(P, inner) == Ok(data) {
      var info := InspectInner(P, inner).value;
      InspectInnerExact(P, inner, info);
      var payload := inner[HEADER_BYTES..HEADER_BYTES + info.payloadLength];
      assert data <= payload && IsInner(P, inner, data, payload);
    }
    forall payload: bytes | data <= payload && IsInner(P, inner, data, payload)
      ensures UnpackInner(P, inner) == Ok(data)
    {
      InspectInnerExact(P, inner, Info(|data|, |payload|));
      assert payload[..|data|] == data;
    }
  }

  /** `inner` is a header for |data| bytes of the payload, the payload, and some padding. */
  predicate IsInner(P: Primitives, inner: bytes, data: bytes, payload: bytes)
  {
    && HEADER_BYTES + |payload| <= |inner|
    && inner[..HEADER_BYTES] == InnerHeader(|data|, |payload|, P.sha256(payload))
    && inner[HEADER_BYTES..HEADER_BYTES + |payload|] == payload
  }
}
