/** What the v5 container promises: canonical acceptance, the round trip, and tag binding. */
module FormatV5Theorems {
  import opened Bytes
  import opened FormatV5
  import opened Inner
  import opened Kdf
  import opened Padding
  import opened Primitives
  import opened PublicHeader
  import opened SegmentTable
  import opened Segments
  import opened Transcript
  import opened Wrappers

  // ----- Sizes and sums -----

  lemma {:induction false} CipherCoversPlain(c: Context, segs: seq<bytes>, ordinal: nat)
    ensures |Concat(segs)| + |segs| <= |CiphersFrom(c, segs, ordinal)|
    decreases |segs|
  {
    hide SegmentCipher;
    if segs != [] {
      CipherCoversPlain(c, segs[1..], ordinal + 1);
    }
  }

  lemma {:induction false} SumOfOpened(c: Context, es: seq<Entry>, ct: bytes)
    requires InBounds(es, |ct|) && OpenFrom(c, es, ct).Ok?
    ensures PlainSum(es) == |Concat(OpenFrom(c, es, ct).value)|
    decreases |es|
  {
    hide OpenSegment;
    if es != [] {
      SumOfOpened(c, es[1..], ct);
      var segs, rest := OpenFrom(c, es, ct).value, OpenFrom(c, es[1..], ct).value;
      assert segs[1..] == rest;
    }
  }

  lemma {:induction false} SumOfTiling(es: seq<Entry>, ordinal: nat, plain: nat, cipher: nat, cipherLen: nat)
    requires TilesFrom(es, ordinal, plain, cipher, cipherLen) && plain < TWO64
    ensures plain + PlainSum(es) < TWO64
    decreases |es|
  {
    if es != [] {
      var e, rest := es[0], es[1..];
      assert es == [e] + rest;
      TilesCons(e, rest, ordinal, plain, cipher, cipherLen);
      hide TilesFrom;
      SumOfTiling(rest, ordinal + 1, e.PlainEnd(), e.CipherEnd(), cipherLen);
    }
  }

  /** After parsing, opening and inspecting, the sum cannot overflow and the last guard cannot fail. */
  lemma LateChecksImplied(P: Primitives, c: Context, table: bytes, ct: bytes, es: seq<Entry>, inner: bytes)
    requires ParseTable(table, |ct|) == Ok(es)
    ensures InBounds(es, |ct|)
    ensures OpenInner(c, es, ct) == Ok(inner) ==> PlainSum(es) == |inner| < TWO64
    ensures InspectInner(P, inner).Ok? ==> InspectInner(P, inner).value.payloadLength <= |inner|
  {
    hide TilesFrom, InBounds, PlainSum, OpenFrom;
    ParseTableExact(table, es, |ct|);
    TilesInBounds(es, 0, 0, 0, |ct|);
    if OpenInner(c, es, ct) == Ok(inner) {
      SumOfOpened(c, es, ct);
      SumOfTiling(es, 0, 0, 0, |ct|);
    }
  }

  // ----- Acceptance is sealing -----

  /** The outer pieces are the ones that sealing `segs` produces. */
  ghost predicate SealsTo(P: Primitives, keys: V5Keys, o: Outer, segs: seq<bytes>)
  {
    && segs != []
    && o.siv == SyntheticIv(P, keys, o.header, Concat(segs))
    && o.table == Serialized(EntriesFrom(segs, 0, 0, 0))
    && o.ciphertext == CiphersFrom(Context(P, keys, o.parsed.publicNonce, o.siv), segs, 0)
    && o.tag == Tag(P, keys, o.header, o.siv, o.table, o.ciphertext)
  }

  /** With a parsed table, opening succeeds exactly when the table and ciphertext fit the segments. */
  lemma OpenTableExact(c: Context, table: bytes, ct: bytes, es: seq<Entry>, segs: seq<bytes>)
    requires ParseTable(table, |ct|) == Ok(es)
    ensures InBounds(es, |ct|)
    ensures OpenFrom(c, es, ct) == Ok(segs) <==> es == EntriesFrom(segs, 0, 0, 0) && ct == CiphersFrom(c, segs, 0)
  {
    hide TilesFrom, InBounds, OpenFrom, EntriesFrom, CiphersFrom;
    ParseTableExact(table, es, |ct|);
    TilesInBounds(es, 0, 0, 0, |ct|);
    OpenFromExact(c, es, ct, 0, 0, 0, segs);
    assert ct[0..] == ct;
  }

  lemma OpenOuterFindsSegments(P: Primitives, keys: V5Keys, o: Outer) returns (segs: seq<bytes>)
    requires OpenOuter(P, keys, o).Ok?
    ensures SealsTo(P, keys, o, segs) && OpenOuter(P, keys, o) == UnpackInner(P, Concat(segs))
    ensures ParseTable(o.table, |o.ciphertext|) == Ok(EntriesFrom(segs, 0, 0, 0))
  {
    hide ParseTable, OpenFrom, InBounds, Tag, SyntheticIv, InspectInner, UnpackInner, PlainSum;
    hide EntriesFrom, CiphersFrom, Serialized;
    var c := Context(P, keys, o.parsed.publicNonce, o.siv);
    var es := ParseTable(o.table, |o.ciphertext|).value;
    ParseTableExact(o.table, es, |o.ciphertext|);
    TilesInBounds(es, 0, 0, 0, |o.ciphertext|);
    segs := OpenFrom(c, es, o.ciphertext).value;
    OpenTableExact(c, o.table, o.ciphertext, es, segs);
    EntriesFromSize(segs);
  }

  lemma EntriesFromSize(segs: seq<bytes>)
    ensures |EntriesFrom(segs, 0, 0, 0)| == |segs|
  {
  }

  /** The table of a sealing parses back to its entries. */
  lemma TableOfSeal(P: Primitives, keys: V5Keys, o: Outer, segs: seq<bytes>)
    requires SealsTo(P, keys, o, segs) && |o.ciphertext| < TWO64
    ensures ParseTable(o.table, |o.ciphertext|) == Ok(EntriesFrom(segs, 0, 0, 0))
  {
    hide ParseTable, Tag, SyntheticIv, EntriesFrom, CiphersFrom, Serialized, TilesFrom;
    var c := Context(P, keys, o.parsed.publicNonce, o.siv);
    CipherCoversPlain(c, segs, 0);
    EntriesTile(c, segs, 0, 0, 0);
    EntriesFromSize(segs);
    ParseTableExact(o.table, EntriesFrom(segs, 0, 0, 0), |o.ciphertext|);
  }

  lemma SealedOuterOpens(P: Primitives, keys: V5Keys, o: Outer, segs: seq<bytes>)
    requires SealsTo(P, keys, o, segs) && |o.ciphertext| < TWO64
    requires UnpackInner(P, Concat(segs)).Ok?
    ensures OpenOuter(P, keys, o) == UnpackInner(P, Concat(segs))
  {
    hide ParseTable, OpenFrom, InBounds, Tag, SyntheticIv, InspectInner, PlainSum, EntriesFrom, CiphersFrom, Serialized;
    hide TilesFrom;
    var c := Context(P, keys, o.parsed.publicNonce, o.siv);
    var es, ct := EntriesFrom(segs, 0, 0, 0), o.ciphertext;
    TableOfSeal(P, keys, o, segs);
    OpenTableExact(c, o.table, ct, es, segs);
    LateChecksImplied(P, c, o.table, ct, es, Concat(segs));
  }

  /** `container` is the sealing of `segs` under `header` and the password's keys, and `segs` hold `data`. */
  ghost predicate IsSealing(
    P: Primitives, container: bytes, password: bytes, header: bytes, segs: seq<bytes>, data: bytes)
  {
    && |header| == HEADER_V5_SIZE && ParseHeader(header).Ok? && segs != []
    && var h := ParseHeader(header).value;
       var root := DeriveRootKey(P, password, h.salt, h.kdf);
       && root.Ok?
       && container == Seal(P, DeriveV5Keys(P, root.value), h.publicNonce, header, segs)
       && UnpackInner(P, Concat(segs)) == Ok(data)
  }

  lemma HeaderOfSplit(container: bytes)
    requires SplitOuter(container).Ok?
    ensures |container| >= 77 && SplitOuter(container).value.header == container[13..77]
  {
    hide SplitPrefix, ReadU64;
  }

  /** Whatever is accepted is a sealing, of the header it carries and the segments it opens to. */
  lemma AcceptedIsSealing(P: Primitives, container: bytes, password: bytes) returns (segs: seq<bytes>)
    requires |container| < TWO64 && DecryptV5(P, container, password).Ok?
    ensures IsSealing(P, container, password, container[13..77], segs, DecryptV5(P, container, password).value)
    ensures SplitOuter(container).Ok?
    ensures var o := SplitOuter(container).value; ParseTable(o.table, |o.ciphertext|) == Ok(EntriesFrom(segs, 0, 0, 0))
  {
    hide SplitOuter, ParseHeader, OpenOuter, Assemble, Serialized, EntriesFrom, CiphersFrom, Tag, SyntheticIv;
    hide UnpackInner, ParseTable, DeriveRootKey, DeriveV5Keys, Concat;
    var o := SplitOuter(container).value;
    HeaderOfSplit(container);
    SplitOuterExact(container, o);
    var root := DeriveRootKey(P, password, o.parsed.salt, o.parsed.kdf).value;
    segs := OpenOuterFindsSegments(P, DeriveV5Keys(P, root), o);
  }

  /** The outer pieces of a sealing. */
  lemma OuterOfSeal(P: Primitives, keys: V5Keys, header: bytes, parsed: Parsed, segs: seq<bytes>) returns (o: Outer)
    requires segs != [] && |header| == HEADER_V5_SIZE
    ensures o.header == header && o.parsed == parsed && SealsTo(P, keys, o, segs) && |o.table| % 40 == 0
    ensures Seal(P, keys, parsed.publicNonce, header, segs) == Assemble(o.header, o.siv, o.table, o.ciphertext, o.tag)
    ensures |o.ciphertext| <= |Seal(P, keys, parsed.publicNonce, header, segs)|
  {
    hide Assemble, EntriesFrom, CiphersFrom, Tag, SyntheticIv, Concat, Serialized;
    var siv := SyntheticIv(P, keys, header, Concat(segs));
    var table := Serialized(EntriesFrom(segs, 0, 0, 0));
    var ct := CiphersFrom(Context(P, keys, parsed.publicNonce, siv), segs, 0);
    o := Outer(header, parsed, siv, table, ct, Tag(P, keys, header, siv, table, ct));
    AssembledSizes(o);
  }

  /** Every sealing of well-formed inner bytes is accepted and yields its data. */
  lemma SealingIsAccepted(
      P: Primitives, container: bytes, password: bytes, header: bytes, segs: seq<bytes>, data: bytes)
    requires |container| < TWO64 && IsSealing(P, container, password, header, segs, data)
    ensures DecryptV5(P, container, password) == Ok(data)
  {
    hide ParseHeader, OpenOuter, Assemble, Seal, SealsTo, UnpackInner, SplitOuter, DeriveRootKey, DeriveV5Keys, Concat;
    var h := ParseHeader(header).value;
    var keys := DeriveV5Keys(P, DeriveRootKey(P, password, h.salt, h.kdf).value);
    var o := OuterOfSeal(P, keys, header, h, segs);
    SplitOuterExact(container, o);
    SealedOuterOpens(P, keys, o, segs);
  }

  /** `decrypt_v5` accepts exactly the sealings: nothing else, and all of them. */
  lemma AcceptedExactlySealings(P: Primitives, container: bytes, password: bytes, data: bytes)
    requires |container| < TWO64
    ensures DecryptV5(P, container, password) == Ok(data)
      <==> exists header, segs :: IsSealing(P, container, password, header, segs, data)
  {
    hide IsSealing, DecryptV5;
    if DecryptV5(P, container, password) == Ok(data) {
      var segs := AcceptedIsSealing(P, container, password);
    }
    forall header, segs | IsSealing(P, container, password, header, segs, data)
      ensures DecryptV5(P, container, password) == Ok(data)
    {
      SealingIsAccepted(P, container, password, header, segs, data);
    }
  }

  // ----- Canonical form, spelled out with the table's own lengths -----

  predicate PlainInside(es: seq<Entry>, n: nat)
  {
    forall i :: 0 <= i < |es| ==> es[i].plainOffset <= es[i].PlainEnd() <= n
  }

  /** The inner bytes cut at the table's plain ranges. */
  ghost function Cut(inner: bytes, es: seq<Entry>): (segs: seq<bytes>)
    requires PlainInside(es, |inner|)
  {
    seq(|es|, i requires 0 <= i < |es| => inner[es[i].plainOffset..es[i].PlainEnd()])
  }

  lemma {:induction false} CutEntries(inner: bytes, segs: seq<bytes>, ordinal: nat, plain: nat, cipher: nat, i: nat)
    requires i < |segs| && plain <= |inner| && inner[plain..] == Concat(segs)
    ensures var e := EntriesFrom(segs, ordinal, plain, cipher)[i];
      e.PlainEnd() <= |inner| && inner[e.plainOffset..e.PlainEnd()] == segs[i]
    decreases |segs|
  {
    hide Pad;
    var n := |segs[0]|;
    assert inner[plain..][..n] == segs[0] && inner[plain..][n..] == Concat(segs[1..]);
    assert inner[plain..][..n] == inner[plain..plain + n] && inner[plain..][n..] == inner[plain + n..];
    if i > 0 {
      CutEntries(inner, segs[1..], ordinal + 1, plain + n, cipher + |Pad(segs[0])|, i - 1);
    }
  }

  /** The key, the table and the opened inner bytes of an accepted container. */
  ghost predicate Recovers(
    P: Primitives, container: bytes, password: bytes, o: Outer, keys: V5Keys, es: seq<Entry>, inner: bytes)
  {
    && SplitOuter(container) == Ok(o)
    && ParseTable(o.table, |o.ciphertext|) == Ok(es) && InBounds(es, |o.ciphertext|)
    && OpenInner(Context(P, keys, o.parsed.publicNonce, o.siv), es, o.ciphertext) == Ok(inner)
    && DeriveRootKey(P, password, o.parsed.salt, o.parsed.kdf).Ok?
    && keys == DeriveV5Keys(P, DeriveRootKey(P, password, o.parsed.salt, o.parsed.kdf).value)
  }

  /**
   * Accepted containers are canonical: cutting the recovered inner bytes at the table's plain
   * ranges and sealing them again under the same header and keys gives the container back,
   * byte for byte.
   */
  lemma AcceptedIsCanonical(P: Primitives, container: bytes, password: bytes)
    returns (o: Outer, keys: V5Keys, es: seq<Entry>, inner: bytes)
    requires |container| < TWO64 && DecryptV5(P, container, password).Ok?
    ensures Recovers(P, container, password, o, keys, es, inner) && PlainInside(es, |inner|)
    ensures container == Seal(P, keys, o.parsed.publicNonce, o.header, Cut(inner, es))
    ensures DecryptV5(P, container, password) == UnpackInner(P, inner)
  {
    hide SplitOuter, ParseHeader, ParseTable, OpenFrom, InBounds, Assemble, Serialized, EntriesFrom, CiphersFrom;
    hide Tag, SyntheticIv, UnpackInner, DeriveV5Keys, DeriveRootKey, PlainInside, Cut, Concat, OpenOuter;
    o := SplitOuter(container).value;
    keys := DeriveV5Keys(P, DeriveRootKey(P, password, o.parsed.salt, o.parsed.kdf).value);
    SplitOuterExact(container, o);
    var segs := OpenOuterFindsSegments(P, keys, o);
    es := EntriesFrom(segs, 0, 0, 0);
    inner := Concat(segs);
    OpenTableExact(Context(P, keys, o.parsed.publicNonce, o.siv), o.table, o.ciphertext, es, segs);
    CutRestores(segs);
  }

  lemma CutRestores(segs: seq<bytes>)
    ensures PlainInside(EntriesFrom(segs, 0, 0, 0), |Concat(segs)|)
    ensures Cut(Concat(segs), EntriesFrom(segs, 0, 0, 0)) == segs
  {
    var es, inner := EntriesFrom(segs, 0, 0, 0), Concat(segs);
    EntriesFromSize(segs);
    hide EntriesFrom, Concat;
    assert inner[0..] == inner;
    forall i | 0 <= i < |es|
      ensures es[i].plainOffset <= es[i].PlainEnd() <= |inner| && inner[es[i].plainOffset..es[i].PlainEnd()] == segs[i]
    {
      CutEntries(inner, segs, 0, 0, 0, i);
    }
  }

  // ----- The round trip -----

  /**
   * Encryption succeeds exactly when the password is not empty, the parameters are in range, and
   * the scrypt library, where it is the KDF, does not refuse. It fails with InvalidParameter only.
   */
  lemma EncryptSucceeds(P: Primitives, data: bytes, password: bytes, opts: Options, padding: bytes)
    ensures EncryptV5(P, data, password, opts, padding).Ok? <==> KeyDerivable(P, password, opts.salt, opts.kdf)
    ensures EncryptV5(P, data, password, opts, padding).Err? ==>
      EncryptV5(P, data, password, opts, padding) == Err(InvalidParameter)
  {
    hide Seal, Chunks, PackInner;
  }

  /** What is encrypted decrypts to exactly the data: any options, any padding, any size. */
  lemma V5RoundTrip(P: Primitives, data: bytes, password: bytes, opts: Options, padding: bytes)
    requires KeyDerivable(P, password, opts.salt, opts.kdf)
    ensures EncryptV5(P, data, password, opts, padding).Ok?
    ensures |EncryptV5(P, data, password, opts, padding).value| < TWO64 ==>
      DecryptV5(P, EncryptV5(P, data, password, opts, padding).value, password) == Ok(data)
  {
    EncryptSucceeds(P, data, password, opts, padding);
    hide ParseHeader, DecryptV5, Assemble, EntriesFrom, CiphersFrom, Tag, SyntheticIv, UnpackInner, Serialized;
    hide KdfFields;
    if |EncryptV5(P, data, password, opts, padding).value| >= TWO64 {
      return;
    }
    var container := EncryptV5(P, data, password, opts, padding).value;
    var header := PackHeader(opts).value;
    ParseOfPack(opts);
    var inner, size := PackInner(P, data, padding), SegmentSizeFor(opts.segmentSize);
    var segs := Chunks(inner, size);
    ChunksRejoin(inner, size);
    var keys := DeriveV5Keys(P, DeriveRootKey(P, password, opts.salt, opts.kdf).value);
    CipherCoversPlain(Context(P, keys, opts.publicNonce, SyntheticIv(P, keys, header, inner)), segs, 0);
    DataFits(P, keys, opts.publicNonce, header, segs);
    UnpackOfPack(P, data, padding);
    SealingIsAccepted(P, container, password, header, segs, data);
  }

  lemma DataFits(P: Primitives, keys: V5Keys, nonce: Bytes16, header: bytes, segs: seq<bytes>)
    requires |header| == 64
    ensures var siv := SyntheticIv(P, keys, header, Concat(segs));
      |CiphersFrom(Context(P, keys, nonce, siv), segs, 0)| <= |Seal(P, keys, nonce, header, segs)|
  {
    hide Serialized, EntriesFrom, CiphersFrom, SyntheticIv, Tag;
  }

  // ----- The tag binds everything -----

  /**
   * Two different containers accepted under the same keys authenticate two different
   * transcripts; if they carry the same tag, those are two inputs with the same HMAC value.
   */
  lemma DifferentContainersDifferInTranscript(P: Primitives, keys: V5Keys, c1: bytes, c2: bytes, o1: Outer, o2: Outer)
    requires |c1| < TWO64 && |c2| < TWO64 && c1 != c2
    requires SplitOuter(c1) == Ok(o1) && SplitOuter(c2) == Ok(o2)
    requires OpenOuter(P, keys, o1).Ok? && OpenOuter(P, keys, o2).Ok?
    ensures TagInput(o1.header, o1.siv, o1.table, o1.ciphertext) != TagInput(o2.header, o2.siv, o2.table, o2.ciphertext)
    ensures o1.tag == o2.tag ==>
      P.hmac(keys.auth, TagInput(o1.header, o1.siv, o1.table, o1.ciphertext))
        == P.hmac(keys.auth, TagInput(o2.header, o2.siv, o2.table, o2.ciphertext))
  {
    hide TagInput, Assemble, SplitOuter, ParseTable, OpenInner, SyntheticIv, InspectInner, UnpackInner, ParseHeader;
    SplitOuterExact(c1, o1);
    SplitOuterExact(c2, o2);
    AssembledSizes(o1);
    AssembledSizes(o2);
    if TagInput(o1.header, o1.siv, o1.table, o1.ciphertext) == TagInput(o2.header, o2.siv, o2.table, o2.ciphertext) {
      TranscriptIsInjective(o1.header, o1.siv, o1.table, o1.ciphertext, o2.header, o2.siv, o2.table, o2.ciphertext);
    }
  }

  lemma AssembledSizes(o: Outer)
    requires |o.header| == 64
    ensures var c := Assemble(o.header, o.siv, o.table, o.ciphertext, o.tag);
      |o.table| <= |c| && |o.ciphertext| <= |c|
  {
  }

  // ----- What the two HMAC values of a container are about -----

  /** An accepted container carries the HMAC of its header and inner bytes, and of its whole transcript. */
  lemma AcceptedCarriesBothHmacs(P: Primitives, container: bytes, password: bytes)
    returns (o: Outer, keys: V5Keys, es: seq<Entry>, inner: bytes)
    requires |container| < TWO64 && DecryptV5(P, container, password).Ok?
    ensures Recovers(P, container, password, o, keys, es, inner)
    ensures DecryptV5(P, container, password) == UnpackInner(P, inner)
    ensures o.header == container[13..77]
    ensures container[77..109] == P.hmac(keys.siv, SivInput(container[13..77], inner))
    ensures container[|container| - 32..] == P.hmac(keys.auth, TagInput(o.header, o.siv, o.table, o.ciphertext))
  {
    hide SplitOuter, ParseHeader, ParseTable, InBounds, Serialized, EntriesFrom, CiphersFrom, Recovers, OpenInner;
    hide TagInput, SivInput, UnpackInner, DeriveV5Keys, DeriveRootKey, PlainInside, Cut, Concat, OpenOuter, Assemble;
    o, keys, es, inner := AcceptedIsCanonical(P, container, password);
    RecoveredParts(P, container, password, o, keys, es, inner);
  }

  lemma RecoveredParts(
      P: Primitives, container: bytes, password: bytes, o: Outer, keys: V5Keys, es: seq<Entry>, inner: bytes)
    requires |container| < TWO64 && Recovers(P, container, password, o, keys, es, inner)
    requires PlainInside(es, |inner|) && container == Seal(P, keys, o.parsed.publicNonce, o.header, Cut(inner, es))
    requires DecryptV5(P, container, password).Ok?
    ensures o.header == container[13..77]
    ensures container[77..109] == P.hmac(keys.siv, SivInput(container[13..77], inner))
    ensures container[|container| - 32..] == P.hmac(keys.auth, TagInput(o.header, o.siv, o.table, o.ciphertext))
  {
    hide SplitOuter, ParseHeader, ParseTable, InBounds, Serialized, EntriesFrom, CiphersFrom, OpenInner, InspectInner;
    hide TagInput, SivInput, UnpackInner, DeriveV5Keys, DeriveRootKey, PlainInside, Cut, Concat, Assemble, PlainSum;
    hide Seal;
    SplitOuterExact(container, o);
    AssembleSlices(o.header, o.siv, o.table, o.ciphertext, o.tag);
  }

  /**
   * Two sealings under the same keys and header with different inner bytes and equal synthetic IVs
   * exhibit two different inputs with the same HMAC value.
   */
  lemma EqualIvsCollide(
      P: Primitives, keys: V5Keys, header: bytes, nonce: Bytes16, segs: seq<bytes>, nonce': Bytes16, segs': seq<bytes>)
    requires |header| == HEADER_V5_SIZE && Concat(segs) != Concat(segs')
    requires |Concat(segs)| < TWO64 && |Concat(segs')| < TWO64
    requires Seal(P, keys, nonce, header, segs)[77..109] == Seal(P, keys, nonce', header, segs')[77..109]
    ensures var x, y := SivInput(header, Concat(segs)), SivInput(header, Concat(segs'));
      x != y && P.hmac(keys.siv, x) == P.hmac(keys.siv, y)
  {
    SealedIv(P, keys, header, nonce, segs);
    SealedIv(P, keys, header, nonce', segs');
    hide Seal, Concat, SivInput;
    if SivInput(header, Concat(segs)) == SivInput(header, Concat(segs')) {
      SivInputIsInjective(header, Concat(segs), header, Concat(segs'));
    }
  }

  lemma SealedIv(P: Primitives, keys: V5Keys, header: bytes, nonce: Bytes16, segs: seq<bytes>)
    requires |header| == HEADER_V5_SIZE
    ensures |Seal(P, keys, nonce, header, segs)| >= 109
    ensures Seal(P, keys, nonce, header, segs)[77..109] == P.hmac(keys.siv, SivInput(header, Concat(segs)))
  {
    hide Assemble, Concat, SivInput, EntriesFrom, CiphersFrom, Serialized, Tag;
    var siv := SyntheticIv(P, keys, header, Concat(segs));
    var table := Serialized(EntriesFrom(segs, 0, 0, 0));
    var ct := CiphersFrom(Context(P, keys, nonce, siv), segs, 0);
    AssembleSlices(header, siv, table, ct, Tag(P, keys, header, siv, table, ct));
  }

  lemma SealedHeader(P: Primitives, keys: V5Keys, header: bytes, nonce: Bytes16, segs: seq<bytes>)
    requires |header| == HEADER_V5_SIZE
    ensures |Seal(P, keys, nonce, header, segs)| >= 77
    ensures Seal(P, keys, nonce, header, segs)[13..77] == header
  {
    hide Assemble, Concat, SivInput, EntriesFrom, CiphersFrom, Serialized, Tag;
    var siv := SyntheticIv(P, keys, header, Concat(segs));
    var table := Serialized(EntriesFrom(segs, 0, 0, 0));
    var ct := CiphersFrom(Context(P, keys, nonce, siv), segs, 0);
    AssembleSlices(header, siv, table, ct, Tag(P, keys, header, siv, table, ct));
  }

  lemma V5WritesHeader(P: Primitives, data: bytes, password: bytes, opts: Options, padding: bytes)
    requires EncryptV5(P, data, password, opts, padding).Ok?
    ensures var c := EncryptV5(P, data, password, opts, padding).value;
      |c| >= 77 && HasLayout(c[13..77], opts)
  {
    hide DeriveRootKey, DeriveV5Keys, Seal, Chunks, PackInner, HasLayout, Printed;
    var keys := DeriveV5Keys(P, DeriveRootKey(P, password, opts.salt, opts.kdf).value);
    SealedHeader(P, keys, PackHeader(opts).value, opts.publicNonce,
      Chunks(PackInner(P, data, padding), SegmentSizeFor(opts.segmentSize)));
  }
}
