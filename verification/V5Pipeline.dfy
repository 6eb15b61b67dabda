/** The v5 entry points as the crate runs them, refining the specifications of `FormatV5`. */
module V5Pipeline {
  import opened BlockEngine
  import opened Bytes
  import opened FormatV5
  import opened FormatV5Theorems
  import opened Inner
  import opened Kdf
  import opened MachineSums
  import opened Primitives
  import opened PublicHeader
  import opened SegmentTable
  import opened Segments
  import opened Transcript
  import opened Wrappers
  import Schedule

  /** `encrypt_segments`: a parallel or sequential map, then the table. The result never depends on `workers`. */
  method EncryptSegments(c: Context, inner: bytes, requested: nat, workers: nat)
    returns (table: bytes, ciphertext: bytes)
    requires SegmentsLive(c, Chunks(inner, SegmentSizeFor(requested)))
    ensures var segs := Chunks(inner, SegmentSizeFor(requested));
      table == Serialized(EntriesFrom(segs, 0, 0, 0)) && ciphertext == CiphersFrom(c, segs, 0)
  {
    hide SegmentsLive, SequentialMap, EntriesFrom, CiphersFrom, Chunks;
    var segs := Chunks(inner, SegmentSizeFor(requested));
    var results;
    if workers > 1 && |segs| > 1 {
      results := Schedule.EncryptInParallel(c, segs);
    } else {
      results := EncryptEachSegment(c, segs);
    }
    table, ciphertext := CollectSegments(results, c, segs);
  }

  /** The rejection loops end on every segment that this encryption produces. */
  ghost predicate EncryptLive(P: Primitives, data: bytes, password: bytes, opts: Options, fill: bytes)
  {
    var header, root := PackHeader(opts), DeriveRootKey(P, password, opts.salt, opts.kdf);
    header.Ok? && root.Ok? ==>
      var inner, keys := PackInner(P, data, fill), DeriveV5Keys(P, root.value);
      var c := Context(P, keys, opts.publicNonce, SyntheticIv(P, keys, header.value, inner));
      SegmentsLive(c, Chunks(inner, SegmentSizeFor(opts.segmentSize)))
  }

  method EncryptContainer(P: Primitives, data: bytes, password: bytes, opts: Options, count: byte, fill: bytes)
    returns (r: Result<bytes, KrcmError>)
    requires EncryptLive(P, data, password, opts, fill) && |fill| == PaddingLength(opts.policy, count)
    ensures r == EncryptV5(P, data, password, opts, fill)
  {
    hide SegmentsLive, EntriesFrom, CiphersFrom, Chunks, InnerHeader, TagInput, Magic;
    var header := PackHeader(opts);
    if header.Err? {
      return Err(header.error);
    }
    var root := DeriveRootKey(P, password, opts.salt, opts.kdf);
    if root.Err? {
      return Err(root.error);
    }
    var keys := DeriveV5Keys(P, root.value);
    var inner := PackInner(P, data, fill);
    var siv := SyntheticIv(P, keys, header.value, inner);
    var c := Context(P, keys, opts.publicNonce, siv);
    var table, ciphertext := EncryptSegments(c, inner, opts.segmentSize, opts.workers);
    ghost var segs := Chunks(inner, SegmentSizeFor(opts.segmentSize));
    ChunksRejoin(inner, SegmentSizeFor(opts.segmentSize));
    assert Concat(segs) == inner;
    var transcript := BuildTranscript(header.value, siv, table, ciphertext);
    r := Ok(Assemble(header.value, siv, table, ciphertext, P.hmac(keys.auth, transcript)));
  }

  method SumPlainLengths(es: seq<Entry>) returns (sum: nat)
    ensures sum == PlainSum(es)
  {
    sum := 0;
    assert es[0..] == es;
    for i := 0 to |es|
      invariant sum + PlainSum(es[i..]) == PlainSum(es)
    {
      assert es[i..][0] == es[i] && es[i..][1..] == es[i + 1..];
      sum := sum + es[i].plainLength;
    }
  }

  /** The rejection loops end on every slice that this decryption comes to. */
  ghost predicate DecryptLive(P: Primitives, container: bytes, password: bytes)
  {
    var outer := SplitOuter(container);
    outer.Ok? ==>
      var o := outer.value;
      var root := DeriveRootKey(P, password, o.parsed.salt, o.parsed.kdf);
      root.Ok? ==>
        var keys, es := DeriveV5Keys(P, root.value), ParseTable(o.table, |o.ciphertext|);
        o.tag == Tag(P, keys, o.header, o.siv, o.table, o.ciphertext) && es.Ok? ==>
          (TableInBounds(o.table, es.value, |o.ciphertext|);
           OpenLive(Context(P, keys, o.parsed.publicNonce, o.siv), es.value, o.ciphertext))
  }

  lemma TableInBounds(table: bytes, es: seq<Entry>, cipherLen: nat)
    requires ParseTable(table, cipherLen) == Ok(es)
    ensures InBounds(es, cipherLen)
  {
    hide TilesFrom, InBounds;
    ParseTableExact(table, es, cipherLen);
    TilesInBounds(es, 0, 0, 0, cipherLen);
  }

  /** `decrypt_v5`; `checked` says whether the build has overflow checks. */
  method DecryptContainer(P: Primitives, container: bytes, password: bytes, checked: bool) returns (r: Outcome<bytes>)
    requires |container| <= MAX_SLICE && DecryptLive(P, container, password)
    ensures r == DecryptMachine(P, container, password, checked)
  {
    hide OpenLive, SplitOuter, SplitMachine, SplitPanics, DeriveRootKey, TagInput, OpenInner, ParseTable;
    hide InspectMachine, UnpackInner;
    SplitMachineExact(container, checked);
    var o :- SplitMachine(container, checked);
    var root :- Lift(DeriveRootKey(P, password, o.parsed.salt, o.parsed.kdf));
    var keys := DeriveV5Keys(P, root);
    var transcript := BuildTranscript(o.header, o.siv, o.table, o.ciphertext);
    if o.tag != P.hmac(keys.auth, transcript) {
      return Failed(Authentication);
    }
    var parsed := ParseSegmentTable(o.table, |o.ciphertext|);
    var es :- Lift(parsed);
    TableInBounds(o.table, es, |o.ciphertext|);
    var decrypted := DecryptSegments(Context(P, keys, o.parsed.publicNonce, o.siv), es, o.ciphertext);
    var inner :- Lift(decrypted);
    if o.siv != SyntheticIv(P, keys, o.header, inner) {
      return Failed(Authentication);
    }
    var info :- InspectMachine(P, inner, checked);
    var sum := SumPlainLengths(es);
    if sum != |inner| || info.payloadLength > |inner| {
      return Failed(Format);
    }
    r := Lift(UnpackInner(P, inner));
  }

  // ----- When the two methods end -----

  /** If encryption ended, decrypting its container ends too: both draw along the same ciphertext. */
  lemma DecryptionEnds(P: Primitives, data: bytes, password: bytes, opts: Options, fill: bytes)
    requires EncryptLive(P, data, password, opts, fill) && EncryptV5(P, data, password, opts, fill).Ok?
    requires |EncryptV5(P, data, password, opts, fill).value| < TWO64
    ensures DecryptLive(P, EncryptV5(P, data, password, opts, fill).value, password)
  {
    hide ParseHeader, Assemble, EntriesFrom, CiphersFrom, Tag, SyntheticIv, Serialized, KdfFields, InnerHeader;
    hide SplitOuter, ParseTable, OpenLive, SegmentLive, DeriveRootKey, DeriveV5Keys, HasLayout, Printed, ValidParams;
    hide TilesFrom, InBounds, DecryptV5, UnpackInner, InspectInner, Concat;
    var header := PackHeader(opts).value;
    ParseOfPack(opts);
    var keys := DeriveV5Keys(P, DeriveRootKey(P, password, opts.salt, opts.kdf).value);
    var inner := PackInner(P, data, fill);
    var segs := Chunks(inner, SegmentSizeFor(opts.segmentSize));
    ChunksRejoin(inner, SegmentSizeFor(opts.segmentSize));
    var o := OuterOfSeal(P, keys, header, ParseHeader(header).value, segs);
    SplitOuterExact(EncryptV5(P, data, password, opts, fill).value, o);
    TableOfSeal(P, keys, o, segs);
    var es := EntriesFrom(segs, 0, 0, 0);
    TableInBounds(o.table, es, |o.ciphertext|);
    var c := Context(P, keys, opts.publicNonce, o.siv);
    assert o.ciphertext[0..] == o.ciphertext;
    assert forall i :: 0 <= i < |segs| ==> SegmentLive(c, 0 + i, segs[i]);
    OpenLiveAfterSeal(c, segs, o.ciphertext, 0, 0, 0);
  }

  /** When every seed's loops end, so do both methods, on all inputs. */
  lemma EngineLiveEnds(P: Primitives)
    requires EngineLive(P)
    ensures forall data, password, opts, fill :: EncryptLive(P, data, password, opts, fill)
    ensures forall container, password :: DecryptLive(P, container, password)
  {
    hide EngineLive, SegmentsLive, OpenLive, SplitOuter, ParseTable, DeriveRootKey, Tag, SyntheticIv, PackHeader;
    forall data, password, opts, fill ensures EncryptLive(P, data, password, opts, fill) {
      if PackHeader(opts).Ok? && DeriveRootKey(P, password, opts.salt, opts.kdf).Ok? {
        var keys := DeriveV5Keys(P, DeriveRootKey(P, password, opts.salt, opts.kdf).value);
        var inner := PackInner(P, data, fill);
        var c := Context(P, keys, opts.publicNonce, SyntheticIv(P, keys, PackHeader(opts).value, inner));
        EngineLiveSegments(c, Chunks(inner, SegmentSizeFor(opts.segmentSize)));
      }
    }
    forall container, password ensures DecryptLive(P, container, password) {
      if SplitOuter(container).Ok? {
        var o := SplitOuter(container).value;
        var root, es := DeriveRootKey(P, password, o.parsed.salt, o.parsed.kdf), ParseTable(o.table, |o.ciphertext|);
        if root.Ok? && es.Ok? {
          TableInBounds(o.table, es.value, |o.ciphertext|);
          EngineLiveOpens(Context(P, DeriveV5Keys(P, root.value), o.parsed.publicNonce, o.siv), es.value, o.ciphertext);
        }
      }
    }
  }

  /** The two methods one after the other: whatever was encrypted comes back, in any build. */
  method EncryptThenDecrypt(
      P: Primitives, data: bytes, password: bytes, opts: Options, count: byte, fill: bytes, checked: bool)
    returns (r: Outcome<bytes>)
    requires EncryptLive(P, data, password, opts, fill) && |fill| == PaddingLength(opts.policy, count)
    requires EncryptV5(P, data, password, opts, fill).Ok? ==>
      |EncryptV5(P, data, password, opts, fill).value| <= MAX_SLICE
    ensures r == if EncryptV5(P, data, password, opts, fill).Ok? then Returned(data) else Failed(InvalidParameter)
  {
    hide EncryptLive, DecryptLive, DecryptV5, DecryptMachine, EncryptV5, KeyDerivable, PaddingLength;
    EncryptSucceeds(P, data, password, opts, fill);
    var encrypted := EncryptContainer(P, data, password, opts, count, fill);
    var container :- Lift(encrypted);
    DecryptionEnds(P, data, password, opts, fill);
    V5RoundTrip(P, data, password, opts, fill);
    MachineAcceptsTheSame(P, container, password, data, checked);
    r := DecryptContainer(P, container, password, checked);
  }
}
