/** Splitting the inner plaintext, encrypting each segment, and the running table. */
module Segments {
  import opened BlockEngine
  import opened Bytes
  import opened Chaining
  import opened Kdf
  import opened Padding
  import opened Primitives
  import opened SegmentTable
  import opened Wrappers

  /** What every segment of one container shares. */
  datatype Context = Context(P: Primitives, keys: V5Keys, publicNonce: bytes, siv: bytes)

  function SegmentLabel(c: Context, index: nat): bytes
  {
    Ascii("KRCM-v5-segment") + c.publicNonce + c.siv + BE8(index)
  }

  function SegmentNonce(c: Context, index: nat): (nonce: bytes)
    ensures |nonce| == 16
  {
    c.P.hmac(c.keys.segment, SegmentLabel(c, index))[..16]
  }

  /** Segments of one container, or of two with different synthetic IVs, never share a nonce input. */
  lemma SegmentLabelIsInjective(c: Context, index: u64, c': Context, index': u64)
    requires |c.publicNonce| == |c'.publicNonce| && |c.siv| == |c'.siv|
    requires SegmentLabel(c, index) == SegmentLabel(c', index')
    ensures c.publicNonce == c'.publicNonce && c.siv == c'.siv && index == index'
  {
    hide BE8, Ascii, ReadU64;
    var s, s', n, m := SegmentLabel(c, index), SegmentLabel(c', index'), |c.publicNonce|, |c.siv|;
    assert s[15..15 + n] == c.publicNonce && s'[15..15 + n] == c'.publicNonce;
    assert s[15 + n..15 + n + m] == c.siv && s'[15 + n..15 + n + m] == c'.siv;
    assert s[15 + n + m..] == BE8(index) && s'[15 + n + m..] == BE8(index');
    ReadBE8(index);
    ReadBE8(index');
  }

  function SegmentChain(c: Context, index: nat): Chain
  {
    Chain(c.P, V4, c.keys.enc, SegmentNonce(c, index))
  }

  /** What `encrypt_segment` returns for one segment. */
  ghost function SegmentCipher(c: Context, index: nat, plain: bytes): (ct: bytes)
    ensures |ct| == |Pad(plain)| && |ct| % 32 == 0 && |ct| > 0
  {
    Encrypted(SegmentChain(c, index), Pad(plain))
  }

  /** The rejection loops along one segment end. */
  ghost predicate SegmentLive(c: Context, index: nat, plain: bytes)
  {
    ChainLive(SegmentChain(c, index), 0, SegmentNonce(c, index), SegmentCipher(c, index, plain))
  }

  method EncryptSegment(c: Context, index: nat, plain: bytes) returns (ct: bytes)
    requires SegmentLive(c, index, plain)
    ensures ct == SegmentCipher(c, index, plain)
  {
    hide ChainLive, Encrypted, Pad;
    var padded := PadBytes(plain);
    var r := EncryptBlocks(c.P, padded, c.keys.enc, SegmentNonce(c, index));
    ct := r.value;
  }

  /** `chunks(size)`: full pieces and a possibly shorter last one. */
  function Chunks(inner: bytes, size: nat): (segs: seq<bytes>)
    requires size > 0
  {
    if inner == [] then []
    else if |inner| <= size then [inner]
    else [inner[..size]] + Chunks(inner[size..], size)
  }

  lemma {:induction false} ChunksRejoin(inner: bytes, size: nat)
    requires size > 0
    ensures Concat(Chunks(inner, size)) == inner
    ensures inner != [] ==> Chunks(inner, size) != []
    ensures forall i :: 0 <= i < |Chunks(inner, size)| ==> 0 < |Chunks(inner, size)[i]| <= size
    ensures forall i :: 0 <= i < |Chunks(inner, size)| - 1 ==> |Chunks(inner, size)[i]| == size
    decreases |inner|
  {
    if inner == [] {
    } else if |inner| <= size {
      assert Chunks(inner, size)[1..] == [];
      assert inner + [] == inner;
    } else {
      ChunksRejoin(inner[size..], size);
      assert Chunks(inner, size)[1..] == Chunks(inner[size..], size);
      assert inner == inner[..size] + inner[size..];
    }
  }

  // ----- The table and ciphertext of a list of segments -----

  ghost function EntriesFrom(segs: seq<bytes>, ordinal: nat, plain: nat, cipher: nat): (es: seq<Entry>)
    ensures |es| == |segs|
    decreases |segs|
  {
    hide Pad;
    if segs == [] then [] else
      var e := Entry(ordinal, plain, |segs[0]|, cipher, |Pad(segs[0])|);
      [e] + EntriesFrom(segs[1..], ordinal + 1, e.PlainEnd(), e.CipherEnd())
  }

  ghost function CiphersFrom(c: Context, segs: seq<bytes>, ordinal: nat): bytes
    decreases |segs|
  {
    hide SegmentCipher;
    if segs == [] then [] else SegmentCipher(c, ordinal, segs[0]) + CiphersFrom(c, segs[1..], ordinal + 1)
  }

  /** A list of segments always yields a tiling table that ends at the length of its ciphertext. */
  lemma {:induction false} EntriesTile(c: Context, segs: seq<bytes>, ordinal: nat, plain: nat, cipher: nat)
    requires ordinal + |segs| < TWO64
    requires plain + |Concat(segs)| < TWO64 && cipher + |CiphersFrom(c, segs, ordinal)| < TWO64
    ensures TilesFrom(EntriesFrom(segs, ordinal, plain, cipher), ordinal, plain, cipher,
      cipher + |CiphersFrom(c, segs, ordinal)|)
    decreases |segs|
  {
    hide TilesFrom, Pad, SegmentCipher;
    if segs == [] {
      TilesNone(ordinal, plain, cipher, cipher);
    } else {
      var e := Entry(ordinal, plain, |segs[0]|, cipher, |Pad(segs[0])|);
      var rest := EntriesFrom(segs[1..], ordinal + 1, e.PlainEnd(), e.CipherEnd());
      var n := |CiphersFrom(c, segs[1..], ordinal + 1)|;
      assert |SegmentCipher(c, ordinal, segs[0])| == e.cipherLength;
      EntriesTile(c, segs[1..], ordinal + 1, e.PlainEnd(), e.CipherEnd());
      TilesCons(e, rest, ordinal, plain, cipher, e.CipherEnd() + n);
    }
  }

  // ----- Decrypting against a table -----

  predicate InBounds(es: seq<Entry>, cipherLen: nat)
  {
    forall i :: 0 <= i < |es| ==> es[i].CipherEnd() <= cipherLen
  }

  /** Every slice `decrypt_segments` takes from a parsed table lies inside the ciphertext. */
  lemma {:induction false} TilesInBounds(es: seq<Entry>, ordinal: nat, plain: nat, cipher: nat, cipherLen: nat)
    requires TilesFrom(es, ordinal, plain, cipher, cipherLen)
    ensures InBounds(es, cipherLen) && cipher <= cipherLen
    decreases |es|
  {
    if es != [] {
      var e, rest := es[0], es[1..];
      assert es == [e] + rest;
      TilesCons(e, rest, ordinal, plain, cipher, cipherLen);
      hide TilesFrom;
      TilesInBounds(rest, ordinal + 1, e.PlainEnd(), e.CipherEnd(), cipherLen);
      forall i | 0 <= i < |es| ensures es[i].CipherEnd() <= cipherLen {
        if i > 0 {
          assert es[i] == rest[i - 1];
        }
      }
    }
  }

  /** One step of the loop: decrypt the slice, unpad it, and check its length. */
  ghost function OpenSegment(c: Context, e: Entry, ct: bytes): (r: Result<bytes, KrcmError>)
    requires e.CipherEnd() <= |ct|
    ensures r.Ok? ==> |r.value| == e.plainLength
  {
    var slice := ct[e.cipherOffset..e.CipherEnd()];
    if |slice| % 32 != 0 then Err(Format) else
      var plain :- Unpad(Decrypted(SegmentChain(c, e.index), slice));
      if |plain| != e.plainLength then Err(Authentication) else Ok(plain)
  }

  /** The plain segments in order; the source appends them to `inner` as it goes. */
  ghost function OpenFrom(c: Context, es: seq<Entry>, ct: bytes): Result<seq<bytes>, KrcmError>
    requires InBounds(es, |ct|)
  {
    if es == [] then Ok([]) else
      var plain :- OpenSegment(c, es[0], ct);
      var rest :- OpenFrom(c, es[1..], ct);
      Ok([plain] + rest)
  }

  ghost function OpenInner(c: Context, es: seq<Entry>, ct: bytes): Result<bytes, KrcmError>
    requires InBounds(es, |ct|)
  {
    var segs :- OpenFrom(c, es, ct);
    Ok(Concat(segs))
  }

  /** A segment opens to `plain` exactly when its slice is the encryption of `plain`. */
  lemma OpenSegmentExact(c: Context, e: Entry, ct: bytes, plain: bytes)
    requires e.CipherEnd() <= |ct|
    ensures OpenSegment(c, e, ct) == Ok(plain) <==>
      ct[e.cipherOffset..e.CipherEnd()] == SegmentCipher(c, e.index, plain) && |plain| == e.plainLength
  {
    hide Pad, Unpad, Encrypted, Decrypted, SegmentNonce;
    var slice, chain := ct[e.cipherOffset..e.CipherEnd()], SegmentChain(c, e.index);
    ChainRoundTrip(chain, Pad(plain));
    if |slice| % 32 == 0 {
      ChainRoundTrip(chain, slice);
      PaddingIsBijection(plain, Decrypted(chain, slice));
    }
  }

  /**
   * Decryption under a tiling table succeeds with the segments `segs` exactly when the table
   * and the ciphertext are the ones those segments produce.
   */
  lemma {:induction false} OpenFromExact(
      c: Context, es: seq<Entry>, ct: bytes, ordinal: nat, plain: nat, cipher: nat, segs: seq<bytes>)
    requires TilesFrom(es, ordinal, plain, cipher, |ct|)
    requires InBounds(es, |ct|) && cipher <= |ct|
    ensures OpenFrom(c, es, ct) == Ok(segs) <==>
      es == EntriesFrom(segs, ordinal, plain, cipher) && ct[cipher..] == CiphersFrom(c, segs, ordinal)
    decreases |es| + |segs|
  {
    hide TilesFrom, InBounds, OpenSegment, SegmentCipher, Pad;
    if es == [] {
      TilesNone(ordinal, plain, cipher, |ct|);
    } else {
      var e, rest := es[0], es[1..];
      assert es == [e] + rest;
      TilesCons(e, rest, ordinal, plain, cipher, |ct|);
      TilesInBounds(rest, ordinal + 1, e.PlainEnd(), e.CipherEnd(), |ct|);
      assert e.CipherEnd() <= |ct|;
      if segs != [] {
        OpenSegmentExact(c, e, ct, segs[0]);
        OpenFromExact(c, rest, ct, ordinal + 1, e.PlainEnd(), e.CipherEnd(), segs[1..]);
        OpenHead(c, e, rest, ct, ordinal, plain, cipher, segs);
        OpenFromCons(c, e, rest, ct, segs);
      }
    }
  }

  lemma OpenFromCons(c: Context, e: Entry, rest: seq<Entry>, ct: bytes, segs: seq<bytes>)
    requires segs != [] && InBounds([e] + rest, |ct|) && InBounds(rest, |ct|) && e.CipherEnd() <= |ct|
    ensures OpenFrom(c, [e] + rest, ct) == Ok(segs)
      <==> OpenSegment(c, e, ct) == Ok(segs[0]) && OpenFrom(c, rest, ct) == Ok(segs[1..])
  {
    hide OpenSegment;
    assert ([e] + rest)[0] == e && ([e] + rest)[1..] == rest;
    var first, later := OpenSegment(c, e, ct), OpenFrom(c, rest, ct);
    if first.Ok? && later.Ok? {
      assert ([first.value] + later.value)[0] == first.value && ([first.value] + later.value)[1..] == later.value;
      assert segs == [segs[0]] + segs[1..];
    }
  }

  lemma OpenHead(
      c: Context, e: Entry, rest: seq<Entry>, ct: bytes, ordinal: nat, plain: nat, cipher: nat, segs: seq<bytes>)
    requires segs != [] && e.index == ordinal && e.plainOffset == plain && e.cipherOffset == cipher
    requires e.CipherEnd() <= |ct|
    ensures ([e] + rest == EntriesFrom(segs, ordinal, plain, cipher) && ct[cipher..] == CiphersFrom(c, segs, ordinal))
      <==> (&& ct[cipher..e.CipherEnd()] == SegmentCipher(c, ordinal, segs[0]) && |segs[0]| == e.plainLength
            && rest == EntriesFrom(segs[1..], ordinal + 1, e.PlainEnd(), e.CipherEnd())
            && ct[e.CipherEnd()..] == CiphersFrom(c, segs[1..], ordinal + 1))
  {
    hide SegmentCipher, Pad;
    var head, tail := SegmentCipher(c, ordinal, segs[0]), CiphersFrom(c, segs[1..], ordinal + 1);
    var d := Entry(ordinal, plain, |segs[0]|, cipher, |Pad(segs[0])|);
    assert |head| == d.cipherLength;
    assert ct[cipher..] == ct[cipher..e.CipherEnd()] + ct[e.CipherEnd()..];
    var more := EntriesFrom(segs[1..], ordinal + 1, d.PlainEnd(), d.CipherEnd());
    if [e] + rest == [d] + more {
      assert ([e] + rest)[0] == e && ([e] + rest)[1..] == rest && ([d] + more)[1..] == more;
      assert e == d;
      if ct[cipher..] == head + tail {
        assert ct[cipher..][..|head|] == head && ct[cipher..][|head|..] == tail;
        assert ct[cipher..][..|head|] == ct[cipher..e.CipherEnd()];
      }
    }
  }

  // ----- The loops -----

  /** One result of the segment map: index, plain length and ciphertext. */
  datatype Sealed = Sealed(index: nat, plainLength: nat, ciphertext: bytes)

  /** The triple that `encrypt_segment` returns. */
  ghost function SealedSegment(c: Context, index: nat, plain: bytes): Sealed
  {
    Sealed(index, |plain|, SegmentCipher(c, index, plain))
  }

  ghost function SequentialMap(c: Context, segs: seq<bytes>): (results: seq<Sealed>)
    ensures |results| == |segs|
  {
    seq(|segs|, i requires 0 <= i < |segs| => SealedSegment(c, i, segs[i]))
  }

  ghost predicate SegmentsLive(c: Context, segs: seq<bytes>)
  {
    forall i :: 0 <= i < |segs| ==> SegmentLive(c, i, segs[i])
  }

  /** The sequential branch of the map. */
  method EncryptEachSegment(c: Context, segs: seq<bytes>) returns (results: seq<Sealed>)
    requires SegmentsLive(c, segs)
    ensures results == SequentialMap(c, segs)
  {
    hide SegmentLive, SegmentCipher;
    results := [];
    for i := 0 to |segs|
      invariant results == SequentialMap(c, segs)[..i]
    {
      var ct := EncryptSegment(c, i, segs[i]);
      results := results + [Sealed(i, |segs[i]|, ct)];
    }
  }

  /** The loop that numbers the results, runs both offsets along, and joins the ciphertexts. */
  method CollectSegments(results: seq<Sealed>, ghost c: Context, ghost segs: seq<bytes>)
    returns (table: bytes, ciphertext: bytes)
    requires results == SequentialMap(c, segs)
    ensures table == Serialized(EntriesFrom(segs, 0, 0, 0))
    ensures ciphertext == CiphersFrom(c, segs, 0)
  {
    hide SegmentCipher, Pad, Serialized, Concat, OpenFrom, OpenLive, Chunks;
    ciphertext := [];
    var entries: seq<Entry> := [];
    var plainOffset: nat, cipherOffset: nat := 0, 0;
    for i := 0 to |results|
      invariant entries + EntriesFrom(segs[i..], i, plainOffset, cipherOffset) == EntriesFrom(segs, 0, 0, 0)
      invariant ciphertext + CiphersFrom(c, segs[i..], i) == CiphersFrom(c, segs, 0)
    {
      ghost var rest := segs[i..];
      assert rest[0] == segs[i] && rest[1..] == segs[i + 1..];
      var sealed := results[i];
      var e := Entry(sealed.index, plainOffset, sealed.plainLength, cipherOffset, |sealed.ciphertext|);
      ghost var more := EntriesFrom(rest[1..], i + 1, e.PlainEnd(), e.CipherEnd());
      ghost var later := CiphersFrom(c, rest[1..], i + 1);
      assert entries + ([e] + more) == (entries + [e]) + more;
      assert ciphertext + (sealed.ciphertext + later) == (ciphertext + sealed.ciphertext) + later;
      entries := entries + [e];
      plainOffset := plainOffset + sealed.plainLength;
      cipherOffset := cipherOffset + |sealed.ciphertext|;
      ciphertext := ciphertext + sealed.ciphertext;
    }
    assert segs[|results|..] == [];
    assert entries + [] == entries && ciphertext + [] == ciphertext;
    table := SerializeSegmentTable(entries);
  }

  ghost function PrependPlain(inner: bytes, r: Result<seq<bytes>, KrcmError>): Result<bytes, KrcmError>
  {
    match r
    case Ok(segs) => Ok(inner + Concat(segs))
    case Err(e) => Err(e)
  }

  /** The rejection loops along one slice end; an unaligned slice is refused before they start. */
  ghost predicate EntryLive(c: Context, e: Entry, ct: bytes)
    requires e.CipherEnd() <= |ct|
  {
    var slice := ct[e.cipherOffset..e.CipherEnd()];
    |slice| % 32 == 0 ==> ChainLive(SegmentChain(c, e.index), 0, SegmentNonce(c, e.index), slice)
  }

  /** They end on every slice up to the first that does not open. */
  ghost predicate OpenLive(c: Context, es: seq<Entry>, ct: bytes)
    requires InBounds(es, |ct|)
  {
    hide EntryLive, OpenSegment;
    es == [] || (EntryLive(c, es[0], ct) && (OpenSegment(c, es[0], ct).Ok? ==> OpenLive(c, es[1..], ct)))
  }

  method DecryptSegments(c: Context, es: seq<Entry>, ct: bytes) returns (r: Result<bytes, KrcmError>)
    requires InBounds(es, |ct|) && OpenLive(c, es, ct)
    ensures r == OpenInner(c, es, ct)
  {
    hide ChainLive, SegmentNonce, Unpad, Decrypted, Serialized, Chunks, EntriesFrom, CiphersFrom;
    var inner := [];
    assert OpenFrom(c, es, ct).Ok? ==> [] + Concat(OpenFrom(c, es, ct).value) == Concat(OpenFrom(c, es, ct).value);
    assert es[0..] == es;
    for i := 0 to |es|
      invariant OpenInner(c, es, ct) == PrependPlain(inner, OpenFrom(c, es[i..], ct)) && OpenLive(c, es[i..], ct)
    {
      ghost var rest := es[i..];
      assert rest[0] == es[i] && rest[1..] == es[i + 1..];
      var e := es[i];
      var slice := ct[e.cipherOffset..e.cipherOffset + e.cipherLength];
      var decrypted := DecryptBlocks(c.P, slice, c.keys.enc, SegmentNonce(c, e.index));
      if decrypted.Err? {
        return Err(decrypted.error);
      }
      var unpadded := Unpad(decrypted.value);
      if unpadded.Err? {
        return Err(unpadded.error);
      }
      var plain := unpadded.value;
      if |plain| != e.plainLength {
        return Err(Authentication);
      }
      assert OpenSegment(c, e, ct) == Ok(plain);
      ghost var later := OpenFrom(c, rest[1..], ct);
      if later.Ok? {
        ghost var segs := [plain] + later.value;
        assert segs[1..] == later.value;
        assert inner + (plain + Concat(later.value)) == (inner + plain) + Concat(later.value);
      }
      inner := inner + plain;
    }
    assert es[|es|..] == [];
    assert inner + Concat([]) == inner;
    r := Ok(inner);
  }

  // ----- The loops end on whatever they produced -----

  lemma {:induction false} OpenLiveAfterSeal(
      c: Context, segs: seq<bytes>, ct: bytes, ordinal: nat, plain: nat, cipher: nat)
    requires cipher <= |ct| && ct[cipher..] == CiphersFrom(c, segs, ordinal)
    requires forall i :: 0 <= i < |segs| ==> SegmentLive(c, ordinal + i, segs[i])
    ensures InBounds(EntriesFrom(segs, ordinal, plain, cipher), |ct|)
    ensures OpenLive(c, EntriesFrom(segs, ordinal, plain, cipher), ct)
    decreases |segs|
  {
    hide SegmentCipher, Pad, OpenSegment, ChainLive, SegmentNonce, Unpad;
    if segs != [] {
      var head, tail := SegmentCipher(c, ordinal, segs[0]), CiphersFrom(c, segs[1..], ordinal + 1);
      var e := Entry(ordinal, plain, |segs[0]|, cipher, |head|);
      assert ct[cipher..][..|head|] == head && ct[cipher..][|head|..] == tail;
      assert ct[cipher..e.CipherEnd()] == head && ct[e.CipherEnd()..] == tail;
      assert SegmentLive(c, ordinal + 0, segs[0]);
      forall i | 0 <= i < |segs| - 1 ensures SegmentLive(c, ordinal + 1 + i, segs[1..][i]) {
        assert SegmentLive(c, ordinal + (i + 1), segs[i + 1]);
      }
      OpenLiveAfterSeal(c, segs[1..], ct, ordinal + 1, e.PlainEnd(), e.CipherEnd());
      hide SegmentLive;
      var es := EntriesFrom(segs, ordinal, plain, cipher);
      var rest := EntriesFrom(segs[1..], ordinal + 1, e.PlainEnd(), e.CipherEnd());
      assert es == [e] + rest && es[1..] == rest;
      assert forall i :: 1 <= i < |es| ==> es[i] == rest[i - 1];
    }
  }

  /** When every seed is live, so is all of this. */
  lemma EngineLiveSegments(c: Context, segs: seq<bytes>)
    requires EngineLive(c.P)
    ensures SegmentsLive(c, segs)
  {
    hide EngineLive, ChainLive, SegmentCipher, SegmentNonce;
    forall i | 0 <= i < |segs| ensures SegmentLive(c, i, segs[i]) {
      EngineLiveChains(SegmentChain(c, i), 0, SegmentNonce(c, i), SegmentCipher(c, i, segs[i]));
    }
  }

  lemma {:induction false} EngineLiveOpens(c: Context, es: seq<Entry>, ct: bytes)
    requires EngineLive(c.P) && InBounds(es, |ct|)
    ensures OpenLive(c, es, ct)
    decreases |es|
  {
    hide EngineLive, ChainLive, OpenSegment, SegmentNonce;
    if es != [] {
      var slice := ct[es[0].cipherOffset..es[0].CipherEnd()];
      if |slice| % 32 == 0 {
        EngineLiveChains(SegmentChain(c, es[0].index), 0, SegmentNonce(c, es[0].index), slice);
      }
      EngineLiveOpens(c, es[1..], ct);
    }
  }
}
