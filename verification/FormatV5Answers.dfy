/** Which error `decrypt_v5` gives for each container it refuses. */
module FormatV5Answers {
  import opened Bytes
  import opened Chaining
  import opened FormatV5
  import opened FormatV5Theorems
  import opened Inner
  import opened Kdf
  import opened Padding
  import opened Primitives
  import opened PublicHeader
  import opened SegmentTable
  import opened Segments
  import opened Transcript
  import opened Wrappers

  lemma {:induction false} OpenFromErrors(c: Context, es: seq<Entry>, ct: bytes)
    requires InBounds(es, |ct|)
    requires forall i :: 0 <= i < |es| ==> es[i].cipherLength > 0 && es[i].cipherLength % 32 == 0
    ensures OpenFrom(c, es, ct).Err? ==> OpenFrom(c, es, ct) == Err(Authentication)
    decreases |es|
  {
    hide Unpad, Decrypted, SegmentNonce;
    if es != [] {
      var slice := ct[es[0].cipherOffset..es[0].CipherEnd()];
      UnpadErrors(Decrypted(SegmentChain(c, es[0].index), slice));
      OpenFromErrors(c, es[1..], ct);
    }
  }

  lemma TilingSizes(es: seq<Entry>, cipherLen: nat)
    requires Tiles(es, cipherLen)
    ensures forall i :: 0 <= i < |es| ==> es[i].cipherLength > 0 && es[i].cipherLength % 32 == 0
  {
    forall i | 0 <= i < |es| ensures es[i].cipherLength > 0 && es[i].cipherLength % 32 == 0 {
      assert TilesAt(es, i, 0, 0, 0);
    }
  }

  lemma InnerErrors(P: Primitives, inner: bytes)
    ensures InspectInner(P, inner).Err? ==> InspectInner(P, inner) == Err(Authentication)
    ensures UnpackInner(P, inner).Err? ==> UnpackInner(P, inner) == Err(Authentication)
  {
    hide InnerPrefix, ReadU64;
  }

  lemma ParseTableErrors(table: bytes, cipherLen: nat)
    ensures ParseTable(table, cipherLen).Err? ==> ParseTable(table, cipherLen) == Err(Format)
    ensures ParseTable(table, cipherLen).Ok? <==> exists es :: Tiles(es, cipherLen) && table == Serialized(es)
  {
    hide Tiles, Serialized;
    if |table| % 40 == 0 {
      ParseFromErrors(table, 0, 0, 0, cipherLen);
    }
    forall es ensures ParseTable(table, cipherLen) == Ok(es) <==> Tiles(es, cipherLen) && table == Serialized(es) {
      ParseTableExact(table, es, cipherLen);
    }
  }

  lemma {:induction false} ParseFromErrors(table: bytes, ordinal: nat, plain: nat, cipher: nat, cipherLen: nat)
    requires |table| % 40 == 0
    ensures ParseFrom(table, ordinal, plain, cipher, cipherLen).Err? ==>
      ParseFrom(table, ordinal, plain, cipher, cipherLen) == Err(Format)
    decreases |table|
  {
    hide ReadEntry;
    if table != [] {
      WholeEntries(table);
      var e := ReadEntry(table[..40]);
      ParseFromErrors(table[40..], ordinal + 1, plain + e.plainLength, cipher + e.cipherLength, cipherLen);
    }
  }

  /**
   * The answer to a container that splits well. A wrong password gets Authentication, as its tag is
   * wrong under the keys it leads to; behind a right tag, Format is for a table that does not tile.
   */
  lemma AnswersOfOpen(P: Primitives, keys: V5Keys, o: Outer)
    ensures var tagRight := o.tag == P.hmac(keys.auth, TagInput(o.header, o.siv, o.table, o.ciphertext));
      var tiles := exists es :: Tiles(es, |o.ciphertext|) && o.table == Serialized(es);
      var r := OpenOuter(P, keys, o);
      && (!tagRight ==> r == Err(Authentication))
      && (tagRight && !tiles ==> r == Err(Format))
      && (tagRight && tiles ==> r.Ok? || r == Err(Authentication))
  {
    hide TagInput, Tiles, Serialized, ParseTable, OpenFrom, SyntheticIv, InspectInner, UnpackInner, PlainSum, InBounds;
    ParseTableErrors(o.table, |o.ciphertext|);
    var parsed := ParseTable(o.table, |o.ciphertext|);
    if parsed.Ok? {
      var es, c := parsed.value, Context(P, keys, o.parsed.publicNonce, o.siv);
      ParseTableExact(o.table, es, |o.ciphertext|);
      TilingSizes(es, |o.ciphertext|);
      LateChecksImplied(P, c, o.table, o.ciphertext, es, []);
      OpenFromErrors(c, es, o.ciphertext);
      if OpenInner(c, es, o.ciphertext).Ok? {
        var inner := OpenInner(c, es, o.ciphertext).value;
        LateChecksImplied(P, c, o.table, o.ciphertext, es, inner);
        InnerErrors(P, inner);
      }
    }
  }

  /** Before the tag: bad framing is Format, bad header bytes or key derivation InvalidParameter. */
  lemma AnswersOfDecrypt(P: Primitives, container: bytes, password: bytes)
    ensures DecryptV5(P, container, password).Err? ==>
      DecryptV5(P, container, password).error in {Format, InvalidParameter, Authentication}
    ensures SplitOuter(container).Err? ==>
      DecryptV5(P, container, password) ==
        Err(if |container| >= 141 && container[..8] == Magic() && container[8] == 5
              && ReadU32(container[9..13]) == HEADER_V5_SIZE && ParseHeader(container[13..77]) == Err(InvalidParameter)
            then InvalidParameter else Format)
    ensures SplitOuter(container).Ok? ==>
      var o := SplitOuter(container).value;
      if KeyDerivable(P, password, o.parsed.salt, o.parsed.kdf)
      then var keys := DeriveV5Keys(P, DeriveRootKey(P, password, o.parsed.salt, o.parsed.kdf).value);
        DecryptV5(P, container, password) == OpenOuter(P, keys, o)
      else DecryptV5(P, container, password) == Err(InvalidParameter)
  {
    hide ParseHeader, OpenOuter, DeriveV5Keys, ReadU32, ReadU64, Magic;
    if |container| >= 141 {
      ParseErrors(container[13..77]);
    }
    if SplitOuter(container).Ok? {
      var o := SplitOuter(container).value;
      if KeyDerivable(P, password, o.parsed.salt, o.parsed.kdf) {
        AnswersOfOpen(P, DeriveV5Keys(P, DeriveRootKey(P, password, o.parsed.salt, o.parsed.kdf).value), o);
      }
    }
  }
}
