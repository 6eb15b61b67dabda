/** The fixed bytes of the formats, in numbers, where the formats themselves put them. */
module WireConstants {
  import opened BlockEngine
  import opened Bytes
  import opened Chaining
  import opened FormatV5
  import opened Inner
  import opened Kdf
  import opened Primitives
  import opened Segments
  import opened Transcript
  import Compact
  import FormatV4
  import PublicHeader

  /** The magics. A v5 container goes on with 5 and the public header's length. */
  lemma ContainerStarts(header: bytes, siv: bytes, table: bytes, ciphertext: bytes, tag: bytes)
    ensures FormatV4.AssembleV4(header, ciphertext, tag)[..8] == [65, 77, 80, 67, 82, 89, 80, 84]
    ensures Compact.CompactMagic() == [65, 77, 80, 67, 77, 80, 67, 84]
    ensures Assemble(header, siv, table, ciphertext, tag)[..13] == [75, 82, 67, 77, 83, 80, 78, 0, 5, 0, 0, 0, 64]
  {
    hide BE8;
    assert FormatV4.MagicV4() == [65, 77, 80, 67, 82, 89, 80, 84];
    assert PublicHeader.Magic() == [75, 82, 67, 77, 83, 80, 78, 0];
    assert BE4(64) == [0, 0, 0, 64];
  }

  /** The inner header states the engine: its block length and its number of rounds. */
  lemma InnerHeaderStatesEngine(original: nat, payload: nat, digest: Digest)
    ensures var h := InnerHeader(original, payload, digest);
      h[..9] == [75, 82, 67, 77, 73, 78, 53, 0, 1] && h[62..64] == BE2(32) && ReadU16(h[64..66]) == ROUNDS
  {
    HeaderFields(original, payload, digest);
    ReadBE2(10);
    hide BE2, BE8, ReadU16;
    assert Ascii("KRCMIN5\0") == [75, 82, 67, 77, 73, 78, 53, 0];
    var h := InnerHeader(original, payload, digest);
    assert h[..9] == h[0..8] + [h[8]];
  }

  /** The labels that go into HMAC before the variable parts. */
  lemma LabelStarts(c: Context, nonce: bytes, i: nat, hash: Digest)
    ensures RoundLabel(i)[..5] == [114, 111, 117, 110, 100]
    ensures BlockLabel(nonce, i, hash)[..5] == [98, 108, 111, 99, 107]
    ensures SegmentLabel(c, i)[..15] == [75, 82, 67, 77, 45, 118, 53, 45, 115, 101, 103, 109, 101, 110, 116]
  {
    hide BE8, BE2;
  }

  /** The domains of the synthetic IV and of the tag, the second as a field with its length. */
  lemma DomainStarts(header: bytes, inner: bytes, siv: bytes, table: bytes, ciphertext: bytes)
    ensures SivInput(header, inner)[..11] == [75, 82, 67, 77, 45, 118, 53, 45, 83, 73, 86]
    ensures TagInput(header, siv, table, ciphertext)[..19]
      == [0, 0, 0, 0, 0, 0, 0, 11, 75, 82, 67, 77, 45, 118, 53, 45, 84, 65, 71]
  {
    assert BE8(11) == [0, 0, 0, 0, 0, 0, 0, 11];
    hide BE8;
  }

  /** The five v5 keys, by the bytes of their labels. */
  lemma KeyLabels(P: Primitives, root: Digest)
    ensures var stem := [75, 82, 67, 77, 45, 118, 53, 45, 115, 117, 98, 107, 101, 121, 75, 82, 67, 77, 45, 118, 53, 45];
      DeriveV5Keys(P, root) == V5Keys(
        P.hmac(root, stem + [101, 110, 99]),
        P.hmac(root, stem + [97, 117, 116, 104]),
        P.hmac(root, stem + [115, 105, 118]),
        P.hmac(root, stem + [98, 108, 111, 99, 107]),
        P.hmac(root, stem + [115, 101, 103, 109, 101, 110, 116]))
  {
    KeyLabel(Ascii("KRCM-v5-enc"), [101, 110, 99]);
    KeyLabel(Ascii("KRCM-v5-auth"), [97, 117, 116, 104]);
    KeyLabel(Ascii("KRCM-v5-siv"), [115, 105, 118]);
    KeyLabel(Ascii("KRCM-v5-block"), [98, 108, 111, 99, 107]);
    KeyLabel(Ascii("KRCM-v5-segment"), [115, 101, 103, 109, 101, 110, 116]);
    hide Ascii;
  }

  lemma KeyLabel(text: bytes, tail: bytes)
    requires |text| == 8 + |tail| && text[8..] == tail && text[..8] == [75, 82, 67, 77, 45, 118, 53, 45]
    ensures Ascii("KRCM-v5-subkey") + text
      == [75, 82, 67, 77, 45, 118, 53, 45, 115, 117, 98, 107, 101, 121, 75, 82, 67, 77, 45, 118, 53, 45] + tail
  {
    assert Ascii("KRCM-v5-subkey") == [75, 82, 67, 77, 45, 118, 53, 45, 115, 117, 98, 107, 101, 121];
    assert text == text[..8] + tail;
  }
}
