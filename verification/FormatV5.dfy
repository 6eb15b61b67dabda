/** The v5 container: sealing, the guarded decryptor, and exactly which containers it accepts. */
module FormatV5 {
  import opened Bytes
  import opened Inner
  import opened Kdf
  import opened Primitives
  import opened PublicHeader
  import opened SegmentTable
  import opened Segments
  import opened Transcript
  import opened Wrappers

  // ----- Sealing -----

  function SyntheticIv(P: Primitives, keys: V5Keys, header: bytes, inner: bytes): Digest
  {
    P.hmac(keys.siv, SivInput(header, inner))
  }

  function Tag(P: Primitives, keys: V5Keys, header: bytes, siv: bytes, table: bytes, ciphertext: bytes): Digest
  {
    P.hmac(keys.auth, TagInput(header, siv, table, ciphertext))
  }

  /** The outer framing. */
  function Assemble(header: bytes, siv: bytes, table: bytes, ciphertext: bytes, tag: bytes): bytes
  {
    Magic() + [5] + BE4(HEADER_V5_SIZE) + header + siv + BE8(|table|) + table + BE8(|ciphertext|) + ciphertext + tag
  }

  /** The container for a public header and a list of plain segments, everything else derived. */
  ghost function Seal(P: Primitives, keys: V5Keys, publicNonce: Bytes16, header: bytes, segs: seq<bytes>): bytes
  {
    var siv := SyntheticIv(P, keys, header, Concat(segs));
    var table := Serialized(EntriesFrom(segs, 0, 0, 0));
    var ciphertext := CiphersFrom(Context(P, keys, publicNonce, siv), segs, 0);
    Assemble(header, siv, table, ciphertext, Tag(P, keys, header, siv, table, ciphertext))
  }

  /** `encrypt_v5`, with the random padding bytes as a parameter. */
  ghost function EncryptV5(P: Primitives, data: bytes, password: bytes, opts: Options, padding: bytes)
    : Result<bytes, KrcmError>
  {
    var header :- PackHeader(opts);
    var root :- DeriveRootKey(P, password, opts.salt, opts.kdf);
    var segs := Chunks(PackInner(P, data, padding), SegmentSizeFor(opts.segmentSize));
    Ok(Seal(P, DeriveV5Keys(P, root), opts.publicNonce, header, segs))
  }

  // ----- Opening -----

  /** The pieces of a container, before any key is known. */
  datatype Outer = Outer(header: bytes, parsed: Parsed, siv: Digest, table: bytes, ciphertext: bytes, tag: Digest)

  /** The guards before the first length that the container itself states. */
  function SplitPrefix(container: bytes): (r: Result<Parsed, KrcmError>)
    ensures r.Ok? ==> |container| >= 141
  {
    if |container| < 141 then Err(Format)
    else if container[..8] != Magic() || container[8] != 5 then Err(Format)
    else if ReadU32(container[9..13]) != HEADER_V5_SIZE then Err(Format)
    else ParseHeader(container[13..77])
  }

  function SplitOuter(container: bytes): Result<Outer, KrcmError>
  {
    var parsed :- SplitPrefix(container);
    var header, siv := container[13..77], container[77..109];
    var tableLen := ReadU64(container[109..117]);
    if tableLen % 40 != 0 || 117 + tableLen > |container| then Err(Format) else
    var at := 117 + tableLen;
    if at + 8 > |container| then Err(Format) else
    var cipherLen := ReadU64(container[at..at + 8]);
    if at + 8 + cipherLen + 32 != |container| then Err(Format) else
    var end := at + 8 + cipherLen;
    Ok(Outer(header, parsed, siv, container[117..at], container[at + 8..end], container[end..]))
  }

  /** The sum of the table's plain lengths that `decrypt_v5` compares with the inner length. */
  function PlainSum(es: seq<Entry>): nat
  {
    if es == [] then 0 else es[0].plainLength + PlainSum(es[1..])
  }

  ghost function DecryptV5(P: Primitives, container: bytes, password: bytes): Result<bytes, KrcmError>
  {
    var o :- SplitOuter(container);
    var root :- DeriveRootKey(P, password, o.parsed.salt, o.parsed.kdf);
    OpenOuter(P, DeriveV5Keys(P, root), o)
  }

  /** The inner bytes, once tag, table, segments and synthetic IV have been checked. */
  ghost function AuthenticInner(P: Primitives, keys: V5Keys, o: Outer): (r: Result<bytes, KrcmError>)
    ensures r.Ok? ==> ParseTable(o.table, |o.ciphertext|).Ok?
  {
    if o.tag != Tag(P, keys, o.header, o.siv, o.table, o.ciphertext) then Err(Authentication) else
    var es :- ParseTable(o.table, |o.ciphertext|);
    ParseTableExact(o.table, es, |o.ciphertext|);
    TilesInBounds(es, 0, 0, 0, |o.ciphertext|);
    var inner :- OpenInner(Context(P, keys, o.parsed.publicNonce, o.siv), es, o.ciphertext);
    if o.siv != SyntheticIv(P, keys, o.header, inner) then Err(Authentication) else Ok(inner)
  }

  /** Everything after key derivation. */
  ghost function OpenOuter(P: Primitives, keys: V5Keys, o: Outer): Result<bytes, KrcmError>
  {
    var inner :- AuthenticInner(P, keys, o);
    var info :- InspectInner(P, inner);
    var es := ParseTable(o.table, |o.ciphertext|).value;
    if PlainSum(es) != |inner| || info.payloadLength > |inner| then Err(Format) else
    UnpackInner(P, inner)
  }

  // ----- Framing -----

  lemma AssembleSlices(header: bytes, siv: bytes, table: bytes, ct: bytes, tag: bytes)
    requires |header| == 64 && |siv| == 32 && |tag| == 32
    ensures var c := Assemble(header, siv, table, ct, tag); var at := 117 + |table|;
      && |c| == at + 8 + |ct| + 32 && c[..8] == Magic() && c[8] == 5 && c[9..13] == BE4(HEADER_V5_SIZE)
      && c[13..77] == header && c[77..109] == siv && c[109..117] == BE8(|table|) && c[117..at] == table
      && c[at..at + 8] == BE8(|ct|) && c[at + 8..at + 8 + |ct|] == ct && c[at + 8 + |ct|..] == tag
  {
    hide BE4, BE8, Magic;
    var c, at := Assemble(header, siv, table, ct, tag), 117 + |table|;
    var front := Magic() + [5] + BE4(HEADER_V5_SIZE) + header + siv + BE8(|table|);
    assert |front| == 117 && c == front + (table + (BE8(|ct|) + (ct + tag)));
    FrontSlices(front, header, siv, table);
    assert c[..117] == front && c[117..] == table + (BE8(|ct|) + (ct + tag));
    assert c[117..at] == c[117..][..|table|] && c[at..] == BE8(|ct|) + (ct + tag);
    assert c[at + 8..] == ct + tag;
    assert c[at + 8..at + 8 + |ct|] == c[at + 8..][..|ct|];
    SliceOfPrefix(c, front);
  }

  lemma FrontSlices(front: bytes, header: bytes, siv: bytes, table: bytes)
    requires |header| == 64 && |siv| == 32
    requires front == Magic() + [5] + BE4(HEADER_V5_SIZE) + header + siv + BE8(|table|)
    ensures |front| == 117 && front[..8] == Magic() && front[8] == 5 && front[9..13] == BE4(HEADER_V5_SIZE)
    ensures front[13..77] == header && front[77..109] == siv && front[109..117] == BE8(|table|)
  {
    hide BE4, BE8, Magic;
  }

  lemma SliceOfPrefix(c: bytes, front: bytes)
    requires |front| == 117 <= |c| && c[..117] == front
    ensures c[..8] == front[..8] && c[8] == front[8] && c[9..13] == front[9..13] && c[13..77] == front[13..77]
    ensures c[77..109] == front[77..109] && c[109..117] == front[109..117]
  {
  }

  /** Splitting accepts exactly assembled containers with a readable public header. */
  lemma SplitOuterExact(container: bytes, o: Outer)
    requires |container| < TWO64
    ensures SplitOuter(container) == Ok(o) <==>
      && |o.header| == 64 && ParseHeader(o.header) == Ok(o.parsed) && |o.table| % 40 == 0
      && container == Assemble(o.header, o.siv, o.table, o.ciphertext, o.tag)
  {
    hide SplitOuter, Assemble, ParseHeader;
    if SplitOuter(container) == Ok(o) {
      SplitIsAssembled(container, o);
    } else if |o.header| == 64 && ParseHeader(o.header) == Ok(o.parsed) && |o.table| % 40 == 0 {
      if container == Assemble(o.header, o.siv, o.table, o.ciphertext, o.tag) {
        SplitOfAssemble(container, o);
      }
    }
  }

  lemma SplitOfAssemble(container: bytes, o: Outer)
    requires |container| < TWO64
    requires |o.header| == 64 && ParseHeader(o.header) == Ok(o.parsed) && |o.table| % 40 == 0
    requires container == Assemble(o.header, o.siv, o.table, o.ciphertext, o.tag)
    ensures SplitOuter(container) == Ok(o)
  {
    hide BE4, BE8, Magic, ReadU32, ReadU64, Assemble, ParseHeader;
    AssembleSlices(o.header, o.siv, o.table, o.ciphertext, o.tag);
    ReadBE4(64);
    ReadBE8(|o.table|);
    ReadBE8(|o.ciphertext|);
  }

  lemma SplitIsAssembled(container: bytes, o: Outer)
    requires SplitOuter(container) == Ok(o)
    ensures |o.header| == 64 && ParseHeader(o.header) == Ok(o.parsed) && |o.table| % 40 == 0
    ensures container == Assemble(o.header, o.siv, o.table, o.ciphertext, o.tag)
  {
    hide BE4, BE8, Magic, ReadU32, ReadU64, ParseHeader;
    var c, at := container, 117 + |o.table|;
    BE4Read(c[9..13]);
    BE8Read(c[109..117]);
    BE8Read(c[at..at + 8]);
    assert c[8..9] == [5];
    assert c == c[..8] + c[8..9] + c[9..13] + c[13..77] + c[77..109] + c[109..117] + c[117..at] + c[at..at + 8]
      + c[at + 8..at + 8 + |o.ciphertext|] + c[at + 8 + |o.ciphertext|..];
  }
}
