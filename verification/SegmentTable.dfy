/** The v5 segment table: 40-byte entries whose plain and cipher ranges tile from 0. */
module SegmentTable {
  import opened Bytes
  import opened Wrappers

  datatype Entry = Entry(index: nat, plainOffset: nat, plainLength: nat, cipherOffset: nat, cipherLength: nat) {
    function PlainEnd(): nat
    {
      plainOffset + plainLength
    }

    function CipherEnd(): nat
    {
      cipherOffset + cipherLength
    }

    predicate IsWords()
    {
      && index < TWO64 && plainOffset < TWO64 && plainLength < TWO64
      && cipherOffset < TWO64 && cipherLength < TWO64
    }
  }

  function SerializeEntry(e: Entry): (s: bytes)
    ensures |s| == 40
  {
    BE8(e.index) + BE8(e.plainOffset) + BE8(e.plainLength) + BE8(e.cipherOffset) + BE8(e.cipherLength)
  }

  function ReadEntry(s: bytes): (e: Entry)
    requires |s| == 40
    ensures e.IsWords()
  {
    Entry(ReadU64(s[0..8]), ReadU64(s[8..16]), ReadU64(s[16..24]), ReadU64(s[24..32]), ReadU64(s[32..40]))
  }

  lemma ReadOfSerializeEntry(e: Entry)
    requires e.IsWords()
    ensures ReadEntry(SerializeEntry(e)) == e
  {
    hide BE8, ReadU64;
    var s := SerializeEntry(e);
    assert s[0..8] == BE8(e.index) && s[8..16] == BE8(e.plainOffset) && s[16..24] == BE8(e.plainLength);
    assert s[24..32] == BE8(e.cipherOffset) && s[32..40] == BE8(e.cipherLength);
    ReadBE8(e.index);
    ReadBE8(e.plainOffset);
    ReadBE8(e.plainLength);
    ReadBE8(e.cipherOffset);
    ReadBE8(e.cipherLength);
  }

  lemma SerializeOfReadEntry(s: bytes)
    requires |s| == 40
    ensures SerializeEntry(ReadEntry(s)) == s
  {
    hide BE8, ReadU64;
    BE8Read(s[0..8]);
    BE8Read(s[8..16]);
    BE8Read(s[16..24]);
    BE8Read(s[24..32]);
    BE8Read(s[32..40]);
    assert s == s[0..8] + s[8..16] + s[16..24] + s[24..32] + s[32..40];
  }

  function Serialized(entries: seq<Entry>): (s: bytes)
    ensures |s| == 40 * |entries|
  {
    if entries == [] then [] else SerializeEntry(entries[0]) + Serialized(entries[1..])
  }

  lemma {:induction false} SerializedAppend(a: seq<Entry>, e: Entry)
    ensures Serialized(a + [e]) == Serialized(a) + SerializeEntry(e)
  {
    hide SerializeEntry;
    if a == [] {
      assert Serialized([]) == [] && [e][1..] == [];
      assert SerializeEntry(e) + [] == SerializeEntry(e);
      assert a + [e] == [e];
    } else {
      SerializedAppend(a[1..], e);
      assert (a + [e])[1..] == a[1..] + [e];
    }
  }

  method SerializeSegmentTable(entries: seq<Entry>) returns (out: bytes)
    ensures out == Serialized(entries)
  {
    out := [];
    for i := 0 to |entries|
      invariant out == Serialized(entries[..i])
    {
      SerializedAppend(entries[..i], entries[i]);
      assert entries[..i + 1] == entries[..i] + [entries[i]];
      out := out + SerializeEntry(entries[i]);
    }
    assert entries[..|entries|] == entries;
  }

  // ----- Parsing -----

  lemma WholeEntries(table: bytes)
    requires |table| % 40 == 0 && table != []
    ensures |table| >= 40 && |table[40..]| % 40 == 0
  {
  }

  /** The parsing loop, from entry number `ordinal` and the two expected offsets on. */
  function ParseFrom(table: bytes, ordinal: nat, plain: nat, cipher: nat, cipherLen: nat): Result<seq<Entry>, KrcmError>
    requires |table| % 40 == 0
    decreases |table|
  {
    hide ReadEntry;
    if table == [] then
      if cipher != cipherLen then Err(Format) else Ok([])
    else
      WholeEntries(table);
      var e := ReadEntry(table[..40]);
      if e.index != ordinal || e.plainOffset != plain || e.cipherOffset != cipher
        || e.cipherLength == 0 || e.cipherLength % 32 != 0 then Err(Format)
      else if plain + e.plainLength >= TWO64 then Err(Format)
      else if cipher + e.cipherLength >= TWO64 then Err(Format)
      else
        var rest :- ParseFrom(table[40..], ordinal + 1, plain + e.plainLength, cipher + e.cipherLength, cipherLen);
        Ok([e] + rest)
  }

  function ParseTable(table: bytes, cipherLen: nat): Result<seq<Entry>, KrcmError>
  {
    if table == [] || |table| % 40 != 0 then Err(Format) else ParseFrom(table, 0, 0, 0, cipherLen)
  }

  function Prepend(entries: seq<Entry>, r: Result<seq<Entry>, KrcmError>): Result<seq<Entry>, KrcmError>
  {
    match r
    case Ok(rest) => Ok(entries + rest)
    case Err(e) => Err(e)
  }

  lemma PrependNone(r: Result<seq<Entry>, KrcmError>)
    ensures Prepend([], r) == r
  {
    assert r.Ok? ==> [] + r.value == r.value;
  }

  method ParseSegmentTable(table: bytes, cipherLen: nat) returns (r: Result<seq<Entry>, KrcmError>)
    ensures r == ParseTable(table, cipherLen)
  {
    hide ReadEntry;
    if table == [] || |table| % 40 != 0 {
      return Err(Format);
    }
    var entries: seq<Entry> := [];
    var plain: nat, cipher: nat, ordinal: nat := 0, 0, 0;
    ghost var rest := table;
    PrependNone(ParseFrom(rest, 0, 0, 0, cipherLen));
    while 40 * ordinal < |table|
      invariant 0 <= 40 * ordinal <= |table| && rest == table[40 * ordinal..] && |rest| % 40 == 0
      invariant ParseTable(table, cipherLen) == Prepend(entries, ParseFrom(rest, ordinal, plain, cipher, cipherLen))
      decreases |table| - 40 * ordinal
    {
      WholeEntries(rest);
      var chunk := table[40 * ordinal..40 * ordinal + 40];
      assert chunk == rest[..40];
      var e := ReadEntry(chunk);
      if e.index != ordinal || e.plainOffset != plain || e.cipherOffset != cipher
        || e.cipherLength == 0 || e.cipherLength % 32 != 0
      {
        return Err(Format);
      }
      if plain + e.plainLength >= TWO64 {
        return Err(Format);
      }
      if cipher + e.cipherLength >= TWO64 {
        return Err(Format);
      }
      ghost var later := ParseFrom(rest[40..], ordinal + 1, plain + e.plainLength, cipher + e.cipherLength, cipherLen);
      assert later.Ok? ==> entries + ([e] + later.value) == (entries + [e]) + later.value;
      plain := plain + e.plainLength;
      cipher := cipher + e.cipherLength;
      entries := entries + [e];
      rest := rest[40..];
      ordinal := ordinal + 1;
    }
    if cipher != cipherLen {
      return Err(Format);
    }
    assert entries + [] == entries;
    r := Ok(entries);
  }

  // ----- What the parser accepts -----

  /** Entry i carries its number and starts where entry i-1 ends, in both ranges. */
  ghost predicate TilesAt(es: seq<Entry>, i: nat, ordinal: nat, plain: nat, cipher: nat)
    requires i < |es|
  {
    var e := es[i];
    && e.index == ordinal + i && e.IsWords()
    && e.cipherLength > 0 && e.cipherLength % 32 == 0
    && e.plainOffset == (if i == 0 then plain else es[i - 1].PlainEnd())
    && e.cipherOffset == (if i == 0 then cipher else es[i - 1].CipherEnd())
    && e.PlainEnd() < TWO64 && e.CipherEnd() < TWO64
  }

  /** Numbered from `ordinal`, with ranges that follow on from (plain, cipher) to cipherLen. */
  ghost predicate TilesFrom(es: seq<Entry>, ordinal: nat, plain: nat, cipher: nat, cipherLen: nat)
  {
    && (forall i :: 0 <= i < |es| ==> TilesAt(es, i, ordinal, plain, cipher))
    && cipherLen == if es == [] then cipher else es[|es| - 1].CipherEnd()
  }

  /** Non-empty, numbered from 0, both ranges tiling from 0, ending at the ciphertext length. */
  ghost predicate Tiles(es: seq<Entry>, cipherLen: nat)
  {
    es != [] && TilesFrom(es, 0, 0, 0, cipherLen)
  }

  lemma TilesCons(e: Entry, rest: seq<Entry>, ordinal: nat, plain: nat, cipher: nat, cipherLen: nat)
    ensures TilesFrom([e] + rest, ordinal, plain, cipher, cipherLen) <==>
      && e.index == ordinal && e.plainOffset == plain && e.cipherOffset == cipher && e.IsWords()
      && e.cipherLength > 0 && e.cipherLength % 32 == 0 && e.PlainEnd() < TWO64 && e.CipherEnd() < TWO64
      && TilesFrom(rest, ordinal + 1, e.PlainEnd(), e.CipherEnd(), cipherLen)
  {
    var es := [e] + rest;
    var ordinal', plain', cipher' := ordinal + 1, e.PlainEnd(), e.CipherEnd();
    if TilesFrom(es, ordinal, plain, cipher, cipherLen) {
      assert es[0] == e;
      assert TilesAt(es, 0, ordinal, plain, cipher);
      forall i | 0 <= i < |rest| ensures TilesAt(rest, i, ordinal', plain', cipher') {
        assert TilesAt(es, i + 1, ordinal, plain, cipher);
      }
    }
    if TilesFrom(rest, ordinal', plain', cipher', cipherLen) && TilesAt([e], 0, ordinal, plain, cipher) {
      forall i | 0 <= i < |es| ensures TilesAt(es, i, ordinal, plain, cipher) {
        if i > 0 {
          assert TilesAt(rest, i - 1, ordinal', plain', cipher');
        }
      }
    }
  }

  /** Parsing and printing are inverse to each other on the tiling lists. */
  lemma {:induction false} ParseFromExact(
      table: bytes, es: seq<Entry>, ordinal: nat, plain: nat, cipher: nat, cipherLen: nat)
    requires |table| % 40 == 0
    ensures ParseFrom(table, ordinal, plain, cipher, cipherLen) == Ok(es)
      <==> TilesFrom(es, ordinal, plain, cipher, cipherLen) && table == Serialized(es)
    decreases |table| + |es|
  {
    hide TilesFrom, ReadEntry, SerializeEntry;
    if table == [] {
      TilesNone(ordinal, plain, cipher, cipherLen);
    } else {
      WholeEntries(table);
      var head, tail := table[..40], table[40..];
      var e := ReadEntry(head);
      SerializeOfReadEntry(head);
      if es != [] {
        var d, rest := es[0], es[1..];
        assert es == [d] + rest;
        TilesCons(d, rest, ordinal, plain, cipher, cipherLen);
        ParseFromExact(tail, rest, ordinal + 1, plain + e.plainLength, cipher + e.cipherLength, cipherLen);
        if table == Serialized(es) && d.IsWords() {
          ReadOfSerializeEntry(d);
          assert head == SerializeEntry(d);
          assert tail == Serialized(rest);
        }
        assert table == head + tail;
      }
    }
  }

  lemma TilesNone(ordinal: nat, plain: nat, cipher: nat, cipherLen: nat)
    ensures TilesFrom([], ordinal, plain, cipher, cipherLen) <==> cipher == cipherLen
  {
  }

  /** The parser accepts exactly the serialisations of tiling lists, and returns that list. */
  lemma ParseTableExact(table: bytes, es: seq<Entry>, cipherLen: nat)
    ensures ParseTable(table, cipherLen) == Ok(es) <==> Tiles(es, cipherLen) && table == Serialized(es)
  {
    hide TilesFrom;
    if |table| % 40 == 0 {
      ParseFromExact(table, es, 0, 0, 0, cipherLen);
    }
  }
}
