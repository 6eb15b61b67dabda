/** The length-prefixed inputs that the v5 tag and synthetic IV authenticate. */
module Transcript {
  import opened Bytes

  function Field(field: bytes): (s: bytes)
    ensures |s| == 8 + |field|
  {
    BE8(|field|) + field
  }

  /** `append_field`. */
  method AppendField(out: bytes, field: bytes) returns (r: bytes)
    ensures r == out + Field(field)
  {
    r := out + BE8(|field|);
    r := r + field;
  }

  function TagInput(header: bytes, siv: bytes, table: bytes, ciphertext: bytes): bytes
  {
    Field(Ascii("KRCM-v5-TAG")) + (Field(header) + (Field(siv) + (Field(table) + Field(ciphertext))))
  }

  method BuildTranscript(header: bytes, siv: bytes, table: bytes, ciphertext: bytes) returns (out: bytes)
    ensures out == TagInput(header, siv, table, ciphertext)
  {
    hide Field, Ascii;
    out := AppendField([], Ascii("KRCM-v5-TAG"));
    out := AppendField(out, header);
    out := AppendField(out, siv);
    out := AppendField(out, table);
    out := AppendField(out, ciphertext);
  }

  /** A field tells where it ends, so it can be split off the front in only one way. */
  lemma FieldSplits(x: bytes, rest: bytes, x': bytes, rest': bytes)
    requires |x| < TWO64 && |x'| < TWO64
    requires Field(x) + rest == Field(x') + rest'
    ensures x == x' && rest == rest'
  {
    hide BE8, ReadU64;
    var s, s' := Field(x) + rest, Field(x') + rest';
    assert s[..8] == BE8(|x|) && s'[..8] == BE8(|x'|);
    ReadBE8(|x|);
    ReadBE8(|x'|);
    assert s[8..8 + |x|] == x && s'[8..8 + |x'|] == x';
    assert s[8 + |x|..] == rest && s'[8 + |x'|..] == rest';
  }

  /** Equal transcripts have equal header, synthetic IV, table and ciphertext. */
  lemma TranscriptIsInjective(
      header: bytes, siv: bytes, table: bytes, ciphertext: bytes,
      header': bytes, siv': bytes, table': bytes, ciphertext': bytes)
    requires |header| < TWO64 && |siv| < TWO64 && |table| < TWO64 && |ciphertext| < TWO64
    requires |header'| < TWO64 && |siv'| < TWO64 && |table'| < TWO64 && |ciphertext'| < TWO64
    requires TagInput(header, siv, table, ciphertext) == TagInput(header', siv', table', ciphertext')
    ensures header == header' && siv == siv' && table == table' && ciphertext == ciphertext'
  {
    var domain := Ascii("KRCM-v5-TAG");
    hide Field, Ascii;
    FieldSplits(domain, Field(header) + (Field(siv) + (Field(table) + Field(ciphertext))),
      domain, Field(header') + (Field(siv') + (Field(table') + Field(ciphertext'))));
    FieldSplits(header, Field(siv) + (Field(table) + Field(ciphertext)),
      header', Field(siv') + (Field(table') + Field(ciphertext')));
    FieldSplits(siv, Field(table) + Field(ciphertext), siv', Field(table') + Field(ciphertext'));
    FieldSplits(table, Field(ciphertext), table', Field(ciphertext'));
    assert Field(ciphertext) + [] == Field(ciphertext') + [];
    FieldSplits(ciphertext, [], ciphertext', []);
  }

  /** The input of the synthetic IV: a fixed domain, then header and inner plaintext with lengths. */
  function SivInput(header: bytes, inner: bytes): bytes
  {
    Ascii("KRCM-v5-SIV") + BE8(|header|) + header + BE8(|inner|) + inner
  }

  /** Equal synthetic-IV inputs have equal header and inner plaintext. */
  lemma SivInputIsInjective(header: bytes, inner: bytes, header': bytes, inner': bytes)
    requires |header| < TWO64 && |inner| < TWO64 && |header'| < TWO64 && |inner'| < TWO64
    requires SivInput(header, inner) == SivInput(header', inner')
    ensures header == header' && inner == inner'
  {
    hide Ascii, BE8;
    var rest, rest' := Field(inner), Field(inner');
    var s, s' := SivInput(header, inner), SivInput(header', inner');
    assert s[11..] == Field(header) + rest && s'[11..] == Field(header') + rest';
    hide Field;
    FieldSplits(header, rest, header', rest');
    assert rest + [] == rest' + [];
    FieldSplits(inner, [], inner', []);
  }
}
