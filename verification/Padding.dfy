/** The padding of section 6.3 of RFC 5652 with block length 32. */
module Padding {
  import opened Bytes
  import opened Wrappers

  function Pad(data: bytes): (out: bytes)
    ensures |out| % 32 == 0 && |data| < |out| <= |data| + 32
  {
    var padLen := 32 - |data| % 32;
    data + Repeat(padLen, padLen)
  }

  function Unpad(data: bytes): Result<bytes, KrcmError>
  {
    if data == [] || |data| % 32 != 0 then Err(Format) else
      var padLen := data[|data| - 1] as int;
      if !(1 <= padLen <= 32) || |data| < padLen then Err(Authentication)
      else if exists i :: |data| - padLen <= i < |data| && data[i] != padLen then Err(Authentication)
      else Ok(data[..|data| - padLen])
  }

  /** `pad`, with the adjustment that its own remainder makes unreachable. */
  method PadBytes(data: bytes) returns (out: bytes)
    ensures out == Pad(data)
  {
    var padLen := 32 - |data| % 32;
    if padLen == 0 {
      padLen := 32;
    }
    out := data;
    var k := 0;
    while k < padLen
      invariant 0 <= k <= padLen && padLen == 32 - |data| % 32
      invariant out == data + Repeat(padLen, k)
    {
      out := out + [padLen];
      k := k + 1;
    }
  }

  lemma UnpadOfPad(data: bytes)
    ensures Unpad(Pad(data)) == Ok(data)
  {
    var out := Pad(data);
    var padLen := 32 - |data| % 32;
    assert out[|out| - 1] == padLen;
    assert forall i :: |data| <= i < |out| ==> out[i] == padLen;
    assert out[..|out| - padLen] == data;
  }

  lemma PadOfUnpad(padded: bytes)
    requires Unpad(padded).Ok?
    ensures Pad(Unpad(padded).value) == padded
  {
    var padLen := padded[|padded| - 1] as int;
    var data := Unpad(padded).value;
    PadLengthRecovered(|padded|, padLen);
    assert padded == data + padded[|data|..];
    assert padded[|data|..] == Repeat(padLen, padLen);
  }

  lemma PadLengthRecovered(n: nat, padLen: nat)
    requires n % 32 == 0 && 1 <= padLen <= 32 && padLen <= n
    ensures 32 - (n - padLen) % 32 == padLen
  {
  }

  /** Format is for lengths that are no whole number of blocks; every other refusal is Authentication. */
  lemma UnpadErrors(padded: bytes)
    ensures Unpad(padded).Err? ==> Unpad(padded).error in {Format, Authentication}
    ensures Unpad(padded) == Err(Format) <==> padded == [] || |padded| % 32 != 0
    ensures Unpad(padded) == Err(Authentication)
      <==> padded != [] && |padded| % 32 == 0 && forall data :: padded != Pad(data)
  {
    if Unpad(padded).Ok? {
      PadOfUnpad(padded);
    }
    forall data ensures padded == Pad(data) ==> Unpad(padded) == Ok(data) {
      UnpadOfPad(data);
    }
  }

  /** `pad` is a bijection from all byte strings onto exactly the strings `unpad` accepts. */
  lemma PaddingIsBijection(data: bytes, padded: bytes)
    ensures Unpad(padded) == Ok(data) <==> padded == Pad(data)
  {
    UnpadOfPad(data);
    if Unpad(padded) == Ok(data) {
      PadOfUnpad(padded);
    }
  }
}
