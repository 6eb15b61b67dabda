/**
 * The v5 reader in 64-bit arithmetic. Three of its additions are unchecked: in a build with
 * overflow checks a sum that leaves u64 panics, and without them it wraps, after which a slice may
 * panic. Everywhere else the reader is the one of `FormatV5`, and what panics is never accepted.
 */
module MachineSums {
  import opened Bytes
  import opened FormatV5
  import opened FormatV5Theorems
  import opened Inner
  import opened Kdf
  import opened Primitives
  import opened PublicHeader
  import opened SegmentTable
  import opened Segments
  import opened Wrappers

  datatype Outcome<+T> = Returned(value: T) | Failed(error: KrcmError) | Panicked {

    predicate IsFailure() {
      !Returned?
    }

    function PropagateFailure<U>(): Outcome<U>
      requires !Returned?
    {
      if Panicked? then Panicked else Failed(error)
    }

    function Extract(): T
      requires Returned?
    {
      value
    }
  }

  function Lift<T>(r: Result<T, KrcmError>): Outcome<T>
  {
    match r
    case Ok(value) => Returned(value)
    case Err(error) => Failed(error)
  }

  /** isize::MAX, the most bytes a slice can hold. */
  const MAX_SLICE: nat := 0x7FFF_FFFF_FFFF_FFFF

  /** An unchecked `+` on u64; `checked` says whether the build has overflow checks. */
  function Sum(a: u64, b: u64, checked: bool): Outcome<u64>
  {
    if a + b < TWO64 then Returned(a + b) else if checked then Panicked else Returned(a + b - TWO64)
  }

  function Slice(s: bytes, lo: nat, hi: nat): Outcome<bytes>
  {
    if lo <= hi <= |s| then Returned(s[lo..hi]) else Panicked
  }

  // ----- The outer framing -----

  function SplitMachine(container: bytes, checked: bool): Outcome<Outer>
    requires |container| <= MAX_SLICE
  {
    var parsed :- Lift(SplitPrefix(container));
    var header, siv := container[13..77], container[77..109];
    var tableLen := ReadU64(container[109..117]);
    if tableLen % 40 != 0 then Failed(Format) else
    var tableEnd :- Sum(117, tableLen, checked);
    if tableEnd > |container| then Failed(Format) else
    var table :- Slice(container, 117, tableEnd);
    var at := tableEnd + 8;
    if at > |container| then Failed(Format) else
    var cipherLen := ReadU64(container[tableEnd..at]);
    var cipherEnd :- Sum(at, cipherLen, checked);
    var total :- Sum(cipherEnd, 32, checked);
    if total != |container| then Failed(Format) else
    var ciphertext :- Slice(container, at, cipherEnd);
    Returned(Outer(header, parsed, siv, table, ciphertext, container[cipherEnd..]))
  }

  /** The offset behind the table, when the prefix is read and the table length is a multiple of 40. */
  function TableEnd(container: bytes): Option<nat>
  {
    if SplitPrefix(container).Err? || ReadU64(container[109..117]) % 40 != 0 then None
    else Some(117 + ReadU64(container[109..117]))
  }

  /** The length that the two later additions should give, when the ciphertext's length can be read. */
  function StatedLength(container: bytes): Option<nat>
  {
    match TableEnd(container)
    case None => None
    case Some(end) =>
      if end + 8 > |container| then None else Some(end + 8 + ReadU64(container[end..end + 8]) + 32)
  }

  /** The containers on which splitting panics: a sum leaves u64, and no later guard catches it. */
  predicate SplitPanics(container: bytes, checked: bool)
  {
    || (TableEnd(container).Some? && TableEnd(container).value >= TWO64)
    || (StatedLength(container).Some?
        && (if checked then StatedLength(container).value >= TWO64
            else StatedLength(container).value == |container| + TWO64))
  }

  lemma SplitMachineExact(container: bytes, checked: bool)
    requires |container| <= MAX_SLICE
    ensures SplitMachine(container, checked)
      == if SplitPanics(container, checked) then Panicked else Lift(SplitOuter(container))
  {
    hide SplitPrefix, ReadU64, Magic;
  }

  lemma SplitPanicIsRefused(container: bytes, checked: bool)
    requires |container| <= MAX_SLICE && SplitPanics(container, checked)
    ensures SplitOuter(container) == Err(Format)
  {
    hide SplitPrefix, ReadU64, Magic;
  }

  /** Such containers exist: any readable header with a table length of 2^64 - 16 makes one. */
  lemma SplitCanPanic(header: bytes, siv: Digest, rest: bytes, checked: bool)
    requires |header| == HEADER_V5_SIZE && ParseHeader(header).Ok? && |rest| >= 24
    ensures var front := Magic() + [5] + BE4(HEADER_V5_SIZE) + header + siv + BE8(TWO64 - 16);
      SplitPanics(front + rest, checked)
  {
    hide BE4, BE8, Magic, ReadU32, ReadU64, ParseHeader, SplitPrefix, StatedLength;
    var table := seq(TWO64 - 16, _ => 0);
    var front := Magic() + [5] + BE4(HEADER_V5_SIZE) + header + siv + BE8(TWO64 - 16);
    FrontSlices(front, header, siv, table);
    var c := front + rest;
    assert c[..117] == front;
    SliceOfPrefix(c, front);
    PrefixIsRead(c);
    ReadBE8(TWO64 - 16);
  }

  lemma PrefixIsRead(c: bytes)
    requires |c| >= 141 && c[..8] == Magic() && c[8] == 5 && c[9..13] == BE4(HEADER_V5_SIZE)
    ensures SplitPrefix(c) == ParseHeader(c[13..77])
  {
    hide BE4, Magic, ReadU32, ParseHeader;
    ReadBE4(HEADER_V5_SIZE);
  }

  // ----- The inner header -----

  function InspectMachine(P: Primitives, inner: bytes, checked: bool): Outcome<Info>
  {
    if !InnerPrefix(inner) then Failed(Authentication) else
    var original, payload := ReadU64(inner[12..20]), ReadU64(inner[20..28]);
    var end :- Sum(HEADER_BYTES, payload, checked);
    if end > |inner| || original > payload then Failed(Authentication) else
    var body :- Slice(inner, HEADER_BYTES, end);
    if inner[28..60] != P.sha256(body) then Failed(Authentication) else Returned(Info(original, payload))
  }

  /** Likewise for the inner header's payload length. */
  predicate InspectPanics(inner: bytes, checked: bool)
  {
    && InnerPrefix(inner)
    && HEADER_BYTES + ReadU64(inner[20..28]) >= TWO64
    && (checked || ReadU64(inner[12..20]) <= ReadU64(inner[20..28]))
  }

  lemma InspectMachineExact(P: Primitives, inner: bytes, checked: bool)
    ensures InspectMachine(P, inner, checked)
      == if InspectPanics(inner, checked) then Panicked else Lift(InspectInner(P, inner))
  {
    hide ReadU64, ReadU16, Ascii;
  }

  lemma InspectPanicIsRefused(P: Primitives, inner: bytes, checked: bool)
    requires |inner| < TWO64 && InspectPanics(inner, checked)
    ensures InspectInner(P, inner) == Err(Authentication)
  {
    hide ReadU64, ReadU16, Ascii;
  }

  // ----- The whole reader -----

  ghost function OpenMachine(P: Primitives, keys: V5Keys, o: Outer, checked: bool): Outcome<bytes>
  {
    var inner :- Lift(AuthenticInner(P, keys, o));
    var info :- InspectMachine(P, inner, checked);
    var es := ParseTable(o.table, |o.ciphertext|).value;
    if PlainSum(es) != |inner| || info.payloadLength > |inner| then Failed(Format) else
    Lift(UnpackInner(P, inner))
  }

  /** `decrypt_v5` as the machine runs it. */
  ghost function DecryptMachine(P: Primitives, container: bytes, password: bytes, checked: bool): Outcome<bytes>
    requires |container| <= MAX_SLICE
  {
    var o :- SplitMachine(container, checked);
    var root :- Lift(DeriveRootKey(P, password, o.parsed.salt, o.parsed.kdf));
    OpenMachine(P, DeriveV5Keys(P, root), o, checked)
  }

  /** The containers on which the reader panics: while splitting, or on an authentic inner header. */
  ghost predicate DecryptPanics(P: Primitives, container: bytes, password: bytes, checked: bool)
  {
    SplitPanics(container, checked) ||
    (var outer := SplitOuter(container);
     outer.Ok? &&
     var o := outer.value;
     var root := DeriveRootKey(P, password, o.parsed.salt, o.parsed.kdf);
     root.Ok? &&
     var inner := AuthenticInner(P, DeriveV5Keys(P, root.value), o);
     inner.Ok? && InspectPanics(inner.value, checked))
  }

  /** Apart from these panics the machine's reader is the reader of `FormatV5`, errors included. */
  lemma DecryptMachineExact(P: Primitives, container: bytes, password: bytes, checked: bool)
    requires |container| <= MAX_SLICE
    ensures DecryptMachine(P, container, password, checked)
      == if DecryptPanics(P, container, password, checked) then Panicked else Lift(DecryptV5(P, container, password))
  {
    hide SplitMachine, SplitPanics, SplitOuter, InspectMachine, InspectPanics, InspectInner, UnpackInner;
    hide AuthenticInner, DeriveRootKey, DeriveV5Keys, PlainSum, ParseTable;
    SplitMachineExact(container, checked);
    var outer := SplitOuter(container);
    if outer.Ok? {
      var o := outer.value;
      var root := DeriveRootKey(P, password, o.parsed.salt, o.parsed.kdf);
      if root.Ok? && AuthenticInner(P, DeriveV5Keys(P, root.value), o).Ok? {
        InspectMachineExact(P, AuthenticInner(P, DeriveV5Keys(P, root.value), o).value, checked);
        UnpackFollowsInspect(P, AuthenticInner(P, DeriveV5Keys(P, root.value), o).value);
      }
    }
  }

  lemma UnpackFollowsInspect(P: Primitives, inner: bytes)
    ensures UnpackInner(P, inner).Ok? <==> InspectInner(P, inner).Ok?
  {
    hide InspectInner;
  }

  lemma AuthenticInnerFits(P: Primitives, keys: V5Keys, o: Outer)
    requires AuthenticInner(P, keys, o).Ok?
    ensures |AuthenticInner(P, keys, o).value| < TWO64
  {
    hide ParseTable, OpenInner, Tag, SyntheticIv, InBounds, TilesFrom;
    var es := ParseTable(o.table, |o.ciphertext|).value;
    LateChecksImplied(P, Context(P, keys, o.parsed.publicNonce, o.siv), o.table, o.ciphertext, es,
      AuthenticInner(P, keys, o).value);
  }

  /** What panics is never accepted: the reader of `FormatV5` answers Format or Authentication there. */
  lemma PanicIsRefused(P: Primitives, container: bytes, password: bytes, checked: bool)
    requires |container| <= MAX_SLICE && DecryptPanics(P, container, password, checked)
    ensures DecryptV5(P, container, password) in {Err(Format), Err(Authentication)}
  {
    hide SplitPanics, SplitOuter, InspectPanics, InspectInner, AuthenticInner, DeriveRootKey, DeriveV5Keys;
    if SplitPanics(container, checked) {
      SplitPanicIsRefused(container, checked);
    } else {
      var o := SplitOuter(container).value;
      var keys := DeriveV5Keys(P, DeriveRootKey(P, password, o.parsed.salt, o.parsed.kdf).value);
      AuthenticInnerFits(P, keys, o);
      InspectPanicIsRefused(P, AuthenticInner(P, keys, o).value, checked);
    }
  }

  /** So in either build the machine returns `data` exactly where the reader of `FormatV5` does. */
  lemma MachineAcceptsTheSame(P: Primitives, container: bytes, password: bytes, data: bytes, checked: bool)
    requires |container| <= MAX_SLICE
    ensures DecryptMachine(P, container, password, checked) == Returned(data)
      <==> DecryptV5(P, container, password) == Ok(data)
  {
    hide DecryptMachine, DecryptPanics, DecryptV5;
    DecryptMachineExact(P, container, password, checked);
    if DecryptPanics(P, container, password, checked) {
      PanicIsRefused(P, container, password, checked);
    }
  }
}
