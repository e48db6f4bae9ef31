/** The table-driven decoder of include/utf8.h, against the syntax of UTF-8 byte sequences in section 4
    of RFC 3629 and the encoding of section 3. */
module Utf8 {
  import Text

  type Byte = Text.Byte

  const ACCEPT: nat := 0
  const REJECT: nat := 1
  const STATES: nat := 9
  const WORD: nat := 0x1_0000_0000

  // ----- the table ------------------------------------------------------------------------------

  function Run(length: nat, value: nat): seq<nat> {
    seq(length, _ => value)
  }

  /** The first 256 entries: the class of every byte. */
  const CLASSES: seq<nat> :=
    Run(128, 0) + Run(16, 1) + Run(16, 9) + Run(32, 7) + Run(2, 8) + Run(30, 2)
    + [10] + Run(12, 3) + [4] + Run(2, 3)
    + [11] + Run(3, 6) + [5] + Run(11, 8)

  const S0: seq<nat> := [0, 1, 2, 3, 5, 8, 7, 1, 1, 1, 4, 6, 1, 1, 1, 1]
  const S1: seq<nat> := [1, 1, 1, 1, 1, 1, 1, 1, 1, 1, 1, 1, 1, 1, 1, 1]
  const S2: seq<nat> := [1, 0, 1, 1, 1, 1, 1, 0, 1, 0, 1, 1, 1, 1, 1, 1]
  const S3: seq<nat> := [1, 2, 1, 1, 1, 1, 1, 2, 1, 2, 1, 1, 1, 1, 1, 1]
  const S4: seq<nat> := [1, 1, 1, 1, 1, 1, 1, 2, 1, 1, 1, 1, 1, 1, 1, 1]
  const S5: seq<nat> := [1, 2, 1, 1, 1, 1, 1, 1, 1, 2, 1, 1, 1, 1, 1, 1]
  const S6: seq<nat> := [1, 1, 1, 1, 1, 1, 1, 3, 1, 3, 1, 1, 1, 1, 1, 1]
  const S7: seq<nat> := [1, 3, 1, 1, 1, 1, 1, 3, 1, 3, 1, 1, 1, 1, 1, 1]
  const S8: seq<nat> := [1, 3, 1, 1, 1, 1, 1, 1, 1, 1, 1, 1, 1, 1, 1, 1]

  const TRANSITIONS: seq<nat> := S0 + S1 + S2 + S3 + S4 + S5 + S6 + S7 + S8

  const TABLE: seq<nat> := CLASSES + TRANSITIONS

  lemma ClassOf(b: Byte)
    ensures |CLASSES| == 256
    ensures CLASSES[b] ==
            if b < 0x80 then 0 else if b < 0x90 then 1 else if b < 0xa0 then 9 else if b < 0xc0 then 7
            else if b < 0xc2 then 8 else if b < 0xe0 then 2
            else if b == 0xe0 then 10 else if b == 0xed then 4 else if b < 0xf0 then 3
            else if b == 0xf0 then 11 else if b < 0xf4 then 6 else if b == 0xf4 then 5 else 8
  {
  }

  function Row(s: nat): (r: seq<nat>)
    requires s < STATES
    ensures |r| == 16
  {
    match s
    case 0 => S0
    case 1 => S1
    case 2 => S2
    case 3 => S3
    case 4 => S4
    case 5 => S5
    case 6 => S6
    case 7 => S7
    case _ => S8
  }

  lemma RowAt(s: nat, k: nat)
    requires s < STATES && k < 16
    ensures |TRANSITIONS| == 144 && TRANSITIONS[s * 16 + k] == Row(s)[k]
  {
    RowsAt(S0, S1, S2, S3, S4, S5, S6, S7, S8, s, k);
  }

  lemma RowsAt(s0: seq<nat>, s1: seq<nat>, s2: seq<nat>, s3: seq<nat>, s4: seq<nat>, s5: seq<nat>, s6: seq<nat>,
               s7: seq<nat>, s8: seq<nat>, s: nat, k: nat)
    requires |s0| == |s1| == |s2| == |s3| == |s4| == |s5| == |s6| == |s7| == |s8| == 16
    requires s < STATES && k < 16
    ensures var all := s0 + s1 + s2 + s3 + s4 + s5 + s6 + s7 + s8;
            |all| == 144 && all[s * 16 + k] == [s0, s1, s2, s3, s4, s5, s6, s7, s8][s][k]
  {
  }

  lemma TableAt(s: nat, b: Byte)
    requires s < STATES
    ensures |CLASSES| == 256 && CLASSES[b] < 12 && |TABLE| == 400
    ensures TABLE[b] == CLASSES[b] && TABLE[256 + s * 16 + TABLE[b]] == Row(s)[CLASSES[b]]
  {
    ClassOf(b);
    RowAt(s, CLASSES[b]);
  }

  // ----- the decoder ----------------------------------------------------------------------------

  /** Where a byte leads, by ranges instead of classes. */
  function Target(s: nat, b: Byte): (t: nat)
    ensures t < STATES
  {
    match s
    case 0 =>
      if b < 0x80 then 0 else if b < 0xc2 then 1 else if b < 0xe0 then 2
      else if b == 0xe0 then 4 else if b == 0xed then 5 else if b < 0xf0 then 3
      else if b == 0xf0 then 6 else if b < 0xf4 then 7 else if b == 0xf4 then 8 else 1
    case 2 => if Tail(b) then 0 else 1
    case 3 => if Tail(b) then 2 else 1
    case 4 => if 0xa0 <= b <= 0xbf then 2 else 1
    case 5 => if 0x80 <= b <= 0x9f then 2 else 1
    case 6 => if 0x90 <= b <= 0xbf then 3 else 1
    case 7 => if Tail(b) then 3 else 1
    case 8 => if 0x80 <= b <= 0x8f then 3 else 1
    case _ => 1
  }

  /** The table is the automaton. */
  lemma TargetIs(s: nat, b: Byte)
    requires s < STATES
    ensures |TABLE| == 400 && TABLE[b] < 12 && TABLE[256 + s * 16 + TABLE[b]] == Target(s, b)
  {
    TableAt(s, b);
    ClassOf(b);
  }

  /** (0xff >> type) & b: a mask of low bits is a remainder. */
  function LowBits(b: Byte, kind: nat): (r: nat)
    ensures r <= b
  {
    match kind
    case 0 => b
    case 1 => b % 0x80
    case 2 => b % 0x40
    case 3 => b % 0x20
    case 4 => b % 0x10
    case 5 => b % 8
    case 6 => b % 4
    case 7 => b % 2
    case _ => 0
  }

  /** The code point so far: the low bits of the first byte, then six more of every other byte. The
      shift drops the six highest of its 32 bits. */
  function CodeAfter(s: nat, codep: nat, b: Byte): nat {
    if s != ACCEPT then b % 0x40 + codep % 0x400_0000 * 0x40 else FirstBits(b)
  }

  function FirstBits(b: Byte): nat {
    if b < 0x80 then b
    else if b < 0x90 then b % 0x80 else if b < 0xa0 then 0 else if b < 0xc0 then b % 2
    else if b < 0xc2 then 0 else if b < 0xe0 then b - 0xc0
    else if b == 0xe0 then 0 else if b == 0xed then 0xd else if b < 0xf0 then b - 0xe0
    else if b == 0xf0 then 0 else if b < 0xf4 then b - 0xf0 else if b == 0xf4 then 4 else 0
  }

  lemma FirstBitsIs(b: Byte)
    ensures |TABLE| == 400 && LowBits(b, TABLE[b]) == FirstBits(b)
  {
    TableAt(0, b);
    ClassOf(b);
  }

  lemma CodeFits(s: nat, codep: nat, b: Byte)
    ensures CodeAfter(s, codep, b) < WORD
  {
    assert codep % 0x400_0000 < 0x400_0000;
  }

  /** What the two assignments of one step compute. */
  lemma DecodeIs(state: nat, codep: nat, c: Byte)
    requires state < STATES
    ensures |TABLE| == 400 && TABLE[c] < 12 && TABLE[256 + state * 16 + TABLE[c]] == Target(state, c)
    ensures (if state != ACCEPT then c % 0x40 + codep % 0x400_0000 * 0x40 else LowBits(c, TABLE[c])) ==
            CodeAfter(state, codep, c) < WORD
  {
    TargetIs(state, c);
    FirstBitsIs(c);
    CodeFits(state, codep, c);
  }

  /** The two assignments of one step. */
  method Advance(state: nat, codep: nat, c: Byte) returns (next: nat, code: nat)
    requires state < STATES
    ensures next == Target(state, c) && code == CodeAfter(state, codep, c) < WORD
  {
    DecodeIs(state, codep, c);
    var kind := TABLE[c];
    code := if state != ACCEPT then c % 0x40 + codep % 0x400_0000 * 0x40 else LowBits(c, kind);
    next := TABLE[256 + state * 16 + kind];
  }

  /** utf8Decode with the state and the code point its caller keeps. */
  class Decoder {
    var state: nat
    var codep: nat

    ghost predicate Valid()
      reads this
    {
      state < STATES && codep < WORD
    }

    constructor ()
      ensures Valid() && state == ACCEPT
    {
      state, codep := ACCEPT, 0;
    }

    method Decode(c: Byte) returns (now: nat)
      requires Valid()
      modifies this
      ensures Valid() && now == state == Target(old(state), c)
      ensures codep == CodeAfter(old(state), old(codep), c)
    {
      state, codep := Advance(state, codep, c);
      now := state;
    }
  }

  /** The state after a byte string, and the code points its accepting steps deliver. */
  function Final(s: nat, bs: seq<Byte>): nat
    decreases |bs|
  {
    if bs == [] then s else Final(Target(s, bs[0]), bs[1..])
  }

  function Emits(s: nat, codep: nat, bs: seq<Byte>): seq<nat>
    decreases |bs|
  {
    if bs == [] then []
    else
      var t, c := Target(s, bs[0]), CodeAfter(s, codep, bs[0]);
      (if t == ACCEPT then [c] else []) + Emits(t, c, bs[1..])
  }

  // ----- section 4 of RFC 3629 ------------------------------------------------------------------

  predicate Tail(b: Byte) {
    0x80 <= b <= 0xbf
  }

  /** The first n bytes are one well-formed sequence. */
  predicate Starts(bs: seq<Byte>, n: nat) {
    n <= |bs| &&
    match n
    case 1 => bs[0] <= 0x7f
    case 2 => 0xc2 <= bs[0] <= 0xdf && Tail(bs[1])
    case 3 =>
      && (|| (bs[0] == 0xe0 && 0xa0 <= bs[1] <= 0xbf) || (0xe1 <= bs[0] <= 0xec && Tail(bs[1]))
          || (bs[0] == 0xed && 0x80 <= bs[1] <= 0x9f) || (0xee <= bs[0] <= 0xef && Tail(bs[1])))
      && Tail(bs[2])
    case 4 =>
      && (|| (bs[0] == 0xf0 && 0x90 <= bs[1] <= 0xbf) || (0xf1 <= bs[0] <= 0xf3 && Tail(bs[1]))
          || (bs[0] == 0xf4 && 0x80 <= bs[1] <= 0x8f))
      && Tail(bs[2]) && Tail(bs[3])
    case _ => false
  }

  /** Six more bits. */
  function More(code: nat, b: Byte): nat
    requires Tail(b)
  {
    code * 0x40 + (b - 0x80)
  }

  /** The number its bits spell. */
  function ValueAt(bs: seq<Byte>, n: nat): nat
    requires Starts(bs, n)
  {
    match n
    case 1 => bs[0]
    case 2 => More(bs[0] - 0xc0, bs[1])
    case 3 => More(More(bs[0] - 0xe0, bs[1]), bs[2])
    case _ => More(More(More(bs[0] - 0xf0, bs[1]), bs[2]), bs[3])
  }

  predicate WellFormed(bs: seq<Byte>) {
    Starts(bs, |bs|)
  }

  function Value(bs: seq<Byte>): nat
    requires WellFormed(bs)
  {
    ValueAt(bs, |bs|)
  }

  predicate IsScalar(cp: nat) {
    cp < 0xd800 || 0xe000 <= cp <= 0x10_ffff
  }

  function Encode(cp: nat): seq<Byte>
    requires IsScalar(cp)
  {
    if cp < 0x80 then [cp]
    else if cp < 0x800 then [0xc0 + cp / 0x40, 0x80 + cp % 0x40]
    else
      var high := cp / 0x40;
      if cp < 0x1_0000 then [0xe0 + high / 0x40, 0x80 + high % 0x40, 0x80 + cp % 0x40]
      else [0xf0 + high / 0x40 / 0x40, 0x80 + high / 0x40 % 0x40, 0x80 + high % 0x40, 0x80 + cp % 0x40]
  }

  lemma EncodeDecodes(cp: nat)
    requires IsScalar(cp)
    ensures WellFormed(Encode(cp)) && Value(Encode(cp)) == cp
  {
    EncodeLength(cp);
    match |Encode(cp)|
    case 1 =>
    case 2 =>
    case 3 => EncodeThree(cp);
    case _ => EncodeFour(cp);
  }

  lemma EncodeLength(cp: nat)
    requires IsScalar(cp)
    ensures |Encode(cp)| == if cp < 0x80 then 1 else if cp < 0x800 then 2 else if cp < 0x1_0000 then 3 else 4
  {
  }

  lemma EncodeThree(cp: nat)
    requires IsScalar(cp) && 0x800 <= cp < 0x1_0000
    ensures Starts(Encode(cp), 3) && ValueAt(Encode(cp), 3) == cp
  {
  }

  lemma EncodeFour(cp: nat)
    requires IsScalar(cp) && 0x1_0000 <= cp
    ensures Starts(Encode(cp), 4) && ValueAt(Encode(cp), 4) == cp
  {
  }

  lemma ValueEncodes(bs: seq<Byte>)
    requires WellFormed(bs)
    ensures IsScalar(Value(bs)) && Encode(Value(bs)) == bs
  {
    match |bs|
    case 1 =>
    case 2 =>
    case 3 => ThreeEncodes(bs);
    case _ => FourEncodes(bs);
  }

  lemma ThreeEncodes(bs: seq<Byte>)
    requires |bs| == 3 && Starts(bs, 3)
    ensures IsScalar(ValueAt(bs, 3)) && Encode(ValueAt(bs, 3)) == bs
  {
  }

  lemma FourEncodes(bs: seq<Byte>)
    requires |bs| == 4 && Starts(bs, 4)
    ensures IsScalar(ValueAt(bs, 4)) && Encode(ValueAt(bs, 4)) == bs
  {
  }

  /** The length of the well-formed sequence at the front, or 0. */
  function HeadLength(bs: seq<Byte>): (n: nat)
    ensures n <= |bs| && (n > 0 ==> Starts(bs, n))
  {
    if Starts(bs, 1) then 1 else if Starts(bs, 2) then 2
    else if Starts(bs, 3) then 3 else if Starts(bs, 4) then 4 else 0
  }

  /** The code points of the well-formed sequences at the front, up to the first that is not. */
  function Decoded(bs: seq<Byte>): seq<nat>
    decreases |bs|
  {
    var n := HeadLength(bs);
    if n == 0 then [] else [ValueAt(bs, n)] + Decoded(bs[n..])
  }

  /** Well-formed sequences from end to end. */
  predicate IsText(bs: seq<Byte>)
    decreases |bs|
  {
    bs == [] || (HeadLength(bs) > 0 && IsText(bs[HeadLength(bs)..]))
  }

  // ----- the decoder on one sequence ------------------------------------------------------------

  /** From state s, n bytes complete the code point v. */
  ghost predicate Completes(s: nat, codep: nat, bs: seq<Byte>, n: nat, v: nat)
    requires n <= |bs|
  {
    Final(s, bs) == Final(ACCEPT, bs[n..]) && Emits(s, codep, bs) == [v] + Emits(ACCEPT, v, bs[n..])
  }

  /** From state s, the bytes never complete a code point. */
  ghost predicate Fails(s: nat, codep: nat, bs: seq<Byte>) {
    Final(s, bs) != ACCEPT && Emits(s, codep, bs) == []
  }

  /** REJECT is never left. */
  lemma {:induction false} Rejected(codep: nat, bs: seq<Byte>)
    ensures Final(REJECT, bs) == REJECT && Emits(REJECT, codep, bs) == []
    decreases |bs|
  {
    if bs != [] { Rejected(CodeAfter(REJECT, codep, bs[0]), bs[1..]); }
  }

  lemma LastByte(codep: nat, bs: seq<Byte>)
    requires codep < 0x400_0000
    ensures if |bs| >= 1 && Tail(bs[0]) then Completes(2, codep, bs, 1, More(codep, bs[0])) else Fails(2, codep, bs)
  {
    if |bs| >= 1 && !Tail(bs[0]) { Rejected(CodeAfter(2, codep, bs[0]), bs[1..]); }
  }

  lemma Passed(s: nat, codep: nat, bs: seq<Byte>, n: nat, v: nat)
    requires bs != [] && s != ACCEPT && codep < 0x400_0000 && n < |bs| && Tail(bs[0])
    requires Target(s, bs[0]) != ACCEPT && Completes(Target(s, bs[0]), More(codep, bs[0]), bs[1..], n, v)
    ensures Completes(s, codep, bs, n + 1, v)
  {
  }

  lemma Failed(s: nat, codep: nat, bs: seq<Byte>)
    requires bs != [] && Target(s, bs[0]) != ACCEPT
    requires Fails(Target(s, bs[0]), CodeAfter(s, codep, bs[0]), bs[1..])
    ensures Fails(s, codep, bs)
  {
  }

  lemma TwoBytes(s: nat, codep: nat, bs: seq<Byte>)
    requires 3 <= s <= 5 && codep < 0x10_0000
    ensures if |bs| >= 2 && Target(s, bs[0]) == 2 && Tail(bs[1])
            then Tail(bs[0]) && Completes(s, codep, bs, 2, More(More(codep, bs[0]), bs[1]))
            else Fails(s, codep, bs)
  {
    if bs != [] {
      var c := CodeAfter(s, codep, bs[0]);
      if Target(s, bs[0]) == 2 {
        LastByte(c, bs[1..]);
        if |bs| >= 2 && Tail(bs[1]) { Passed(s, codep, bs, 1, More(c, bs[1])); } else { Failed(s, codep, bs); }
      } else {
        Rejected(c, bs[1..]);
      }
    }
  }

  /** Two bytes left behind the first of three. */
  lemma ThreeGood(s: nat, codep: nat, bs: seq<Byte>)
    requires 6 <= s <= 8 && codep < 0x4000
    requires |bs| >= 3 && Target(s, bs[0]) == 3 && Tail(bs[1]) && Tail(bs[2])
    ensures Tail(bs[0]) && Completes(s, codep, bs, 3, More(More(More(codep, bs[0]), bs[1]), bs[2]))
  {
    TwoBytes(3, More(codep, bs[0]), bs[1..]);
    Passed(s, codep, bs, 2, More(More(More(codep, bs[0]), bs[1]), bs[2]));
  }

  lemma ThreeBad(s: nat, codep: nat, bs: seq<Byte>)
    requires 6 <= s <= 8 && codep < 0x4000
    requires !(|bs| >= 3 && Target(s, bs[0]) == 3 && Tail(bs[1]) && Tail(bs[2]))
    ensures Fails(s, codep, bs)
  {
    if bs != [] {
      var c := CodeAfter(s, codep, bs[0]);
      if Target(s, bs[0]) == 3 {
        TwoBytes(3, c, bs[1..]);
        Failed(s, codep, bs);
      } else {
        Rejected(c, bs[1..]);
      }
    }
  }

  lemma ThreeBytes(s: nat, codep: nat, bs: seq<Byte>)
    requires 6 <= s <= 8 && codep < 0x4000
    ensures if |bs| >= 3 && Target(s, bs[0]) == 3 && Tail(bs[1]) && Tail(bs[2])
            then Tail(bs[0]) && Completes(s, codep, bs, 3, More(More(More(codep, bs[0]), bs[1]), bs[2]))
            else Fails(s, codep, bs)
  {
    if |bs| >= 3 && Target(s, bs[0]) == 3 && Tail(bs[1]) && Tail(bs[2]) {
      ThreeGood(s, codep, bs);
    } else {
      ThreeBad(s, codep, bs);
    }
  }

  lemma FirstByte(codep: nat, bs: seq<Byte>)
    requires bs != []
    ensures HeadLength(bs) > 0 ==> Completes(ACCEPT, codep, bs, HeadLength(bs), ValueAt(bs, HeadLength(bs)))
    ensures HeadLength(bs) == 0 ==> Fails(ACCEPT, codep, bs)
  {
    var b := bs[0];
    var t, c := Target(ACCEPT, b), FirstBits(b);
    if t == REJECT {
      Rejected(c, bs[1..]);
    } else if t == 2 {
      LastByte(c, bs[1..]);
    } else if t == 3 || t == 4 || t == 5 {
      TwoBytes(t, c, bs[1..]);
      ThreeByteHead(bs);
    } else if t != ACCEPT {
      ThreeBytes(t, c, bs[1..]);
      FourByteHead(bs);
    }
  }

  lemma ThreeByteHead(bs: seq<Byte>)
    requires bs != [] && 3 <= Target(ACCEPT, bs[0]) <= 5
    ensures HeadLength(bs) ==
            if |bs| >= 3 && Target(Target(ACCEPT, bs[0]), bs[1]) == 2 && Tail(bs[2]) then 3 else 0
    ensures HeadLength(bs) == 3 ==> ValueAt(bs, 3) == More(More(FirstBits(bs[0]), bs[1]), bs[2])
  {
  }

  lemma FourByteHead(bs: seq<Byte>)
    requires bs != [] && 6 <= Target(ACCEPT, bs[0]) <= 8
    ensures HeadLength(bs) ==
            if |bs| >= 4 && Target(Target(ACCEPT, bs[0]), bs[1]) == 3 && Tail(bs[2]) && Tail(bs[3]) then 4 else 0
    ensures HeadLength(bs) == 4 ==> ValueAt(bs, 4) == More(More(More(FirstBits(bs[0]), bs[1]), bs[2]), bs[3])
  {
  }

  // ----- the decoder on any byte string ---------------------------------------------------------

  /** The decoder ends in ACCEPT exactly on well-formed text, and on every byte string it delivers the
      code points of the well-formed sequences in front of the first bad byte. */
  lemma {:induction false} DecoderReadsText(codep: nat, bs: seq<Byte>)
    ensures Final(ACCEPT, bs) == ACCEPT <==> IsText(bs)
    ensures Emits(ACCEPT, codep, bs) == Decoded(bs)
    decreases |bs|
  {
    if bs != [] {
      FirstByte(codep, bs);
      var n := HeadLength(bs);
      if n > 0 { DecoderReadsText(ValueAt(bs, n), bs[n..]); }
    }
  }

  ghost predicate AllScalar(cps: seq<nat>) {
    forall i :: 0 <= i < |cps| ==> IsScalar(cps[i])
  }

  function EncodeAll(cps: seq<nat>): seq<Byte>
    requires AllScalar(cps)
  {
    if cps == [] then [] else Encode(cps[0]) + EncodeAll(cps[1..])
  }

  lemma HeadOfEncoded(cp: nat, rest: seq<Byte>)
    requires IsScalar(cp)
    ensures HeadLength(Encode(cp) + rest) == |Encode(cp)| > 0
    ensures ValueAt(Encode(cp) + rest, |Encode(cp)|) == cp
  {
    EncodeDecodes(cp);
    StartsAlone(Encode(cp), rest);
  }

  lemma StartsAlone(bs: seq<Byte>, rest: seq<Byte>)
    requires WellFormed(bs)
    ensures HeadLength(bs + rest) == |bs| > 0 && ValueAt(bs + rest, |bs|) == Value(bs)
  {
  }

  /** What is encoded is text, and is read back as it was. */
  lemma {:induction false} EncodedIsRead(cps: seq<nat>)
    requires AllScalar(cps)
    ensures IsText(EncodeAll(cps)) && Decoded(EncodeAll(cps)) == cps
  {
    if cps != [] {
      EncodedIsRead(cps[1..]);
      HeadOfEncoded(cps[0], EncodeAll(cps[1..]));
      assert EncodeAll(cps)[|Encode(cps[0])|..] == EncodeAll(cps[1..]);
      assert cps == [cps[0]] + cps[1..];
    }
  }

  /** All text is the encoding of what is read. */
  lemma {:induction false} ReadIsEncoded(bs: seq<Byte>)
    requires IsText(bs)
    ensures AllScalar(Decoded(bs)) && EncodeAll(Decoded(bs)) == bs
    decreases |bs|
  {
    if bs != [] {
      var n := HeadLength(bs);
      ReadHead(bs);
      ReadIsEncoded(bs[n..]);
      HeadEncodes(bs, n);
      EncodeCons(ValueAt(bs, n), Decoded(bs[n..]));
      Rejoin(bs, n, EncodeAll(Decoded(bs[n..])));
    }
  }

  lemma ReadHead(bs: seq<Byte>)
    requires IsText(bs) && bs != []
    ensures var n := HeadLength(bs);
            n > 0 && IsText(bs[n..]) && Decoded(bs) == [ValueAt(bs, n)] + Decoded(bs[n..])
  {
  }

  lemma Rejoin(bs: seq<Byte>, n: nat, rest: seq<Byte>)
    requires n <= |bs| && rest == bs[n..]
    ensures bs[..n] + rest == bs
  {
  }

  lemma HeadEncodes(bs: seq<Byte>, n: nat)
    requires Starts(bs, n)
    ensures IsScalar(ValueAt(bs, n)) && Encode(ValueAt(bs, n)) == bs[..n]
  {
    HeadAlone(bs, n);
    ValueEncodes(bs[..n]);
  }

  lemma EncodeCons(cp: nat, cps: seq<nat>)
    requires IsScalar(cp) && AllScalar(cps)
    ensures AllScalar([cp] + cps) && EncodeAll([cp] + cps) == Encode(cp) + EncodeAll(cps)
  {
    assert ([cp] + cps)[1..] == cps;
  }

  lemma HeadAlone(bs: seq<Byte>, n: nat)
    requires Starts(bs, n)
    ensures WellFormed(bs[..n]) && Value(bs[..n]) == ValueAt(bs, n)
  {
  }

  // ----- REJECT comes as early as it can --------------------------------------------------------

  lemma {:induction false} FinalOfTwo(s: nat, a: seq<Byte>, b: seq<Byte>)
    ensures Final(s, a + b) == Final(Final(s, a), b)
    decreases |a|
  {
    if a == [] {
      assert a + b == b;
    } else {
      assert (a + b)[1..] == a[1..] + b;
      FinalOfTwo(Target(s, a[0]), a[1..], b);
    }
  }

  lemma {:induction false} FinalIsState(s: nat, bs: seq<Byte>)
    requires s < STATES
    ensures Final(s, bs) < STATES
    decreases |bs|
  {
    if bs != [] { FinalIsState(Target(s, bs[0]), bs[1..]); }
  }

  /** Bytes that lead from a state to ACCEPT. */
  function WayOut(s: nat): seq<Byte> {
    match s
    case 2 => [0x80]
    case 3 => [0x80, 0x80]
    case 4 => [0xa0, 0x80]
    case 5 => [0x80, 0x80]
    case 6 => [0x90, 0x80, 0x80]
    case 7 => [0x80, 0x80, 0x80]
    case 8 => [0x80, 0x80, 0x80]
    case _ => []
  }

  lemma StepOut(s: nat, b: Byte, rest: seq<Byte>)
    ensures Final(s, [b] + rest) == Final(Target(s, b), rest)
  {
    assert ([b] + rest)[1..] == rest;
  }

  lemma WayOutAccepts(s: nat)
    requires s < STATES && s != REJECT
    ensures Final(s, WayOut(s)) == ACCEPT
  {
    var w := WayOut(s);
    StepOut(2, 0x80, []);
    assert [0x80] + [] == [0x80];
    if |w| >= 2 { NextWayOut(s); }
    if |w| == 3 { NextWayOut(3); }
  }

  /** The first byte of the way out leads to a state with the rest of it. */
  lemma NextWayOut(s: nat)
    requires 3 <= s < STATES
    ensures Final(s, WayOut(s)) == if s <= 5 then Final(2, WayOut(2)) else Final(3, WayOut(3))
  {
    var w := WayOut(s);
    StepOut(s, w[0], if s <= 5 then WayOut(2) else WayOut(3));
    assert w == [w[0]] + if s <= 5 then WayOut(2) else WayOut(3);
  }

  /** The decoder is in REJECT exactly when nothing that could follow would make text of it. */
  lemma RejectIsFinal(bs: seq<Byte>)
    ensures Final(ACCEPT, bs) == REJECT <==> forall more :: !IsText(bs + more)
  {
    var s := Final(ACCEPT, bs);
    FinalIsState(ACCEPT, bs);
    if s == REJECT {
      forall more ensures !IsText(bs + more) {
        FinalOfTwo(ACCEPT, bs, more);
        Rejected(0, more);
        DecoderReadsText(0, bs + more);
      }
    } else {
      WayOutAccepts(s);
      FinalOfTwo(ACCEPT, bs, WayOut(s));
      DecoderReadsText(0, bs + WayOut(s));
    }
  }

  /** The loop of a text renderer: everything the decoder does not accept yet is skipped. */
  method ReadAll(bs: seq<Byte>) returns (cps: seq<nat>)
    ensures cps == Decoded(bs)
  {
    var d := new Decoder();
    ghost var start := d.codep;
    cps := [];
    var i := 0;
    while i < |bs|
      invariant i <= |bs| && d.Valid()
      invariant cps + Emits(d.state, d.codep, bs[i..]) == Emits(ACCEPT, start, bs)
    {
      ghost var before := cps;
      assert bs[i..][1..] == bs[i + 1..];
      var now := d.Decode(bs[i]);
      if now == ACCEPT { cps := cps + [d.codep]; }
      Regroup(before, cps, if now == ACCEPT then [d.codep] else [], Emits(d.state, d.codep, bs[i + 1..]));
      i := i + 1;
    }
    DecoderReadsText(start, bs);
  }

  lemma Regroup(before: seq<nat>, after: seq<nat>, one: seq<nat>, rest: seq<nat>)
    requires after == before + one
    ensures before + (one + rest) == after + rest
  {
  }
}
