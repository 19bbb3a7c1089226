/** Contract code: instruction boundaries, the jump-destination bit vector of
    core/evm/analysis.go and the code queries of core/evm/contract.go. */
module EvmCode {
  import opened Bytes

  const JUMPDEST: byte := 0x5b

  function PushLen(op: byte): nat {
    if 0x60 <= op <= 0x7f then op - 0x5f else 0
  }

  function Next(code: seq<byte>, pc: nat): nat
    requires pc < |code|
  {
    pc + 1 + PushLen(code[pc])
  }

  /** Walking one instruction at a time from `from` visits p. */
  ghost predicate Visits(code: seq<byte>, from: nat, p: nat)
    decreases |code| - from
  {
    from == p || (from < |code| && from < p && Visits(code, Next(code, from), p))
  }

  /** p is an instruction boundary (Yellow Paper, section 9.4.3). */
  ghost predicate IsStart(code: seq<byte>, p: nat) {
    Visits(code, 0, p)
  }

  lemma {:induction false} VisitsNext(code: seq<byte>, from: nat, pc: nat)
    requires Visits(code, from, pc) && pc < |code|
    ensures Visits(code, from, Next(code, pc))
    ensures forall p | pc < p < Next(code, pc) :: !Visits(code, from, p)
    decreases |code| - from
  {
    if from == pc {
      assert Visits(code, Next(code, pc), Next(code, pc));
      forall p | pc < p < Next(code, pc)
        ensures !Visits(code, from, p)
      {
        assert !Visits(code, Next(code, pc), p);
      }
    } else {
      VisitsBeyond(code, Next(code, from), pc);
      VisitsNext(code, Next(code, from), pc);
    }
  }

  lemma VisitsBeyond(code: seq<byte>, from: nat, p: nat)
    requires Visits(code, from, p)
    ensures from <= p
  {
  }

  /** Bit k of a byte. */
  predicate Bit(v: bv8, k: nat)
    requires k < 8
  {
    (v >> k) & 1 == 1
  }

  /** Bit p of a bit vector; set means data. */
  predicate IsSet(bits: seq<bv8>, p: nat)
    requires p / 8 < |bits|
  {
    Bit(bits[p / 8], p % 8)
  }

  /** codeSegment. */
  predicate CodeSegment(bits: seq<bv8>, p: nat)
    requires p / 8 < |bits|
  {
    (bits[p / 8] >> (p % 8)) & 1 == 0
  }

  lemma OrBit(a: bv8, b: bv8, k: nat)
    requires k < 8
    ensures Bit(a | b, k) <==> Bit(a, k) || Bit(b, k)
  {
    match k
    case 0 => case 1 => case 2 => case 3 => case 4 => case 5 => case 6 => case _ => assert k == 7;
  }

  lemma ShiftedOnes(r: nat, k: nat)
    requires r < 8 && k < 8
    ensures Bit(0xFF << r, k) <==> r <= k
    ensures Bit(!((0xFF as bv8) << r), k) <==> k < r
    ensures Bit(0xFF, k)
  {
    match r
    case 0 => Cases(k);
    case 1 => Cases(k);
    case 2 => Cases(k);
    case 3 => Cases(k);
    case 4 => Cases(k);
    case 5 => Cases(k);
    case 6 => Cases(k);
    case _ => assert r == 7; Cases(k);
  }

  lemma Cases(k: nat)
    requires k < 8
    ensures k == 0 || k == 1 || k == 2 || k == 3 || k == 4 || k == 5 || k == 6 || k == 7
  {
  }

  predicate Bit16(v: bv16, k: nat)
    requires k < 16
  {
    (v >> k) & 1 == 1
  }

  function Low(a: bv16): bv8 {
    (a & 0xFF) as bv8
  }

  function High(a: bv16): bv8 {
    (a >> 8) as bv8
  }

  lemma Halves(a: bv16, k: nat)
    requires k < 8
    ensures Bit(Low(a), k) <==> Bit16(a, k)
    ensures Bit(High(a), k) <==> Bit16(a, k + 8)
    ensures High(a) == 0 ==> !Bit16(a, k + 8)
  {
    match k
    case 0 => case 1 => case 2 => case 3 => case 4 => case 5 => case 6 => case _ => assert k == 7;
  }

  /** n ones. */
  function Mask(n: nat): bv16
    requires 2 <= n <= 7
  {
    if n == 2 then 0x3 else if n == 3 then 0x7 else if n == 4 then 0xF
    else if n == 5 then 0x1F else if n == 6 then 0x3F else 0x7F
  }

  lemma MaskBits(n: nat, r: nat, k: nat)
    requires 2 <= n <= 7 && r < 8 && k < 16
    ensures Bit16(Mask(n) << r, k) <==> r <= k < r + n
  {
    match r
    case 0 => MaskCases(n, k);
    case 1 => MaskCases(n, k);
    case 2 => MaskCases(n, k);
    case 3 => MaskCases(n, k);
    case 4 => MaskCases(n, k);
    case 5 => MaskCases(n, k);
    case 6 => MaskCases(n, k);
    case _ => assert r == 7; MaskCases(n, k);
  }

  lemma MaskCases(n: nat, k: nat)
    requires 2 <= n <= 7 && k < 16
    ensures n == 2 || n == 3 || n == 4 || n == 5 || n == 6 || n == 7
    ensures k == 0 || k == 1 || k == 2 || k == 3 || k == 4 || k == 5 || k == 6 || k == 7
         || k == 8 || k == 9 || k == 10 || k == 11 || k == 12 || k == 13 || k == 14 || k == 15
  {
  }

  ghost predicate ClearFrom(bits: seq<bv8>, pos: nat) {
    forall p | pos <= p < 8 * |bits| :: !IsSet(bits, p)
  }

  /** Exactly the n bits from pos on were added. */
  ghost predicate Marked(now: seq<bv8>, was: seq<bv8>, pos: nat, n: nat) {
    |now| == |was| && forall p | 0 <= p < 8 * |was| :: IsSet(now, p) <==> IsSet(was, p) || pos <= p < pos + n
  }

  method Set1(bits: array<bv8>, pos: nat)
    requires pos / 8 < bits.Length
    modifies bits
    ensures Marked(bits[..], old(bits[..]), pos, 1)
  {
    var q, r := pos / 8, pos % 8;
    ghost var was := bits[..];
    bits[q] := bits[q] | (1 << r);
    forall p | 0 <= p < 8 * |was|
      ensures IsSet(bits[..], p) <==> IsSet(was, p) || p == pos
    {
      if p / 8 == q {
        OrBit(was[q], 1 << r, p % 8);
        OneBit(r, p % 8);
      }
    }
  }

  lemma OneBit(r: nat, k: nat)
    requires r < 8 && k < 8
    ensures Bit(1 << r, k) <==> k == r
  {
    match r
    case 0 => Cases(k);
    case 1 => Cases(k);
    case 2 => Cases(k);
    case 3 => Cases(k);
    case 4 => Cases(k);
    case 5 => Cases(k);
    case 6 => Cases(k);
    case _ => assert r == 7; Cases(k);
  }

  method SetN(bits: array<bv8>, n: nat, pos: nat)
    requires 2 <= n <= 7 && (pos + n - 1) / 8 < bits.Length && ClearFrom(bits[..], pos)
    modifies bits
    ensures Marked(bits[..], old(bits[..]), pos, n)
  {
    var q, r := pos / 8, pos % 8;
    ghost var was := bits[..];
    var lo, hi := ShiftMask(n, r);
    bits[q] := bits[q] | lo;
    if hi != 0 {
      Position(pos + n - 1, pos);
      bits[q + 1] := hi;
    }
    SetNMarked(was, bits[..], lo, hi, n, pos);
  }

  /** The mask of n ones moved up by r bits, in two bytes. */
  method ShiftMask(n: nat, r: nat) returns (lo: bv8, hi: bv8)
    requires 2 <= n <= 7 && r < 8
    ensures forall k | 0 <= k < 8 :: (Bit(lo, k) <==> r <= k < r + n) && (Bit(hi, k) <==> k + 8 < r + n)
    ensures hi != 0 <==> r + n > 8
  {
    var a := Mask(n) << r;
    lo, hi := Low(a), High(a);
    forall k | 0 <= k < 8
      ensures (Bit(lo, k) <==> r <= k < r + n) && (Bit(hi, k) <==> k + 8 < r + n)
    {
      Halves(a, k);
      MaskBits(n, r, k);
      MaskBits(n, r, k + 8);
    }
    NoBits(hi);
  }

  lemma NoBits(v: bv8)
    ensures v == 0 <==> forall k | 0 <= k < 8 :: !Bit(v, k)
  {
    assert v != 0 ==> Bit(v, 0) || Bit(v, 1) || Bit(v, 2) || Bit(v, 3) || Bit(v, 4) || Bit(v, 5) || Bit(v, 6) || Bit(v, 7);
    forall k | 0 <= k < 8
      ensures v == 0 ==> !Bit(v, k)
    {
      Cases(k);
    }
  }

  lemma SetNMarked(was: seq<bv8>, now: seq<bv8>, lo: bv8, hi: bv8, n: nat, pos: nat)
    requires 2 <= n <= 7 && pos / 8 < |was| == |now| && ClearFrom(was, pos)
    requires forall k | 0 <= k < 8 :: (Bit(lo, k) <==> pos % 8 <= k < pos % 8 + n) && (Bit(hi, k) <==> k + 8 < pos % 8 + n)
    requires hi != 0 <==> pos % 8 + n > 8
    requires now[pos / 8] == was[pos / 8] | lo
    requires pos / 8 + 1 < |was| ==> now[pos / 8 + 1] == if hi != 0 then hi else was[pos / 8 + 1]
    requires forall i | 0 <= i < |was| && i != pos / 8 && i != pos / 8 + 1 :: now[i] == was[i]
    ensures Marked(now, was, pos, n)
  {
    forall p | 0 <= p < 8 * |was|
      ensures IsSet(now, p) <==> IsSet(was, p) || pos <= p < pos + n
    {
      Position(p, pos);
      if p / 8 == pos / 8 {
        OrBit(was[p / 8], lo, p % 8);
      } else if p / 8 == pos / 8 + 1 {
        assert !IsSet(was, p);
      }
    }
  }

  method Set8(bits: array<bv8>, pos: nat)
    requires pos / 8 + 1 < bits.Length && ClearFrom(bits[..], pos)
    modifies bits
    ensures Marked(bits[..], old(bits[..]), pos, 8)
  {
    var q, r := pos / 8, pos % 8;
    ghost var was := bits[..];
    var a: bv8 := 0xFF << r;
    bits[q] := bits[q] | a;
    bits[q + 1] := !a;
    forall p | 0 <= p < 8 * |was|
      ensures IsSet(bits[..], p) <==> IsSet(was, p) || pos <= p < pos + 8
    {
      Position(p, pos);
      if p / 8 == q {
        OrBit(was[q], a, p % 8);
        ShiftedOnes(r, p % 8);
      } else if p / 8 == q + 1 {
        ShiftedOnes(r, p % 8);
      }
    }
  }

  /** Where p lies relative to pos, in bytes and bits. */
  lemma Position(p: nat, pos: nat)
    ensures p - pos == 8 * (p / 8 - pos / 8) + (p % 8 - pos % 8)
  {
  }

  method Set16(bits: array<bv8>, pos: nat)
    requires pos / 8 + 2 < bits.Length && ClearFrom(bits[..], pos)
    modifies bits
    ensures Marked(bits[..], old(bits[..]), pos, 16)
  {
    var q, r := pos / 8, pos % 8;
    ghost var was := bits[..];
    var a: bv8 := 0xFF << r;
    bits[q] := bits[q] | a;
    bits[q + 1] := 0xFF;
    bits[q + 2] := !a;
    forall p | 0 <= p < 8 * |was|
      ensures IsSet(bits[..], p) <==> IsSet(was, p) || pos <= p < pos + 16
    {
      Position(p, pos);
      if p / 8 == q {
        OrBit(was[q], a, p % 8);
        ShiftedOnes(r, p % 8);
      } else if p / 8 == q + 1 || p / 8 == q + 2 {
        ShiftedOnes(r, p % 8);
      }
    }
  }

  /** Up to position pc the vector marks exactly the push data; nothing after it. */
  ghost predicate Analysed(bits: seq<bv8>, code: seq<byte>, pc: nat) {
    forall p | 0 <= p < 8 * |bits| :: IsSet(bits, p) <==> p < pc && !IsStart(code, p)
  }

  /** codeBitmapInternal: the data bits of one PUSH, in runs of 16, 8 and the rest. */
  method MarkPush(bits: array<bv8>, pos: nat, n: nat) returns (end: nat)
    requires 1 <= n <= 32 && (pos + n) / 8 < bits.Length && ClearFrom(bits[..], pos)
    modifies bits
    ensures end == pos + n && Marked(bits[..], old(bits[..]), pos, n)
  {
    var pc, numbits := pos, n;
    ghost var was := bits[..];
    while numbits >= 16
      invariant 0 <= numbits && pc + numbits == pos + n && pos <= pc
      invariant Marked(bits[..], was, pos, pc - pos) && ClearFrom(bits[..], pc)
    {
      Set16(bits, pc);
      pc, numbits := pc + 16, numbits - 16;
    }
    while numbits >= 8
      invariant 0 <= numbits && pc + numbits == pos + n && pos <= pc
      invariant numbits < 16
      invariant Marked(bits[..], was, pos, pc - pos) && ClearFrom(bits[..], pc)
    {
      Set8(bits, pc);
      pc, numbits := pc + 8, numbits - 8;
    }
    if numbits == 1 {
      Set1(bits, pc);
    } else if numbits > 1 {
      SetN(bits, numbits, pc);
    }
    end := pc + numbits;
  }

  /** codeBitmap: codeSegment is true exactly at instruction starts. */
  method CodeBitmap(code: seq<byte>) returns (bits: array<bv8>)
    ensures fresh(bits) && bits.Length == |code| / 8 + 5
    ensures IsBitmap(bits[..], code)
  {
    bits := new bv8[|code| / 8 + 5](_ => 0);
    var pc := 0;
    while pc < |code|
      invariant IsStart(code, pc) && pc <= |code| + 32
      invariant Analysed(bits[..], code, pc)
      decreases |code| + 33 - pc
    {
      var op := code[pc];
      VisitsNext(code, 0, pc);
      ghost var was := bits[..];
      pc := pc + 1;
      if op < 0x60 || op >= 0x80 {
        continue;
      }
      pc := MarkPush(bits, pc, op - 0x5f);
    }
  }

  ghost predicate IsBitmap(bits: seq<bv8>, code: seq<byte>) {
    && |bits| == |code| / 8 + 5
    && forall p | 0 <= p < |code| :: CodeSegment(bits, p) <==> IsStart(code, p)
  }
}
