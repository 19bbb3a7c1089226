/** The encoder: the head/tail rules of the Contract ABI Specification
    ("Formal Specification of the Encoding") and the loops of
    core/abi/type.go, core/abi/pack.go and core/abi/argument.go that compute it. */
module AbiPack {
  import opened Bytes
  import opened Seqs
  import opened AbiTypes

  /** packNum: the 256-bit two's complement word of n. */
  function Word(n: int): (r: seq<byte>)
    ensures |r| == 32
  {
    if n >= 0 then ToBE(n, 32) else Flip(ToBE(-n - 1, 32))
  }

  /** Length padded up to a whole number of words. */
  function PadLen(n: nat): nat {
    (n + 31) / 32 * 32
  }

  function RightPad(b: seq<byte>, n: nat): (r: seq<byte>)
    ensures b <= r
    ensures |b| <= n ==> |r| == n
  {
    if n <= |b| then b else b + Zeros(n - |b|)
  }

  /** The big-endian two's complement of n on 32 bytes, as the specification has it. */
  function TwosComplement(n: int): (r: seq<byte>)
    ensures |r| == 32
  {
    ToBE(n % Pow256(32), 32)
  }

  /** As few zero bytes behind b as make its length a multiple of 32. */
  function PadRight(b: seq<byte>): (r: seq<byte>)
    ensures b <= r && |r| % 32 == 0 && |r| < |b| + 32
  {
    b + Zeros((32 - |b| % 32) % 32)
  }

  /** The low-order w bytes of a word, as an unsigned number. */
  lemma WordValue(n: int, w: nat)
    requires w <= 32
    ensures FromBE(Word(n)[32 - w..]) == n % Pow256(w)
  {
    if n >= 0 {
      PlainSuffix(n, w);
    } else {
      var m := -n - 1;
      FlippedSuffix(m, w);
      NegativeMod(m, Pow256(w));
      assert n == -m - 1;
    }
  }

  lemma PlainSuffix(n: nat, w: nat)
    requires w <= 32
    ensures FromBE(ToBE(n, 32)[32 - w..]) == n % Pow256(w)
  {
    ToBESuffix(n, 32, w);
    FromToBE(n, w);
  }

  lemma FlippedSuffix(m: nat, w: nat)
    requires w <= 32
    ensures FromBE(Flip(ToBE(m, 32))[32 - w..]) == Pow256(w) - 1 - m % Pow256(w)
  {
    ToBESuffix(m, 32, w);
    assert Flip(ToBE(m, 32))[32 - w..] == Flip(ToBE(m, w));
    FlipValue(ToBE(m, w));
    FromToBE(m, w);
  }

  lemma NegativeMod(m: int, p: int)
    requires m >= 0 && p > 0
    ensures (-m - 1) % p == p - 1 - m % p
  {
    var q, r := m / p, m % p;
    assert m == q * p + r;
    assert -m - 1 == (-q - 1) * p + (p - 1 - r);
    DivModUnique(-m - 1, p, -q - 1, p - 1 - r);
  }

  /** What packNum computes is the two's complement. */
  lemma WordIsTwosComplement(n: int)
    ensures Word(n) == TwosComplement(n)
  {
    WordValue(n, 32);
    assert Word(n)[0..] == Word(n);
    ToFromBE(Word(n));
  }

  /** Padding to the next multiple of 32, as packBytesSlice computes it. */
  lemma PadLenIsPadRight(b: seq<byte>)
    ensures RightPad(b, PadLen(|b|)) == PadRight(b)
  {
    var q, r := |b| / 32, |b| % 32;
    assert |b| == 32 * q + r;
    assert PadLen(|b|) == if r == 0 then 32 * q else 32 * q + 32;
    assert Zeros(0) == [];
  }

  /** One component of a block: whether it is dynamic, and enc of it. */
  datatype Part = Part(dynamic: bool, enc: seq<byte>)

  /** head(X(1)) ... head(X(k)), where the first dynamic tail starts at offset. */
  function Heads(ps: seq<Part>, offset: nat): seq<byte> {
    if ps == [] then []
    else if ps[0].dynamic then Word(offset) + Heads(ps[1..], offset + |ps[0].enc|)
    else ps[0].enc + Heads(ps[1..], offset)
  }

  /** tail(X(1)) ... tail(X(k)). */
  function Tails(ps: seq<Part>): seq<byte> {
    if ps == [] then []
    else (if ps[0].dynamic then ps[0].enc else []) + Tails(ps[1..])
  }

  /** All heads, then all tails; the heads take size bytes. */
  function Block(ps: seq<Part>, size: nat): seq<byte> {
    Heads(ps, size) + Tails(ps)
  }

  /** enc(v) of the specification. */
  function Enc(t: Type, v: Value): seq<byte>
    requires Typed(t, v)
    decreases v, 2
  {
    match t
    case IntTy(_) => TwosComplement(v.n)
    case UintTy(_) => TwosComplement(v.n)
    case BoolTy => TwosComplement(if v.b then 1 else 0)
    case StringTy => Word(|v.bs|) + PadRight(v.bs)
    case BytesTy => Word(|v.bs|) + PadRight(v.bs)
    case FixedBytesTy(_) => RightPad(v.bs, 32)
    case FunctionTy => RightPad(v.bs, 32)
    case SliceTy(e) => Word(|v.vs|) + EncAll(Repeat(e, |v.vs|), v.vs)
    case ArrayTy(k, e) => EncAll(Repeat(e, k), v.vs)
    case TupleTy(es) => EncAll(es, v.vs)
  }

  function Parts(ts: seq<Type>, vs: seq<Value>): (ps: seq<Part>)
    requires TypedAll(ts, vs)
    ensures |ps| == |ts|
    ensures forall i | 0 <= i < |ts| :: ps[i] == Part(IsDynamic(ts[i]), Enc(ts[i], vs[i]))
    decreases vs, 0
  {
    seq(|ts|, i requires 0 <= i < |ts| => Part(IsDynamic(ts[i]), Enc(ts[i], vs[i])))
  }

  /** enc((X(1), ..., X(k))): the argument block of a call, a tuple, or the
      elements of an array or slice. */
  function EncAll(ts: seq<Type>, vs: seq<Value>): seq<byte>
    requires TypedAll(ts, vs)
    decreases vs, 1
  {
    Block(Parts(ts, vs), SizeOfAll(ts))
  }

  /** A static encoding takes exactly TypeSize bytes. */
  lemma {:induction false} StaticLength(t: Type, v: Value)
    requires Typed(t, v) && Valid(t) && !IsDynamic(t)
    ensures |Enc(t, v)| == TypeSize(t)
    decreases v, 1
  {
    match t
    case ArrayTy(k, e) =>
      StaticArray(k, e, v.vs);
    case TupleTy(es) =>
      StaticBlock(es, v.vs);
    case _ =>
      StaticWord(t, v);
  }

  lemma StaticWord(t: Type, v: Value)
    requires Typed(t, v) && Valid(t) && !IsDynamic(t) && !t.ArrayTy? && !t.TupleTy?
    ensures |Enc(t, v)| == 32
  {
  }

  lemma {:induction false} StaticArray(k: nat, e: Type, vs: seq<Value>)
    requires |vs| == k && Valid(e) && !IsDynamic(e) && forall v | v in vs :: Typed(e, v)
    ensures TypedAll(Repeat(e, k), vs) && |EncAll(Repeat(e, k), vs)| == TypeSize(ArrayTy(k, e))
    decreases vs, 2
  {
    StaticBlock(Repeat(e, k), vs);
    SizeOfRepeat(e, k);
    ArraySize(k, e);
  }

  lemma ArraySize(k: nat, e: Type)
    requires !IsDynamic(e)
    ensures TypeSize(ArrayTy(k, e)) == TypeSize(e) * k
  {
    assert e.ArrayTy? || e.TupleTy? || TypeSize(e) == 32;
  }

  lemma {:induction false} StaticBlock(ts: seq<Type>, vs: seq<Value>)
    requires TypedAll(ts, vs) && forall t | t in ts :: Valid(t) && !IsDynamic(t)
    ensures |EncAll(ts, vs)| == SizeOfAll(ts)
    decreases vs, 1
  {
    HeadsLength(ts, vs, SizeOfAll(ts));
    NoTails(Parts(ts, vs));
  }

  /** The heads of a block take the sum of the type sizes, wherever its tails are. */
  lemma {:induction false} HeadsLength(ts: seq<Type>, vs: seq<Value>, offset: nat)
    requires TypedAll(ts, vs) && forall t | t in ts :: Valid(t)
    ensures |Heads(Parts(ts, vs), offset)| == SizeOfAll(ts)
    decreases vs, 0
  {
    if ts != [] {
      var ps, rest := Parts(ts, vs), Parts(ts[1..], vs[1..]);
      PartsTail(ts, vs, ps, rest);
      if IsDynamic(ts[0]) {
        HeadsLength(ts[1..], vs[1..], offset + |ps[0].enc|);
        DynamicSize(ts[0]);
        assert Heads(ps, offset) == Word(offset) + Heads(rest, offset + |ps[0].enc|);
      } else {
        StaticLength(ts[0], vs[0]);
        HeadsLength(ts[1..], vs[1..], offset);
        assert Heads(ps, offset) == ps[0].enc + Heads(rest, offset);
      }
    }
  }

  lemma DynamicSize(t: Type)
    requires IsDynamic(t)
    ensures TypeSize(t) == 32
  {
  }

  lemma PartsTail(ts: seq<Type>, vs: seq<Value>, ps: seq<Part>, rest: seq<Part>)
    requires TypedAll(ts, vs) && ts != [] && ps == Parts(ts, vs) && rest == Parts(ts[1..], vs[1..])
    ensures |ps| == |ts| && ps[1..] == rest && ps[0] == Part(IsDynamic(ts[0]), Enc(ts[0], vs[0]))
  {
  }

  lemma {:induction false} NoTails(ps: seq<Part>)
    requires forall p | p in ps :: !p.dynamic
    ensures Tails(ps) == []
  {
    if ps != [] {
      NoTails(ps[1..]);
    }
  }

  lemma {:induction false} StaticHeads(ps: seq<Part>, a: nat, b: nat)
    requires forall p | p in ps :: !p.dynamic
    ensures Heads(ps, a) == Heads(ps, b)
  {
    if ps != [] {
      StaticHeads(ps[1..], a, b);
    }
  }

  function PackBytesSlice(bs: seq<byte>, l: nat): seq<byte> {
    Word(l) + RightPad(bs, PadLen(l))
  }

  /** Type.pack: the code computes enc(v) for every value of the right kind and
      reports an error for every other value. */
  method Pack(t: Type, v: Value) returns (r: Result<seq<byte>>)
    ensures r == if Typed(t, v) then Ok(Enc(t, v)) else Err
    decreases v, 1
  {
    match t {
      case SliceTy(e) =>
        if !v.Seq? { return Err; }
        r := PackElements(e, v.vs);
        if r.Ok? { r := Ok(Word(|v.vs|) + r.value); }
      case ArrayTy(k, e) =>
        if !v.Seq? || |v.vs| != k { return Err; }
        r := PackElements(e, v.vs);
      case TupleTy(es) =>
        if !v.Seq? || |v.vs| != |es| { return Err; }
        r := PackFields(es, v.vs);
      case _ =>
        r := PackElement(t, v);
    }
  }

  /** packElement, behind the kind check of typeCheck. */
  method PackElement(t: Type, v: Value) returns (r: Result<seq<byte>>)
    requires !t.SliceTy? && !t.ArrayTy? && !t.TupleTy?
    ensures r == if Typed(t, v) then Ok(Enc(t, v)) else Err
  {
    if !Typed(t, v) { return Err; }
    match t {
      case IntTy(_) =>
        WordIsTwosComplement(v.n);
        r := Ok(Word(v.n));
      case UintTy(_) =>
        WordIsTwosComplement(v.n);
        r := Ok(Word(v.n));
      case BoolTy =>
        WordIsTwosComplement(if v.b then 1 else 0);
        r := Ok(Word(if v.b then 1 else 0));
      case StringTy =>
        PadLenIsPadRight(v.bs);
        r := Ok(PackBytesSlice(v.bs, |v.bs|));
      case BytesTy =>
        PadLenIsPadRight(v.bs);
        r := Ok(PackBytesSlice(v.bs, |v.bs|));
      case FixedBytesTy(_) => r := Ok(RightPad(v.bs, 32));
      case FunctionTy => r := Ok(RightPad(v.bs, 32));
    }
  }

  /** The slice and array case of pack, without the length word. */
  method PackElements(e: Type, vs: seq<Value>) returns (r: Result<seq<byte>>)
    ensures r == if TypedAll(Repeat(e, |vs|), vs) then Ok(EncAll(Repeat(e, |vs|), vs)) else Err
    decreases vs, 0
  {
    var ret := [];
    var offset: nat := 0;
    var offsetReq := IsDynamic(e);
    if offsetReq { offset := ElementsHeadSize(e, |vs|); }
    var tail := [];
    ghost var ts := Repeat(e, |vs|);
    ghost var start := offset;
    ghost var done: seq<Part> := [];
    for i := 0 to |vs|
      invariant IsParts(ts, vs, done, i)
      invariant BlockSoFar(done, start, ret, tail, offset)
    {
      var val := Pack(e, vs[i]);
      assert ts[i] == e;
      if val.Err? { return Err; }
      ghost var p := Part(offsetReq, val.value);
      ret, tail, offset := AddComponent(offsetReq, val.value, ret, tail, offset, done, start);
      done := done + [p];
    }
    ElementsDone(e, ts, vs, done, start, ret, tail, offset);
    r := Ok(ret + tail);
  }

  /** All elements packed: heads and tails make up the encoding. */
  lemma ElementsDone(e: Type, ts: seq<Type>, vs: seq<Value>, done: seq<Part>, start: nat,
                     ret: seq<byte>, tail: seq<byte>, offset: nat)
    requires ts == Repeat(e, |vs|) && IsParts(ts, vs, done, |vs|) && BlockSoFar(done, start, ret, tail, offset)
    requires IsDynamic(e) ==> start == SizeOfAll(ts)
    ensures TypedAll(ts, vs) && ret + tail == EncAll(ts, vs)
  {
    assert done == Parts(ts, vs);
    if !IsDynamic(e) {
      StaticHeads(done, start, SizeOfAll(ts));
    }
  }

  /** One turn of a packing loop: a dynamic value leaves an offset word among the
      heads and goes to the tail, a static value goes among the heads. */
  method AddComponent(dynamic: bool, val: seq<byte>, ret: seq<byte>, tail: seq<byte>, offset: nat,
                      ghost done: seq<Part>, ghost start: nat)
    returns (ret': seq<byte>, tail': seq<byte>, offset': nat)
    requires BlockSoFar(done, start, ret, tail, offset)
    ensures BlockSoFar(done + [Part(dynamic, val)], start, ret', tail', offset')
  {
    AppendPart(done, Part(dynamic, val), start);
    ret', tail', offset' := ret, tail, offset;
    if dynamic {
      ret' := ret + Word(offset);
      offset' := offset + |val|;
      tail' := tail + val;
    } else {
      ret' := ret + val;
    }
  }

  ghost predicate BlockSoFar(ps: seq<Part>, start: nat, ret: seq<byte>, tail: seq<byte>, offset: nat) {
    ret == Heads(ps, start) && tail == Tails(ps) && offset == start + |tail|
  }

  /** ps are the encodings of the first i components. */
  ghost predicate IsParts(ts: seq<Type>, vs: seq<Value>, ps: seq<Part>, i: nat) {
    && i == |ps| <= |ts| == |vs|
    && forall j | 0 <= j < i :: Typed(ts[j], vs[j]) && ps[j] == Part(IsDynamic(ts[j]), Enc(ts[j], vs[j]))
  }

  /** One more component adds its head after the heads, with the offset of its
      tail, and its tail after the tails. */
  lemma AppendPart(ps: seq<Part>, p: Part, start: nat)
    ensures Heads(ps + [p], start) == Heads(ps, start) + (if p.dynamic then Word(start + |Tails(ps)|) else p.enc)
    ensures Tails(ps + [p]) == Tails(ps) + (if p.dynamic then p.enc else [])
  {
    AppendHead(ps, p, start);
    AppendTail(ps, p);
  }

  lemma {:induction false} AppendHead(ps: seq<Part>, p: Part, start: nat)
    ensures Heads(ps + [p], start) == Heads(ps, start) + (if p.dynamic then Word(start + |Tails(ps)|) else p.enc)
  {
    var head := if p.dynamic then Word(start + |Tails(ps)|) else p.enc;
    if ps == [] {
      OnePart(p, start);
      assert [] + [p] == [p] && [] + head == head;
    } else {
      var rest, next := ps[1..], if ps[0].dynamic then start + |ps[0].enc| else start;
      assert (ps + [p])[1..] == rest + [p];
      AppendHead(rest, p, next);
      Assoc(if ps[0].dynamic then Word(start) else ps[0].enc, Heads(rest, next), head);
    }
  }

  lemma {:induction false} AppendTail(ps: seq<Part>, p: Part)
    ensures Tails(ps + [p]) == Tails(ps) + (if p.dynamic then p.enc else [])
  {
    var tail := if p.dynamic then p.enc else [];
    if ps == [] {
      OnePart(p, 0);
      assert [] + [p] == [p] && [] + tail == tail;
    } else {
      assert (ps + [p])[1..] == ps[1..] + [p];
      AppendTail(ps[1..], p);
      Assoc(if ps[0].dynamic then ps[0].enc else [], Tails(ps[1..]), tail);
    }
  }

  lemma OnePart(p: Part, start: nat)
    ensures Heads([p], start) == if p.dynamic then Word(start) else p.enc
    ensures Tails([p]) == if p.dynamic then p.enc else []
  {
    var ps := [p];
    assert ps[1..] == [];
    assert Heads(ps[1..], start) == [] && Tails(ps[1..]) == [];
  }

  /** The tuple case of pack, and Arguments.Pack. */
  method PackFields(ts: seq<Type>, vs: seq<Value>) returns (r: Result<seq<byte>>)
    ensures r == if TypedAll(ts, vs) then Ok(EncAll(ts, vs)) else Err
    decreases vs, 0
  {
    if |ts| != |vs| { return Err; }
    var offset: nat := HeadSize(ts);
    var ret, tail := [], [];
    ghost var start := offset;
    ghost var done: seq<Part> := [];
    for i := 0 to |ts|
      invariant IsParts(ts, vs, done, i)
      invariant BlockSoFar(done, start, ret, tail, offset)
    {
      var val := Pack(ts[i], vs[i]);
      if val.Err? { return Err; }
      ghost var p := Part(IsDynamic(ts[i]), val.value);
      ret, tail, offset := AddComponent(IsDynamic(ts[i]), val.value, ret, tail, offset, done, start);
      done := done + [p];
    }
    assert done == Parts(ts, vs);
    r := Ok(ret + tail);
  }

  /** Heads of n dynamic elements. */
  method ElementsHeadSize(e: Type, n: nat) returns (offset: nat)
    ensures offset == SizeOfAll(Repeat(e, n))
  {
    SizeOfRepeat(e, n);
    offset := TypeSize(e) * n;
  }

  /** The loop that sums the prefix size of a block. */
  method HeadSize(ts: seq<Type>) returns (offset: nat)
    ensures offset == SizeOfAll(ts)
  {
    offset := 0;
    for i := 0 to |ts|
      invariant offset + SizeOfAll(ts[i..]) == SizeOfAll(ts)
    {
      assert ts[i..][1..] == ts[i + 1..];
      offset := offset + TypeSize(ts[i]);
    }
  }
}
