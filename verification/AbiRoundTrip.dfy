/** Decoding inverts encoding over arbitrarily nested types. */
module AbiRoundTrip {
  import opened Bytes
  import opened AbiTypes
  import opened AbiPack
  import opened AbiUnpack

  /** What a value reads back as: every integer reduced to the width it is read at. */
  function Canon(t: Type, v: Value): Value
    requires Typed(t, v)
    decreases v, 1
  {
    match t
    case IntTy(s) => Num(Signed(v.n, Width(s)))
    case UintTy(s) => Num(Unsigned(v.n, Width(s)))
    case SliceTy(e) => Seq(CanonAll(Repeat(e, |v.vs|), v.vs))
    case ArrayTy(k, e) => Seq(CanonAll(Repeat(e, k), v.vs))
    case TupleTy(es) => Seq(CanonAll(es, v.vs))
    case _ => v
  }

  function CanonAll(ts: seq<Type>, vs: seq<Value>): (r: seq<Value>)
    requires TypedAll(ts, vs)
    ensures |r| == |vs|
    ensures forall i | 0 <= i < |ts| :: r[i] == Canon(ts[i], vs[i])
    decreases vs, 0
  {
    seq(|ts|, i requires 0 <= i < |ts| => Canon(ts[i], vs[i]))
  }

  /** A value reads back unchanged exactly when its integers fit in 256 bits. */
  lemma {:induction false} CanonIsIdentityIffFits(t: Type, v: Value)
    requires Typed(t, v)
    ensures Canon(t, v) == v <==> Fits(t, v)
    decreases v
  {
    match t
    case SliceTy(e) =>
      CanonAllIffFits(Repeat(e, |v.vs|), v.vs);
    case ArrayTy(k, e) =>
      CanonAllIffFits(Repeat(e, k), v.vs);
    case TupleTy(es) =>
      CanonAllIffFits(es, v.vs);
    case _ =>
  }

  lemma {:induction false} CanonAllIffFits(ts: seq<Type>, vs: seq<Value>)
    requires TypedAll(ts, vs)
    ensures CanonAll(ts, vs) == vs <==> forall i | 0 <= i < |ts| :: Fits(ts[i], vs[i])
    decreases vs
  {
    forall i | 0 <= i < |ts|
      ensures CanonAll(ts, vs)[i] == vs[i] <==> Fits(ts[i], vs[i])
    {
      CanonIsIdentityIffFits(ts[i], vs[i]);
    }
  }

  /** b occurs in out at position p. */
  ghost predicate At(out: seq<byte>, p: nat, b: seq<byte>) {
    p + |b| <= |out| && out[p..p + |b|] == b
  }

  lemma AtSplit(out: seq<byte>, p: nat, a: seq<byte>, b: seq<byte>)
    requires At(out, p, a + b)
    ensures At(out, p, a) && At(out, p + |a|, b)
  {
    var ab := out[p..p + |a + b|];
    assert ab[..|a|] == a && ab[|a|..] == b;
    assert out[p..p + |a|] == ab[..|a|];
    assert out[p + |a|..p + |a| + |b|] == ab[|a|..];
  }

  lemma AtSuffix(out: seq<byte>, p: nat, b: seq<byte>)
    requires At(out, p, b)
    ensures At(out[p..], 0, b)
  {
    assert out[p..][0..|b|] == out[p..p + |b|];
  }

  /** An offset below 2^63 is read back exactly, from 32 or from 8 bytes. */
  lemma OffsetWord(n: nat)
    requires n < TWO63
    ensures FromBE(Word(n)) == n && FromBE(Word(n)[24..]) == n
  {
    WordValue(n, 32);
    WordValue(n, 8);
    assert Word(n)[0..] == Word(n);
    assert Pow256(8) == 2 * TWO63;
    Pow256Mono(8, 32);
    SmallMod(n, Pow256(8));
    SmallMod(n, Pow256(32));
  }

  lemma SmallMod(n: nat, p: nat)
    requires n < p
    ensures n % p == n
  {
  }

  /** The encoding of v is what output holds for an argument of type t at index: the
      encoding itself at off == index, or an offset that leads to it at off. */
  ghost predicate Placed(t: Type, v: Value, output: seq<byte>, index: nat, off: nat)
    requires Typed(t, v)
  {
    At(output, off, Enc(t, v)) && if IsDynamic(t) then At(output, index, Word(off)) else off == index
  }

  ghost predicate Decodable(t: Type, v: Value, output: seq<byte>) {
    Valid(t) && Typed(t, v) && Sized(v) && |output| < TWO63
  }

  /** No sequence in v is longer than a Go slice can be. */
  predicate Sized(v: Value) {
    v.Seq? ==> |v.vs| < TWO63 && forall x | x in v.vs :: Sized(x)
  }

  /** The decoder finds what it asks for when n bytes are left from the encoding on: a
      word for everything that is read in place, and a word for each element of an array
      or slice. Only components that take no bytes at all can lack it. */
  predicate Readable(t: Type, v: Value, n: nat)
    requires Typed(t, v)
    decreases v, 1
  {
    match t
    case TupleTy(es) => (IsDynamic(t) || n >= 32) && AllReadable(es, v.vs, n, 0, SizeOfAll(es))
    case ArrayTy(k, e) =>
      (IsDynamic(t) || n >= 32) && 32 * k <= n && AllReadable(Repeat(e, k), v.vs, n, 0, SizeOfAll(Repeat(e, k)))
    case SliceTy(e) =>
      var ts := Repeat(e, |v.vs|);
      32 * |v.vs| + 32 <= n && AllReadable(ts, v.vs, n - 32, 0, SizeOfAll(ts))
    case _ => true
  }

  /** The same for the components whose heads start at head and whose tails start at
      tail, of n bytes. */
  predicate AllReadable(ts: seq<Type>, vs: seq<Value>, n: nat, head: nat, tail: nat)
    requires TypedAll(ts, vs)
    decreases vs, 0
  {
    ts == [] ||
    (&& Readable(ts[0], vs[0], Left(n, Start(ts[0], head, tail)))
     && AllReadable(ts[1..], vs[1..], n, head + TypeSize(ts[0]), tail + TailLength(ts[0], vs[0])))
  }

  /** Where the encoding of a component starts, and what it takes of the tails. */
  function Start(t: Type, head: nat, tail: nat): nat {
    if IsDynamic(t) then tail else head
  }

  function TailLength(t: Type, v: Value): nat
    requires Typed(t, v)
  {
    if IsDynamic(t) then |Enc(t, v)| else 0
  }

  lemma AllReadableStep(ts: seq<Type>, vs: seq<Value>, n: nat, head: nat, tail: nat, size: nat, tail': nat)
    requires TypedAll(ts, vs) && ts != [] && size == TypeSize(ts[0]) && tail' == tail + TailLength(ts[0], vs[0])
    ensures AllReadable(ts, vs, n, head, tail) <==>
              Readable(ts[0], vs[0], Left(n, Start(ts[0], head, tail))) && AllReadable(ts[1..], vs[1..], n, head + size, tail')
  {
  }

  /** The bytes from position from on. */
  function Left(n: nat, from: nat): nat {
    if from <= n then n - from else 0
  }

  function Given<T>(ok: bool, x: T): Result<T> {
    if ok then Ok(x) else Err
  }

  /** A type whose static encoding is one word. */
  predicate IsWordType(t: Type) {
    t.IntTy? || t.UintTy? || t.BoolTy? || t.FixedBytesTy? || t.FunctionTy?
  }

  /** A value placed anywhere is decoded exactly if it is readable there. */
  lemma {:induction false} DecodeOne(t: Type, v: Value, output: seq<byte>, index: nat, off: nat)
    requires Decodable(t, v, output) && Placed(t, v, output, index, off)
    ensures ToGoType(index, t, output) == Given(Readable(t, v, Left(|output|, off)), Canon(t, v))
    decreases v, 2
  {
    if IsDynamic(t) {
      OffsetWord(off);
      if t.TupleTy? || t.ArrayTy? {
        DecodeDynamicBlock(t, v, output, index, off);
      } else if t.SliceTy? {
        DecodeSlice(t, v, output, index, off);
      } else {
        DecodeBytes(t, v, output, index, off);
      }
    } else if IsWordType(t) {
      DecodeWord(t, v, output, index);
    } else {
      DecodeStaticBlock(t, v, output, index);
    }
  }

  lemma {:induction false} DecodeStaticBlock(t: Type, v: Value, output: seq<byte>, index: nat)
    requires Decodable(t, v, output) && !IsDynamic(t) && (t.ArrayTy? || t.TupleTy?)
    requires At(output, index, Enc(t, v))
    ensures ToGoType(index, t, output) == Given(Readable(t, v, Left(|output|, index)), Canon(t, v))
    decreases v, 1
  {
    AtSuffix(output, index, Enc(t, v));
    StaticBlockAt(t, output, index);
    if index + 32 <= |output| {
      DecodeBlock(t, v, output[index..]);
    } else {
      assert !Readable(t, v, Left(|output|, index));
    }
  }

  lemma StaticBlockAt(t: Type, output: seq<byte>, index: nat)
    requires Valid(t) && !IsDynamic(t) && (t.ArrayTy? || t.TupleTy?) && index <= |output|
    ensures index + 32 > |output| ==> ToGoType(index, t, output) == Err
    ensures index + 32 <= |output| && t.ArrayTy? ==> ToGoType(index, t, output) == AsSeq(EachFrom(t.elem, output[index..], t.size))
    ensures index + 32 <= |output| && t.TupleTy? ==> ToGoType(index, t, output) == AsSeq(TupleFrom(t.elems, output[index..], 0, 0))
  {
  }

  lemma {:induction false} DecodeDynamicBlock(t: Type, v: Value, output: seq<byte>, index: nat, off: nat)
    requires Decodable(t, v, output) && IsDynamic(t) && (t.ArrayTy? || t.TupleTy?)
    requires At(output, index, Word(off)) && At(output, off, Enc(t, v))
    requires FromBE(Word(off)) == off && FromBE(Word(off)[24..]) == off
    ensures ToGoType(index, t, output) == Given(Readable(t, v, Left(|output|, off)), Canon(t, v))
    decreases v, 1
  {
    AtSuffix(output, off, Enc(t, v));
    BlockAt(t, output, index, off, Word(off));
    DecodeBlock(t, v, output[off..]);
  }

  /** The contents of an array or tuple, where they are. */
  lemma {:induction false} DecodeBlock(t: Type, v: Value, block: seq<byte>)
    requires Decodable(t, v, block) && (t.ArrayTy? || t.TupleTy?) && At(block, 0, Enc(t, v)) && (IsDynamic(t) || |block| >= 32)
    ensures t.ArrayTy? ==> AsSeq(EachFrom(t.elem, block, t.size)) == Given(Readable(t, v, |block|), Canon(t, v))
    ensures t.TupleTy? ==> AsSeq(TupleFrom(t.elems, block, 0, 0)) == Given(Readable(t, v, |block|), Canon(t, v))
    decreases v, 0
  {
    if t.ArrayTy? {
      DecodeElements(t.elem, v.vs, block);
      ArrayFound(t, v, |block|, EachFrom(t.elem, block, t.size));
    } else {
      DecodeTuple(t.elems, v.vs, block);
      TupleFound(t, v, |block|, TupleFrom(t.elems, block, 0, 0));
    }
  }

  lemma BlockAt(t: Type, output: seq<byte>, index: nat, off: nat, word: seq<byte>)
    requires Valid(t) && IsDynamic(t) && (t.ArrayTy? || t.TupleTy?) && |output| < TWO63 && off <= |output|
    requires |word| == 32 && At(output, index, word) && FromBE(word) == off && FromBE(word[24..]) == off
    ensures t.ArrayTy? ==> ToGoType(index, t, output) == AsSeq(EachFrom(t.elem, output[off..], t.size))
    ensures t.TupleTy? ==> ToGoType(index, t, output) == AsSeq(TupleFrom(t.elems, output[off..], 0, 0))
  {
  }

  lemma ArrayFound(t: Type, v: Value, n: nat, r: Result<seq<Value>>)
    requires t.ArrayTy? && Typed(t, v) && (IsDynamic(t) || n >= 32)
    requires var ts := Repeat(t.elem, |v.vs|);
             r == Given(32 * |v.vs| <= n && AllReadable(ts, v.vs, n, 0, SizeOfAll(ts)), CanonAll(ts, v.vs))
    ensures AsSeq(r) == Given(Readable(t, v, n), Canon(t, v))
  {
  }

  lemma TupleFound(t: Type, v: Value, n: nat, r: Result<seq<Value>>)
    requires t.TupleTy? && Typed(t, v) && (IsDynamic(t) || n >= 32)
    requires r == Given(AllReadable(t.elems, v.vs, n, 0, SizeOfAll(t.elems)), CanonAll(t.elems, v.vs))
    ensures AsSeq(r) == Given(Readable(t, v, n), Canon(t, v))
  {
  }

  lemma {:induction false} DecodeSlice(t: Type, v: Value, output: seq<byte>, index: nat, off: nat)
    requires Decodable(t, v, output) && t.SliceTy?
    requires At(output, index, Word(off)) && At(output, off, Enc(t, v)) && FromBE(Word(off)) == off
    ensures ToGoType(index, t, output) == Given(Readable(t, v, Left(|output|, off)), Canon(t, v))
    decreases v, 1
  {
    var n := |v.vs|;
    var block := EncAll(Repeat(t.elem, n), v.vs);
    var begin := off + 32;
    if begin + n <= |output| {
      PrefixFound(output, index, off, n, block);
      AtSuffix(output, begin, block);
      var contents := output[begin..];
      DecodeElements(t.elem, v.vs, contents);
      SliceAt(t, output, index, begin, n);
      SliceFound(t, v, Left(|output|, off), |contents|, EachFrom(t.elem, contents, n));
    } else {
      ElementCount(output, index, off, n, block);
      TooLong(t, v, Left(|output|, off));
    }
  }

  lemma SliceFound(t: Type, v: Value, n: nat, m: nat, r: Result<seq<Value>>)
    requires t.SliceTy? && Typed(t, v) && n == m + 32
    requires var ts := Repeat(t.elem, |v.vs|);
             r == Given(32 * |v.vs| <= m && AllReadable(ts, v.vs, m, 0, SizeOfAll(ts)), CanonAll(ts, v.vs))
    ensures AsSeq(r) == Given(Readable(t, v, n), Canon(t, v))
  {
  }

  lemma TooLong(t: Type, v: Value, n: nat)
    requires t.SliceTy? && Typed(t, v) && n < 32 + |v.vs|
    ensures !Readable(t, v, n)
  {
  }

  lemma SliceAt(t: Type, output: seq<byte>, index: nat, begin: nat, n: nat)
    requires Valid(t) && t.SliceTy? && index + 32 <= |output| && begin <= |output|
    requires LengthPrefixPointsTo(index, output) == Ok((begin, n))
    ensures ToGoType(index, t, output) == AsSeq(EachFrom(t.elem, output[begin..], n))
  {
  }

  lemma DecodeBytes(t: Type, v: Value, output: seq<byte>, index: nat, off: nat)
    requires Decodable(t, v, output) && (t.StringTy? || t.BytesTy?)
    requires At(output, index, Word(off)) && At(output, off, Enc(t, v)) && FromBE(Word(off)) == off
    ensures ToGoType(index, t, output) == Ok(Canon(t, v))
  {
    var n := |v.bs|;
    var padded := PadRight(v.bs);
    assert Enc(t, v) == Word(n) + padded;
    PrefixFound(output, index, off, n, padded);
    AtPrefix(output, off + 32, v.bs, padded);
    RawAt(t, output, index, off + 32, v.bs);
  }

  lemma RawAt(t: Type, output: seq<byte>, index: nat, begin: nat, bs: seq<byte>)
    requires (t.StringTy? || t.BytesTy?) && |output| < TWO63 && index + 32 <= |output|
    requires LengthPrefixPointsTo(index, output) == Ok((begin, |bs|)) && At(output, begin, bs)
    ensures ToGoType(index, t, output) == Ok(Raw(bs))
  {
  }

  lemma AtPrefix(out: seq<byte>, p: nat, a: seq<byte>, b: seq<byte>)
    requires At(out, p, b) && a <= b
    ensures At(out, p, a)
  {
    assert out[p..p + |a|] == out[p..p + |b|][..|a|];
  }

  /** The offset at index leads to a length word n and the contents behind it. */
  lemma PrefixFound(output: seq<byte>, index: nat, off: nat, n: nat, body: seq<byte>)
    requires |output| < TWO63 && off + 32 + n <= |output|
    requires At(output, index, Word(off)) && FromBE(Word(off)) == off && At(output, off, Word(n) + body)
    ensures LengthPrefixPointsTo(index, output) == Ok((off + 32, n))
    ensures At(output, off + 32, body)
  {
    AtSplit(output, off, Word(n), body);
    OffsetWord(n);
  }

  /** A length that goes beyond the input is an error. */
  lemma ElementCount(output: seq<byte>, index: nat, off: nat, n: nat, body: seq<byte>)
    requires |output| < TWO63 && n < TWO63
    requires At(output, index, Word(off)) && FromBE(Word(off)) == off && At(output, off, Word(n) + body)
    ensures off + 32 + n > |output| ==> LengthPrefixPointsTo(index, output) == Err
  {
    AtSplit(output, off, Word(n), body);
    OffsetWord(n);
  }

  /** n elements take at least n words. */
  lemma ElementsFill(e: Type, vs: seq<Value>)
    requires TypedAll(Repeat(e, |vs|), vs) && Valid(e) && Inhabits32(e)
    ensures |EncAll(Repeat(e, |vs|), vs)| >= 32 * |vs|
  {
    var ts := Repeat(e, |vs|);
    HeadsLength(ts, vs, SizeOfAll(ts));
    RepeatFills(e, |vs|);
  }

  lemma {:induction false} RepeatFills(e: Type, n: nat)
    requires Inhabits32(e)
    ensures SizeOfAll(Repeat(e, n)) >= 32 * n
  {
    if n > 0 {
      TypeSizeIsWords(e);
      assert Repeat(e, n)[1..] == Repeat(e, n - 1);
      RepeatFills(e, n - 1);
    }
  }

  lemma DecodeWord(t: Type, v: Value, output: seq<byte>, index: nat)
    requires Typed(t, v) && Valid(t) && IsWordType(t) && At(output, index, Enc(t, v))
    ensures ToGoType(index, t, output) == Ok(Canon(t, v))
  {
    assert |Enc(t, v)| == 32;
    var word := output[index..index + 32];
    if t.IntTy? || t.UintTy? {
      WordIsTwosComplement(v.n);
      ReadIntegerInverts(t, v.n);
    } else if t.BoolTy? {
      WordIsTwosComplement(if v.b then 1 else 0);
      DecodeBool(v.b);
    } else {
      BytesWord(v.bs);
      assert t.FixedBytesTy? ==> word[..t.size] == v.bs;
    }
  }

  lemma ReadIntegerInverts(t: Type, n: int)
    requires t.IntTy? || t.UintTy?
    ensures ReadInteger(t, Word(n)) == if t.IntTy? then Signed(n, Width(t.size)) else Unsigned(n, Width(t.size))
  {
    WordValue(n, Width(t.size));
  }

  lemma BytesWord(bs: seq<byte>)
    requires |bs| <= 32
    ensures RightPad(bs, 32)[..|bs|] == bs
    ensures |bs| == 24 ==> ReadFunction(RightPad(bs, 32)) == Ok(bs)
  {
    if |bs| == 24 {
      assert RightPad(bs, 32)[24..32] == Zeros(8) + [];
      FromBELeadingZeros(8, []);
    }
  }

  lemma DecodeBool(b: bool)
    ensures ReadBool(Word(if b then 1 else 0)) == Ok(b)
  {
    var n := if b then 1 else 0;
    assert ToBE(n, 32) == ToBE(0, 31) + [n];
    ToBEZero(31);
  }

  lemma {:induction false} ToBEZero(k: nat)
    ensures forall i | 0 <= i < k :: ToBE(0, k)[i] == 0
  {
    if k > 0 {
      ToBEZero(k - 1);
    }
  }

  lemma {:induction false} DecodeElements(e: Type, vs: seq<Value>, output: seq<byte>)
    requires TypedAll(Repeat(e, |vs|), vs) && Valid(e) && (forall v | v in vs :: Sized(v)) && |output| < TWO63
    requires At(output, 0, EncAll(Repeat(e, |vs|), vs))
    ensures var ts := Repeat(e, |vs|);
            EachFrom(e, output, |vs|) ==
            Given(32 * |vs| <= |output| && AllReadable(ts, vs, |output|, 0, SizeOfAll(ts)), CanonAll(ts, vs))
    decreases vs, 2
  {
    var ts := Repeat(e, |vs|);
    HeadsLength(ts, vs, SizeOfAll(ts));
    AtSplit(output, 0, Heads(Parts(ts, vs), SizeOfAll(ts)), Tails(Parts(ts, vs)));
    ElementsAt(e, ts, vs, output, 0, SizeOfAll(ts));
  }

  lemma {:induction false} DecodeTuple(ts: seq<Type>, vs: seq<Value>, output: seq<byte>)
    requires TypedAll(ts, vs) && (forall t | t in ts :: Valid(t)) && (forall v | v in vs :: Sized(v)) && |output| < TWO63
    requires At(output, 0, EncAll(ts, vs))
    ensures TupleFrom(ts, output, 0, 0) == Given(AllReadable(ts, vs, |output|, 0, SizeOfAll(ts)), CanonAll(ts, vs))
    decreases vs, 2
  {
    HeadsLength(ts, vs, SizeOfAll(ts));
    AtSplit(output, 0, Heads(Parts(ts, vs), SizeOfAll(ts)), Tails(Parts(ts, vs)));
    TupleAt(ts, vs, output, 0, 0, 0, SizeOfAll(ts));
  }

  /** Values of valid types in an input that a Go slice can hold. */
  ghost predicate DecodableAll(ts: seq<Type>, vs: seq<Value>, output: seq<byte>) {
    TypedAll(ts, vs) && (forall t | t in ts :: Valid(t)) && (forall v | v in vs :: Sized(v)) && |output| < TWO63
  }

  lemma DecodableTail(ts: seq<Type>, vs: seq<Value>, output: seq<byte>)
    requires DecodableAll(ts, vs, output) && ts != []
    ensures DecodableAll(ts[1..], vs[1..], output) && Valid(ts[0]) && Typed(ts[0], vs[0]) && Sized(vs[0])
  {
    assert ts[0] in ts && vs[0] in vs;
  }

  /** The decoder's walk along the heads at pos finds each tail from off on exactly
      where the head says. */
  lemma {:induction false} ElementsAt(e: Type, ts: seq<Type>, vs: seq<Value>, output: seq<byte>, pos: nat, off: nat)
    requires AllAre(ts, e) && Valid(e) && DecodableAll(ts, vs, output)
    requires At(output, pos, Heads(Parts(ts, vs), off)) && At(output, off, Tails(Parts(ts, vs)))
    ensures ElementsFrom(e, output, pos, TypeSize(e), |vs|) == Given(AllReadable(ts, vs, |output|, pos, off), CanonAll(ts, vs))
    decreases vs, 1
  {
    if vs == [] {
      NoElements(e, ts, vs, output, pos, off);
    } else {
      DecodableTail(ts, vs, output);
      AllAreTail(ts, e);
      var off', size, found := DecodeFirst(ts, vs, output, pos, off);
      var ts', vs', pos' := ts[1..], vs[1..], pos + size;
      ElementsAt(e, ts', vs', output, pos', off');
      var rest := AllReadable(ts', vs', |output|, pos', off');
      ElementsFromStep(e, output, pos, size, pos', |vs'|, found, Canon(e, vs[0]), rest, CanonAll(ts', vs'));
    }
  }

  ghost predicate AllAre(ts: seq<Type>, e: Type) {
    forall t | t in ts :: t == e
  }

  lemma AllAreTail(ts: seq<Type>, e: Type)
    requires AllAre(ts, e) && ts != []
    ensures ts[0] == e && AllAre(ts[1..], e)
  {
    assert ts[0] in ts;
    forall t | t in ts[1..]
      ensures t == e
    {
      assert t in ts;
    }
  }

  lemma NoElements(e: Type, ts: seq<Type>, vs: seq<Value>, output: seq<byte>, pos: nat, off: nat)
    requires Valid(e) && TypedAll(ts, vs) && vs == []
    ensures ElementsFrom(e, output, pos, TypeSize(e), 0) == Given(AllReadable(ts, vs, |output|, pos, off), CanonAll(ts, vs))
  {
    assert CanonAll(ts, vs) == [];
  }

  lemma ElementsFromStep(e: Type, output: seq<byte>, pos: nat, elemSize: nat, pos': nat, n: nat, found: bool, v: Value, rest: bool, vs: seq<Value>)
    requires Valid(e) && pos' == pos + elemSize && ToGoType(pos, e, output) == Given(found, v)
    requires ElementsFrom(e, output, pos', elemSize, n) == Given(rest, vs)
    ensures ElementsFrom(e, output, pos, elemSize, n + 1) == Given(found && rest, [v] + vs)
  {
  }

  lemma {:induction false} TupleAt(ts: seq<Type>, vs: seq<Value>, output: seq<byte>, index: nat, va: int, pos: nat, off: nat)
    requires DecodableAll(ts, vs, output) && pos == (index + va) * 32
    requires At(output, pos, Heads(Parts(ts, vs), off))
    requires At(output, off, Tails(Parts(ts, vs)))
    ensures TupleFrom(ts, output, index, va) == Given(AllReadable(ts, vs, |output|, pos, off), CanonAll(ts, vs))
    decreases vs, 1
  {
    if ts == [] {
      assert CanonAll(ts, vs) == [];
    } else {
      DecodableTail(ts, vs, output);
      var off', size, found := DecodeFirst(ts, vs, output, pos, off);
      NextPosition(ts[0], index, va, pos, size);
      var va' := va + VirtualArgs(ts[0]);
      var ts', vs', pos' := ts[1..], vs[1..], pos + size;
      TupleAt(ts', vs', output, index + 1, va', pos', off');
      var rest := AllReadable(ts', vs', |output|, pos', off');
      TupleFromStep(ts, output, index, va, pos, va', found, Canon(ts[0], vs[0]), rest, CanonAll(ts', vs'));
    }
  }

  lemma NextPosition(t: Type, index: nat, va: int, pos: nat, size: nat)
    requires pos == (index + va) * 32 && size == TypeSize(t)
    ensures pos + size == (index + 1 + (va + VirtualArgs(t))) * 32
  {
    VirtualArgsAdvance(t);
  }

  lemma TupleFromStep(ts: seq<Type>, output: seq<byte>, index: nat, va: int, pos: nat, va': int, found: bool, v: Value, rest: bool, vs: seq<Value>)
    requires ts != [] && (forall t | t in ts :: Valid(t)) && index + va >= 0 && va' == va + VirtualArgs(ts[0]) && index + 1 + va' >= 0
    requires pos == (index + va) * 32 && ToGoType(pos, ts[0], output) == Given(found, v)
    requires TupleFrom(ts[1..], output, index + 1, va') == Given(rest, vs)
    ensures TupleFrom(ts, output, index, va) == Given(found && rest, [v] + vs)
  {
  }

  /** Counting virtual arguments moves the decoder by the size of the type. */
  lemma VirtualArgsAdvance(t: Type)
    ensures (1 + VirtualArgs(t)) * 32 == TypeSize(t)
  {
    TypeSizeIsWords(t);
  }

  lemma {:induction false} DecodeFirst(ts: seq<Type>, vs: seq<Value>, output: seq<byte>, pos: nat, off: nat)
    returns (off': nat, size: nat, found: bool)
    requires TypedAll(ts, vs) && ts != [] && Valid(ts[0]) && Sized(vs[0]) && |output| < TWO63
    requires At(output, pos, Heads(Parts(ts, vs), off))
    requires At(output, off, Tails(Parts(ts, vs)))
    ensures ToGoType(pos, ts[0], output) == Given(found, Canon(ts[0], vs[0]))
    ensures AllReadable(ts, vs, |output|, pos, off) <==> found && AllReadable(ts[1..], vs[1..], |output|, pos + size, off')
    ensures CanonAll(ts, vs) == [Canon(ts[0], vs[0])] + CanonAll(ts[1..], vs[1..])
    ensures size == TypeSize(ts[0])
    ensures At(output, pos + size, Heads(Parts(ts[1..], vs[1..]), off'))
    ensures At(output, off', Tails(Parts(ts[1..], vs[1..])))
    decreases vs, 0
  {
    off', size := FirstAt(ts, vs, Parts(ts, vs), Parts(ts[1..], vs[1..]), output, pos, off);
    var from := Start(ts[0], pos, off);
    DecodeOne(ts[0], vs[0], output, pos, from);
    found := Readable(ts[0], vs[0], Left(|output|, from));
    AllReadableStep(ts, vs, |output|, pos, off, size, off');
    CanonAllStep(ts, vs);
  }

  lemma CanonAllStep(ts: seq<Type>, vs: seq<Value>)
    requires TypedAll(ts, vs) && ts != []
    ensures CanonAll(ts, vs) == [Canon(ts[0], vs[0])] + CanonAll(ts[1..], vs[1..])
  {
  }

  /** The first component is placed at pos; the rest follow its head and its tail. */
  lemma FirstAt(ts: seq<Type>, vs: seq<Value>, ps: seq<Part>, rest: seq<Part>, output: seq<byte>, pos: nat, off: nat)
    returns (off': nat, size: nat)
    requires TypedAll(ts, vs) && ts != [] && Valid(ts[0]) && ps == Parts(ts, vs) && rest == Parts(ts[1..], vs[1..])
    requires At(output, pos, Heads(ps, off)) && At(output, off, Tails(ps))
    ensures Placed(ts[0], vs[0], output, pos, Start(ts[0], pos, off)) && size == TypeSize(ts[0])
    ensures off' == off + TailLength(ts[0], vs[0])
    ensures At(output, pos + size, Heads(rest, off')) && At(output, off', Tails(rest))
  {
    PartsTail(ts, vs, ps, rest);
    off', size := FirstPartAt(ts[0], vs[0], ps, rest, output, pos, off);
  }

  lemma FirstPartAt(t: Type, v: Value, ps: seq<Part>, rest: seq<Part>, output: seq<byte>, pos: nat, off: nat)
    returns (off': nat, size: nat)
    requires Typed(t, v) && Valid(t) && ps != [] && rest == ps[1..] && ps[0] == Part(IsDynamic(t), Enc(t, v))
    requires At(output, pos, Heads(ps, off)) && At(output, off, Tails(ps))
    ensures Placed(t, v, output, pos, Start(t, pos, off)) && size == TypeSize(t)
    ensures off' == off + TailLength(t, v)
    ensures At(output, pos + size, Heads(rest, off')) && At(output, off', Tails(rest))
  {
    if IsDynamic(t) {
      off', size := DynamicPartAt(t, v, ps, rest, output, pos, off);
    } else {
      off', size := StaticPartAt(t, v, ps, rest, output, pos, off);
    }
  }

  lemma DynamicPartAt(t: Type, v: Value, ps: seq<Part>, rest: seq<Part>, output: seq<byte>, pos: nat, off: nat)
    returns (off': nat, size: nat)
    requires Typed(t, v) && Valid(t) && ps != [] && rest == ps[1..] && ps[0] == Part(true, Enc(t, v)) && IsDynamic(t) == true
    requires At(output, pos, Heads(ps, off)) && At(output, off, Tails(ps))
    ensures Placed(t, v, output, pos, off) && size == TypeSize(t)
    ensures off' == off + |Enc(t, v)|
    ensures At(output, pos + size, Heads(rest, off')) && At(output, off', Tails(rest))
  {
    off', size := FirstDynamic(ps, rest, output, pos, off);
    PlacedByOffset(t, v, output, pos, off);
  }

  lemma StaticPartAt(t: Type, v: Value, ps: seq<Part>, rest: seq<Part>, output: seq<byte>, pos: nat, off: nat)
    returns (off': nat, size: nat)
    requires Typed(t, v) && Valid(t) && ps != [] && rest == ps[1..] && ps[0] == Part(false, Enc(t, v)) && IsDynamic(t) == false
    requires At(output, pos, Heads(ps, off)) && At(output, off, Tails(ps))
    ensures Placed(t, v, output, pos, pos) && size == TypeSize(t)
    ensures off' == off
    ensures At(output, pos + size, Heads(rest, off')) && At(output, off', Tails(rest))
  {
    StaticLength(t, v);
    off', size := FirstStatic(ps, rest, output, pos, off);
    PlacedDirectly(t, v, output, pos);
  }

  lemma PlacedDirectly(t: Type, v: Value, output: seq<byte>, pos: nat)
    requires Typed(t, v) && !IsDynamic(t) && At(output, pos, Enc(t, v))
    ensures Placed(t, v, output, pos, pos)
  {
  }

  lemma PlacedByOffset(t: Type, v: Value, output: seq<byte>, pos: nat, off: nat)
    requires Typed(t, v) && IsDynamic(t) && At(output, pos, Word(off)) && At(output, off, Enc(t, v))
    ensures Placed(t, v, output, pos, off) && TypeSize(t) == 32
  {
  }

  lemma FirstDynamic(ps: seq<Part>, rest: seq<Part>, output: seq<byte>, pos: nat, off: nat)
    returns (off': nat, size: nat)
    requires ps != [] && rest == ps[1..] && ps[0].dynamic
    requires At(output, pos, Heads(ps, off)) && At(output, off, Tails(ps))
    ensures At(output, pos, Word(off)) && At(output, off, ps[0].enc) && size == 32 && off' == off + |ps[0].enc|
    ensures At(output, pos + size, Heads(rest, off')) && At(output, off', Tails(rest))
  {
    var enc := ps[0].enc;
    off', size := off + |enc|, 32;
    assert Heads(ps, off) == Word(off) + Heads(rest, off');
    assert Tails(ps) == enc + Tails(rest);
    AtSplit(output, pos, Word(off), Heads(rest, off'));
    AtSplit(output, off, enc, Tails(rest));
  }

  lemma FirstStatic(ps: seq<Part>, rest: seq<Part>, output: seq<byte>, pos: nat, off: nat)
    returns (off': nat, size: nat)
    requires ps != [] && rest == ps[1..] && !ps[0].dynamic
    requires At(output, pos, Heads(ps, off)) && At(output, off, Tails(ps))
    ensures At(output, pos, ps[0].enc) && size == |ps[0].enc| && off' == off
    ensures At(output, pos + size, Heads(rest, off')) && At(output, off', Tails(rest))
  {
    off', size := off, |ps[0].enc|;
    AtSplit(output, pos, ps[0].enc, Heads(rest, off));
    AtSplit(output, off, [], Tails(rest));
  }

  /** For every list of well-typed arguments of any nesting, unpacking what Pack
      produced gives the arguments back, each big.Int reduced to 256 bits, if every
      component is readable, and fails otherwise. */
  lemma UnpackPack(ts: seq<Type>, vs: seq<Value>)
    requires TypedAll(ts, vs) && (forall t | t in ts :: Valid(t)) && forall v | v in vs :: Sized(v)
    requires |EncAll(ts, vs)| < TWO63
    ensures TupleFrom(ts, EncAll(ts, vs), 0, 0) ==
            Given(AllReadable(ts, vs, |EncAll(ts, vs)|, 0, SizeOfAll(ts)), CanonAll(ts, vs))
    ensures TupleFrom(ts, EncAll(ts, vs), 0, 0) == Ok(vs) <==>
              && AllReadable(ts, vs, |EncAll(ts, vs)|, 0, SizeOfAll(ts))
              && forall i | 0 <= i < |ts| :: Fits(ts[i], vs[i])
  {
    DecodeTuple(ts, vs, EncAll(ts, vs));
    CanonAllIffFits(ts, vs);
  }

  /** Without zero-length arrays and empty tuples everything is readable. */
  lemma {:induction false} InhabitedReads(t: Type, v: Value, n: nat)
    requires Typed(t, v) && Valid(t) && Inhabits32(t) && n >= |Enc(t, v)|
    ensures Readable(t, v, n)
    decreases v, 1
  {
    if t.TupleTy? {
      TypeSizeIsWords(t);
      BlockReads(t.elems, v.vs, n);
      if !IsDynamic(t) {
        StaticLength(t, v);
      }
    } else if t.ArrayTy? {
      TypeSizeIsWords(t);
      ElementsFill(t.elem, v.vs);
      BlockReads(Repeat(t.elem, |v.vs|), v.vs, n);
      if !IsDynamic(t) {
        StaticLength(t, v);
      }
    } else if t.SliceTy? {
      ElementsFill(t.elem, v.vs);
      BlockReads(Repeat(t.elem, |v.vs|), v.vs, n - 32);
    }
  }

  lemma {:induction false} BlockReads(ts: seq<Type>, vs: seq<Value>, n: nat)
    requires TypedAll(ts, vs) && (forall t | t in ts :: Valid(t) && Inhabits32(t)) && n >= |EncAll(ts, vs)|
    ensures AllReadable(ts, vs, n, 0, SizeOfAll(ts))
    decreases vs, 3
  {
    HeadsLength(ts, vs, SizeOfAll(ts));
    AllRead(ts, vs, n, 0, SizeOfAll(ts));
  }

  lemma {:induction false} AllRead(ts: seq<Type>, vs: seq<Value>, n: nat, head: nat, tail: nat)
    requires TypedAll(ts, vs) && Inhabited(ts)
    requires n >= head + SizeOfAll(ts) && n >= tail + |Tails(Parts(ts, vs))|
    ensures AllReadable(ts, vs, n, head, tail)
    decreases vs, 2
  {
    if ts != [] {
      var t, v, ts', vs', size := ts[0], vs[0], ts[1..], vs[1..], TypeSize(ts[0]);
      var tail' := tail + TailLength(t, v);
      InhabitedTail(ts, vs, ts', vs', size);
      OneRead(t, v, n, head, tail);
      AllRead(ts', vs', n, head + size, tail');
      AllReadableIf(ts, vs, ts', vs', n, head, tail, head + size, tail');
    }
  }

  lemma AllReadableIf(ts: seq<Type>, vs: seq<Value>, ts': seq<Type>, vs': seq<Value>, n: nat, head: nat, tail: nat, head': nat, tail': nat)
    requires TypedAll(ts, vs) && ts != [] && ts' == ts[1..] && vs' == vs[1..]
    requires head' == head + TypeSize(ts[0]) && tail' == tail + TailLength(ts[0], vs[0])
    requires Readable(ts[0], vs[0], Left(n, Start(ts[0], head, tail))) && AllReadable(ts', vs', n, head', tail')
    ensures AllReadable(ts, vs, n, head, tail)
  {
  }

  ghost predicate Inhabited(ts: seq<Type>) {
    forall t | t in ts :: Valid(t) && Inhabits32(t)
  }

  lemma InhabitedTail(ts: seq<Type>, vs: seq<Value>, ts': seq<Type>, vs': seq<Value>, size: nat)
    requires TypedAll(ts, vs) && ts != [] && ts' == ts[1..] && vs' == vs[1..] && size == TypeSize(ts[0])
    requires Inhabited(ts)
    ensures TypedAll(ts', vs') && Typed(ts[0], vs[0]) && Valid(ts[0]) && Inhabits32(ts[0])
    ensures Inhabited(ts')
    ensures SizeOfAll(ts) == size + SizeOfAll(ts')
    ensures |Tails(Parts(ts, vs))| == TailLength(ts[0], vs[0]) + |Tails(Parts(ts', vs'))|
  {
    assert ts[0] in ts;
    PartsTail(ts, vs, Parts(ts, vs), Parts(ts', vs'));
    FirstTail(Parts(ts, vs), Parts(ts', vs'), ts[0], vs[0]);
  }

  lemma FirstTail(ps: seq<Part>, rest: seq<Part>, t: Type, v: Value)
    requires Typed(t, v) && ps != [] && rest == ps[1..] && ps[0] == Part(IsDynamic(t), Enc(t, v))
    ensures |Tails(ps)| == TailLength(t, v) + |Tails(rest)|
  {
  }

  lemma {:induction false} OneRead(t: Type, v: Value, n: nat, head: nat, tail: nat)
    requires Typed(t, v) && Valid(t) && Inhabits32(t) && n >= head + TypeSize(t) && n >= tail + TailLength(t, v)
    ensures Readable(t, v, Left(n, Start(t, head, tail)))
    decreases v, 2
  {
    if !IsDynamic(t) {
      StaticLength(t, v);
    }
    InhabitedReads(t, v, Left(n, Start(t, head, tail)));
  }

  /** Different fitting arguments never pack to the same bytes. */
  lemma PackInjective(ts: seq<Type>, vs: seq<Value>, ws: seq<Value>)
    requires TypedAll(ts, vs) && TypedAll(ts, ws) && forall t | t in ts :: Valid(t) && Inhabits32(t)
    requires (forall v | v in vs :: Sized(v)) && forall v | v in ws :: Sized(v)
    requires forall i | 0 <= i < |ts| :: Fits(ts[i], vs[i]) && Fits(ts[i], ws[i])
    requires EncAll(ts, vs) == EncAll(ts, ws) && |EncAll(ts, vs)| < TWO63
    ensures vs == ws
  {
    BlockReads(ts, vs, |EncAll(ts, vs)|);
    BlockReads(ts, ws, |EncAll(ts, ws)|);
    UnpackPack(ts, vs);
    UnpackPack(ts, ws);
  }

  /** A big.Int packed as an unsigned integer comes back modulo 2^256, whatever its type
      announces: one that needs more than 256 bits is reduced, and one that needs more
      than the 24 bits of a uint24, say, is not. */
  lemma BigIntComesBack(size: nat, n: int)
    requires Width(size) == 32
    ensures var ts, vs := [UintTy(size)], [Num(n)];
            TypedAll(ts, vs) && TupleFrom(ts, EncAll(ts, vs), 0, 0) == Ok([Num(n % Pow256(32))])
  {
    var ts, vs := [UintTy(size)], [Num(n)];
    StaticBlockLength(ts, vs);
    BlockReads(ts, vs, 32);
    UnpackPack(ts, vs);
    assert CanonAll(ts, vs) == [Canon(ts[0], vs[0])];
  }

  /** A uint256 of 2^256 comes back as 0. */
  lemma TooWideIsReduced(n: int)
    requires n == Pow256(32)
    ensures var ts, vs := [UintTy(256)], [Num(n)];
            TypedAll(ts, vs) && TupleFrom(ts, EncAll(ts, vs), 0, 0) == Ok([Num(0)])
  {
    BigIntComesBack(256, n);
  }

  /** A uint24 of 2^24 or more comes back as it is, as long as it fits in 256 bits. */
  lemma TooWideForTypeIsNot(n: int)
    requires 0x100_0000 <= n < Pow256(32)
    ensures var ts, vs := [UintTy(24)], [Num(n)];
            TypedAll(ts, vs) && TupleFrom(ts, EncAll(ts, vs), 0, 0) == Ok(vs)
  {
    BigIntComesBack(24, n);
    DivModUnique(n, Pow256(32), 0, n);
  }

  lemma StaticBlockLength(ts: seq<Type>, vs: seq<Value>)
    requires |ts| == |vs| == 1 && ts[0].UintTy? && TypedAll(ts, vs)
    ensures |EncAll(ts, vs)| == 32
  {
    StaticBlock(ts, vs);
    assert ts[1..] == [];
  }

  /** A zero-length array comes back if and only if a word follows it: in front of another
      argument it does, and a lone or trailing one is an error. */
  lemma EmptyArrayIsReturnedIff(rest: seq<Type>, vs: seq<Value>)
    requires TypedAll(rest, vs) && (forall t | t in rest :: Valid(t) && Inhabits32(t)) && forall v | v in vs :: Sized(v)
    requires forall i | 0 <= i < |rest| :: Fits(rest[i], vs[i])
    requires |EncAll([ArrayTy(0, BoolTy)] + rest, [Seq([])] + vs)| < TWO63
    ensures var ts, ws := [ArrayTy(0, BoolTy)] + rest, [Seq([])] + vs;
            (forall t | t in ts :: Valid(t)) && TupleFrom(ts, EncAll(ts, ws), 0, 0) == if rest == [] then Err else Ok(ws)
  {
    var empty, none := ArrayTy(0, BoolTy), Seq([]);
    var ts, ws := [empty] + rest, [none] + vs;
    assert ts[1..] == rest && ws[1..] == vs;
    forall w | w in ws
      ensures Sized(w)
    {
      assert w == none || w in vs;
    }
    UnpackPack(ts, ws);
    EmptyArrayLength(ts, ws, rest, vs);
    EmptyArrayFirst(rest, vs, |EncAll(ts, ws)|);
    AllReadableStep(ts, ws, |EncAll(ts, ws)|, 0, SizeOfAll(ts), 0, SizeOfAll(ts));
  }

  lemma EmptyArrayLength(ts: seq<Type>, ws: seq<Value>, rest: seq<Type>, vs: seq<Value>)
    requires TypedAll(ts, ws) && ts != [] && ts[0] == ArrayTy(0, BoolTy) && ts[1..] == rest && ws[1..] == vs
    requires forall t | t in rest :: Valid(t)
    ensures SizeOfAll(ts) == SizeOfAll(rest) && |EncAll(ts, ws)| == SizeOfAll(rest) + |Tails(Parts(rest, vs))|
    ensures forall t | t in ts :: Valid(t)
  {
    HeadsLength(ts, ws, SizeOfAll(ts));
    PartsTail(ts, ws, Parts(ts, ws), Parts(rest, vs));
  }

  lemma EmptyArrayFirst(rest: seq<Type>, vs: seq<Value>, n: nat)
    requires TypedAll(rest, vs) && (forall t | t in rest :: Valid(t) && Inhabits32(t))
    requires n == SizeOfAll(rest) + |Tails(Parts(rest, vs))|
    ensures Readable(ArrayTy(0, BoolTy), Seq([]), n) <==> rest != []
    ensures AllReadable(rest, vs, n, 0, SizeOfAll(rest))
  {
    SizeOfAllIsWords(rest);
    AllRead(rest, vs, n, 0, SizeOfAll(rest));
    assert Repeat(BoolTy, 0) == [];
  }
}
