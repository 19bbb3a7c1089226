/** Contract ABI types and values, and the size rules of core/abi/type.go. */
module AbiTypes {
  import opened Bytes

  datatype Result<+T> = Ok(value: T) | Err

  datatype Type =
    | IntTy(size: nat)
    | UintTy(size: nat)
    | BoolTy
    | StringTy
    | BytesTy
    | FixedBytesTy(size: nat)
    | FunctionTy
    | SliceTy(elem: Type)
    | ArrayTy(size: nat, elem: Type)
    | TupleTy(elems: seq<Type>)

  /** Numbers, booleans, byte strings (string, bytes, bytesN, function) and
      sequences (slices, arrays and the fields of a tuple). */
  datatype Value =
    | Num(n: int)
    | Bool(b: bool)
    | Raw(bs: seq<byte>)
    | Seq(vs: seq<Value>)

  /** bytesN has 1 to 32 bytes, as in the Solidity type grammar. */
  predicate Valid(t: Type) {
    match t
    case FixedBytesTy(n) => 1 <= n <= 32
    case SliceTy(e) => Valid(e)
    case ArrayTy(_, e) => Valid(e)
    case TupleTy(es) => forall e | e in es :: Valid(e)
    case _ => true
  }

  /** No fixed array of length zero and no empty tuple, at any depth. */
  predicate Inhabits32(t: Type) {
    match t
    case SliceTy(e) => Inhabits32(e)
    case ArrayTy(n, e) => n > 0 && Inhabits32(e)
    case TupleTy(es) => es != [] && forall e | e in es :: Inhabits32(e)
    case _ => true
  }

  predicate IsDynamic(t: Type) {
    match t
    case TupleTy(es) => exists e | e in es :: IsDynamic(e)
    case ArrayTy(_, e) => IsDynamic(e)
    case _ => t.StringTy? || t.BytesTy? || t.SliceTy?
  }

  /** Bytes a value of this type takes in the head of its block. */
  function TypeSize(t: Type): (r: nat)
    decreases t, 1
  {
    if t.ArrayTy? && !IsDynamic(t.elem) then
      if t.elem.ArrayTy? || t.elem.TupleTy? then t.size * TypeSize(t.elem) else t.size * 32
    else if t.TupleTy? && !IsDynamic(t) then SizeOfAll(t.elems)
    else 32
  }

  function SizeOfAll(ts: seq<Type>): (r: nat)
    decreases ts, 0
  {
    if ts == [] then 0 else TypeSize(ts[0]) + SizeOfAll(ts[1..])
  }

  function Repeat(t: Type, n: nat): (ts: seq<Type>)
    ensures |ts| == n
  {
    seq(n, _ => t)
  }

  /** Width in bytes of the Go integer an ABI integer is read into. */
  function Width(size: nat): (w: nat)
    ensures 1 <= w <= 32
  {
    if size == 8 || size == 16 || size == 32 || size == 64 then size / 8 else 32
  }

  function Unsigned(n: int, w: nat): nat {
    n % Pow256(w)
  }

  /** Two's complement reading of the w low-order bytes of n. */
  function Signed(n: int, w: nat): int {
    var m := n % Pow256(w);
    if 2 * m >= Pow256(w) then m - Pow256(w) else m
  }

  /** The value has the Go kind that the type asks for. A native integer is in
      the range of its width; a big.Int can be any integer. */
  predicate Typed(t: Type, v: Value)
    decreases v
  {
    match t
    case IntTy(s) => v.Num? && (Width(s) != 32 ==> Signed(v.n, Width(s)) == v.n)
    case UintTy(s) => v.Num? && (Width(s) != 32 ==> Unsigned(v.n, Width(s)) == v.n)
    case BoolTy => v.Bool?
    case StringTy => v.Raw?
    case BytesTy => v.Raw?
    case FixedBytesTy(k) => v.Raw? && |v.bs| == k
    case FunctionTy => v.Raw? && |v.bs| == 24
    case SliceTy(e) => v.Seq? && forall x | x in v.vs :: Typed(e, x)
    case ArrayTy(k, e) => v.Seq? && |v.vs| == k && forall x | x in v.vs :: Typed(e, x)
    case TupleTy(es) => v.Seq? && |v.vs| == |es| && forall i | 0 <= i < |es| :: Typed(es[i], v.vs[i])
  }

  predicate TypedAll(ts: seq<Type>, vs: seq<Value>) {
    |ts| == |vs| && forall i | 0 <= i < |ts| :: Typed(ts[i], vs[i])
  }

  /** Every integer inside v is representable at the width it is read at; only a
      big.Int, read at 256 bits, can fail to be. */
  predicate Fits(t: Type, v: Value)
    requires Typed(t, v)
    decreases v
  {
    match t
    case IntTy(s) => Signed(v.n, Width(s)) == v.n
    case UintTy(s) => Unsigned(v.n, Width(s)) == v.n
    case SliceTy(e) => forall x | x in v.vs :: Fits(e, x)
    case ArrayTy(k, e) => forall x | x in v.vs :: Fits(e, x)
    case TupleTy(es) => forall i | 0 <= i < |es| :: Fits(es[i], v.vs[i])
    case _ => true
  }

  lemma {:induction false} SizeOfRepeat(t: Type, n: nat)
    ensures SizeOfAll(Repeat(t, n)) == TypeSize(t) * n
  {
    if n > 0 {
      SizeOfRepeat(t, n - 1);
      assert Repeat(t, n)[1..] == Repeat(t, n - 1);
    }
  }

  lemma {:induction false} TypeSizeIsWords(t: Type)
    ensures TypeSize(t) % 32 == 0
    ensures Inhabits32(t) ==> TypeSize(t) >= 32
    decreases t, 1
  {
    if t.ArrayTy? && !IsDynamic(t.elem) {
      TypeSizeIsWords(t.elem);
      WordsTimes(t.size, TypeSize(t.elem));
      WordsTimes(t.size, 32);
    } else if t.TupleTy? && !IsDynamic(t) {
      SizeOfAllIsWords(t.elems);
    }
  }

  lemma WordsAdd(a: nat, b: nat)
    requires a % 32 == 0 && b % 32 == 0
    ensures (a + b) % 32 == 0
  {
  }

  lemma WordsTimes(n: nat, a: nat)
    requires a % 32 == 0
    ensures n * a % 32 == 0
    ensures n >= 1 && a >= 32 ==> n * a >= 32
  {
    var k := a / 32;
    assert n * (k * 32) == (n * k) * 32;
    if n >= 1 && a >= 32 {
      assert (n - 1) * a >= 0;
      assert n * a == (n - 1) * a + a;
    }
  }

  lemma {:induction false} SizeOfAllIsWords(ts: seq<Type>)
    ensures SizeOfAll(ts) % 32 == 0
    ensures (ts != [] && forall t | t in ts :: Inhabits32(t)) ==> SizeOfAll(ts) >= 32
    decreases ts, 0
  {
    if ts != [] {
      TypeSizeIsWords(ts[0]);
      SizeOfAllIsWords(ts[1..]);
      WordsAdd(TypeSize(ts[0]), SizeOfAll(ts[1..]));
    }
  }
}
