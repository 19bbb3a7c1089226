/** The decoder of core/abi/unpack.go and Arguments.UnpackValues. Its functions are
    defined on every byte string, so no slice expression of the decoder can go out of
    range, whatever the input. */
module AbiUnpack {
  import opened Bytes
  import opened AbiTypes

  function ReadInteger(t: Type, word: seq<byte>): int
    requires (t.IntTy? || t.UintTy?) && |word| == 32
  {
    var w := Width(t.size);
    var m := FromBE(word[32 - w..]);
    if t.UintTy? || 2 * m < Pow256(w) then m else m - Pow256(w)
  }

  function ReadBool(word: seq<byte>): Result<bool>
    requires |word| == 32
  {
    if exists i | 0 <= i < 31 :: word[i] != 0 then Err
    else if word[31] == 0 then Ok(false)
    else if word[31] == 1 then Ok(true)
    else Err
  }

  function ReadFunction(word: seq<byte>): Result<seq<byte>>
    requires |word| == 32
  {
    if FromBE(word[24..32]) != 0 then Err else Ok(word[..24])
  }

  /** Start and length of the contents behind the offset at index. */
  function LengthPrefixPointsTo(index: nat, output: seq<byte>): (r: Result<(nat, nat)>)
    requires index + 32 <= |output|
    ensures r.Ok? ==> 32 <= r.value.0 && r.value.0 + r.value.1 <= |output|
  {
    var offsetEnd := FromBE(output[index..index + 32]) + 32;
    if offsetEnd > |output| || offsetEnd >= TWO63 then Err
    else
      var length := FromBE(output[offsetEnd - 32..offsetEnd]);
      if offsetEnd + length >= TWO63 || offsetEnd + length > |output| then Err
      else Ok((offsetEnd, length))
  }

  function TuplePointsTo(index: nat, output: seq<byte>): (r: Result<nat>)
    requires index + 32 <= |output|
    ensures r.Ok? ==> r.value <= |output|
  {
    var offset := FromBE(output[index..index + 32]);
    if offset > |output| || offset >= TWO63 then Err else Ok(offset)
  }

  function ToGoType(index: nat, t: Type, output: seq<byte>): Result<Value>
    requires Valid(t)
    decreases t, 0
  {
    if index + 32 > |output| then Err
    else
      var word := output[index..index + 32];
      match t
      case TupleTy(es) =>
        if IsDynamic(t) then
          match TuplePointsTo(index, output)
          case Err => Err
          case Ok(begin) => AsSeq(TupleFrom(es, output[begin..], 0, 0))
        else AsSeq(TupleFrom(es, output[index..], 0, 0))
      case SliceTy(e) =>
        (match LengthPrefixPointsTo(index, output)
         case Err => Err
         case Ok((begin, length)) => AsSeq(EachFrom(e, output[begin..], length)))
      case ArrayTy(k, e) =>
        if IsDynamic(e) then
          var offset := FromBE(word[24..]);
          if offset > |output| then Err else AsSeq(EachFrom(e, output[offset..], k))
        else AsSeq(EachFrom(e, output[index..], k))
      case StringTy =>
        (match LengthPrefixPointsTo(index, output)
         case Err => Err
         case Ok((begin, length)) => Ok(Raw(output[begin..begin + length])))
      case BytesTy =>
        (match LengthPrefixPointsTo(index, output)
         case Err => Err
         case Ok((begin, length)) => Ok(Raw(output[begin..begin + length])))
      case IntTy(_) => Ok(Num(ReadInteger(t, word)))
      case UintTy(_) => Ok(Num(ReadInteger(t, word)))
      case BoolTy => (match ReadBool(word) case Err => Err case Ok(b) => Ok(Bool(b)))
      case FixedBytesTy(k) => Ok(Raw(word[..k]))
      case FunctionTy => (match ReadFunction(word) case Err => Err case Ok(b) => Ok(Raw(b)))
  }

  function AsSeq(r: Result<seq<Value>>): Result<Value> {
    match r
    case Err => Err
    case Ok(vs) => Ok(Seq(vs))
  }

  /** What forEachUnpack computes: size elements packed from the start of output. */
  function EachFrom(e: Type, output: seq<byte>, size: nat): Result<seq<Value>>
    requires Valid(e)
    decreases e, 2, 0
  {
    if 32 * size > |output| then Err else ElementsFrom(e, output, 0, TypeSize(e), size)
  }

  /** n elements from pos on, each elemSize behind the one before. */
  function ElementsFrom(e: Type, output: seq<byte>, pos: nat, elemSize: nat, n: nat): Result<seq<Value>>
    requires Valid(e)
    decreases e, 1, n
  {
    if n == 0 then Ok([])
    else
      match ToGoType(pos, e, output)
      case Err => Err
      case Ok(v) =>
        match ElementsFrom(e, output, pos + elemSize, elemSize, n - 1)
        case Err => Err
        case Ok(vs) => Ok([v] + vs)
  }

  /** Extra argument positions a static array or tuple takes beyond its own. */
  function VirtualArgs(t: Type): int {
    if (t.ArrayTy? || t.TupleTy?) && !IsDynamic(t) then TypeSize(t) / 32 - 1 else 0
  }

  /** What forTupleUnpack and UnpackValues compute from position index on. */
  function TupleFrom(ts: seq<Type>, output: seq<byte>, index: nat, virtualArgs: int): Result<seq<Value>>
    requires (forall t | t in ts :: Valid(t)) && index + virtualArgs >= 0
    decreases ts, 0
  {
    if ts == [] then Ok([])
    else
      match ToGoType((index + virtualArgs) * 32, ts[0], output)
      case Err => Err
      case Ok(v) =>
        match TupleFrom(ts[1..], output, index + 1, virtualArgs + VirtualArgs(ts[0]))
        case Err => Err
        case Ok(vs) => Ok([v] + vs)
  }

  /** forEachUnpack. */
  method ForEachUnpack(e: Type, output: seq<byte>, size: nat) returns (r: Result<seq<Value>>)
    requires Valid(e)
    ensures r == EachFrom(e, output, size)
  {
    if 32 * size > |output| { return Err; }
    r := UnpackElements(e, output, TypeSize(e), size);
  }

  method UnpackElements(e: Type, output: seq<byte>, elemSize: nat, size: nat) returns (r: Result<seq<Value>>)
    requires Valid(e)
    ensures r == ElementsFrom(e, output, 0, elemSize, size)
  {
    var vs: seq<Value> := [];
    var i: nat := 0;
    ghost var all := ElementsFrom(e, output, 0, elemSize, size);
    PrependNothing(all, vs);
    for j := 0 to size
      invariant Prepend(vs, ElementsFrom(e, output, i, elemSize, size - j)) == all
    {
      ElementsTurn(e, output, vs, i, elemSize, size - j);
      var inter := ToGoType(i, e, output);
      if inter.Err? { return Err; }
      vs := vs + [inter.value];
      i := i + elemSize;
    }
    PrependNothing(Err, vs);
    r := Ok(vs);
  }

  function Prepend(vs: seq<Value>, rest: Result<seq<Value>>): Result<seq<Value>> {
    match rest
    case Err => Err
    case Ok(ws) => Ok(vs + ws)
  }

  /** One turn of the loop, with n elements to go. */
  lemma ElementsTurn(e: Type, output: seq<byte>, vs: seq<Value>, pos: nat, elemSize: nat, n: nat)
    requires Valid(e) && n > 0
    ensures Prepend(vs, ElementsFrom(e, output, pos, elemSize, n)) ==
            match ToGoType(pos, e, output)
            case Err => Err
            case Ok(v) => Prepend(vs + [v], ElementsFrom(e, output, pos + elemSize, elemSize, n - 1))
  {
    var inter := ToGoType(pos, e, output);
    if inter.Ok? {
      PrependStep(vs, inter.value, ElementsFrom(e, output, pos + elemSize, elemSize, n - 1));
    }
  }

  lemma PrependNothing(rest: Result<seq<Value>>, vs: seq<Value>)
    ensures Prepend([], rest) == rest && Prepend(vs, Ok([])) == Ok(vs)
  {
    if rest.Ok? {
      assert [] + rest.value == rest.value;
    }
    assert vs + [] == vs;
  }

  lemma PrependStep(vs: seq<Value>, v: Value, rest: Result<seq<Value>>)
    ensures Prepend(vs + [v], rest) == Prepend(vs, Prepend([v], rest))
  {
    if rest.Ok? {
      assert vs + [v] + rest.value == vs + ([v] + rest.value);
    }
  }

  /** forTupleUnpack, and UnpackValues on the non-indexed arguments. */
  method UnpackValues(ts: seq<Type>, output: seq<byte>) returns (r: Result<seq<Value>>)
    requires forall t | t in ts :: Valid(t)
    ensures r == TupleFrom(ts, output, 0, 0)
  {
    var retval: seq<Value> := [];
    var virtualArgs: int := 0;
    assert ts[0..] == ts;
    PrependNothing(TupleFrom(ts, output, 0, 0), retval);
    for index := 0 to |ts|
      invariant index + virtualArgs >= 0
      invariant Prepend(retval, TupleFrom(ts[index..], output, index, virtualArgs)) == TupleFrom(ts, output, 0, 0)
    {
      var elem := ts[index];
      var marshalled := ToGoType((index + virtualArgs) * 32, elem, output);
      assert ts[index..][1..] == ts[index + 1..];
      if marshalled.Err? { return Err; }
      PrependStep(retval, marshalled.value, TupleFrom(ts[index + 1..], output, index + 1, virtualArgs + VirtualArgs(elem)));
      if (elem.ArrayTy? || elem.TupleTy?) && !IsDynamic(elem) {
        virtualArgs := virtualArgs + (TypeSize(elem) / 32 - 1);
      }
      retval := retval + [marshalled.value];
    }
    PrependNothing(Err, retval);
    r := Ok(retval);
  }
}
