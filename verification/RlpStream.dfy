/** The decoding stream of rlp/decode.go over a byte slice, as DecodeBytes uses it. */
module RlpStream {
  import opened Bytes
  import opened Rlp
  import opened RlpTags

  datatype Error =
    | NoError | EOL | EOF | ElemTooLarge | ValueTooLarge | CanonSize
    | ExpectedString | ExpectedList | NotInList | NotAtEOL | MoreThanOneValue

  datatype Result = Ok(item: Item) | Fail(error: Error)

  datatype Ahead = Rearm | Known(kind: Kind)

  /** Takes n bytes off the innermost list limit, in uint64 arithmetic. */
  function Charge(stack: seq<nat>, n: nat): (r: seq<nat>)
    ensures |r| == |stack|
  {
    if stack == [] then [] else stack[|stack| - 1 := (stack[|stack| - 1] - n) % TWO64]
  }

  function Top(stack: seq<nat>): nat
    requires stack != []
  {
    stack[|stack| - 1]
  }

  lemma ChargeTwice(stack: seq<nat>, m: nat, n: nat)
    ensures Charge(Charge(stack, m), n) == Charge(stack, m + n)
  {
    if stack != [] {
      var t := Top(stack);
      assert ((t - m) % TWO64 - n) % TWO64 == (t - (m + n)) % TWO64;
    }
  }

  class Stream {
    const input: seq<byte>
    var pos: nat          // position of the underlying reader
    var remaining: nat    // bytes left under the input limit
    var size: nat         // size of the value ahead
    var kind: Ahead       // kind of the value ahead
    var kinderr: Error    // error from the last readKind
    var byteval: byte     // value of a single byte in the type tag
    var stack: seq<nat>   // limits of the open lists, as uint64
    ghost var mark: nat            // where the tag of the value ahead starts
    ghost var markStack: seq<nat>  // the limits at that point

    ghost predicate Limits()
      reads this
    {
      && |input| < TWO63 && pos <= |input| && remaining == |input| - pos
      && forall i | 0 <= i < |stack| :: stack[i] < TWO64
    }

    /** What Kind has learned about the value ahead is what its tag says; a remembered
        error means that no value fits there. */
    ghost predicate Valid()
      reads this
    {
      && Limits()
      && (kind.Known? ==>
            && mark <= pos && (markStack == [] || 0 < Top(markStack) < TWO64)
            && (if kinderr == NoError then
                  && ParseTag(input[mark..]) == Tag(kind.kind, size, pos - mark)
                  && Admitted(input[mark..], markStack) && stack == Charge(markStack, pos - mark) && size <= remaining
                  && (kind.kind == Byte ==> byteval == input[mark])
                else kinderr != EOL && !Admitted(input[mark..], markStack)))
    }

    /** A value whose tag starts rest lies inside the input and the innermost list. */
    static ghost predicate Fitting(rest: seq<byte>, limits: seq<nat>) {
      var t := ParseTag(rest);
      t.Tag? && t.hlen + t.size <= |rest| && (limits == [] || t.hlen + t.size <= Top(limits))
    }

    /** What Kind checks: the tag lies inside the innermost list, and so would the
        contents if the tag were not counted. */
    static ghost predicate Admitted(rest: seq<byte>, limits: seq<nat>) {
      var t := ParseTag(rest);
      t.Tag? && t.hlen + t.size <= |rest| && (limits == [] || (t.hlen <= Top(limits) && t.size <= Top(limits)))
    }

    /** Where the value ahead starts, and the limits there. */
    ghost function Start(): nat
      reads this
    {
      if kind == Rearm then pos else mark
    }

    ghost function StartStack(): seq<nat>
      reads this
    {
      if kind == Rearm then stack else markStack
    }

    ghost predicate AtEOL()
      reads this
    {
      StartStack() != [] && Top(StartStack()) == 0
    }

    /** The input not yet read. */
    ghost function Rest(): seq<byte>
      requires Limits()
      reads this
    {
      input[pos..]
    }

    /** Reset on a bytes.Reader with its own length as the limit. */
    constructor (b: seq<byte>)
      requires |b| < TWO63
      ensures Valid() && input == b && pos == 0 && stack == [] && kind == Rearm
    {
      input := b;
      pos, remaining, size, kind, kinderr, byteval, stack := 0, |b|, 0, Rearm, NoError, 0, [];
    }

    method WillRead(n: nat) returns (err: Error)
      requires Limits()
      modifies this`kind, this`stack, this`remaining
      ensures |stack| == |old(stack)| && forall i | 0 <= i < |stack| :: stack[i] < TWO64
      ensures err == NoError <==> (old(stack) == [] || n <= Top(old(stack))) && n <= old(remaining)
      ensures err == NoError ==> remaining == old(remaining) - n && stack == Charge(old(stack), n)
      ensures err != NoError ==> err in {ElemTooLarge, ValueTooLarge} && remaining == old(remaining)
      ensures kind == Rearm
    {
      kind := Rearm;
      if |stack| > 0 {
        var limit := Top(stack);
        if n > limit {
          return ElemTooLarge;
        }
        stack := stack[|stack| - 1 := limit - n];
      }
      if n > remaining {
        return ValueTooLarge;
      }
      remaining := remaining - n;
      err := NoError;
    }

    /** readFull, and readByte for n = 1. */
    method ReadFull(n: nat) returns (b: seq<byte>, err: Error)
      requires Limits()
      modifies this`kind, this`stack, this`remaining, this`pos
      ensures Limits() && |stack| == |old(stack)| && old(pos) <= pos
      ensures err == NoError <==> (old(stack) == [] || n <= Top(old(stack))) && n <= |old(Rest())|
      ensures err == NoError ==> b == old(Rest())[..n] && pos == old(pos) + n && stack == Charge(old(stack), n)
      ensures err != NoError ==> err in {ElemTooLarge, ValueTooLarge}
      ensures kind == Rearm
    {
      b := [];
      err := WillRead(n);
      if err != NoError {
        return;
      }
      b := input[pos..pos + n];
      pos := pos + n;
    }

    /** readKind: reads a type tag. */
    method ReadKind() returns (k: Kind, s: nat, err: Error)
      requires Limits()
      modifies this`kind, this`stack, this`remaining, this`pos, this`byteval
      ensures Limits() && |stack| == |old(stack)| && s < TWO64 && old(pos) <= pos
      ensures err != EOL
      ensures err == NoError ==>
                && ParseTag(old(Rest())) == Tag(k, s, pos - old(pos))
                && stack == Charge(old(stack), pos - old(pos))
                && (k == Byte ==> byteval == old(Rest())[0])
      ensures var t := ParseTag(old(Rest()));
              err == NoError <==> t.Tag? && (old(stack) == [] || t.hlen <= Top(old(stack)))
    {
      ghost var rest := Rest();
      var b, e := ReadFull(1);
      if e != NoError {
        return Byte, 0, if |stack| == 0 then EOF else e;
      }
      byteval := 0;
      var c := b[0];
      if c < 0x80 {
        byteval := c;
        return Byte, 0, NoError;
      } else if c < 0xB8 {
        return String, c - 0x80, NoError;
      } else if c < 0xC0 {
        k := String;
        s, err := ReadSize(c - 0xB7, rest, old(stack), String);
      } else if c < 0xF8 {
        return ListKind, c - 0xC0, NoError;
      } else {
        k := ListKind;
        s, err := ReadSize(c - 0xF7, rest, old(stack), ListKind);
      }
    }

    /** readUint for a size of n bytes, with the check that the size needed them. */
    method ReadSize(n: nat, ghost rest: seq<byte>, ghost stack0: seq<nat>, ghost k: Kind) returns (s: nat, err: Error)
      requires Limits() && 1 <= n <= 8
      requires rest != [] && Rest() == rest[1..] && stack == Charge(stack0, 1) && (stack0 == [] || 1 <= Top(stack0) < TWO64)
      modifies this`kind, this`stack, this`remaining, this`pos
      ensures Limits() && |stack| == |old(stack)| && s < TWO64 && old(pos) <= pos
      ensures err != EOL
      ensures err == NoError ==> LongTag(k, rest, n) == Tag(k, s, 1 + n) && pos == old(pos) + n && stack == Charge(stack0, 1 + n)
      ensures err == NoError <==> LongTag(k, rest, n).Tag? && (stack0 == [] || 1 + n <= Top(stack0))
    {
      var d;
      d, err := ReadFull(n);
      if err != NoError {
        return 0, err;
      }
      assert d == rest[1..1 + n];
      ChargeTwice(stack0, 1, n);
      if n > 1 && d[0] == 0 {
        return 0, CanonSize;
      }
      s := FromBE(d);
      FromBEBound(d);
      Pow256Mono(n, 8);
      Powers();
      if s < 56 {
        err := CanonSize;
      }
    }

    /** Kind: looks at the tag of the value ahead, at most once. */
    method KindAhead() returns (k: Kind, s: nat, err: Error)
      requires Valid()
      modifies this
      ensures Valid() && Start() == old(Start()) && StartStack() == old(StartStack())
      ensures err == EOL <==> old(AtEOL())
      ensures err == EOL ==> kind == Rearm && pos == old(pos) && stack == old(stack)
      ensures err == NoError ==> kind == Known(k) && size == s && kinderr == NoError
      ensures !AtEOL() ==> (err == NoError <==> Admitted(input[Start()..], StartStack()))
    {
      if kind.Known? {
        return kind.kind, size, kinderr;
      }
      if |stack| > 0 && Top(stack) == 0 {
        return Byte, 0, EOL;
      }
      k, s, err := ReadAhead();
    }

    /** The part of Kind that reads the tag. The list limit that the size is compared
        with is the one from before the tag. */
    method ReadAhead() returns (k: Kind, s: nat, err: Error)
      requires Valid() && kind == Rearm && (stack == [] || Top(stack) > 0)
      modifies this
      ensures Valid() && kind == Known(k) && size == s && kinderr == err
      ensures mark == old(pos) && markStack == old(stack)
    {
      var inList := |stack| > 0;
      var listLimit := if inList then Top(stack) else 0;
      mark, markStack := pos, stack;
      k, s, err := ReadKind();
      if err == NoError {
        if inList && s > listLimit {
          err := ElemTooLarge;
        } else if s > remaining {
          err := ValueTooLarge;
        }
      }
      kind, size, kinderr := Known(k), s, err;
    }

    /** item was read from start on: the position and the innermost limit moved by
        exactly its encoding. */
    ghost predicate Took(item: Item, start: nat, limits: seq<nat>)
      reads this
    {
      kind == Rearm && Moved(item, input, start, pos, limits, stack)
    }

    static ghost predicate Moved(item: Item, input: seq<byte>, start: nat, end: nat, limits: seq<nat>, limits': seq<nat>) {
      && start + |Encode(item)| == end <= |input| && input[start..end] == Encode(item)
      && limits' == Charge(limits, |Encode(item)|)
    }

    /** A canonical string starts rest and fits into the innermost list. */
    static ghost predicate StringOffered(rest: seq<byte>, limits: seq<nat>) {
      var t := ParseTag(rest);
      Fitting(rest, limits) && t.kind != ListKind && !(t.kind == String && t.size == 1 && rest[t.hlen] < 128)
    }

    /** The contents behind a string tag, with the tag, encode the string. */
    static lemma StringTaken(input: seq<byte>, start: nat, at: nat, end: nat, hlen: nat, s: nat, limits: seq<nat>, limits': seq<nat>)
      requires at == start + hlen && end == at + s <= |input| && ParseTag(input[start..]) == Tag(String, s, hlen)
      requires !(s == 1 && input[at] < 128) && limits' == Charge(Charge(limits, hlen), s)
      ensures Moved(Str(input[at..end]), input, start, end, limits, limits')
    {
      StringEncoded(input, start, hlen, s);
      ChargeTwice(limits, hlen, s);
    }

    static lemma StringEncoded(input: seq<byte>, start: nat, hlen: nat, s: nat)
      requires start <= |input| && ParseTag(input[start..]) == Tag(String, s, hlen) && start + hlen + s <= |input|
      requires !(s == 1 && input[start + hlen] < 128)
      ensures Encode(Str(input[start + hlen..start + hlen + s])) == input[start..start + hlen + s]
    {
      var rest := input[start..];
      TagIsHead(rest);
      assert input[start..start + hlen + s] == rest[..hlen] + input[start + hlen..start + hlen + s];
    }

    /** A tag that is a byte of its own encodes that byte. */
    static lemma ByteTaken(input: seq<byte>, start: nat, s: nat, hlen: nat, limits: seq<nat>)
      requires start < |input| && ParseTag(input[start..]) == Tag(Byte, s, hlen)
      ensures Moved(Str([input[start]]), input, start, start + hlen, limits, Charge(limits, hlen))
    {
      assert input[start..][0] == input[start] && hlen == 1;
      assert input[start..start + 1] == [input[start]];
    }

    static lemma Window(input: seq<byte>, start: nat, a: nat, b: nat)
      requires a <= b && start + b <= |input|
      ensures input[start..][a..b] == input[start + a..start + b]
      ensures input[start + a..][..b - a] == input[start + a..start + b]
    {
    }

    /** Bytes. */
    method Bytes() returns (r: Result)
      requires Valid()
      modifies this
      ensures Valid()
      ensures r.Ok? ==> Took(r.item, old(Start()), old(StartStack()))
      ensures r == Fail(EOL) <==> old(AtEOL())
      ensures r != Fail(NoError)
      ensures !old(AtEOL()) && StringOffered(input[old(Start())..], old(StartStack())) ==> r.Ok?
    {
      var k, s, err := KindAhead();
      if err != NoError {
        return Fail(err);
      }
      match k
      case Byte =>
        kind := Rearm;
        ByteTaken(input, mark, size, pos - mark, markStack);
        return Ok(Str([byteval]));
      case String =>
        r := BytesOfString(s);
      case ListKind =>
        return Fail(ExpectedString);
    }

    /** The String case of Bytes. */
    method BytesOfString(s: nat) returns (r: Result)
      requires Valid() && kind == Known(String) && kinderr == NoError && size == s
      modifies this
      ensures Valid()
      ensures r.Ok? ==> Took(r.item, old(mark), old(markStack))
      ensures r != Fail(EOL) && r != Fail(NoError)
      ensures StringOffered(input[old(mark)..], old(markStack)) ==> r.Ok?
    {
      ghost var start, limits, at, hlen := mark, markStack, pos, pos - mark;
      OfferedString(input, start, hlen, s, limits);
      r := StringContents(s);
      if r.Ok? {
        StringTaken(input, start, at, pos, hlen, s, limits, stack);
      }
    }

    /** An offered string fits into what its tag leaves of the limit, and is canonical. */
    static lemma OfferedString(input: seq<byte>, start: nat, hlen: nat, s: nat, limits: seq<nat>)
      requires start <= |input| && ParseTag(input[start..]) == Tag(String, s, hlen) && start + hlen + s <= |input|
      requires limits == [] || Top(limits) < TWO64
      ensures StringOffered(input[start..], limits) ==>
                && (Charge(limits, hlen) == [] || s <= Top(Charge(limits, hlen)))
                && !(s == 1 && input[start + hlen] < 128)
    {
    }

    /** The contents of a string, after the tag. */
    method StringContents(s: nat) returns (r: Result)
      requires Limits() && s <= remaining
      modifies this`kind, this`stack, this`remaining, this`pos
      ensures Limits() && kind == Rearm
      ensures r.Ok? ==>
                && pos == old(pos) + s && r.item == Str(input[old(pos)..pos]) && stack == Charge(old(stack), s)
                && !(s == 1 && input[old(pos)] < 128)
      ensures r.Fail? ==> r.error !in {EOL, NoError}
      ensures (old(stack) == [] || s <= Top(old(stack))) && !(s == 1 && input[old(pos)] < 128) ==> r.Ok?
    {
      var b, err := ReadFull(s);
      if err != NoError {
        return Fail(err);
      }
      if s == 1 && b[0] < 128 {
        return Fail(CanonSize);
      }
      r := Ok(Str(b));
    }

    /** List: enters a list. The outer limit is reduced with wrap-around. */
    method OpenList() returns (s: nat, err: Error)
      requires Valid()
      modifies this
      ensures Valid()
      ensures err == EOL <==> old(AtEOL())
      ensures err == NoError ==>
                && old(Start()) <= pos && ParseTag(input[old(Start())..]) == Tag(ListKind, s, pos - old(Start()))
                && s <= remaining && kind == Rearm
                && stack == Charge(old(StartStack()), pos - old(Start()) + s) + [s]
      ensures (&& !old(AtEOL()) && Admitted(input[old(Start())..], old(StartStack()))
               && ParseTag(input[old(Start())..]).kind == ListKind) ==> err == NoError
    {
      var k;
      k, s, err := KindAhead();
      if err != NoError {
        return 0, err;
      }
      if k != ListKind {
        return 0, ExpectedList;
      }
      EnterList(s);
    }

    method EnterList(s: nat)
      requires Valid() && kind == Known(ListKind) && kinderr == NoError && size == s
      modifies this
      ensures Valid() && kind == Rearm && pos == old(pos) && remaining == old(remaining)
      ensures stack == Charge(old(markStack), pos - old(mark) + s) + [s]
    {
      ChargeTwice(markStack, pos - mark, s);
      ghost var charged := Charge(stack, s);
      if |stack| > 0 {
        var limit := Top(stack);
        stack := stack[|stack| - 1 := (limit - s) % TWO64];
      }
      assert stack == charged;
      stack := stack + [s];
      kind := Rearm;
      size := 0;
    }

    method ListEnd() returns (err: Error)
      requires Valid() && kind == Rearm
      modifies this
      ensures Valid()
      ensures err == NoError <==> old(stack) != [] && Top(old(stack)) == 0
      ensures err == NoError ==> stack == old(stack)[..|old(stack)| - 1] && pos == old(pos) && kind == Rearm
    {
      if |stack| == 0 {
        return NotInList;
      } else if Top(stack) > 0 {
        return NotAtEOL;
      }
      stack := stack[..|stack| - 1];
      kind := Rearm;
      size := 0;
      err := NoError;
    }

    /** item starts rest and fits into the innermost list. */
    static ghost predicate Offered(item: Item, rest: seq<byte>, limits: seq<nat>) {
      Encode(item) <= rest && (limits == [] || |Encode(item)| <= Top(limits))
    }

    static lemma OfferedTag(rest: seq<byte>, limits: seq<nat>)
      requires |rest| < TWO63
      ensures forall v | Offered(v, rest, limits) :: Announced(v, rest, limits)
    {
      forall v | Offered(v, rest, limits)
        ensures Announced(v, rest, limits)
      {
        EncodingTag(v, rest);
      }
    }

    /** The tag at the start of rest announces the item. */
    static ghost predicate Announced(v: Item, rest: seq<byte>, limits: seq<nat>) {
      && Fitting(rest, limits) && (limits == [] || Top(limits) > 0)
      && (if v.Str? then StringOffered(rest, limits) else ListOffered(v.items, rest, limits))
    }

    /** Whatever encoding starts rest, no other item is offered there. */
    static lemma OnlyOffered(item: Item, rest: seq<byte>, limits: seq<nat>)
      requires |rest| < TWO63 && Encode(item) <= rest
      ensures forall v | Offered(v, rest, limits) :: v == item
    {
      forall v | Offered(v, rest, limits)
        ensures v == item
      {
        PrefixFree(v, item, rest);
      }
    }

    /** decodeInterface: reads one item of any shape. It succeeds with an item exactly
        when the input offers that item, unless a list inside has run over the limit of
        its outer list: then the outer limit has wrapped around. */
    method DecodeInterface() returns (r: Result)
      requires Valid()
      modifies this
      ensures Valid()
      ensures r.Ok? ==> Took(r.item, old(Start()), old(StartStack()))
      ensures r == Fail(EOL) <==> old(AtEOL())
      ensures r != Fail(NoError)
      ensures r == Fail(EOL) ==> kind == Rearm && pos == old(pos) && stack == old(stack)
      ensures forall v | Offered(v, input[old(Start())..], old(StartStack())) :: r == Ok(v)
      decreases |input| - Start(), 3
    {
      ghost var start, limits, rest := Start(), StartStack(), input[Start()..];
      OfferedTag(rest, limits);
      var k, s, err := KindAhead();
      if err != NoError {
        return Fail(err);
      }
      r := DecodeKnown(k);
      if r.Ok? {
        Window(input, start, 0, pos - start);
        OnlyOffered(r.item, rest, limits);
      }
    }

    /** decodeInterface after the tag: lists and everything else. */
    method DecodeKnown(k: Kind) returns (r: Result)
      requires Valid() && kind == Known(k) && kinderr == NoError
      modifies this
      ensures Valid()
      ensures r.Ok? ==> Took(r.item, old(mark), old(markStack))
      ensures r != Fail(EOL) && r != Fail(NoError)
      ensures forall v | Announced(v, input[old(mark)..], old(markStack)) :: r.Ok?
      decreases |input| - Start(), 2
    {
      if k == ListKind {
        r := DecodeListSlice();
      } else {
        r := Bytes();
      }
    }

    /** decodeListSlice. */
    method DecodeListSlice() returns (r: Result)
      requires Valid() && kind == Known(ListKind) && kinderr == NoError
      modifies this
      ensures Valid()
      ensures r.Ok? ==> Took(r.item, old(mark), old(markStack))
      ensures r != Fail(EOL) && r != Fail(NoError)
      ensures forall vs | ListOffered(vs, input[old(mark)..], old(markStack)) :: r.Ok?
      decreases |input| - Start(), 1
    {
      ghost var start, limits := mark, markStack;
      var s, err := OpenList();
      if err != NoError {
        return Fail(err);
      }
      r := ReadSlice(s, start, limits);
    }

    /** decodeListSlice once the list is entered. */
    method ReadSlice(s: nat, ghost start: nat, ghost limits: seq<nat>) returns (r: Result)
      requires Valid() && kind == Rearm && start <= pos && s <= remaining
      requires ParseTag(input[start..]) == Tag(ListKind, s, pos - start)
      requires stack == Charge(limits, pos - start + s) + [s]
      modifies this
      ensures Valid()
      ensures r.Ok? ==> Took(r.item, start, limits)
      ensures r != Fail(EOL) && r != Fail(NoError)
      ensures forall vs | ListOffered(vs, input[start..], limits) :: r.Ok?
      decreases |input| - Start(), 7
    {
      ghost var at, outer := pos, Charge(limits, pos - start + s);
      OfferedContents(input, start, at - start, s, limits);
      var items, err := ListContents(outer, s);
      if err != NoError {
        return Fail(err);
      }
      ListTaken(items, input, start, at, pos, limits, stack);
      r := Ok(List(items));
    }

    /** decodeListSlice after the tag. */
    method ListContents(ghost outer: seq<nat>, s: nat) returns (items: seq<Item>, err: Error)
      requires Valid() && kind == Rearm && stack == outer + [s] && s <= remaining
      modifies this
      ensures Valid()
      ensures err == NoError ==>
                && pos == old(pos) + s && EncodeAll(items) == input[old(pos)..pos]
                && stack == outer && kind == Rearm
      ensures err != EOL
      ensures forall vs | EncodeAll(vs) == input[old(pos)..old(pos) + s] :: err == NoError
      decreases |input| - Start(), 6
    {
      items := [];
      if s > 0 {
        items, err := DecodeSliceElems(outer, s);
        if err != NoError {
          return;
        }
      }
      err := ListEnd();
    }

    /** The contents behind a list tag, with the tag, encode the list. */
    static lemma ListTaken(items: seq<Item>, input: seq<byte>, start: nat, at: nat, end: nat, limits: seq<nat>, limits': seq<nat>)
      requires start <= at <= end <= |input| && ParseTag(input[start..]) == Tag(ListKind, end - at, at - start)
      requires EncodeAll(items) == input[at..end] && limits' == Charge(limits, at - start + (end - at))
      ensures Moved(List(items), input, start, end, limits, limits')
    {
      ListEncoded(items, input, start, at - start, end - at);
    }

    static lemma ListEncoded(items: seq<Item>, input: seq<byte>, start: nat, hlen: nat, s: nat)
      requires start <= |input| && ParseTag(input[start..]) == Tag(ListKind, s, hlen) && start + hlen + s <= |input|
      requires EncodeAll(items) == input[start + hlen..start + hlen + s]
      ensures Encode(List(items)) == input[start..start + hlen + s]
    {
      var rest := input[start..];
      TagIsHead(rest);
      assert input[start..start + hlen + s] == rest[..hlen] + input[start + hlen..start + hlen + s];
    }

    static ghost predicate ListOffered(vs: seq<Item>, rest: seq<byte>, limits: seq<nat>) {
      var t := ParseTag(rest);
      Fitting(rest, limits) && t.kind == ListKind && rest[t.hlen..t.hlen + t.size] == EncodeAll(vs)
    }

    static lemma OfferedContents(input: seq<byte>, start: nat, hlen: nat, s: nat, limits: seq<nat>)
      requires start <= |input| && ParseTag(input[start..]) == Tag(ListKind, s, hlen) && start + hlen + s <= |input|
      ensures forall vs | ListOffered(vs, input[start..], limits) ::
                EncodeAll(vs) == input[start + hlen..start + hlen + s]
    {
      Window(input, start, hlen, hlen + s);
    }

    /** decodeSliceElems: reads items until the end of the list. The limit of the list
        is back at zero only when the items take exactly its size. */
    method DecodeSliceElems(ghost outer: seq<nat>, ghost s: nat) returns (items: seq<Item>, err: Error)
      requires Valid() && kind == Rearm && stack == outer + [s] && s <= remaining
      modifies this
      ensures Valid()
      ensures err == NoError ==>
                && pos == old(pos) + s && EncodeAll(items) == input[old(pos)..pos]
                && stack == outer + [0] && kind == Rearm
      ensures err != EOL
      ensures forall vs | EncodeAll(vs) == input[old(pos)..old(pos) + s] :: err == NoError
      decreases |input| - Start(), 5
    {
      items := [];
      err := NoError;
      ghost var p := pos;
      while true
        invariant Valid() && Read(items, outer, s, p)
        invariant forall vs | EncodeAll(vs) == input[p..p + s] :: items <= vs
        decreases |input| - pos
      {
        var r := DecodeElem(items, outer, s, p);
        if r == Fail(EOL) {
          return;
        }
        if r.Fail? {
          return items, r.error;
        }
        items := items + [r.item];
      }
    }

    /** Of a list of s bytes from p on, items were read. */
    ghost predicate Read(items: seq<Item>, outer: seq<nat>, s: nat, p: nat)
      reads this
    {
      kind == Rearm && ReadUpTo(input, pos, stack, items, outer, s, p)
    }

    static ghost predicate ReadUpTo(input: seq<byte>, pos: nat, limits: seq<nat>, items: seq<Item>, outer: seq<nat>, s: nat, p: nat) {
      && p <= pos <= |input| && p + s <= |input|
      && EncodeAll(items) == input[p..pos] && limits == outer + [(s - (pos - p)) % TWO64]
    }

    /** One turn of decodeSliceElems. */
    method DecodeElem(ghost items: seq<Item>, ghost outer: seq<nat>, ghost s: nat, ghost p: nat) returns (r: Result)
      requires Valid() && Read(items, outer, s, p)
      modifies this
      ensures Valid() && r != Fail(NoError)
      ensures r.Ok? ==> Read(items + [r.item], outer, s, p) && pos > old(pos)
      ensures r == Fail(EOL) ==> Read(items, outer, s, p) && pos == p + s
      ensures forall vs | EncodeAll(vs) == input[p..p + s] && items <= vs ::
                r == Fail(EOL) || (r.Ok? && items + [r.item] <= vs)
      decreases |input| - Start(), 4
    {
      ghost var pos0, stack0 := pos, stack;
      NextOffered(items, input, p, pos, s, outer, stack);
      r := DecodeInterface();
      if r == Fail(EOL) {
        ZeroLimit(s, pos - p);
      } else if r.Ok? {
        ReadOn(items, r.item, input, pos0, pos, stack0, stack, outer, s, p);
      }
    }

    static lemma ReadOn(items: seq<Item>, item: Item, input: seq<byte>, i: nat, j: nat, limits: seq<nat>, limits': seq<nat>,
                        outer: seq<nat>, s: nat, p: nat)
      requires ReadUpTo(input, i, limits, items, outer, s, p) && Moved(item, input, i, j, limits, limits')
      ensures ReadUpTo(input, j, limits', items + [item], outer, s, p) && j > i
    {
      OneMore(items, item, input, p, i, j);
      ChargeLimit(outer, s, i - p, j - i);
    }

    static lemma OneMore(items: seq<Item>, item: Item, input: seq<byte>, p: nat, i: nat, j: nat)
      requires p <= i <= j <= |input| && EncodeAll(items) == input[p..i] && Encode(item) == input[i..j]
      ensures EncodeAll(items + [item]) == input[p..j]
    {
      assert (items + [item])[..|items|] == items;
      assert input[p..j] == input[p..i] + input[i..j];
    }

    static lemma ChargeLimit(outer: seq<nat>, s: nat, used: nat, n: nat)
      ensures Charge(outer + [(s - used) % TWO64], n) == outer + [(s - (used + n)) % TWO64]
    {
      assert ((s - used) % TWO64 - n) % TWO64 == (s - (used + n)) % TWO64;
    }

    /** If the contents of the list are the encodings of vs and items were read so far,
        then the next of vs is offered, or all were read and the limit is zero. */
    static ghost predicate NextOk(vs: seq<Item>, n: nat, rest: seq<byte>, limits: seq<nat>)
      requires limits != []
    {
      n <= |vs| && if |vs| == n then Top(limits) == 0 else Offered(vs[n], rest, limits)
    }

    static lemma NextOffered(items: seq<Item>, input: seq<byte>, p: nat, pos: nat, s: nat, outer: seq<nat>, limits: seq<nat>)
      requires |input| < TWO63 && p <= pos <= |input| && p + s <= |input| && EncodeAll(items) == input[p..pos]
      requires limits == outer + [(s - (pos - p)) % TWO64]
      ensures forall vs | EncodeAll(vs) == input[p..p + s] && items <= vs :: NextOk(vs, |items|, input[pos..], limits)
    {
      forall vs | EncodeAll(vs) == input[p..p + s] && items <= vs
        ensures NextOk(vs, |items|, input[pos..], limits)
      {
        TailAt(items, vs, input, p, pos, s);
        NextOkFrom(vs, |items|, vs[|items|..], input, p, pos, s, limits);
      }
    }

    static lemma NextOkFrom(vs: seq<Item>, n: nat, tail: seq<Item>, input: seq<byte>, p: nat, pos: nat, s: nat,
                            limits: seq<nat>)
      requires n <= |vs| && tail == vs[n..] && p <= pos <= p + s <= |input| < TWO63
      requires input[pos..p + s] == EncodeAll(tail)
      requires limits != [] && Top(limits) == (s - (pos - p)) % TWO64
      ensures NextOk(vs, n, input[pos..], limits)
    {
      var end := p + s;
      SmallLimit(s, pos - p);
      if n < |vs| {
        EncodeAllFront(tail);
        FrontOf(input, pos, end, Encode(tail[0]), EncodeAll(tail[1..]));
      } else {
        assert EncodeAll(tail) == [];
        assert |input[pos..end]| == 0;
      }
    }

    static lemma SmallLimit(s: nat, used: nat)
      requires used <= s < TWO63
      ensures (s - used) % TWO64 == s - used
    {
    }

    /** A zero limit means that the list was used up exactly. */
    static lemma ZeroLimit(s: nat, used: nat)
      requires used < TWO63 && s < TWO63 && (s - used) % TWO64 == 0
      ensures used == s
    {
    }

    static lemma FrontOf(input: seq<byte>, i: nat, j: nat, a: seq<byte>, b: seq<byte>)
      requires i <= j <= |input| && input[i..j] == a + b
      ensures a <= input[i..] && |a| <= j - i
    {
      assert input[i..][..|a|] == input[i..j][..|a|];
    }

    static lemma TailAt(items: seq<Item>, vs: seq<Item>, input: seq<byte>, p: nat, pos: nat, s: nat)
      requires p <= pos <= |input| && p + s <= |input| && EncodeAll(items) == input[p..pos]
      requires EncodeAll(vs) == input[p..p + s] && items <= vs
      ensures pos <= p + s && input[pos..p + s] == EncodeAll(vs[|items|..])
    {
      var tail := EncodeAll(vs[|items|..]);
      assert vs == items + vs[|items|..];
      EncodeAllConcat(items, vs[|items|..]);
      assert |input[p..p + s]| == |input[p..pos]| + |tail|;
      assert input[pos..p + s] == input[p..p + s][pos - p..];
    }
  }

  /** DecodeBytes: a byte string is accepted exactly when it is the encoding of an
      item, and that item is the result. */
  method DecodeBytes(b: seq<byte>) returns (r: Result)
    requires |b| < TWO63
    ensures r.Ok? ==> Encode(r.item) == b
    ensures forall v | Encode(v) == b :: r == Ok(v)
  {
    var stream := new Stream(b);
    assert b[0..] == b;
    r := stream.DecodeInterface();
    if r.Ok? && stream.pos < |b| {
      assert Encode(r.item) == b[..stream.pos];
      Stream.OnlyOffered(r.item, b, []);
      return Fail(MoreThanOneValue);
    }
  }

  /** What all open lists together still claim. */
  function SumLimits(stack: seq<nat>): nat {
    if stack == [] then 0 else SumLimits(stack[..|stack| - 1]) + Top(stack)
  }

  /** Reading n bytes keeps the open lists' claim within the remaining input. */
  lemma ReadKeepsClaim(stack: seq<nat>, n: nat, remaining: nat)
    requires SumLimits(stack) <= remaining < TWO63 && n <= remaining && (stack == [] || n <= Top(stack))
    ensures SumLimits(Charge(stack, n)) <= remaining - n
  {
    if stack != [] {
      assert Charge(stack, n)[..|stack| - 1] == stack[..|stack| - 1];
    }
  }

  /** Entering a list of s bytes keeps the claim exactly when the list fits into the
      list around it; otherwise the outer limit wraps around. */
  lemma EnterKeepsClaimIff(stack: seq<nat>, s: nat, remaining: nat)
    requires SumLimits(stack) <= remaining < TWO63 && s <= remaining
    ensures SumLimits(Charge(stack, s) + [s]) <= remaining <==> stack == [] || s <= Top(stack)
  {
    SumSnoc(Charge(stack, s), s);
    if stack != [] {
      var front, top := stack[..|stack| - 1], Top(stack);
      assert Charge(stack, s) == front + [(top - s) % TWO64];
      SumSnoc(front, (top - s) % TWO64);
      WrapsOrNot(top, s);
    }
  }

  lemma SumSnoc(stack: seq<nat>, x: nat)
    ensures SumLimits(stack + [x]) == SumLimits(stack) + x
  {
    assert (stack + [x])[..|stack|] == stack;
  }

  lemma WrapsOrNot(top: nat, s: nat)
    requires top < TWO63 && s < TWO63
    ensures (top - s) % TWO64 == if s <= top then top - s else top - s + TWO64
  {
  }

  /** c1 c1 00: the tag check compares with the limit from before the tag was read, so
      the inner list is entered although its outer list has no byte left. */
  method OverrunIsEntered() returns (limits: seq<nat>, remaining: nat)
    ensures limits == [TWO64 - 1, 1] && remaining == 1
  {
    var stream := new Stream([0xC1, 0xC1, 0x00]);
    var rest := [0xC1, 0xC1, 0x00];
    assert stream.input[0..] == rest;
    var s, err := stream.OpenList();
    assert stream.input[1..] == [0xC1, 0x00];
    assert stream.stack == [1];
    s, err := stream.OpenList();
    limits, remaining := stream.stack, stream.remaining;
  }
}
