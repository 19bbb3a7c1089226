/** RLP as defined in Appendix B of the Ethereum Yellow Paper, and the integer and
    header writers of rlp/encode.go. */
module Rlp {
  import opened Bytes
  import opened Seqs

  datatype Item = Str(bs: seq<byte>) | List(items: seq<Item>)

  /** Big-endian bytes of n without leading zeros; one zero byte for 0. */
  function MinBE(n: nat): (r: seq<byte>)
    ensures |r| >= 1
  {
    if n < 256 then [n] else MinBE(n / 256) + [n % 256]
  }

  lemma {:induction false} MinBELength(n: nat, k: nat)
    requires k >= 1 && n < Pow256(k)
    ensures |MinBE(n)| <= k
  {
    if n >= 256 {
      assert k >= 2;
      MinBELength(n / 256, k - 1);
    }
  }

  lemma {:induction false} MinBEValue(n: nat)
    ensures FromBE(MinBE(n)) == n
    ensures n > 0 ==> MinBE(n)[0] != 0
  {
    if n >= 256 {
      MinBEValue(n / 256);
      var b := MinBE(n);
      assert b[..|b| - 1] == MinBE(n / 256);
    } else {
      assert ([n])[..0] == [];
    }
  }

  /** A string without leading zero is the minimal form of its value. */
  lemma {:induction false} MinBEUnique(b: seq<byte>)
    requires b != [] && b[0] != 0
    ensures FromBE(b) > 0 && MinBE(FromBE(b)) == b
  {
    var h, l := b[..|b| - 1], b[|b| - 1];
    assert b == h + [l];
    if h != [] {
      MinBEUnique(h);
    } else {
      assert FromBE(h) == 0;
    }
  }

  /** puthead: tag and size of a string or list with size bytes of contents. */
  function Head(small: nat, large: nat, size: nat): (r: seq<byte>)
    requires small < 200 && large < 248 && size < TWO64
    ensures 1 <= |r| <= 9
  {
    if size < 56 then [small + size]
    else
      assert Pow256(8) == TWO64;
      MinBELength(size, 8);
      [large + |MinBE(size)|] + MinBE(size)
  }

  function StrHead(n: nat): (r: seq<byte>)
    ensures 1 <= |r| <= 9
  {
    Head(0x80, 0xB7, n % TWO64)
  }

  function ListHead(n: nat): (r: seq<byte>)
    ensures 1 <= |r| <= 9
  {
    Head(0xC0, 0xF7, n % TWO64)
  }

  /** The recursive encoding. */
  function Encode(item: Item): (r: seq<byte>)
    ensures |r| >= 1
    decreases item, 1
  {
    match item
    case Str(bs) => if |bs| == 1 && bs[0] < 128 then bs else StrHead(|bs|) + bs
    case List(items) => ListHead(|EncodeAll(items)|) + EncodeAll(items)
  }

  function EncodeAll(items: seq<Item>): seq<byte>
    decreases items, 0
  {
    if items == [] then [] else EncodeAll(items[..|items| - 1]) + Encode(items[|items| - 1])
  }

  lemma EncodeAllSnoc(items: seq<Item>, k: nat)
    requires k < |items|
    ensures EncodeAll(items[..k + 1]) == EncodeAll(items[..k]) + Encode(items[k])
  {
    assert items[..k + 1][..k] == items[..k];
  }

  lemma {:induction false} EncodeAllConcat(a: seq<Item>, b: seq<Item>)
    ensures EncodeAll(a + b) == EncodeAll(a) + EncodeAll(b)
  {
    if b == [] {
      assert a + b == a;
    } else {
      var n := |b| - 1;
      assert b == b[..n] + [b[n]] && a + b == a + b[..n] + [b[n]];
      EncodeAllConcat(a, b[..n]);
      EncodeAllLast(a + b, a + b[..n], b[n]);
      EncodeAllLast(b, b[..n], b[n]);
      Assoc(EncodeAll(a), EncodeAll(b[..n]), Encode(b[n]));
    }
  }

  lemma EncodeAllLast(items: seq<Item>, front: seq<Item>, last: Item)
    requires items == front + [last]
    ensures EncodeAll(items) == EncodeAll(front) + Encode(last)
  {
    assert items[..|items| - 1] == front;
  }

  lemma {:induction false} MinBEIsToBE(n: nat, k: nat)
    requires k >= 1 && n < Pow256(k) && (k > 1 ==> n >= Pow256(k - 1))
    ensures MinBE(n) == ToBE(n, k)
  {
    if k > 1 {
      MinBEIsToBE(n / 256, k - 1);
    } else {
      assert ToBE(n / 256, 0) == [];
    }
  }

  lemma Powers()
    ensures Pow256(1) == 0x100 && Pow256(2) == 0x1_0000 && Pow256(3) == 0x100_0000 && Pow256(4) == 0x1_0000_0000
    ensures Pow256(5) == 0x100_0000_0000 && Pow256(6) == 0x1_0000_0000_0000
    ensures Pow256(7) == 0x100_0000_0000_0000 && Pow256(8) == TWO64
  {
  }

  /** putint: the size switch of the source, then the bytes i >> 8(size-1) .. i. */
  method PutInt(i: nat) returns (b: seq<byte>)
    requires i < TWO64
    ensures b == MinBE(i)
  {
    var size :=
      if i < 0x100 then 1
      else if i < 0x1_0000 then 2
      else if i < 0x100_0000 then 3
      else if i < 0x1_0000_0000 then 4
      else if i < 0x100_0000_0000 then 5
      else if i < 0x1_0000_0000_0000 then 6
      else if i < 0x100_0000_0000_0000 then 7
      else 8;
    Powers();
    MinBEIsToBE(i, size);
    b := ToBE(i, size);
  }

  /** intsize: the number of bytes putint writes. */
  method IntSize(i: nat) returns (size: nat)
    ensures size == |MinBE(i)|
  {
    size := 1;
    var j := i;
    while true
      invariant |MinBE(i)| == size - 1 + |MinBE(j)|
      decreases j
    {
      var next := j / 256;
      if next == 0 { return; }
      j := next;
      size := size + 1;
    }
  }
}
