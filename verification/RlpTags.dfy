/** What a type tag at the front of a byte string says, and that RLP is prefix-free. */
module RlpTags {
  import opened Bytes
  import opened Rlp

  datatype Kind = Byte | String | ListKind

  datatype Tag = Bad | Tag(kind: Kind, size: nat, hlen: nat)

  /** The tag rules of Appendix B, with the canonical-size rules of the decoder. */
  function ParseTag(b: seq<byte>): Tag {
    if b == [] then Bad
    else
      var c := b[0];
      if c < 0x80 then Tag(Byte, 0, 1)
      else if c < 0xB8 then Tag(String, c - 0x80, 1)
      else if c < 0xC0 then LongTag(String, b, c - 0xB7)
      else if c < 0xF8 then Tag(ListKind, c - 0xC0, 1)
      else LongTag(ListKind, b, c - 0xF7)
  }

  function LongTag(kind: Kind, b: seq<byte>, k: nat): Tag
    requires 1 <= k <= 8
  {
    if |b| < 1 + k || b[1] == 0 || FromBE(b[1..1 + k]) < 56 then Bad
    else Tag(kind, FromBE(b[1..1 + k]), 1 + k)
  }

  /** The header that a tag of this kind and size stands for. */
  function HeadOf(kind: Kind, size: nat): seq<byte> {
    if kind == ListKind then ListHead(size) else StrHead(size)
  }

  lemma TagIsHead(b: seq<byte>)
    requires ParseTag(b).Tag? && ParseTag(b).kind != Byte
    ensures var t := ParseTag(b); t.size < TWO64 && t.hlen <= |b| && b[..t.hlen] == HeadOf(t.kind, t.size)
  {
    var c := b[0];
    if 0xB8 <= c < 0xC0 {
      LongTagIsHead(String, b, c - 0xB7);
    } else if 0xF8 <= c {
      LongTagIsHead(ListKind, b, c - 0xF7);
    } else {
      ShortTagIsHead(b);
    }
  }

  lemma ShortTagIsHead(b: seq<byte>)
    requires b != [] && (0x80 <= b[0] < 0xB8 || 0xC0 <= b[0] < 0xF8)
    ensures var t := ParseTag(b); t.Tag? && t.kind != Byte && t.size < 56 && t.hlen == 1 && b[..1] == HeadOf(t.kind, t.size)
  {
    assert b[..1] == [b[0]];
  }

  lemma LongTagIsHead(kind: Kind, b: seq<byte>, k: nat)
    requires kind != Byte && 1 <= k <= 8 && LongTag(kind, b, k).Tag?
    requires b[0] == (if kind == ListKind then 0xF7 else 0xB7) + k
    ensures LongTag(kind, b, k).size < TWO64 && b[..1 + k] == HeadOf(kind, LongTag(kind, b, k).size)
  {
    SizeBytes(b, k);
    assert b[..1 + k] == [b[0]] + b[1..1 + k];
  }

  lemma SizeBytes(b: seq<byte>, k: nat)
    requires 1 <= k <= 8 && |b| >= 1 + k && b[1] != 0
    ensures MinBE(FromBE(b[1..1 + k])) == b[1..1 + k] && FromBE(b[1..1 + k]) < TWO64
  {
    var d := b[1..1 + k];
    FromBEBound(d);
    Pow256Mono(k, 8);
    Powers();
    MinBEUnique(d);
  }

  lemma HeadIsTag(b: seq<byte>, kind: Kind, size: nat)
    requires kind != Byte && size < TWO64 && HeadOf(kind, size) <= b
    ensures ParseTag(b) == Tag(kind, size, |HeadOf(kind, size)|)
  {
    if size < 56 {
      ShortHeadIsTag(b, kind, size);
    } else {
      LongHeadIsTag(b, kind, size, HeadOf(kind, size));
    }
  }

  lemma ShortHeadIsTag(b: seq<byte>, kind: Kind, size: nat)
    requires kind != Byte && size < 56 && HeadOf(kind, size) <= b
    ensures ParseTag(b) == Tag(kind, size, |HeadOf(kind, size)|)
  {
    assert b[0] == HeadOf(kind, size)[0];
  }

  lemma LongHeadIsTag(b: seq<byte>, kind: Kind, size: nat, h: seq<byte>)
    requires kind != Byte && 56 <= size < TWO64 && h == HeadOf(kind, size) && h <= b
    ensures ParseTag(b) == Tag(kind, size, |h|)
  {
    MinBEValue(size);
    assert b[0] == h[0] && b[1..|h|] == h[1..] == MinBE(size);
  }

  /** An encoding at the front of b shows in its tag. */
  lemma EncodingTag(v: Item, b: seq<byte>)
    requires Encode(v) <= b && |b| < TWO63
    ensures var t := ParseTag(b);
            && t.Tag? && t.hlen + t.size <= |b|
            && match v
               case Str(bs) =>
                 if |bs| == 1 && bs[0] < 128 then t == Tag(Byte, 0, 1) && b[0] == bs[0]
                 else t == Tag(String, |bs|, |StrHead(|bs|)|) && b[t.hlen..t.hlen + t.size] == bs
               case List(items) =>
                 t == Tag(ListKind, |EncodeAll(items)|, |ListHead(|EncodeAll(items)|)|)
                 && b[t.hlen..t.hlen + t.size] == EncodeAll(items)
    ensures |Encode(v)| == ParseTag(b).hlen + ParseTag(b).size
  {
    match v
    case Str(bs) =>
      if !(|bs| == 1 && bs[0] < 128) {
        HeadPrefix(b, StrHead(|bs|), bs);
        HeadIsTag(b, String, |bs|);
      }
    case List(items) =>
      HeadPrefix(b, ListHead(|EncodeAll(items)|), EncodeAll(items));
      HeadIsTag(b, ListKind, |EncodeAll(items)|);
  }

  lemma HeadPrefix(b: seq<byte>, h: seq<byte>, c: seq<byte>)
    requires h + c <= b
    ensures h <= b && b[|h|..|h| + |c|] == c
  {
    assert b[..|h| + |c|] == h + c;
    assert b[..|h|] == (h + c)[..|h|];
    assert b[|h|..|h| + |c|] == (h + c)[|h|..];
  }

  /** No encoding is a proper prefix of another, and different items differ. */
  lemma {:induction false} PrefixFree(v: Item, w: Item, b: seq<byte>)
    requires Encode(v) <= b && Encode(w) <= b && |b| < TWO63
    ensures v == w
    decreases v, 1
  {
    EncodingTag(v, b);
    EncodingTag(w, b);
    if v.List? {
      AllInjective(v.items, w.items);
    }
  }

  lemma {:induction false} AllInjective(vs: seq<Item>, ws: seq<Item>)
    requires EncodeAll(vs) == EncodeAll(ws) && |EncodeAll(vs)| < TWO63
    ensures vs == ws
    decreases vs, 0
  {
    if vs != [] && ws != [] {
      var b := EncodeAll(vs);
      EncodeAllFront(vs);
      EncodeAllFront(ws);
      PrefixFree(vs[0], ws[0], b);
      var n := |Encode(vs[0])|;
      assert b[n..] == EncodeAll(vs[1..]) && b[n..] == EncodeAll(ws[1..]);
      AllInjective(vs[1..], ws[1..]);
      assert vs == [vs[0]] + vs[1..] && ws == [ws[0]] + ws[1..];
    } else if vs != [] {
      EncodeAllFront(vs);
    } else if ws != [] {
      EncodeAllFront(ws);
    }
  }

  lemma EncodeAllFront(vs: seq<Item>)
    requires vs != []
    ensures EncodeAll(vs) == Encode(vs[0]) + EncodeAll(vs[1..])
  {
    var first, rest := vs[0], vs[1..];
    assert vs == [first] + rest && [first] == [] + [first];
    EncodeAllConcat([first], rest);
    EncodeAllLast([first], [], first);
    assert [] + Encode(first) == Encode(first);
  }
}
