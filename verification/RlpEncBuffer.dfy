/** The deferred-header encoder of rlp/encbuffer.go: string data and list headers are
    kept apart and spliced together at the end. */
module RlpEncBuffer {
  import opened Bytes
  import opened Seqs
  import opened Rlp

  /** Position of a list header in the string data, and the size of its list. Until
      the list ends, size holds the header bytes counted before it. */
  datatype LHead = LHead(offset: nat, size: nat)

  predicate Ordered(heads: seq<LHead>, pos: nat, end: nat) {
    if heads == [] then pos <= end
    else pos <= heads[0].offset && Ordered(heads[1..], heads[0].offset, end)
  }

  lemma {:induction false} OrderedBounds(heads: seq<LHead>, pos: nat, end: nat)
    requires Ordered(heads, pos, end)
    ensures pos <= end && (heads != [] ==> heads[0].offset <= end)
  {
    if heads != [] {
      OrderedBounds(heads[1..], heads[0].offset, end);
    }
  }

  /** The output from string position pos on. */
  function Render(str: seq<byte>, heads: seq<LHead>, pos: nat): seq<byte>
    requires Ordered(heads, pos, |str|)
    decreases heads
  {
    OrderedBounds(heads, pos, |str|);
    if heads == [] then str[pos..]
    else str[pos..heads[0].offset] + ListHead(heads[0].size) + Render(str, heads[1..], heads[0].offset)
  }

  /** Bytes taken by the headers. */
  function HeadBytes(heads: seq<LHead>): nat {
    if heads == [] then 0 else |ListHead(heads[0].size)| + HeadBytes(heads[1..])
  }

  lemma {:induction false} RenderLength(str: seq<byte>, heads: seq<LHead>, pos: nat)
    requires Ordered(heads, pos, |str|)
    ensures pos <= |str| && |Render(str, heads, pos)| == |str| - pos + HeadBytes(heads)
  {
    OrderedBounds(heads, pos, |str|);
    if heads != [] {
      RenderLength(str, heads[1..], heads[0].offset);
    }
  }

  /** Rendering is compositional: what was encoded first comes first. */
  lemma {:induction false} RenderConcat(a: seq<byte>, b: seq<byte>, h: seq<LHead>, k: seq<LHead>, pos: nat)
    requires Ordered(h, pos, |a|) && Ordered(k, |a|, |a + b|)
    ensures Ordered(h + k, pos, |a + b|)
    ensures Render(a + b, h + k, pos) == Render(a, h, pos) + Render(a + b, k, |a|)
    ensures HeadBytes(h + k) == HeadBytes(h) + HeadBytes(k)
    decreases h
  {
    OrderedBounds(h, pos, |a|);
    OrderedBounds(k, |a|, |a + b|);
    if h == [] {
      assert h + k == k;
      ShiftStart(a + b, k, pos, |a|);
      assert a[pos..] == (a + b)[pos..|a|];
    } else {
      assert (h + k)[1..] == h[1..] + k;
      RenderConcat(a, b, h[1..], k, h[0].offset);
      assert a[pos..h[0].offset] == (a + b)[pos..h[0].offset];
      AssocFour(a[pos..h[0].offset], ListHead(h[0].size), Render(a, h[1..], h[0].offset), Render(a + b, k, |a|));
    }
  }

  lemma ShiftStart(s: seq<byte>, k: seq<LHead>, pos: nat, mid: nat)
    requires pos <= mid && Ordered(k, mid, |s|)
    ensures Ordered(k, pos, |s|) && mid <= |s|
    ensures Render(s, k, pos) == s[pos..mid] + Render(s, k, mid)
  {
    OrderedBounds(k, mid, |s|);
    if k != [] {
      assert s[pos..k[0].offset] == s[pos..mid] + s[mid..k[0].offset];
      AssocFour(s[pos..mid], s[mid..k[0].offset], ListHead(k[0].size), Render(s, k[1..], k[0].offset));
    } else {
      assert s[pos..] == s[pos..mid] + s[mid..];
    }
  }

  lemma RenderStep(str: seq<byte>, heads: seq<LHead>, i: nat, pos: nat)
    requires i < |heads| && Ordered(heads[i..], pos, |str|)
    ensures pos <= heads[i].offset <= |str| && Ordered(heads[i + 1..], heads[i].offset, |str|)
    ensures Render(str, heads[i..], pos) ==
            str[pos..heads[i].offset] + ListHead(heads[i].size) + Render(str, heads[i + 1..], heads[i].offset)
  {
    assert heads[i..][1..] == heads[i + 1..];
    OrderedBounds(heads[i..], pos, |str|);
  }

  /** One header of copyTo: what is copied moves from the rest behind the done part. */
  lemma CopyStep(str: seq<byte>, heads: seq<LHead>, i: nat, pos: nat, done: seq<byte>)
    requires i < |heads| && Ordered(heads[i..], pos, |str|)
    ensures pos <= heads[i].offset <= |str| && Ordered(heads[i + 1..], heads[i].offset, |str|)
    ensures var rest := Render(str, heads[i + 1..], heads[i].offset);
            && |Render(str, heads[i..], pos)| == heads[i].offset - pos + |ListHead(heads[i].size)| + |rest|
            && done + Render(str, heads[i..], pos) == done + str[pos..heads[i].offset] + ListHead(heads[i].size) + rest
  {
    RenderStep(str, heads, i, pos);
    AssocFour(done, str[pos..heads[i].offset], ListHead(heads[i].size), Render(str, heads[i + 1..], heads[i].offset));
  }

  lemma Compose(pos: nat, a: seq<byte>, s: seq<byte>, h: seq<LHead>, k: seq<LHead>)
    requires a <= s && Ordered(h, pos, |a|) && Ordered(k, |a|, |s|)
    ensures Ordered(h + k, pos, |s|)
    ensures Render(s, h + k, pos) == Render(a, h, pos) + Render(s, k, |a|)
    ensures HeadBytes(h + k) == HeadBytes(h) + HeadBytes(k)
  {
    assert s == a + s[|a|..];
    RenderConcat(a, s[|a|..], h, k, pos);
  }

  lemma SliceTwice<T>(a: seq<T>, b: seq<T>, c: seq<T>)
    requires a <= b <= c
    ensures a <= c && c[|a|..] == b[|a|..] + c[|b|..]
  {
  }

  class EncBuffer {
    var str: seq<byte>
    var lheads: seq<LHead>
    var lhsize: nat
    const sizebuf: array<byte>  // auxiliary buffer for headers

    constructor ()
      ensures str == [] && lheads == [] && lhsize == 0
      ensures fresh(sizebuf) && sizebuf.Length == 9
    {
      str, lheads, lhsize := [], [], 0;
      sizebuf := new byte[9];
    }

    method Reset()
      modifies this
      ensures str == [] && lheads == [] && lhsize == 0
    {
      lhsize, str, lheads := 0, [], [];
    }

    function Size(): nat
      reads this
    {
      |str| + lhsize
    }

    /** What was added since the state (str0, lheads0, lhsize0) renders to out. */
    ghost predicate Added(str0: seq<byte>, lheads0: seq<LHead>, lhsize0: nat, out: seq<byte>)
      reads this
    {
      && str0 <= str && lheads0 <= lheads
      && Ordered(lheads[|lheads0|..], |str0|, |str|)
      && Render(str, lheads[|lheads0|..], |str0|) == out
      && lhsize == lhsize0 + HeadBytes(lheads[|lheads0|..])
    }

    method EncodeStringHeader(size: nat)
      modifies this
      ensures str == old(str) + StrHead(size) && lheads == old(lheads) && lhsize == old(lhsize)
    {
      var n: nat := size % TWO64;
      if n < 56 {
        str := str + [0x80 + n];
      } else {
        var b := PutInt(n);
        assert StrHead(size) == [0xB7 + |b|] + b;
        str := str + ([0xB7 + |b|] + b);
      }
    }

    method WriteBytes(b: seq<byte>)
      modifies this
      ensures str == old(str) + Encode(Str(b)) && lheads == old(lheads) && lhsize == old(lhsize)
    {
      if |b| == 1 && b[0] <= 0x7F {
        str := str + [b[0]];
      } else {
        EncodeStringHeader(|b|);
        str := str + b;
      }
    }

    /** list: opens a list; its header is filled in by ListEnd. */
    method OpenList() returns (index: nat)
      modifies this
      ensures index == |old(lheads)| && lheads == old(lheads) + [LHead(|old(str)|, old(lhsize))]
      ensures str == old(str) && lhsize == old(lhsize)
    {
      lheads := lheads + [LHead(|str|, lhsize)];
      index := |lheads| - 1;
    }

    method ListEnd(index: nat)
      requires index < |lheads|
      requires lheads[index].offset + lheads[index].size <= Size()
      modifies this
      ensures str == old(str)
      ensures var lh := old(lheads)[index]; var size := old(Size()) - lh.offset - lh.size;
              lheads == old(lheads)[index := LHead(lh.offset, size)] && lhsize == old(lhsize) + |ListHead(size)|
    {
      var lh := lheads[index];
      var size := Size() - lh.offset - lh.size;
      lheads := lheads[index := LHead(lh.offset, size)];
      if size % TWO64 < 56 {
        lhsize := lhsize + 1;
      } else {
        var n := IntSize(size % TWO64);
        lhsize := lhsize + 1 + n;
      }
    }

    /** The writers for byte strings and slices. */
    method EncodeItem(item: Item)
      modifies this
      ensures Added(old(str), old(lheads), old(lhsize), Encode(item))
      decreases item
    {
      ghost var str0, lheads0, lhsize0 := str, lheads, lhsize;
      match item
      case Str(bs) =>
        WriteBytes(bs);
        assert lheads[|lheads0|..] == [] && str[|str0|..] == Encode(item);
      case List(items) =>
        if |items| == 0 {
          str := str + [0xC0];
          assert lheads[|lheads0|..] == [] && str[|str0|..] == [0xC0];
          assert EncodeAll(items) == [] && ListHead(0) == [0xC0];
        } else {
          EncodeList(items);
        }
    }

    /** A list with elements: header, elements, end. */
    method EncodeList(items: seq<Item>)
      modifies this
      ensures Added(old(str), old(lheads), old(lhsize), Encode(List(items)))
      decreases items, 1
    {
      ghost var str0, lheads0, lhsize0 := str, lheads, lhsize;
      var index := OpenList();
      ghost var open := lheads;
      EncodeItems(items, str0, open, lhsize0);
      ghost var hs := lheads[|open|..];
      RenderLength(str, hs, |str0|);
      assert lheads[index] == open[index];
      ListEnd(index);
      assert lheads[|lheads0|..] == [LHead(|str0|, |EncodeAll(items)|)] + hs;
      assert str[|str0|..|str0|] == [];
    }

    /** The elements of a list, in order. */
    method EncodeItems(items: seq<Item>, ghost str0: seq<byte>, ghost open: seq<LHead>, ghost lhsize0: nat)
      requires str == str0 && lheads == open && lhsize == lhsize0
      modifies this
      ensures Added(str0, open, lhsize0, EncodeAll(items))
      decreases items, 0
    {
      assert lheads[|open|..] == [] && str[|str0|..] == [];
      for i := 0 to |items|
        invariant Added(str0, open, lhsize0, EncodeAll(items[..i]))
      {
        ghost var str1, lheads1, lhsize1 := str, lheads, lhsize;
        EncodeItem(items[i]);
        AddedTwice(str0, open, lhsize0, EncodeAll(items[..i]), str1, lheads1, lhsize1, Encode(items[i]));
        EncodeAllSnoc(items, i);
      }
      assert items[..|items|] == items;
    }

    /** Two additions in a row add the concatenation. */
    lemma AddedTwice(str0: seq<byte>, lheads0: seq<LHead>, lhsize0: nat, out: seq<byte>,
                     str1: seq<byte>, lheads1: seq<LHead>, lhsize1: nat, more: seq<byte>)
      requires str0 <= str1 && lheads0 <= lheads1 && Ordered(lheads1[|lheads0|..], |str0|, |str1|)
      requires Render(str1, lheads1[|lheads0|..], |str0|) == out
      requires lhsize1 == lhsize0 + HeadBytes(lheads1[|lheads0|..])
      requires Added(str1, lheads1, lhsize1, more)
      ensures Added(str0, lheads0, lhsize0, out + more)
    {
      SliceTwice(lheads0, lheads1, lheads);
      Compose(|str0|, str1, str, lheads1[|lheads0|..], lheads[|lheads1|..]);
    }

    /** copyTo: splice into a buffer that has room for exactly the output. */
    method CopyTo(dst: array<byte>)
      requires Ordered(lheads, 0, |str|) && dst.Length == |str| + HeadBytes(lheads)
      modifies dst
      ensures dst[..] == Render(str, lheads, 0)
    {
      RenderLength(str, lheads, 0);
      var strpos: nat, pos: nat := 0, 0;
      for i := 0 to |lheads|
        invariant Ordered(lheads[i..], strpos, |str|)
        invariant pos + |Render(str, lheads[i..], strpos)| == dst.Length
        invariant dst[..pos] + Render(str, lheads[i..], strpos) == Render(str, lheads, 0)
      {
        var head := lheads[i];
        CopyStep(str, lheads, i, strpos, dst[..pos]);
        var enc := ListHead(head.size);
        BlitTwo(dst, pos, str[strpos..head.offset], enc);
        pos := pos + (head.offset - strpos) + |enc|;
        strpos := head.offset;
      }
      Blit(dst, pos, str[strpos..]);
    }
  }

  /** Go's copy. */
  method Blit(dst: array<byte>, pos: nat, src: seq<byte>)
    requires pos + |src| <= dst.Length
    modifies dst
    ensures dst[..pos] == old(dst[..pos]) && dst[pos..pos + |src|] == src
    ensures dst[..pos + |src|] == old(dst[..pos]) + src
    ensures dst[pos + |src|..] == old(dst[pos + |src|..])
  {
    for i := 0 to |src|
      invariant dst[..pos] == old(dst[..pos]) && dst[pos..pos + i] == src[..i]
      invariant dst[pos + |src|..] == old(dst[pos + |src|..])
    {
      dst[pos + i] := src[i];
    }
    assert dst[..pos + |src|] == dst[..pos] + dst[pos..pos + |src|];
  }

  method BlitTwo(dst: array<byte>, pos: nat, a: seq<byte>, b: seq<byte>)
    requires pos + |a| + |b| <= dst.Length
    modifies dst
    ensures dst[..pos + |a| + |b|] == old(dst[..pos]) + a + b
    ensures dst[pos + |a| + |b|..] == old(dst[pos + |a| + |b|..])
  {
    Blit(dst, pos, a);
    ghost var behind := dst[pos + |a| + |b|..];
    assert behind == dst[pos + |a|..][|b|..];
    Blit(dst, pos + |a|, b);
  }

  /** EncodeToBytes: the deferred-header encoder outputs exactly the recursive
      encoding, in a buffer of exactly size() bytes. */
  method EncodeToBytes(item: Item) returns (out: array<byte>)
    ensures out[..] == Encode(item)
  {
    var buf := new EncBuffer();
    buf.EncodeItem(item);
    assert buf.lheads[0..] == buf.lheads;
    RenderLength(buf.str, buf.lheads, 0);
    out := new byte[buf.Size()];
    buf.CopyTo(out);
  }
}
