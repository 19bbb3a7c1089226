/** encReader of rlp/encbuffer.go: piecewise reading of the encoder output. A piece is
    a view into the string data or into the shared header buffer, not a copy. */
module RlpEncReader {
  import opened Bytes
  import opened Rlp
  import opened RlpEncBuffer

  /** nil, buf.str[lo:hi] or buf.sizebuf[lo:hi]. */
  datatype Piece = Nil | InStr(lo: nat, hi: nat) | InSizebuf(lo: nat, hi: nat)

  class EncReader {
    var buf: EncBuffer?  // nil at EOF
    var lhpos: nat
    var strpos: nat
    var piece: Piece

    constructor (buf: EncBuffer)
      requires Ordered(buf.lheads, 0, |buf.str|) && buf.sizebuf.Length == 9
      ensures Valid() && this.buf == buf && Pending() == Render(buf.str, buf.lheads, 0)
    {
      this.buf, lhpos, strpos, piece := buf, 0, 0, Nil;
      new;
      assert buf.lheads[0..] == buf.lheads;
    }

    ghost function Footprint(): set<object>
      reads this
    {
      if buf == null then {} else {buf, buf.sizebuf}
    }

    ghost predicate Valid()
      reads this, Footprint()
    {
      if buf == null then piece == Nil
      else
        && buf.sizebuf.Length == 9
        && lhpos <= |buf.lheads| && Ordered(buf.lheads[lhpos..], strpos, |buf.str|)
        && InRange(piece)
    }

    ghost predicate InRange(p: Piece)
      requires buf != null
      reads this, buf
    {
      match p
      case Nil => true
      case InStr(lo, hi) => lo < hi <= |buf.str|
      case InSizebuf(lo, hi) => lo < hi <= buf.sizebuf.Length
    }

    function View(p: Piece): seq<byte>
      requires buf != null && InRange(p)
      reads this, buf, buf.sizebuf
    {
      match p
      case Nil => []
      case InStr(lo, hi) => buf.str[lo..hi]
      case InSizebuf(lo, hi) => buf.sizebuf[lo..hi]
    }

    /** The output not yet handed out. */
    ghost function Pending(): seq<byte>
      requires Valid()
      reads this, Footprint()
    {
      if buf == null then [] else View(piece) + Render(buf.str, buf.lheads[lhpos..], strpos)
    }

    /** next, followed by the caller's assignment to piece. Only an empty piece is
        replaced, so a header still being read is never overwritten in sizebuf. */
    method Next()
      requires Valid()
      modifies this, if buf == null then {} else {buf.sizebuf}
      ensures Valid() && buf == old(buf)
      ensures Pending() == old(Pending())
      ensures piece == Nil <==> Pending() == []
    {
      if buf == null || piece != Nil {
        return;
      }
      if lhpos < |buf.lheads| {
        NextBeforeHeader();
      } else if strpos < |buf.str| {
        assert buf.lheads[lhpos..] == [];
        piece := InStr(strpos, |buf.str|);
        strpos := |buf.str|;
      } else {
        assert buf.lheads[lhpos..] == [];
      }
    }

    /** The case of next before the last list header: the string data in front of
        the header, or else the header itself. */
    method NextBeforeHeader()
      requires Valid() && buf != null && piece == Nil && lhpos < |buf.lheads|
      modifies this, buf.sizebuf
      ensures Valid() && buf == old(buf)
      ensures Pending() == old(Pending()) && piece != Nil
    {
      var head := buf.lheads[lhpos];
      ghost var rest := buf.lheads[lhpos..];
      assert rest[0] == head && rest[1..] == buf.lheads[lhpos + 1..];
      OrderedBounds(rest, strpos, |buf.str|);
      var sizebefore := head.offset - strpos;
      if sizebefore > 0 {
        ShiftStart(buf.str, rest, strpos, head.offset);
        piece := InStr(strpos, head.offset);
        strpos := head.offset;
      } else {
        lhpos := lhpos + 1;
        var enc := ListHead(head.size);
        Blit(buf.sizebuf, 0, enc);
        piece := InSizebuf(0, |enc|);
        assert buf.str[strpos..head.offset] == [];
        assert View(piece) == enc;
      }
    }

    /** Copies as much of the piece as fits and keeps the rest of the piece. */
    method CopyPiece(b: array<byte>, n: nat) returns (n': nat)
      requires Valid() && buf != null && piece != Nil && b != buf.sizebuf && n <= b.Length
      modifies this`piece, b
      ensures Valid() && n <= n' <= b.Length
      ensures b[..n'] + Pending() == old(b[..n]) + old(Pending()) && b[n'..] == old(b[n'..])
      ensures if piece == Nil then |Pending()| < |old(Pending())| else n' == b.Length && Pending() != []
    {
      var p := View(piece);
      var nn := if |p| <= b.Length - n then |p| else b.Length - n;
      ghost var given, left := b[..n], Render(buf.str, buf.lheads[lhpos..], strpos);
      Blit(b, n, p[..nn]);
      n' := n + nn;
      assert b[..n'] == given + p[..nn];
      SplitPiece(given, p, nn, left);
      if nn < |p| {
        piece := match piece
          case InStr(lo, hi) => InStr(lo + nn, hi)
          case InSizebuf(lo, hi) => InSizebuf(lo + nn, hi);
      } else {
        piece := Nil;
      }
      assert View(piece) == p[nn..];
      assert Pending() == p[nn..] + left;
    }

    static lemma SplitPiece(given: seq<byte>, p: seq<byte>, nn: nat, left: seq<byte>)
      requires nn <= |p|
      ensures given + (p + left) == given + p[..nn] + (p[nn..] + left)
    {
      assert p == p[..nn] + p[nn..];
    }

    /** One turn of the loop of Read; more says whether the loop goes on. */
    method ReadPiece(b: array<byte>, n: nat) returns (n': nat, more: bool)
      requires Valid() && (buf != null ==> b != buf.sizebuf) && n <= b.Length
      modifies this, b, if buf == null then {} else {buf.sizebuf}
      ensures Valid() && buf == old(buf) && n <= n' <= b.Length
      ensures b[..n'] + Pending() == old(b[..n]) + old(Pending()) && b[n'..] == old(b[n'..])
      ensures more ==> |Pending()| < |old(Pending())|
      ensures !more ==> if piece == Nil then Pending() == [] else n' == b.Length && Pending() != []
    {
      Next();
      assert b[..] == old(b[..]);
      assert b[..n] == old(b[..n]);
      if piece == Nil {
        return n, false;
      }
      n' := CopyPiece(b, n);
      more := piece == Nil;
    }

    /** Read: fills b as far as the output reaches. */
    method Read(b: array<byte>) returns (n: nat, eof: bool)
      requires Valid() && (buf != null ==> b != buf.sizebuf)
      modifies this, b, if buf == null then {} else {buf.sizebuf}
      ensures Valid() && (buf == old(buf) || buf == null)
      ensures n <= b.Length && b[..n] + Pending() == old(Pending())
      ensures b[n..] == old(b[n..])
      ensures eof ==> Pending() == []
      ensures !eof ==> n == b.Length && Pending() != []
    {
      n := 0;
      ghost var total, was := Pending(), b[..];
      var more := true;
      while more
        invariant Valid() && buf == old(buf)
        invariant n <= b.Length && b[..n] + Pending() == total && b[n..] == was[n..]
        invariant !more ==> if piece == Nil then Pending() == [] else n == b.Length && Pending() != []
        decreases more, |Pending()|
      {
        n, more := ReadPiece(b, n);
      }
      eof := piece == Nil;
      if eof {
        buf := null;
      }
    }
  }

  function Flatten(chunks: seq<seq<byte>>): seq<byte> {
    if chunks == [] then [] else Flatten(chunks[..|chunks| - 1]) + chunks[|chunks| - 1]
  }

  function Sum(sizes: seq<nat>): nat {
    if sizes == [] then 0 else Sum(sizes[..|sizes| - 1]) + sizes[|sizes| - 1]
  }

  lemma SumStep(sizes: seq<nat>, i: nat)
    requires i < |sizes|
    ensures Sum(sizes[..i + 1]) == Sum(sizes[..i]) + sizes[i]
  {
    assert sizes[..i + 1][..i] == sizes[..i];
  }

  lemma Regroup(chunks: seq<seq<byte>>, chunk: seq<byte>, rest: seq<byte>)
    ensures Flatten(chunks + [chunk]) == Flatten(chunks) + chunk
    ensures Flatten(chunks) + (chunk + rest) == Flatten(chunks) + chunk + rest
  {
    assert (chunks + [chunk])[..|chunks|] == chunks;
  }

  /** One Read into a new buffer of n bytes. */
  method ReadChunk(r: EncReader, n: nat) returns (chunk: seq<byte>)
    requires r.Valid()
    modifies r, if r.buf == null then {} else {r.buf.sizebuf}
    ensures r.Valid() && (r.buf == old(r.buf) || r.buf == null)
    ensures chunk + r.Pending() == old(r.Pending())
    ensures |chunk| <= n && (r.Pending() == [] || |chunk| == n)
  {
    var b := new byte[n];
    var k, eof := r.Read(b);
    chunk := b[..k];
  }

  /** One Read for every given buffer size: the chunks are consecutive pieces of the
      pending output, and all of it once the buffers suffice. */
  method ReadChunks(r: EncReader, sizes: seq<nat>) returns (chunks: seq<seq<byte>>)
    requires r.Valid()
    modifies r, if r.buf == null then {} else {r.buf.sizebuf}
    ensures r.Valid() && |chunks| == |sizes| && forall i | 0 <= i < |sizes| :: |chunks[i]| <= sizes[i]
    ensures Flatten(chunks) + r.Pending() == old(r.Pending())
    ensures Sum(sizes) >= |old(r.Pending())| ==> Flatten(chunks) == old(r.Pending())
  {
    chunks := [];
    ghost var total := r.Pending();
    for i := 0 to |sizes|
      invariant r.Valid() && (r.buf == old(r.buf) || r.buf == null)
      invariant Progress(chunks, sizes, i, total, r.Pending())
    {
      ghost var before := r.Pending();
      var chunk := ReadChunk(r, sizes[i]);
      ProgressStep(chunks, sizes, i, total, before, chunk, r.Pending());
      chunks := chunks + [chunk];
    }
    assert sizes[..|sizes|] == sizes;
    AllRead(Flatten(chunks), r.Pending(), total, Sum(sizes));
  }

  /** After i reads, chunks and what is left make up the output. */
  ghost predicate Progress(chunks: seq<seq<byte>>, sizes: seq<nat>, i: nat, total: seq<byte>, left: seq<byte>) {
    && |chunks| == i <= |sizes| && (forall j | 0 <= j < i :: |chunks[j]| <= sizes[j])
    && Flatten(chunks) + left == total
    && (left == [] || |Flatten(chunks)| == Sum(sizes[..i]))
  }

  lemma ProgressStep(chunks: seq<seq<byte>>, sizes: seq<nat>, i: nat, total: seq<byte>, before: seq<byte>,
                     chunk: seq<byte>, after: seq<byte>)
    requires i < |sizes| && Progress(chunks, sizes, i, total, before)
    requires chunk + after == before && |chunk| <= sizes[i] && (after == [] || |chunk| == sizes[i])
    ensures Progress(chunks + [chunk], sizes, i + 1, total, after)
  {
    Regroup(chunks, chunk, after);
    SumStep(sizes, i);
  }

  lemma AllRead(given: seq<byte>, left: seq<byte>, total: seq<byte>, sum: nat)
    requires given + left == total && (left == [] || |given| == sum)
    ensures sum >= |total| ==> given == total
  {
    assert left == [] ==> given + left == given;
  }

  /** EncodeToReader: the announced size is exact, and however the caller sizes its
      buffers it receives the encoding, with no byte lost or repeated. */
  method EncodeToReader(item: Item, sizes: seq<nat>) returns (size: nat, chunks: seq<seq<byte>>)
    ensures size == |Encode(item)|
    ensures |chunks| == |sizes| && forall i | 0 <= i < |sizes| :: |chunks[i]| <= sizes[i]
    ensures Flatten(chunks) <= Encode(item)
    ensures Sum(sizes) >= size ==> Flatten(chunks) == Encode(item)
  {
    var buf := new EncBuffer();
    buf.EncodeItem(item);
    assert buf.lheads[0..] == buf.lheads;
    RenderLength(buf.str, buf.lheads, 0);
    size := buf.Size();
    var r := new EncReader(buf);
    chunks := ReadChunks(r, sizes);
  }
}
