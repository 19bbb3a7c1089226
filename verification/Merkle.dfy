// The Merkle tree of the addresses of an account (pubkeys/pubKeysTrie.go). The hash is a parameter
// with outputs of 32 bytes. No such function is injective, so what needs it says which of the inputs
// that are hashed must not collide.
module Merkle {
  import opened Bytes

  type Hash = b: seq<byte> | |b| == 32 witness seq(32, _ => 0)

  type Hasher = seq<byte> -> Hash

  // What is hashed for an inner node.
  function Join(x: Hash, y: Hash): (r: seq<byte>)
    ensures |r| == 64
  {
    var left: seq<byte>, right: seq<byte> := x, y;
    left + right
  }

  ghost predicate CollisionFree(H: Hasher, inputs: set<seq<byte>>) {
    forall x, y :: x in inputs && y in inputs && H(x) == H(y) ==> x == y
  }

  type Address = a: seq<byte> | |a| == 20 witness seq(20, _ => 0)

  datatype Node = Leaf(data: Hash) | Inner(left: Node, right: Node, data: Hash)

  // --- The root as a function of the hashes of the leaves ---

  function LeafHashes(H: Hasher, addresses: seq<Address>): (r: seq<Hash>)
    ensures |r| == |addresses|
    ensures forall i :: 0 <= i < |r| ==> r[i] == H(addresses[i])
  {
    seq(|addresses|, i requires 0 <= i < |addresses| => H(addresses[i]))
  }

  // A level of odd length repeats its last hash.
  function Padded<T>(s: seq<T>): (r: seq<T>)
    ensures |r| % 2 == 0 && s <= r && |r| <= |s| + 1
  {
    if |s| % 2 == 0 then s else s + [s[|s| - 1]]
  }

  function Pairs(H: Hasher, hs: seq<Hash>): (r: seq<Hash>)
    requires |hs| % 2 == 0
    ensures |r| == |hs| / 2
    ensures forall i :: 0 <= i < |r| ==> r[i] == H(Join(hs[2 * i], hs[2 * i + 1]))
  {
    seq(|hs| / 2, i requires 0 <= i < |hs| / 2 => H(Join(hs[2 * i], hs[2 * i + 1])))
  }

  // The hashes of the top level: one, or none for an empty list.
  function Top(H: Hasher, hs: seq<Hash>): (r: seq<Hash>)
    ensures |r| == if hs == [] then 0 else 1
    decreases |hs|
  {
    if |hs| <= 1 then hs else Top(H, Pairs(H, Padded(hs)))
  }

  // What is hashed to get from one level to the next.
  ghost function PairInputs(hs: seq<Hash>): set<seq<byte>>
    requires |hs| % 2 == 0
  {
    set i | 0 <= i < |hs| / 2 :: Join(hs[2 * i], hs[2 * i + 1])
  }

  // What is hashed on the way to the top.
  ghost function ClimbInputs(H: Hasher, hs: seq<Hash>): set<seq<byte>>
    decreases |hs|
  {
    if |hs| <= 1 then {} else PairInputs(Padded(hs)) + ClimbInputs(H, Pairs(H, Padded(hs)))
  }

  // All that is hashed for the tree of a list.
  ghost function TreeInputs(H: Hasher, addresses: seq<Address>): set<seq<byte>> {
    AddressSet(addresses) + ClimbInputs(H, LeafHashes(H, addresses))
  }

  lemma PairsInjective(H: Hasher, inputs: set<seq<byte>>, hs: seq<Hash>, ks: seq<Hash>)
    requires |hs| == |ks| && |hs| % 2 == 0
    requires CollisionFree(H, inputs) && PairInputs(hs) <= inputs && PairInputs(ks) <= inputs
    requires Pairs(H, hs) == Pairs(H, ks)
    ensures hs == ks
  {
    forall j: nat | 2 * j + 1 < |hs|
      ensures SamePair(hs, ks, j)
    {
      PairIn(hs, j);
      PairIn(ks, j);
      assert Pairs(H, hs)[j] == Pairs(H, ks)[j];
      PairInjective(H, inputs, hs[2 * j], hs[2 * j + 1], ks[2 * j], ks[2 * j + 1]);
    }
    FromPairs(hs, ks);
  }

  predicate SamePair(hs: seq<Hash>, ks: seq<Hash>, j: nat)
    requires |hs| == |ks| && 2 * j + 1 < |hs|
  {
    hs[2 * j] == ks[2 * j] && hs[2 * j + 1] == ks[2 * j + 1]
  }

  lemma FromPairs(hs: seq<Hash>, ks: seq<Hash>)
    requires |hs| == |ks| && |hs| % 2 == 0
    requires forall j: nat :: 2 * j + 1 < |hs| ==> SamePair(hs, ks, j)
    ensures hs == ks
  {
    forall i | 0 <= i < |hs|
      ensures hs[i] == ks[i]
    {
      assert SamePair(hs, ks, i / 2);
    }
  }

  lemma PairIn(hs: seq<Hash>, j: nat)
    requires |hs| % 2 == 0 && 2 * j + 1 < |hs|
    ensures Join(hs[2 * j], hs[2 * j + 1]) in PairInputs(hs)
  {
    assert 0 <= j < |hs| / 2;
  }

  lemma PairInjective(H: Hasher, inputs: set<seq<byte>>, a: Hash, b: Hash, c: Hash, d: Hash)
    requires CollisionFree(H, inputs) && Join(a, b) in inputs && Join(c, d) in inputs
    requires H(Join(a, b)) == H(Join(c, d))
    ensures a == c && b == d
  {
    assert Join(a, b)[..32] == a && Join(c, d)[..32] == c;
    assert Join(a, b)[32..] == b && Join(c, d)[32..] == d;
  }

  function Up(H: Hasher, hs: seq<Hash>): seq<Hash> { Pairs(H, Padded(hs)) }

  lemma UpLength(H: Hasher, hs: seq<Hash>)
    ensures |Up(H, hs)| == (|hs| + 1) / 2
  {
  }

  // --- Unfolding: which leaf stands at each position of the full tree ---

  // Positions of a list of n in the full tree above it: a level of odd length repeats its last
  // block.
  function Indices(n: nat): (r: seq<nat>)
    ensures forall k :: 0 <= k < |r| ==> r[k] < n
  {
    if n <= 1 then seq(n, i => i) else Doubled(Indices((n + 1) / 2), n)
  }

  function Doubled(js: seq<nat>, n: nat): (r: seq<nat>)
    requires n > 0 && forall k :: 0 <= k < |js| ==> js[k] < (n + 1) / 2
    ensures |r| == 2 * |js|
    ensures forall k :: 0 <= k < |r| ==> r[k] < n
  {
    seq(2 * |js|, k requires 0 <= k < 2 * |js| =>
      if k % 2 == 0 then 2 * js[k / 2] else if 2 * js[k / 2] + 1 < n then 2 * js[k / 2] + 1 else n - 1)
  }

  function Unfold<T>(s: seq<T>): (r: seq<T>)
    ensures |r| == |Indices(|s|)|
    ensures forall k :: 0 <= k < |r| ==> r[k] == s[Indices(|s|)[k]]
  {
    seq(|Indices(|s|)|, k requires 0 <= k < |Indices(|s|)| => s[Indices(|s|)[k]])
  }

  // The number of levels above a list of n.
  function Depth(n: nat): nat { if n <= 1 then 0 else 1 + Depth((n + 1) / 2) }

  function Pow2(k: nat): (r: nat)
    ensures r > 0
  {
    if k == 0 then 1 else 2 * Pow2(k - 1)
  }

  lemma {:induction false} Pow2Injective(j: nat, k: nat)
    requires Pow2(j) == Pow2(k)
    ensures j == k
  {
    if j > 0 && k > 0 {
      Pow2Injective(j - 1, k - 1);
    }
  }

  lemma {:induction false} IndicesLength(n: nat)
    ensures n > 0 ==> |Indices(n)| == Pow2(Depth(n))
    ensures n == 0 ==> |Indices(n)| == 0
  {
    if n > 1 {
      IndicesLength((n + 1) / 2);
    }
  }

  // The list itself comes first.
  lemma {:induction false} IndicesStart(n: nat, i: nat)
    requires i < n
    ensures i < |Indices(n)| && Indices(n)[i] == i
  {
    if n > 1 {
      IndicesStart((n + 1) / 2, i / 2);
    }
  }

  lemma UnfoldStart<T>(s: seq<T>)
    ensures s <= Unfold(s)
  {
    forall i | 0 <= i < |s|
      ensures i < |Unfold(s)| && Unfold(s)[i] == s[i]
    {
      IndicesStart(|s|, i);
    }
    if s != [] {
      IndicesStart(|s|, |s| - 1);
    }
  }

  // Climbing one level and unfolding commute.
  lemma UnfoldUp(H: Hasher, hs: seq<Hash>)
    requires |hs| > 1
    ensures |Unfold(hs)| % 2 == 0 && Unfold(Up(H, hs)) == Pairs(H, Unfold(hs))
  {
    var js, u, up := Indices((|hs| + 1) / 2), Unfold(hs), Up(H, hs);
    assert Indices(|hs|) == Doubled(js, |hs|);
    UpLength(H, hs);
    forall k | 0 <= k < |js|
      ensures Unfold(up)[k] == Pairs(H, u)[k]
    {
      UnfoldUpAt(H, hs, js, k);
    }
  }

  lemma UnfoldUpAt(H: Hasher, hs: seq<Hash>, js: seq<nat>, k: nat)
    requires |hs| > 1 && js == Indices((|hs| + 1) / 2) && k < |js|
    ensures k < |Unfold(Up(H, hs))| && k < |Pairs(H, Unfold(hs))| && Unfold(Up(H, hs))[k] == Pairs(H, Unfold(hs))[k]
  {
    UpLength(H, hs);
    UnfoldedPair(hs, js, k);
  }

  lemma DoubledAt(js: seq<nat>, n: nat, k: nat)
    requires n > 0 && (forall k :: 0 <= k < |js| ==> js[k] < (n + 1) / 2) && k < |js|
    ensures Doubled(js, n)[2 * k] == 2 * js[k]
    ensures Doubled(js, n)[2 * k + 1] == if 2 * js[k] + 1 < n then 2 * js[k] + 1 else n - 1
  {
    assert (2 * k) % 2 == 0 && (2 * k) / 2 == k && (2 * k + 1) % 2 == 1 && (2 * k + 1) / 2 == k;
  }

  lemma PaddedAt(hs: seq<Hash>, j: nat)
    requires j < (|hs| + 1) / 2
    ensures 2 * j + 1 < |Padded(hs)| && Padded(hs)[2 * j] == hs[2 * j]
    ensures Padded(hs)[2 * j + 1] == if 2 * j + 1 < |hs| then hs[2 * j + 1] else hs[|hs| - 1]
  {
  }

  lemma UnfoldedPair(hs: seq<Hash>, js: seq<nat>, k: nat)
    requires |hs| > 1 && js == Indices((|hs| + 1) / 2) && k < |js|
    ensures js[k] < (|hs| + 1) / 2 && 2 * js[k] + 1 < |Padded(hs)| && 2 * k + 1 < |Unfold(hs)|
    ensures Unfold(hs)[2 * k] == Padded(hs)[2 * js[k]] && Unfold(hs)[2 * k + 1] == Padded(hs)[2 * js[k] + 1]
  {
    assert Indices(|hs|) == Doubled(js, |hs|);
    DoubledAt(js, |hs|, k);
    PaddedAt(hs, js[k]);
  }

  // Nothing new is hashed for the unfolded list.
  lemma UnfoldInputs(hs: seq<Hash>)
    requires |hs| > 1
    ensures |Unfold(hs)| % 2 == 0 && PairInputs(Unfold(hs)) <= PairInputs(Padded(hs))
  {
    var js, u := Indices((|hs| + 1) / 2), Unfold(hs);
    assert Indices(|hs|) == Doubled(js, |hs|);
    forall x | x in PairInputs(u)
      ensures x in PairInputs(Padded(hs))
    {
      var k: nat :| k < |u| / 2 && x == Join(u[2 * k], u[2 * k + 1]);
      UnfoldedPairIn(hs, js, k);
    }
  }

  lemma UnfoldedPairIn(hs: seq<Hash>, js: seq<nat>, k: nat)
    requires |hs| > 1 && js == Indices((|hs| + 1) / 2) && k < |js|
    ensures 2 * k + 1 < |Unfold(hs)| && Join(Unfold(hs)[2 * k], Unfold(hs)[2 * k + 1]) in PairInputs(Padded(hs))
  {
    UnfoldedPair(hs, js, k);
    PairIn(Padded(hs), js[k]);
  }

  // --- Equal roots mean equal depth ---

  // Hashing upwards from x, with the given hashes to the right.
  function Fold(H: Hasher, x: Hash, path: seq<Hash>): Hash {
    if path == [] then x else
      var n := |path| - 1;
      H(Join(Fold(H, x, path[..n]), path[n]))
  }

  ghost function FoldInputs(H: Hasher, x: Hash, path: seq<Hash>): set<seq<byte>> {
    if path == [] then {} else
      var n := |path| - 1;
      FoldInputs(H, x, path[..n]) + {Join(Fold(H, x, path[..n]), path[n])}
  }

  lemma {:induction false} FoldCons(H: Hasher, x: Hash, y: Hash, path: seq<Hash>)
    ensures Fold(H, x, [y] + path) == Fold(H, H(Join(x, y)), path)
    ensures FoldInputs(H, x, [y] + path) == {Join(x, y)} + FoldInputs(H, H(Join(x, y)), path)
  {
    var whole := [y] + path;
    if path == [] {
      assert whole == [y] && whole[..0] == [];
    } else {
      var n := |path| - 1;
      FoldCons(H, x, y, path[..n]);
      assert whole[..n + 1] == [y] + path[..n] && whole[n + 1] == path[n];
    }
  }

  // Of two ways up to the same hash, the shorter one starts on the longer one.
  lemma {:induction false} FoldStrip(H: Hasher, inputs: set<seq<byte>>, x: Hash, g: seq<Hash>, y: Hash, k: seq<Hash>)
    requires CollisionFree(H, inputs) && FoldInputs(H, x, g) <= inputs && FoldInputs(H, y, k) <= inputs
    requires Fold(H, x, g) == Fold(H, y, k) && |g| <= |k|
    ensures x == Fold(H, y, k[..|k| - |g|])
  {
    if g == [] {
      assert k[..|k|] == k;
    } else {
      var m, n := |g| - 1, |k| - 1;
      PairInjective(H, inputs, Fold(H, x, g[..m]), g[m], Fold(H, y, k[..n]), k[n]);
      FoldStrip(H, inputs, x, g[..m], y, k[..n]);
      assert k[..n][..n - m] == k[..|k| - |g|];
    }
  }

  // The hashes to the right on the way up from the first leaf.
  function Spine(H: Hasher, hs: seq<Hash>): seq<Hash>
    decreases |hs|
  {
    if |hs| <= 1 then [] else [Padded(hs)[1]] + Spine(H, Up(H, hs))
  }

  lemma {:induction false} SpineUp(H: Hasher, hs: seq<Hash>)
    requires hs != []
    ensures Top(H, hs) == [Fold(H, hs[0], Spine(H, hs))] && |Spine(H, hs)| == Depth(|hs|)
    ensures FoldInputs(H, hs[0], Spine(H, hs)) <= ClimbInputs(H, hs)
    decreases |hs|
  {
    if |hs| > 1 {
      var up, p := Up(H, hs), Padded(hs);
      UpLength(H, hs);
      SpineUp(H, up);
      FoldCons(H, hs[0], p[1], Spine(H, up));
      PairIn(p, 0);
      assert up[0] == H(Join(p[0], p[1]));
    }
  }

  // The hash of an address is not the hash of two hashes: lists of addresses with the same root
  // have the same number of levels.
  lemma NoDeeper(H: Hasher, inputs: set<seq<byte>>, a: Address, g: seq<Hash>, y: Hash, k: seq<Hash>)
    requires CollisionFree(H, inputs) && FoldInputs(H, H(a), g) <= inputs && FoldInputs(H, y, k) <= inputs
    requires Fold(H, H(a), g) == Fold(H, y, k) && |g| <= |k| && a in inputs
    ensures |g| == |k|
  {
    if |g| < |k| {
      var m := |k| - |g|;
      FoldPrefixInputs(H, y, k, m);
      FoldIsNoAddress(H, inputs, a, y, k[..m]);
      FoldStrip(H, inputs, H(a), g, y, k);
    }
  }

  lemma FoldIsNoAddress(H: Hasher, inputs: set<seq<byte>>, a: Address, y: Hash, path: seq<Hash>)
    requires CollisionFree(H, inputs) && FoldInputs(H, y, path) <= inputs && a in inputs && path != []
    ensures H(a) != Fold(H, y, path)
  {
    var n := |path| - 1;
    assert Join(Fold(H, y, path[..n]), path[n]) in inputs;
  }

  lemma {:induction false} FoldPrefixInputs(H: Hasher, x: Hash, path: seq<Hash>, m: nat)
    requires m <= |path|
    ensures FoldInputs(H, x, path[..m]) <= FoldInputs(H, x, path)
  {
    if m == |path| {
      assert path[..m] == path;
    } else {
      var n := |path| - 1;
      FoldPrefixInputs(H, x, path[..n], m);
      assert path[..n][..m] == path[..m];
    }
  }

  // --- The root tells lists apart up to their unfolding ---

  lemma LevelInjective(H: Hasher, inputs: set<seq<byte>>, hs: seq<Hash>, ks: seq<Hash>)
    requires |hs| > 1 && |ks| > 1 && CollisionFree(H, inputs)
    requires PairInputs(Padded(hs)) <= inputs && PairInputs(Padded(ks)) <= inputs
    ensures Unfold(Up(H, hs)) == Unfold(Up(H, ks)) <==> Unfold(hs) == Unfold(ks)
  {
    UnfoldUp(H, hs);
    UnfoldUp(H, ks);
    UnfoldInputs(hs);
    UnfoldInputs(ks);
    PairsEqualIff(H, inputs, Unfold(hs), Unfold(ks));
  }

  lemma PairsEqualIff(H: Hasher, inputs: set<seq<byte>>, u: seq<Hash>, v: seq<Hash>)
    requires |u| % 2 == 0 && |v| % 2 == 0 && CollisionFree(H, inputs)
    requires PairInputs(u) <= inputs && PairInputs(v) <= inputs
    ensures Pairs(H, u) == Pairs(H, v) <==> u == v
  {
    if Pairs(H, u) == Pairs(H, v) {
      assert |u| == |v|;
      PairsInjective(H, inputs, u, v);
    }
  }

  lemma {:induction false} TopEqualIff(H: Hasher, inputs: set<seq<byte>>, hs: seq<Hash>, ks: seq<Hash>)
    requires hs != [] && ks != [] && Depth(|hs|) == Depth(|ks|) && CollisionFree(H, inputs)
    requires ClimbInputs(H, hs) <= inputs && ClimbInputs(H, ks) <= inputs
    ensures Top(H, hs) == Top(H, ks) <==> Unfold(hs) == Unfold(ks)
    decreases |hs|
  {
    if |hs| <= 1 {
      UnfoldOne(hs);
      UnfoldOne(ks);
    } else {
      UpFacts(H, hs);
      UpFacts(H, ks);
      TopEqualIff(H, inputs, Up(H, hs), Up(H, ks));
      LevelInjective(H, inputs, hs, ks);
    }
  }

  lemma UpFacts(H: Hasher, hs: seq<Hash>)
    requires |hs| > 1
    ensures Up(H, hs) != [] && |Up(H, hs)| < |hs| && Depth(|Up(H, hs)|) == Depth(|hs|) - 1
    ensures Top(H, Up(H, hs)) == Top(H, hs)
    ensures ClimbInputs(H, Up(H, hs)) <= ClimbInputs(H, hs) && PairInputs(Padded(hs)) <= ClimbInputs(H, hs)
  {
    UpLength(H, hs);
  }

  lemma UnfoldOne(hs: seq<Hash>)
    requires |hs| == 1
    ensures Unfold(hs) == hs
  {
  }

  lemma UnfoldLeafHashes(H: Hasher, a: seq<Address>)
    ensures Unfold(LeafHashes(H, a)) == LeafHashes(H, Unfold(a))
  {
  }

  lemma UnfoldMembers(a: seq<Address>)
    ensures forall k :: 0 <= k < |Unfold(a)| ==> Unfold(a)[k] in AddressSet(a)
  {
  }

  lemma SameDepth(H: Hasher, inputs: set<seq<byte>>, a: seq<Address>, b: seq<Address>)
    requires a != [] && b != [] && CollisionFree(H, inputs)
    requires TreeInputs(H, a) <= inputs && TreeInputs(H, b) <= inputs
    requires Top(H, LeafHashes(H, a)) == Top(H, LeafHashes(H, b)) && Depth(|a|) <= Depth(|b|)
    ensures Depth(|a|) == Depth(|b|)
  {
    var g := SpineOf(H, a);
    var k := SpineOf(H, b);
    NoDeeper(H, inputs, a[0], g, H(b[0]), k);
  }

  lemma AddressIn(a: seq<Address>)
    requires a != []
    ensures a[0] in AddressSet(a)
  {
  }

  lemma SpineOf(H: Hasher, a: seq<Address>) returns (g: seq<Hash>)
    requires a != []
    ensures Top(H, LeafHashes(H, a)) == [Fold(H, H(a[0]), g)] && |g| == Depth(|a|)
    ensures FoldInputs(H, H(a[0]), g) <= TreeInputs(H, a) && a[0] in TreeInputs(H, a)
  {
    AddressIn(a);
    g := Spine(H, LeafHashes(H, a));
    SpineUp(H, LeafHashes(H, a));
  }

  // Two lists of any lengths have the same root if and only if they unfold to the same list, unless
  // two of the inputs hashed for their trees collide.
  lemma RootEqualIff(H: Hasher, a: seq<Address>, b: seq<Address>)
    requires CollisionFree(H, TreeInputs(H, a) + TreeInputs(H, b))
    ensures Top(H, LeafHashes(H, a)) == Top(H, LeafHashes(H, b)) <==> Unfold(a) == Unfold(b)
  {
    var inputs := TreeInputs(H, a) + TreeInputs(H, b);
    IndicesLength(|a|);
    IndicesLength(|b|);
    if a != [] && b != [] {
      if Top(H, LeafHashes(H, a)) == Top(H, LeafHashes(H, b)) {
        EqualRootsUnfold(H, inputs, a, b);
      }
      if Unfold(a) == Unfold(b) {
        EqualUnfoldsRoot(H, inputs, a, b);
      }
    }
  }

  lemma EqualRootsUnfold(H: Hasher, inputs: set<seq<byte>>, a: seq<Address>, b: seq<Address>)
    requires a != [] && b != [] && CollisionFree(H, inputs)
    requires TreeInputs(H, a) <= inputs && TreeInputs(H, b) <= inputs
    requires Top(H, LeafHashes(H, a)) == Top(H, LeafHashes(H, b))
    ensures Unfold(a) == Unfold(b)
  {
    if Depth(|a|) <= Depth(|b|) {
      SameDepth(H, inputs, a, b);
    } else {
      SameDepth(H, inputs, b, a);
    }
    TopEqualIff(H, inputs, LeafHashes(H, a), LeafHashes(H, b));
    LeavesEqual(H, inputs, a, b);
  }

  lemma EqualUnfoldsRoot(H: Hasher, inputs: set<seq<byte>>, a: seq<Address>, b: seq<Address>)
    requires a != [] && b != [] && CollisionFree(H, inputs)
    requires TreeInputs(H, a) <= inputs && TreeInputs(H, b) <= inputs
    requires Unfold(a) == Unfold(b)
    ensures Top(H, LeafHashes(H, a)) == Top(H, LeafHashes(H, b))
  {
    IndicesLength(|a|);
    IndicesLength(|b|);
    Pow2Injective(Depth(|a|), Depth(|b|));
    UnfoldLeafHashes(H, a);
    UnfoldLeafHashes(H, b);
    TopEqualIff(H, inputs, LeafHashes(H, a), LeafHashes(H, b));
  }

  lemma LeavesEqual(H: Hasher, inputs: set<seq<byte>>, a: seq<Address>, b: seq<Address>)
    requires CollisionFree(H, inputs) && AddressSet(a) <= inputs && AddressSet(b) <= inputs
    requires Unfold(LeafHashes(H, a)) == Unfold(LeafHashes(H, b))
    ensures Unfold(a) == Unfold(b)
  {
    UnfoldLeafHashes(H, a);
    UnfoldLeafHashes(H, b);
    UnfoldMembers(a);
    UnfoldMembers(b);
    var u, v := Unfold(a), Unfold(b);
    assert |u| == |LeafHashes(H, u)| == |LeafHashes(H, v)| == |v|;
    forall k | 0 <= k < |u|
      ensures u[k] == v[k]
    {
      assert H(u[k]) == LeafHashes(H, u)[k] == LeafHashes(H, v)[k] == H(v[k]);
    }
  }

  // Lists of the same length with the same root are the same list.
  lemma RootInjective(H: Hasher, a: seq<Address>, b: seq<Address>)
    requires |a| == |b|
    requires CollisionFree(H, TreeInputs(H, a) + TreeInputs(H, b))
    requires Top(H, LeafHashes(H, a)) == Top(H, LeafHashes(H, b))
    ensures a == b
  {
    RootEqualIff(H, a, b);
    UnfoldStart(a);
    UnfoldStart(b);
    assert a == Unfold(a)[..|a|] && b == Unfold(b)[..|b|];
  }

  // Lists of different length that unfold alike exist: an odd list and the list that repeats its
  // last address have the same root whatever the hash.
  lemma PaddingCollides(H: Hasher, a: seq<Address>)
    requires |a| % 2 == 1 && |a| > 1
    ensures Top(H, LeafHashes(H, a)) == Top(H, LeafHashes(H, a + [a[|a| - 1]]))
  {
    var longer := a + [a[|a| - 1]];
    assert Padded(LeafHashes(H, a)) == LeafHashes(H, longer) == Padded(LeafHashes(H, longer));
  }

  // --- The tree ---

  ghost function Leaves(n: Node): set<seq<byte>> {
    match n
    case Leaf(data) => {data}
    case Inner(left, right, _) => Leaves(left) + Leaves(right)
  }

  // Every inner node carries the hash of its two children, every leaf one of 32 bytes.
  ghost predicate Hashed(H: Hasher, n: Node) {
    match n
    case Leaf(data) => |data| == 32
    case Inner(left, right, data) => data == H(Join(left.data, right.data)) && Hashed(H, left) && Hashed(H, right)
  }

  function Datas(nodes: seq<Node>): (r: seq<Hash>)
    ensures |r| == |nodes| && forall i :: 0 <= i < |r| ==> r[i] == nodes[i].data
  {
    seq(|nodes|, i requires 0 <= i < |nodes| => nodes[i].data)
  }

  ghost function SetOf(hs: seq<Hash>): set<seq<byte>> { set h | h in hs }

  ghost function AllLeaves(nodes: seq<Node>): set<seq<byte>> {
    if nodes == [] then {} else AllLeaves(nodes[..|nodes| - 1]) + Leaves(nodes[|nodes| - 1])
  }

  function NewMerkleNode(H: Hasher, left: Node, right: Node): Node {
    Inner(left, right, H(Join(left.data, right.data)))
  }

  ghost predicate AllHashed(H: Hasher, nodes: seq<Node>) {
    forall i :: 0 <= i < |nodes| ==> Hashed(H, nodes[i])
  }

  lemma AllLeavesSnoc(nodes: seq<Node>, n: Node)
    ensures AllLeaves(nodes + [n]) == AllLeaves(nodes) + Leaves(n)
  {
    assert (nodes + [n])[..|nodes|] == nodes;
  }

  lemma TwoMoreLeaves(nodes: seq<Node>, i: nat)
    requires i + 1 < |nodes|
    ensures AllLeaves(nodes[..i + 2]) == AllLeaves(nodes[..i]) + (Leaves(nodes[i]) + Leaves(nodes[i + 1]))
  {
    AllLeavesSnoc(nodes[..i], nodes[i]);
    AllLeavesSnoc(nodes[..i + 1], nodes[i + 1]);
    assert nodes[..i + 1] == nodes[..i] + [nodes[i]];
    assert nodes[..i + 2] == nodes[..i + 1] + [nodes[i + 1]];
  }

  function UpNodes(H: Hasher, nodes: seq<Node>): (r: seq<Node>)
    requires |nodes| % 2 == 0
    ensures |r| == |nodes| / 2
    ensures forall k :: 0 <= k < |r| ==> r[k] == NewMerkleNode(H, nodes[2 * k], nodes[2 * k + 1])
  {
    seq(|nodes| / 2, k requires 0 <= k < |nodes| / 2 => NewMerkleNode(H, nodes[2 * k], nodes[2 * k + 1]))
  }

  // One level up, two nodes at a time.
  method BuildLevel(H: Hasher, nodes: seq<Node>) returns (level: seq<Node>)
    requires |nodes| % 2 == 0
    ensures level == UpNodes(H, nodes)
  {
    level := [];
    for k := 0 to |nodes| / 2
      invariant |level| == k
      invariant forall j :: 0 <= j < k ==> level[j] == UpNodes(H, nodes)[j]
    {
      level := level + [NewMerkleNode(H, nodes[2 * k], nodes[2 * k + 1])];
    }
  }

  lemma UpNodesHashed(H: Hasher, nodes: seq<Node>)
    requires |nodes| % 2 == 0 && AllHashed(H, nodes)
    ensures AllHashed(H, UpNodes(H, nodes)) && Datas(UpNodes(H, nodes)) == Pairs(H, Datas(nodes))
  {
  }

  lemma {:induction false} UpNodesLeaves(H: Hasher, nodes: seq<Node>)
    requires |nodes| % 2 == 0
    ensures AllLeaves(UpNodes(H, nodes)) == AllLeaves(nodes)
    decreases |nodes|
  {
    if nodes != [] {
      var i := |nodes| - 2;
      var front, node := nodes[..i], NewMerkleNode(H, nodes[i], nodes[i + 1]);
      UpNodesLeaves(H, front);
      assert UpNodes(H, nodes) == UpNodes(H, front) + [node];
      AllLeavesSnoc(UpNodes(H, front), node);
      TwoMoreLeaves(nodes, i);
      assert nodes[..i + 2] == nodes;
    }
  }

  // The tree of a list of addresses: its root is Top of their hashes, and its leaves are exactly
  // their hashes.
  method NewMerkleTree(H: Hasher, addresses: seq<Address>) returns (nodes: seq<Node>)
    ensures |nodes| == if addresses == [] then 0 else 1
    ensures Datas(nodes) == Top(H, LeafHashes(H, addresses))
    ensures AllHashed(H, nodes)
    ensures AllLeaves(nodes) == SetOf(LeafHashes(H, addresses))
  {
    nodes := [];
    for i := 0 to |addresses|
      invariant |nodes| == i && AllHashed(H, nodes)
      invariant forall k :: 0 <= k < i ==> nodes[k] == Leaf(H(addresses[k]))
    {
      nodes := nodes + [Leaf(H(addresses[i]))];
    }
    LeavesOfLeaves(nodes, LeafHashes(H, addresses));
    nodes := Climb(H, nodes);
  }

  // Level after level, until one node is left. Every level above one is longer than the next.
  method Climb(H: Hasher, leaves: seq<Node>) returns (nodes: seq<Node>)
    requires AllHashed(H, leaves)
    ensures |nodes| == if leaves == [] then 0 else 1
    ensures Datas(nodes) == Top(H, Datas(leaves)) && AllHashed(H, nodes) && AllLeaves(nodes) == AllLeaves(leaves)
  {
    nodes := leaves;
    while |nodes| > 1
      invariant AllHashed(H, nodes) && (nodes == [] <==> leaves == [])
      invariant Top(H, Datas(nodes)) == Top(H, Datas(leaves)) && AllLeaves(nodes) == AllLeaves(leaves)
      decreases |nodes|
    {
      ClimbStep(H, nodes);
      if |nodes| % 2 != 0 {
        nodes := nodes + [nodes[|nodes| - 1]];
      }
      nodes := BuildLevel(H, nodes);
    }
  }

  lemma ClimbStep(H: Hasher, nodes: seq<Node>)
    requires |nodes| > 1 && AllHashed(H, nodes)
    ensures var level := UpNodes(H, Padded(nodes));
            && 0 < |level| < |nodes| && AllHashed(H, level)
            && Top(H, Datas(level)) == Top(H, Datas(nodes)) && AllLeaves(level) == AllLeaves(nodes)
  {
    var padded := Padded(nodes);
    PaddedLevel(nodes, padded);
    UpNodesHashed(H, padded);
    UpNodesLeaves(H, padded);
  }

  lemma PaddedLevel(s: seq<Node>, r: seq<Node>)
    requires r == Padded(s)
    ensures AllLeaves(r) == AllLeaves(s) && Datas(r) == Padded(Datas(s))
  {
    if |s| % 2 != 0 {
      var n := |s| - 1;
      AllLeavesSnoc(s, s[n]);
      assert Leaves(s[n]) <= AllLeaves(s);
    }
  }

  lemma {:induction false} LeavesOfLeaves(nodes: seq<Node>, hs: seq<Hash>)
    requires |nodes| == |hs| && forall i :: 0 <= i < |hs| ==> nodes[i] == Leaf(hs[i])
    ensures Datas(nodes) == hs && AllLeaves(nodes) == SetOf(hs)
  {
    if nodes != [] {
      var n := |nodes| - 1;
      LeavesOfLeaves(nodes[..n], hs[..n]);
      assert hs == hs[..n] + [hs[n]];
      assert SetOf(hs) == SetOf(hs[..n]) + {hs[n]};
    }
  }

  // --- Membership ---

  ghost function NodesData(n: Node): set<seq<byte>> {
    match n
    case Leaf(data) => {data}
    case Inner(left, right, data) => {data} + NodesData(left) + NodesData(right)
  }

  // Some node at this depth carries the hash.
  ghost predicate Carries(n: Node, depth: nat, hash: seq<byte>) {
    if depth == 0 then n.data == hash
    else n.Inner? && (Carries(n.left, depth - 1, hash) || Carries(n.right, depth - 1, hash))
  }

  // Whether a node of the tree carries the hash, and at which depth below index.
  function ContainsAddress(n: Node, index: nat, hash: seq<byte>): (r: (bool, int))
    ensures r.0 <==> hash in NodesData(n)
    ensures r.0 ==> r.1 >= index && Carries(n, r.1 - index, hash)
  {
    if n.data == hash then (true, index)
    else match n
      case Leaf(_) => (false, index)
      case Inner(l, r, _) =>
        var (left, indexLeft) := ContainsAddress(l, index + 1, hash);
        var (right, indexRight) := ContainsAddress(r, index + 1, hash);
        (left || right, if right then indexRight else if left then indexLeft else index)
  }

  // What was hashed for the inner nodes.
  ghost function InnerInputs(n: Node): set<seq<byte>> {
    match n
    case Leaf(_) => {}
    case Inner(left, right, _) => {Join(left.data, right.data)} + InnerInputs(left) + InnerInputs(right)
  }

  // The hash of an address is not that of an inner node: an address has 20 bytes, two hashes have 64.
  lemma {:induction false} OnlyLeavesMatch(H: Hasher, n: Node, a: Address)
    requires Hashed(H, n) && CollisionFree(H, InnerInputs(n) + {a})
    ensures |n.data| == 32
    ensures H(a) in NodesData(n) <==> H(a) in Leaves(n)
  {
    match n
    case Leaf(_) =>
    case Inner(left, right, data) =>
      OnlyLeavesMatch(H, left, a);
      OnlyLeavesMatch(H, right, a);
      var pair := Join(left.data, right.data);
      assert |pair| == 64 && pair in InnerInputs(n) + {a} && a in InnerInputs(n) + {a};
  }

  // On the tree of a non-empty list, exactly the listed addresses are found, unless two of the
  // inputs hashed for the tree and the lookup collide.
  method IsAddressInTree(H: Hasher, root: seq<Node>, a: Address, ghost addresses: seq<Address>)
    returns (found: bool)
    requires |root| == 1 && AllHashed(H, root)
    requires AllLeaves(root) == SetOf(LeafHashes(H, addresses))
    requires CollisionFree(H, InnerInputs(root[0]) + {a}) && CollisionFree(H, AddressSet(addresses) + {a})
    ensures found <==> a in addresses
  {
    found := ContainsAddress(root[0], 0, H(a)).0;
    OnlyLeavesMatch(H, root[0], a);
    assert AllLeaves(root) == Leaves(root[0]) by {
      AllLeavesSnoc([], root[0]);
      assert [] + [root[0]] == root;
    }
    ListedIff(H, a, addresses);
  }

  ghost function AddressSet(addresses: seq<Address>): set<seq<byte>> { set a | a in addresses }

  lemma ListedIff(H: Hasher, a: Address, addresses: seq<Address>)
    requires CollisionFree(H, AddressSet(addresses) + {a})
    ensures H(a) in LeafHashes(H, addresses) <==> a in addresses
  {
    if a in addresses {
      var i :| 0 <= i < |addresses| && addresses[i] == a;
      assert LeafHashes(H, addresses)[i] == H(a);
    }
    if H(a) in LeafHashes(H, addresses) {
      var i :| 0 <= i < |addresses| && LeafHashes(H, addresses)[i] == H(a);
      assert addresses[i] in AddressSet(addresses);
    }
  }
}
