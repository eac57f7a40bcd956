/** Inclusion proofs of the Rekor transparency log.

    `VerifyInclusion` is the verifier of the source: it derives the shape of the
    path from the bits of the leaf index and folds the path bottom up. `TreeHash`
    and `AuditPath` are the recursive, top-down definitions of sections 2.1 and
    2.1.1 of RFC 6962. The hash function is a parameter of every definition. */
module Merkle {
  import opened Common
  import opened Arithmetic

  const DIGEST_LENGTH := 32
  const MAX_SAFE_INTEGER := 9_007_199_254_740_991

  type Digest = s: Bytes | |s| == 32 witness seq(32, _ => 0)

  type Hash = Bytes -> Digest

  datatype ProofError = BadNumber | BadIndex | BadPathLength | BadHash | RootMismatch

  // ----- machine words, as naturals -----

  function Xor(a: nat, b: nat): nat
    decreases a + b
  {
    if a == 0 && b == 0 then 0 else 2 * Xor(a / 2, b / 2) + (a + b) % 2
  }

  /** The word size minus the number of leading zeros. */
  function BitLength(n: nat): nat {
    if n == 0 then 0 else 1 + BitLength(n / 2)
  }

  function CountOnes(n: nat): nat {
    if n == 0 then 0 else n % 2 + CountOnes(n / 2)
  }

  function ShiftRight(n: nat, i: nat): nat
    decreases i
  {
    if i == 0 then n else ShiftRight(n / 2, i - 1)
  }

  // ----- what the verifier computes -----

  function Inner(index: nat, size: nat): nat
    requires index < size
  {
    BitLength(Xor(index, size - 1))
  }

  function PathLength(index: nat, size: nat): nat
    requires index < size
  {
    Inner(index, size) + CountOnes(ShiftRight(index, Inner(index, size)))
  }

  /** Whether the `i`-th path hash is the left sibling. */
  predicate SiblingOnLeft(index: nat, inner: nat, i: nat) {
    i >= inner || ShiftRight(index, i) % 2 == 1
  }

  function LeafHash(hash: Hash, body: Bytes): Digest {
    hash([0] + body)
  }

  function NodeHash(hash: Hash, left: Digest, right: Digest): Digest {
    hash([1] + left + right)
  }

  /** The fold of a path whose `i`-th hash is a left sibling exactly when `sides[i]`. */
  function Fold(hash: Hash, current: Digest, sides: seq<bool>, path: seq<Digest>): Digest
    requires |sides| == |path|
    decreases |path|
  {
    if path == [] then current
    else
      var next := if sides[0] then NodeHash(hash, path[0], current) else NodeHash(hash, current, path[0]);
      Fold(hash, next, sides[1..], path[1..])
  }

  function Sides(index: nat, size: nat): (s: seq<bool>)
    requires index < size
    ensures |s| == PathLength(index, size)
  {
    seq(PathLength(index, size), i requires 0 <= i => SiblingOnLeft(index, Inner(index, size), i))
  }

  /** The root that the source computes from a leaf and a path of the right length. */
  function ComputedRoot(hash: Hash, index: nat, size: nat, body: Bytes, path: seq<Digest>): Digest
    requires index < size && |path| == PathLength(index, size)
  {
    Fold(hash, LeafHash(hash, body), Sides(index, size), path)
  }

  ghost predicate AllDigests(hashes: seq<Option<Bytes>>) {
    forall i :: 0 <= i < |hashes| ==> hashes[i].Some? && |hashes[i].value| == DIGEST_LENGTH
  }

  ghost function Digests(hashes: seq<Option<Bytes>>): (r: seq<Digest>)
    requires AllDigests(hashes)
    ensures |r| == |hashes|
  {
    seq(|hashes|, i requires 0 <= i < |hashes| => hashes[i].value)
  }

  ghost predicate Included(hash: Hash, index: Option<nat>, size: Option<nat>, body: Bytes,
                           hashes: seq<Option<Bytes>>, root: Option<Bytes>) {
    && index.Some? && size.Some?
    && index.value < size.value <= MAX_SAFE_INTEGER
    && |hashes| == PathLength(index.value, size.value)
    && AllDigests(hashes)
    && root == Some(ComputedRoot(hash, index.value, size.value, body, Digests(hashes)))
  }

  lemma {:induction false} FoldAppend(hash: Hash, current: Digest, sides: seq<bool>, path: seq<Digest>, side: bool, last: Digest)
    requires |sides| == |path|
    ensures Fold(hash, current, sides + [side], path + [last]) ==
            var below := Fold(hash, current, sides, path);
            if side then NodeHash(hash, last, below) else NodeHash(hash, below, last)
    decreases |path|
  {
    if path != [] {
      var next := if sides[0] then NodeHash(hash, path[0], current) else NodeHash(hash, current, path[0]);
      FoldAppend(hash, next, sides[1..], path[1..], side, last);
      assert (sides + [side])[1..] == sides[1..] + [side];
      assert (path + [last])[1..] == path[1..] + [last];
    } else {
      assert (sides + [side])[1..] == [] && (path + [last])[1..] == [];
    }
  }

  /** The node buffer of the source: a tag byte, the left digest and the right digest. */
  method FillNode(left: Digest, right: Digest) returns (node: array<Byte>)
    ensures fresh(node) && node[..] == [1] + left + right
  {
    node := new Byte[65];
    node[0] := 1;
    forall k | 0 <= k < 32 { node[1 + k] := left[k]; }
    forall k | 0 <= k < 32 { node[33 + k] := right[k]; }
  }

  /** A number of the proof is kept only up to 2^53 - 1. */
  function Number(n: Option<nat>): (r: Option<nat>)
    ensures r == n || (r == None && n.value >= 0x20_0000_0000_0000)
    ensures r.Some? ==> r.value < 0x20_0000_0000_0000
  {
    if n.Some? && n.value <= MAX_SAFE_INTEGER then n else None
  }

  /** The inclusion part of the verifier. An absent number, hash or root stands for one
      that is missing or does not decode. */
  method VerifyInclusion(hash: Hash, index: Option<nat>, size: Option<nat>, body: Bytes,
                         hashes: seq<Option<Bytes>>, root: Option<Bytes>)
    returns (r: Result<Digest, ProofError>)
    ensures r.Ok? <==> Included(hash, index, size, body, hashes, root)
    ensures r.Ok? ==> root == Some(r.value)
  {
    var index', size' := Number(index), Number(size);
    if index'.None? || size'.None? { return Err(BadNumber); }
    var m, n := index'.value, size'.value;
    if m >= n { return Err(BadIndex); }
    var inner := Inner(m, n);
    var border := CountOnes(ShiftRight(m, inner));
    if |hashes| != inner + border { return Err(BadPathLength); }
    var current := hash([0] + body);
    ghost var sides := Sides(m, n);
    ghost var path: seq<Digest> := [];
    for i := 0 to |hashes|
      invariant AllDigests(hashes[..i])
      invariant |path| == i && forall j :: 0 <= j < i ==> path[j] == hashes[j].value
      invariant current == Fold(hash, LeafHash(hash, body), sides[..i], path)
    {
      if hashes[i].None? || |hashes[i].value| != DIGEST_LENGTH { return Err(BadHash); }
      var sibling: Digest := hashes[i].value;
      FoldAppend(hash, LeafHash(hash, body), sides[..i], path, sides[i], sibling);
      assert sides[..i + 1] == sides[..i] + [sides[i]];
      assert hashes[..i + 1] == hashes[..i] + [hashes[i]];
      path := path + [sibling];
      var node;
      if i >= inner || ShiftRight(m, i) % 2 == 1 {
        node := FillNode(sibling, current);
      } else {
        node := FillNode(current, sibling);
      }
      current := hash(node[..]);
    }
    assert hashes[..|hashes|] == hashes && sides[..|hashes|] == sides;
    assert path == Digests(hashes);
    if root != Some(current) { return Err(RootMismatch); }
    return Ok(current);
  }

  // ----- the recursive tree of RFC 6962 -----

  lemma {:induction false} SplitExists(n: nat)
    requires n >= 2
    ensures exists j: nat :: Pow2(j) < n <= 2 * Pow2(j)
  {
    if n == 2 {
      assert Pow2(0) < n <= 2 * Pow2(0);
    } else {
      SplitExists((n + 1) / 2);
      var j: nat :| Pow2(j) < (n + 1) / 2 <= 2 * Pow2(j);
      assert Pow2(j + 1) < n <= 2 * Pow2(j + 1);
    }
  }

  /** The exponent of the largest power of two strictly below `n`. */
  ghost function SplitExponent(n: nat): (j: nat)
    requires n >= 2
    ensures Pow2(j) < n <= 2 * Pow2(j)
  {
    SplitExists(n);
    var j: nat :| Pow2(j) < n <= 2 * Pow2(j);
    j
  }

  ghost function SplitSize(n: nat): (k: nat)
    requires n >= 2
    ensures 1 <= k < n <= 2 * k
  {
    Pow2(SplitExponent(n))
  }

  ghost function TreeHash(hash: Hash, leaves: seq<Bytes>): Digest
    decreases |leaves|
  {
    if leaves == [] then hash([])
    else if |leaves| == 1 then hash([0x00] + leaves[0])
    else
      var k := SplitSize(|leaves|);
      hash([0x01] + TreeHash(hash, leaves[..k]) + TreeHash(hash, leaves[k..]))
  }

  ghost function AuditPath(hash: Hash, m: nat, leaves: seq<Bytes>): seq<Digest>
    requires m < |leaves|
    decreases |leaves|
  {
    if |leaves| == 1 then []
    else
      var k := SplitSize(|leaves|);
      if m < k then AuditPath(hash, m, leaves[..k]) + [TreeHash(hash, leaves[k..])]
      else AuditPath(hash, m - k, leaves[k..]) + [TreeHash(hash, leaves[..k])]
  }

  // ----- the shape of a path, read from the low bits -----

  /** The sides of the path from leaf `m` in a tree whose last leaf is `last`, from the
      lowest bit up: while the two differ the bit of `m` decides, and once they agree
      only the set bits of `m` remain and every sibling is on the left. */
  ghost function LowSides(m: nat, last: nat): seq<bool>
    requires m <= last
    decreases last
  {
    if m == last then seq(CountOnes(m), _ => true)
    else [m % 2 == 1] + LowSides(m / 2, last / 2)
  }

  lemma XorSame(a: nat)
    ensures Xor(a, a) == 0
  {
  }

  lemma OddSum(a: nat, b: nat)
    requires a != b && a / 2 == b / 2
    ensures (a + b) % 2 == 1
  {
    assert a == 2 * (a / 2) + a % 2 && b == 2 * (b / 2) + b % 2;
    RemainderUnique(2, 2 * (a / 2), 1);
  }

  lemma {:induction false} XorDifferent(a: nat, b: nat)
    requires a != b
    ensures Xor(a, b) != 0 && Xor(a, b) / 2 == Xor(a / 2, b / 2)
    decreases a + b
  {
    RemainderUnique(2, Xor(a / 2, b / 2), (a + b) % 2);
    if a / 2 != b / 2 {
      XorDifferent(a / 2, b / 2);
    } else {
      OddSum(a, b);
    }
  }

  /** One level up in the tree the path is one hash shorter. */
  lemma InnerStep(m: nat, size: nat, half: nat)
    requires m < size - 1 && half == (size - 1) / 2 + 1
    ensures Inner(m, size) == 1 + Inner(m / 2, half) && PathLength(m, size) == 1 + PathLength(m / 2, half)
  {
    XorDifferent(m, size - 1);
  }

  lemma SidesStep(m: nat, size: nat, half: nat, below: seq<bool>)
    requires m < size - 1 && half == (size - 1) / 2 + 1 && below == Sides(m / 2, half)
    ensures Sides(m, size) == [m % 2 == 1] + below
  {
    InnerStep(m, size, half);
  }

  lemma SidesOfLast(m: nat)
    ensures Sides(m, m + 1) == seq(CountOnes(m), _ => true)
  {
    XorSame(m);
  }

  /** The verifier's formula for length and sides is the low-bit shape. */
  lemma {:induction false} SidesAreLowSides(m: nat, size: nat)
    requires m < size
    ensures Sides(m, size) == LowSides(m, size - 1)
    decreases size
  {
    if m == size - 1 {
      SidesOfLast(m);
    } else {
      var half := (size - 1) / 2 + 1;
      SidesAreLowSides(m / 2, half);
      SidesStep(m, size, half, Sides(m / 2, half));
    }
  }

  lemma {:induction false} CountOnesTopBit(m: nat, j: nat)
    requires Pow2(j) <= m < 2 * Pow2(j)
    ensures CountOnes(m) == CountOnes(m - Pow2(j)) + 1
    decreases j
  {
    if j > 0 {
      CountOnesTopBit(m / 2, j - 1);
      assert (m - Pow2(j)) / 2 == m / 2 - Pow2(j - 1);
    }
  }

  /** Below the split the top sibling is on the right of a perfect subtree. */
  lemma {:induction false} LowSidesLeft(m: nat, last: nat, j: nat)
    requires m < Pow2(j) <= last < 2 * Pow2(j)
    ensures LowSides(m, last) == LowSides(m, Pow2(j) - 1) + [false]
    decreases j
  {
    if j > 0 {
      LowSidesLeft(m / 2, last / 2, j - 1);
      assert (Pow2(j) - 1) / 2 == Pow2(j - 1) - 1;
      assert LowSides(m, Pow2(j) - 1) == [m % 2 == 1] + LowSides(m / 2, Pow2(j - 1) - 1);
    }
  }

  /** At or above the split the top sibling is the perfect subtree on the left. */
  lemma {:induction false} LowSidesRight(m: nat, last: nat, j: nat)
    requires Pow2(j) <= m <= last < 2 * Pow2(j)
    ensures LowSides(m, last) == LowSides(m - Pow2(j), last - Pow2(j)) + [true]
    decreases j
  {
    if m == last {
      CountOnesTopBit(m, j);
    } else {
      LowSidesRight(m / 2, last / 2, j - 1);
      assert (m - Pow2(j)) / 2 == m / 2 - Pow2(j - 1);
      assert (last - Pow2(j)) / 2 == last / 2 - Pow2(j - 1);
    }
  }

  ghost predicate FoldsTo(hash: Hash, leaf: Digest, sides: seq<bool>, path: seq<Digest>, root: Digest) {
    |sides| == |path| && Fold(hash, leaf, sides, path) == root
  }

  lemma {:induction false} FoldsToParent(hash: Hash, leaf: Digest, sides: seq<bool>, path: seq<Digest>, root: Digest,
                                         below: seq<bool>, up: seq<Digest>, child: Digest, side: bool, top: Digest)
    requires FoldsTo(hash, leaf, below, up, child) && sides == below + [side] && path == up + [top]
    requires root == if side then NodeHash(hash, top, child) else NodeHash(hash, child, top)
    ensures FoldsTo(hash, leaf, sides, path, root)
  {
    FoldAppend(hash, leaf, below, up, side, top);
  }

  /** The sides of an audit path, top down as in section 2.1.1 of RFC 6962. */
  ghost function TreeSides(m: nat, size: nat): seq<bool>
    requires m < size
    decreases size
  {
    if size == 1 then []
    else
      var k := SplitSize(size);
      if m < k then TreeSides(m, k) + [false] else TreeSides(m - k, size - k) + [true]
  }

  lemma TreeSidesLeft(m: nat, size: nat, k: nat)
    requires size > 1 && k == SplitSize(size) && m < k
    ensures TreeSides(m, size) == TreeSides(m, k) + [false]
  {
  }

  lemma TreeSidesRight(m: nat, size: nat, k: nat, below: nat, n: nat)
    requires size > 1 && k == SplitSize(size) && m == k + below && size == k + n && below < n
    ensures TreeSides(m, size) == TreeSides(below, n) + [true]
  {
  }

  lemma MatchLeft(m: nat, size: nat, k: nat, j: nat)
    requires size > 1 && k == SplitSize(size) == Pow2(j) < size <= 2 * k && m < k && TreeSides(m, k) == LowSides(m, k - 1)
    ensures TreeSides(m, size) == LowSides(m, size - 1)
  {
    TreeSidesLeft(m, size, k);
    LowSidesLeft(m, size - 1, j);
  }

  lemma MatchRight(m: nat, size: nat, k: nat, j: nat, below: nat, n: nat)
    requires size > 1 && k == SplitSize(size) == Pow2(j) < size <= 2 * k && m == k + below && size == k + n && below < n
    requires TreeSides(below, n) == LowSides(below, n - 1)
    ensures TreeSides(m, size) == LowSides(m, size - 1)
  {
    TreeSidesRight(m, size, k, below, n);
    LowSidesRight(m, size - 1, j);
  }

  lemma MatchSingle()
    ensures TreeSides(0, 1) == LowSides(0, 0)
  {
  }

  lemma {:induction false} TreeSidesAreLowSides(m: nat, size: nat)
    requires m < size
    ensures TreeSides(m, size) == LowSides(m, size - 1)
    decreases size
  {
    if size == 1 {
      MatchSingle();
    } else {
      var j, k := SplitExponent(size), SplitSize(size);
      if m < k {
        TreeSidesAreLowSides(m, k);
        MatchLeft(m, size, k, j);
      } else {
        TreeSidesAreLowSides(m - k, size - k);
        MatchRight(m, size, k, j, m - k, size - k);
      }
    }
  }

  lemma TreeHashSplit(hash: Hash, leaves: seq<Bytes>, k: nat, left: seq<Bytes>, right: seq<Bytes>)
    requires |leaves| > 1 && k == SplitSize(|leaves|) && left == leaves[..k] && right == leaves[k..]
    ensures TreeHash(hash, leaves) == NodeHash(hash, TreeHash(hash, left), TreeHash(hash, right))
  {
  }

  lemma AuditPathLeft(hash: Hash, m: nat, leaves: seq<Bytes>, k: nat, left: seq<Bytes>, right: seq<Bytes>)
    requires |leaves| > 1 && k == SplitSize(|leaves|) && left == leaves[..k] && right == leaves[k..] && m < |left|
    ensures AuditPath(hash, m, leaves) == AuditPath(hash, m, left) + [TreeHash(hash, right)]
  {
  }

  lemma AuditPathRight(hash: Hash, m: nat, leaves: seq<Bytes>, k: nat, left: seq<Bytes>, right: seq<Bytes>, below: nat)
    requires |leaves| > 1 && k == SplitSize(|leaves|) && left == leaves[..k] && right == leaves[k..]
    requires m == k + below && below < |right|
    ensures AuditPath(hash, m, leaves) == AuditPath(hash, below, right) + [TreeHash(hash, left)]
  {
  }

  lemma FoldSingle(hash: Hash, leaves: seq<Bytes>)
    requires |leaves| == 1
    ensures FoldsTo(hash, LeafHash(hash, leaves[0]), TreeSides(0, 1), AuditPath(hash, 0, leaves), TreeHash(hash, leaves))
  {
  }

  /** The sides and the audit path of a leaf fold it to the root of the tree. */
  ghost predicate LeafFolds(hash: Hash, m: nat, leaves: seq<Bytes>)
    requires m < |leaves|
  {
    FoldsTo(hash, LeafHash(hash, leaves[m]), TreeSides(m, |leaves|), AuditPath(hash, m, leaves), TreeHash(hash, leaves))
  }

  lemma FoldLeft(hash: Hash, m: nat, leaves: seq<Bytes>, k: nat, left: seq<Bytes>, right: seq<Bytes>)
    requires |leaves| > 1 && k == SplitSize(|leaves|) && left == leaves[..k] && right == leaves[k..]
    requires m < |left| && LeafFolds(hash, m, left)
    ensures LeafFolds(hash, m, leaves)
  {
    TreeSidesLeft(m, |leaves|, k);
    AuditPathLeft(hash, m, leaves, k, left, right);
    TreeHashSplit(hash, leaves, k, left, right);
    FoldsToParent(hash, LeafHash(hash, leaves[m]),
                  TreeSides(m, |leaves|), AuditPath(hash, m, leaves), TreeHash(hash, leaves),
                  TreeSides(m, |left|), AuditPath(hash, m, left), TreeHash(hash, left), false, TreeHash(hash, right));
  }

  lemma FoldRight(hash: Hash, m: nat, leaves: seq<Bytes>, k: nat, left: seq<Bytes>, right: seq<Bytes>, below: nat)
    requires |leaves| > 1 && k == SplitSize(|leaves|) && left == leaves[..k] && right == leaves[k..]
    requires m == k + below && below < |right| && LeafFolds(hash, below, right)
    ensures LeafFolds(hash, m, leaves)
  {
    TreeSidesRight(m, |leaves|, k, below, |right|);
    AuditPathRight(hash, m, leaves, k, left, right, below);
    TreeHashSplit(hash, leaves, k, left, right);
    FoldsToParent(hash, LeafHash(hash, leaves[m]),
                  TreeSides(m, |leaves|), AuditPath(hash, m, leaves), TreeHash(hash, leaves),
                  TreeSides(below, |right|), AuditPath(hash, below, right), TreeHash(hash, right), true, TreeHash(hash, left));
  }

  lemma {:induction false} FoldTreeSides(hash: Hash, m: nat, leaves: seq<Bytes>)
    requires m < |leaves|
    ensures LeafFolds(hash, m, leaves)
    decreases |leaves|
  {
    if |leaves| == 1 {
      FoldSingle(hash, leaves);
    } else {
      var k := SplitSize(|leaves|);
      var left, right := leaves[..k], leaves[k..];
      if m < k {
        FoldTreeSides(hash, m, left);
        FoldLeft(hash, m, leaves, k, left, right);
      } else {
        FoldTreeSides(hash, m - k, right);
        FoldRight(hash, m, leaves, k, left, right, m - k);
      }
    }
  }

  lemma RootOfFold(hash: Hash, m: nat, size: nat, body: Bytes, path: seq<Digest>, root: Digest)
    requires m < size && FoldsTo(hash, LeafHash(hash, body), Sides(m, size), path, root)
    ensures |path| == PathLength(m, size) && ComputedRoot(hash, m, size, body, path) == root
  {
  }

  lemma SidesAreTreeSides(m: nat, size: nat)
    requires m < size
    ensures Sides(m, size) == TreeSides(m, size)
  {
    SidesAreLowSides(m, size);
    TreeSidesAreLowSides(m, size);
  }

  /** Completeness: the audit path of RFC 6962 has the length the verifier demands and its
      bottom-up fold is the recursive root. */
  lemma {:induction false} Completeness(hash: Hash, m: nat, leaves: seq<Bytes>)
    requires m < |leaves|
    ensures |AuditPath(hash, m, leaves)| == PathLength(m, |leaves|)
    ensures ComputedRoot(hash, m, |leaves|, leaves[m], AuditPath(hash, m, leaves)) == TreeHash(hash, leaves)
  {
    var sides, path, root := Sides(m, |leaves|), AuditPath(hash, m, leaves), TreeHash(hash, leaves);
    SidesAreTreeSides(m, |leaves|);
    FoldTreeSides(hash, m, leaves);
    RootOfFold(hash, m, |leaves|, leaves[m], path, root);
  }

  // ----- soundness, by extracting a collision -----

  ghost predicate Collision(hash: Hash, pair: (Bytes, Bytes)) {
    pair.0 != pair.1 && hash(pair.0) == hash(pair.1)
  }

  function NodeInput(side: bool, current: Digest, sibling: Digest): Bytes {
    if side then [1] + sibling + current else [1] + current + sibling
  }

  /** Walks two folds together and returns the two hash inputs of the first step at which
      they meet, if they differ there. */
  function MeetingInputs(hash: Hash, x: Bytes, y: Bytes, sides: seq<bool>, p: seq<Digest>, q: seq<Digest>)
    : Option<(Bytes, Bytes)>
    requires |sides| == |p| == |q|
    decreases |p|
  {
    if x != y && hash(x) == hash(y) then Some((x, y))
    else if p == [] then None
    else
      MeetingInputs(hash, NodeInput(sides[0], hash(x), p[0]), NodeInput(sides[0], hash(y), q[0]),
                    sides[1..], p[1..], q[1..])
  }

  lemma NodeInputInjective(side: bool, a: Digest, b: Digest, c: Digest, d: Digest)
    requires NodeInput(side, a, b) == NodeInput(side, c, d)
    ensures a == c && b == d
  {
    var s, t := NodeInput(side, a, b), NodeInput(side, c, d);
    assert s[1..33] == t[1..33] && s[33..] == t[33..];
    if side {
      assert s[1..33] == b && s[33..] == a && t[1..33] == d && t[33..] == c;
    } else {
      assert s[1..33] == a && s[33..] == b && t[1..33] == c && t[33..] == d;
    }
  }

  lemma FoldStep(hash: Hash, x: Bytes, sides: seq<bool>, p: seq<Digest>)
    requires |sides| == |p| && p != []
    ensures Fold(hash, hash(x), sides, p) == Fold(hash, hash(NodeInput(sides[0], hash(x), p[0])), sides[1..], p[1..])
  {
  }

  /** Two paths of one shape with the same root carry the same data, or the walk above
      returns a collision. */
  lemma {:induction false} FoldBinding(hash: Hash, x: Bytes, y: Bytes, sides: seq<bool>, p: seq<Digest>, q: seq<Digest>)
    requires |sides| == |p| == |q|
    requires Fold(hash, hash(x), sides, p) == Fold(hash, hash(y), sides, q)
    ensures var c := MeetingInputs(hash, x, y, sides, p, q);
            if c.Some? then Collision(hash, c.value) else x == y && p == q
    decreases |p|
  {
    if !(x != y && hash(x) == hash(y)) && p != [] {
      FoldStep(hash, x, sides, p);
      FoldStep(hash, y, sides, q);
      var x', y' := NodeInput(sides[0], hash(x), p[0]), NodeInput(sides[0], hash(y), q[0]);
      FoldBinding(hash, x', y', sides[1..], p[1..], q[1..]);
      if MeetingInputs(hash, x', y', sides[1..], p[1..], q[1..]).None? {
        NodeInputInjective(sides[0], hash(x), p[0], hash(y), q[0]);
        assert p == [p[0]] + p[1..] && q == [q[0]] + q[1..];
      }
    }
  }

  function LeafCollision(hash: Hash, index: nat, size: nat, body: Bytes, path: seq<Digest>, body': Bytes, path': seq<Digest>)
    : Option<(Bytes, Bytes)>
    requires index < size && |path| == PathLength(index, size) == |path'|
  {
    MeetingInputs(hash, [0] + body, [0] + body', Sides(index, size), path, path')
  }

  /** Binding: two proofs accepted for one index, size and root prove the same body by the
      same path, or `LeafCollision` is a collision of the hash. */
  lemma Binding(hash: Hash, index: nat, size: nat, body: Bytes, path: seq<Digest>, body': Bytes, path': seq<Digest>)
    requires index < size && |path| == PathLength(index, size) == |path'|
    requires ComputedRoot(hash, index, size, body, path) == ComputedRoot(hash, index, size, body', path')
    ensures var c := LeafCollision(hash, index, size, body, path, body', path');
            if c.Some? then Collision(hash, c.value) else body == body' && path == path'
  {
    FoldBinding(hash, [0] + body, [0] + body', Sides(index, size), path, path');
    assert ([0] + body)[1..] == body && ([0] + body')[1..] == body';
  }

  /** Soundness: a proof accepted against the root of a known tree proves the leaf at that
      index, by the honest path, or the collision is computed from the data. */
  lemma Soundness(hash: Hash, leaves: seq<Bytes>, index: nat, body: Bytes, path: seq<Digest>)
    requires index < |leaves| && |path| == PathLength(index, |leaves|)
    requires ComputedRoot(hash, index, |leaves|, body, path) == TreeHash(hash, leaves)
    ensures |AuditPath(hash, index, leaves)| == |path|
    ensures var c := LeafCollision(hash, index, |leaves|, body, path, leaves[index], AuditPath(hash, index, leaves));
            if c.Some? then Collision(hash, c.value) else body == leaves[index] && path == AuditPath(hash, index, leaves)
  {
    Completeness(hash, index, leaves);
    Binding(hash, index, |leaves|, body, path, leaves[index], AuditPath(hash, index, leaves));
  }

  /** The verifier accepts every honest proof: the audit path of a tree against its root. */
  lemma HonestProofIncluded(hash: Hash, leaves: seq<Bytes>, index: nat)
    requires index < |leaves| < 0x20_0000_0000_0000
    ensures var path := AuditPath(hash, index, leaves);
            Included(hash, Some(index), Some(|leaves|), leaves[index], seq(|path|, i requires 0 <= i < |path| => Some(path[i])),
                     Some(TreeHash(hash, leaves)))
  {
    var path := AuditPath(hash, index, leaves);
    var hashes: seq<Option<Bytes>> := seq(|path|, i requires 0 <= i < |path| => Some(path[i]));
    Completeness(hash, index, leaves);
    assert Digests(hashes) == path;
  }
}
