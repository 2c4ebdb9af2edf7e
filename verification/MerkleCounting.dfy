/** How many leaves one root can authorise.

    Accepted openings of any root, however it was made, satisfy a Kraft inequality: with proofs of
    at most `n` elements and a weight of 2^(n - length) each, they weigh at most 2^n together.  A
    tree's own openings weigh exactly that.
 */
module MerkleCounting {
  import opened Cardinality
  import opened Digests
  import opened Merkle
  import opened MerkleTrees

  datatype Opening = Opening(leaf: Out, proof: Proof)

  ghost predicate Within(s: set<Opening>, n: nat) {
    forall o | o in s :: |o.proof| <= n
  }

  ghost predicate Open(h: HashFn, root: Out, s: set<Opening>) {
    forall o | o in s :: VerifyProof(h, root, o.proof, o.leaf)
  }

  ghost function Traces(h: HashFn, s: set<Opening>): set<Bytes> {
    set o, x | o in s && x in Trace(h, o.leaf, o.proof) :: x
  }

  function Weight(o: Opening, n: nat): (w: nat)
    requires |o.proof| <= n
    ensures w > 0
  {
    Pow2(n - |o.proof|)
  }

  ghost function TotalWeight(s: set<Opening>, n: nat): nat
    requires Within(s, n)
  {
    if s == {} then 0 else
    var o :| o in s;
    Weight(o, n) + TotalWeight(s - {o}, n)
  }

  lemma {:induction false} WeightRemove(s: set<Opening>, n: nat, o: Opening)
    requires Within(s, n) && o in s
    ensures TotalWeight(s, n) == Weight(o, n) + TotalWeight(s - {o}, n)
    decreases |s|
  {
    var p :| p in s && TotalWeight(s, n) == Weight(p, n) + TotalWeight(s - {p}, n);
    if p != o {
      WeightRemove(s - {p}, n, o);
      WeightRemove(s - {o}, n, p);
      assert s - {p} - {o} == s - {o} - {p};
    }
  }

  lemma {:induction false} WeightUnion(a: set<Opening>, b: set<Opening>, n: nat)
    requires Within(a, n) && Within(b, n) && a !! b
    ensures TotalWeight(a + b, n) == TotalWeight(a, n) + TotalWeight(b, n)
    decreases |a|
  {
    if a == {} {
      assert a + b == b;
    } else {
      var o :| o in a;
      WeightRemove(a, n, o);
      WeightRemove(a + b, n, o);
      assert a + b - {o} == (a - {o}) + b;
      WeightUnion(a - {o}, b, n);
    }
  }

  lemma {:induction false} CountBelowWeight(s: set<Opening>, n: nat)
    requires Within(s, n)
    ensures |s| <= TotalWeight(s, n)
    decreases |s|
  {
    if s == {} {
    } else {
      var o :| o in s;
      WeightRemove(s, n, o);
      CountBelowWeight(s - {o}, n);
    }
  }

  // One level down

  function Extended(o: Opening, last: ProofElement): (r: Opening)
    ensures r.proof != [] && Last(r.proof) == last && Init(r.proof) == o.proof
  {
    Opening(o.leaf, o.proof + [last])
  }

  ghost function ExtendAll(s: set<Opening>, last: ProofElement): set<Opening> {
    set o | o in s :: Extended(o, last)
  }

  lemma {:induction false} ExtendAllRemove(s: set<Opening>, last: ProofElement, o: Opening)
    requires o in s
    ensures Extended(o, last) in ExtendAll(s, last)
    ensures ExtendAll(s, last) - {Extended(o, last)} == ExtendAll(s - {o}, last)
  {
    forall p | p in s && Extended(p, last) == Extended(o, last) ensures p == o {
      assert p.proof == Init(Extended(p, last).proof);
    }
  }

  lemma ExtendAllWithin(s: set<Opening>, last: ProofElement, n: nat)
    requires n > 0 && Within(s, n - 1)
    ensures Within(ExtendAll(s, last), n)
  {}

  lemma {:induction false} WeightExtend(s: set<Opening>, last: ProofElement, n: nat)
    requires n > 0 && Within(s, n - 1)
    ensures Within(ExtendAll(s, last), n)
    ensures TotalWeight(ExtendAll(s, last), n) == TotalWeight(s, n - 1)
    decreases |s|
  {
    ExtendAllWithin(s, last, n);
    if s == {} {
      assert ExtendAll(s, last) == {};
    } else {
      var o :| o in s;
      WeightExtend(s - {o}, last, n);
      ExtendAllRemove(s, last, o);
      WeightAddBoth(s, o, ExtendAll(s, last), Extended(o, last), n);
    }
  }

  // Adding an opening and its extension to two sets of equal weight keeps them equal.
  lemma {:induction false} WeightAddBoth(s: set<Opening>, o: Opening, es: set<Opening>, e: Opening, n: nat)
    requires n > 0 && Within(s, n - 1) && Within(es, n) && o in s && e in es
    requires |e.proof| == |o.proof| + 1
    requires TotalWeight(es - {e}, n) == TotalWeight(s - {o}, n - 1)
    ensures TotalWeight(es, n) == TotalWeight(s, n - 1)
  {
    WeightRemove(s, n - 1, o);
    WeightRemove(es, n, e);
  }

  // The openings through one child, seen from that child.
  ghost function Under(s: set<Opening>, last: ProofElement): set<Opening> {
    set o | o in s && o.proof != [] && Last(o.proof) == last :: Opening(o.leaf, Init(o.proof))
  }

  lemma {:induction false} UnderFacts(s: set<Opening>, last: ProofElement, n: nat)
    requires n > 0 && Within(s, n)
    ensures Within(Under(s, last), n - 1)
    ensures ExtendAll(Under(s, last), last) == set o | o in s && o.proof != [] && Last(o.proof) == last
  {
    var mine := set o | o in s && o.proof != [] && Last(o.proof) == last;
    forall o | o in mine ensures o in ExtendAll(Under(s, last), last) {
      assert Opening(o.leaf, Init(o.proof)) in Under(s, last);
      assert o.proof == Init(o.proof) + [last];
      assert o == Extended(Opening(o.leaf, Init(o.proof)), last);
    }
    forall p | p in Under(s, last) ensures Extended(p, last) in mine {
      var o :| o in mine && p == Opening(o.leaf, Init(o.proof));
      assert o.proof == Init(o.proof) + [last];
    }
  }

  lemma {:induction false} UnderTraces(h: HashFn, s: set<Opening>, last: ProofElement)
    ensures Traces(h, Under(s, last)) <= Traces(h, s)
  {
    forall x | x in Traces(h, Under(s, last)) ensures x in Traces(h, s) {
      var p :| p in Under(s, last) && x in Trace(h, p.leaf, p.proof);
      var o :| o in s && o.proof != [] && Last(o.proof) == last && p == Opening(o.leaf, Init(o.proof));
      assert x in Trace(h, o.leaf, o.proof);
    }
  }

  // The Kraft inequality

  lemma PairFree(h: HashFn, s: set<Opening>, o: Opening, p: Opening)
    requires o in s && p in s && CollisionFree(h, Traces(h, s))
    ensures CollisionFree(h, Trace(h, o.leaf, o.proof) + Trace(h, p.leaf, p.proof))
  {
    forall x | x in Trace(h, o.leaf, o.proof) + Trace(h, p.leaf, p.proof) ensures x in Traces(h, s) {}
  }

  lemma {:induction false} SubsetFree(h: HashFn, a: set<Bytes>, b: set<Bytes>)
    requires CollisionFree(h, b) && a <= b
    ensures CollisionFree(h, a)
  {
    forall x, y | x in a && y in a && h(x) == h(y) ensures x == y {
      assert x in b && y in b;
    }
  }

  lemma {:induction false} Kraft(h: HashFn, root: Out, s: set<Opening>, n: nat)
    requires Within(s, n) && Open(h, root, s) && CollisionFree(h, Traces(h, s))
    ensures TotalWeight(s, n) <= Pow2(n)
    decreases n, 2
  {
    if s == {} {
    } else {
      var o :| o in s;
      if o.proof == [] {
        AloneAtRoot(h, root, s, o);
        WeightRemove(s, n, o);
        assert s - {o} == {};
      } else {
        KraftInner(h, root, s, n, o);
      }
    }
  }

  // An empty proof leaves room for no other.
  lemma {:induction false} AloneAtRoot(h: HashFn, root: Out, s: set<Opening>, o: Opening)
    requires Open(h, root, s) && CollisionFree(h, Traces(h, s))
    requires o in s && o.proof == []
    ensures s == {o}
  {
    forall p | p in s ensures p == o {
      PairFree(h, s, o, p);
      SameTop(h, o.leaf, o.proof, p.leaf, p.proof);
    }
  }

  // All openings pass through one of two children.
  lemma {:induction false} TwoChildren(h: HashFn, root: Out, s: set<Opening>, o: Opening)
    returns (left: ProofElement, right: ProofElement)
    requires Open(h, root, s) && CollisionFree(h, Traces(h, s))
    requires o in s && o.proof != []
    ensures left.Left? && right.Right?
    ensures forall p | p in s :: p.proof != [] && (Last(p.proof) == left || Last(p.proof) == right)
    ensures Open(h, right.hash, Under(s, left)) && Open(h, left.hash, Under(s, right))
  {
    var x := TopPreimage(h, o.leaf, o.proof);
    left, right := Left(x[..OUT_SIZE]), Right(x[OUT_SIZE..]);
    forall p | p in s
      ensures p.proof != []
      ensures (Last(p.proof) == left && Node(h, p.leaf, Init(p.proof)) == right.hash)
           || (Last(p.proof) == right && Node(h, p.leaf, Init(p.proof)) == left.hash)
    {
      PairFree(h, s, o, p);
      SameTop(h, o.leaf, o.proof, p.leaf, p.proof);
      SplitJoin(Last(p.proof), Node(h, p.leaf, Init(p.proof)), x);
    }
  }

  lemma SplitJoin(p: ProofElement, node: Out, x: Bytes)
    requires p.Join(node) == x
    ensures |x| == 2 * OUT_SIZE
    ensures match p
            case Left(a) => a == x[..OUT_SIZE] && node == x[OUT_SIZE..]
            case Right(b) => node == x[..OUT_SIZE] && b == x[OUT_SIZE..]
  {}

  lemma {:induction false} KraftInner(h: HashFn, root: Out, s: set<Opening>, n: nat, o: Opening)
    requires n > 0 && Within(s, n) && Open(h, root, s) && CollisionFree(h, Traces(h, s))
    requires o in s && o.proof != []
    ensures TotalWeight(s, n) <= Pow2(n)
    decreases n, 1
  {
    var left, right := TwoChildren(h, root, s, o);
    KraftChild(h, right.hash, s, left, n);
    KraftChild(h, left.hash, s, right, n);
    SplitWeight(s, left, right, n);
  }

  lemma {:induction false} KraftChild(h: HashFn, child: Out, s: set<Opening>, last: ProofElement, n: nat)
    requires n > 0 && Within(s, n) && CollisionFree(h, Traces(h, s)) && Open(h, child, Under(s, last))
    ensures Within(Under(s, last), n - 1) && TotalWeight(Under(s, last), n - 1) <= Pow2(n - 1)
    decreases n, 0
  {
    UnderFacts(s, last, n);
    UnderTraces(h, s, last);
    SubsetFree(h, Traces(h, Under(s, last)), Traces(h, s));
    Kraft(h, child, Under(s, last), n - 1);
  }

  lemma {:induction false} SplitWeight(s: set<Opening>, left: ProofElement, right: ProofElement, n: nat)
    requires n > 0 && Within(s, n) && left != right
    requires forall p | p in s :: p.proof != [] && (Last(p.proof) == left || Last(p.proof) == right)
    ensures Within(Under(s, left), n - 1) && Within(Under(s, right), n - 1)
    ensures TotalWeight(s, n) == TotalWeight(Under(s, left), n - 1) + TotalWeight(Under(s, right), n - 1)
  {
    UnderFacts(s, left, n);
    UnderFacts(s, right, n);
    WeightOfTwo(Under(s, left), left, Under(s, right), right, n);
    assert s == ExtendAll(Under(s, left), left) + ExtendAll(Under(s, right), right);
  }

  // A finite map from leaf hashes to accepted proofs of at most `n` elements has at most 2^n keys.
  lemma {:induction false} AuthorisedSetBound(h: HashFn, root: Out, w: map<Out, Proof>, n: nat)
    requires forall leaf | leaf in w :: |w[leaf]| <= n && VerifyProof(h, root, w[leaf], leaf)
    requires CollisionFree(h, set leaf, x | leaf in w && x in Trace(h, leaf, w[leaf]) :: x)
    ensures |w| <= Pow2(n)
  {
    var s := set leaf | leaf in w :: Opening(leaf, w[leaf]);
    ImageSize(w.Keys, leaf requires leaf in w => Opening(leaf, w[leaf]), s);
    SubsetFree(h, Traces(h, s), set leaf, x | leaf in w && x in Trace(h, leaf, w[leaf]) :: x);
    Kraft(h, root, s, n);
    CountBelowWeight(s, n);
  }

  // Trees use up the whole budget

  ghost function AllOpenings(h: HashFn, t: MTree): set<Opening> {
    match t
    case Leaf(leaf) => {Opening(leaf, [])}
    case Tee(l, r) =>
      ExtendAll(AllOpenings(h, l), SiblingOf(h, t, GoLeft)) + ExtendAll(AllOpenings(h, r), SiblingOf(h, t, GoRight))
  }

  function Height(t: MTree): nat {
    match t
    case Leaf(_) => 0
    case Tee(l, r) => 1 + if Height(l) >= Height(r) then Height(l) else Height(r)
  }

  lemma {:induction false} DeepestLeaf(t: MTree) returns (path: Path, leaf: Out)
    ensures LeafAt(t, path, leaf) && |path| == Height(t)
    decreases t
  {
    match t
    case Leaf(x) => path, leaf := [], x;
    case Tee(l, r) =>
      var turn := if Height(l) >= Height(r) then GoLeft else GoRight;
      var rest: Path;
      rest, leaf := DeepestLeaf(Child(t, turn));
      path := [turn] + rest;
      assert path[1..] == rest;
  }

  lemma {:induction false} PathBelowHeight(t: MTree, path: Path, leaf: Out)
    requires LeafAt(t, path, leaf)
    ensures |path| <= Height(t)
    decreases t
  {
    match t
    case Leaf(_) =>
    case Tee(l, r) => PathBelowHeight(Child(t, path[0]), path[1..], leaf);
  }

  // The height is the length of the longest path.
  lemma {:induction false} HeightIsDeepest(t: MTree, n: nat)
    ensures Height(t) <= n ==> forall path, leaf | LeafAt(t, path, leaf) :: |path| <= n
    ensures (forall path, leaf | LeafAt(t, path, leaf) :: |path| <= n) ==> Height(t) <= n
  {
    var deepest, x := DeepestLeaf(t);
    assert LeafAt(t, deepest, x);
    forall path, leaf | LeafAt(t, path, leaf) ensures |path| <= Height(t) {
      PathBelowHeight(t, path, leaf);
    }
  }

  lemma {:induction false} AllOpeningsAre(h: HashFn, t: MTree, o: Opening)
    ensures o in AllOpenings(h, t)
       <==> LeafAt(t, Directions(o.proof), o.leaf) && o.proof == ProofAt(h, t, Directions(o.proof))
    decreases t
  {
    if t.Tee? && o.proof != [] {
      var turn, below := Directions(o.proof)[0], Opening(o.leaf, Init(o.proof));
      assert o.proof == Init(o.proof) + [Last(o.proof)];
      assert Directions(o.proof)[1..] == Directions(Init(o.proof));
      AllOpeningsAre(h, Child(t, turn), below);
      assert o == Extended(below, Last(o.proof));
      if o in AllOpenings(h, t) {
        assert o in ExtendAll(AllOpenings(h, Child(t, turn)), SiblingOf(h, t, turn));
        var p :| p in AllOpenings(h, Child(t, turn)) && o == Extended(p, SiblingOf(h, t, turn));
        assert p == below;
      }
    }
  }

  // Openings that use up the whole budget.
  ghost predicate Full(s: set<Opening>, n: nat) {
    Within(s, n) && TotalWeight(s, n) == Pow2(n)
  }

  lemma {:induction false} TreeIsFull(h: HashFn, t: MTree, n: nat, all: set<Opening>)
    requires Height(t) <= n && all == AllOpenings(h, t)
    ensures Full(all, n)
    decreases t, 1
  {
    if t.Leaf? {
      LeafIsFull(Opening(t.hash, []), n);
    } else {
      var a, p, b, q := TeeOpenings(h, t, n, all);
      FullOfTwo(a, p, b, q, n);
    }
  }

  lemma {:induction false} TeeOpenings(h: HashFn, t: MTree, n: nat, all: set<Opening>)
    returns (a: set<Opening>, p: ProofElement, b: set<Opening>, q: ProofElement)
    requires t.Tee? && Height(t) <= n && all == AllOpenings(h, t)
    ensures n > 0 && p != q && Full(a, n - 1) && Full(b, n - 1)
    ensures all == ExtendAll(a, p) + ExtendAll(b, q)
    decreases t, 0
  {
    a, b := AllOpenings(h, t.left), AllOpenings(h, t.right);
    p, q := SiblingOf(h, t, GoLeft), SiblingOf(h, t, GoRight);
    TeeUnfolds(h, t, all, a, p, b, q);
    TreeIsFull(h, t.left, n - 1, a);
    TreeIsFull(h, t.right, n - 1, b);
  }

  lemma TeeUnfolds(h: HashFn, t: MTree, all: set<Opening>, a: set<Opening>, p: ProofElement,
                   b: set<Opening>, q: ProofElement)
    requires t.Tee? && all == AllOpenings(h, t) && a == AllOpenings(h, t.left) && b == AllOpenings(h, t.right)
    requires p == SiblingOf(h, t, GoLeft) && q == SiblingOf(h, t, GoRight)
    ensures p != q && all == ExtendAll(a, p) + ExtendAll(b, q)
  {}

  lemma {:induction false} FullOfTwo(a: set<Opening>, p: ProofElement, b: set<Opening>, q: ProofElement, n: nat)
    requires n > 0 && p != q && Full(a, n - 1) && Full(b, n - 1)
    ensures Full(ExtendAll(a, p) + ExtendAll(b, q), n)
  {
    WeightOfTwo(a, p, b, q, n);
  }

  lemma {:induction false} LeafIsFull(o: Opening, n: nat)
    requires o.proof == []
    ensures Full({o}, n)
  {
    WeightRemove({o}, n, o);
    assert {o} - {o} == {};
  }

  lemma {:induction false} WeightOfTwo(a: set<Opening>, p: ProofElement, b: set<Opening>, q: ProofElement, n: nat)
    requires n > 0 && p != q && Within(a, n - 1) && Within(b, n - 1)
    ensures Within(ExtendAll(a, p) + ExtendAll(b, q), n)
    ensures TotalWeight(ExtendAll(a, p) + ExtendAll(b, q), n) == TotalWeight(a, n - 1) + TotalWeight(b, n - 1)
  {
    WeightExtend(a, p, n);
    WeightExtend(b, q, n);
    DisjointExtensions(a, p, b, q);
    WeightUnion(ExtendAll(a, p), ExtendAll(b, q), n);
  }

  lemma DisjointExtensions(a: set<Opening>, p: ProofElement, b: set<Opening>, q: ProofElement)
    requires p != q
    ensures ExtendAll(a, p) !! ExtendAll(b, q)
  {}

  // A tree's own openings are accepted and meet the Kraft bound with equality.
  lemma {:induction false} TreeMeetsBound(h: HashFn, t: MTree, n: nat)
    requires Height(t) <= n
    ensures forall o | o in AllOpenings(h, t) :: |o.proof| <= n && VerifyProof(h, RootHash(h, t), o.proof, o.leaf)
    ensures TotalWeight(AllOpenings(h, t), n) == Pow2(n)
  {
    TreeIsFull(h, t, n, AllOpenings(h, t));
    forall o | o in AllOpenings(h, t) ensures VerifyProof(h, RootHash(h, t), o.proof, o.leaf) {
      AllOpeningsAre(h, t, o);
      ProofAtVerifies(h, t, Directions(o.proof), o.leaf);
    }
  }

  // The bound on leaf hashes is attained

  lemma {:induction false} LeavesAreLeafSet(t: MTree, x: Out)
    ensures x in Leaves(t) <==> x in LeafSet(t)
    decreases t
  {
    if t.Leaf? {
    } else {
      LeavesAreLeafSet(t.left, x);
      LeavesAreLeafSet(t.right, x);
    }
  }

  ghost function SomeProof(h: HashFn, root: Out, leaf: Out, n: nat): Proof
    requires exists proof :: |proof| == n && VerifyProof(h, root, proof, leaf)
  {
    var proof :| |proof| == n && VerifyProof(h, root, proof, leaf);
    proof
  }

  // A perfect tree with distinct leaves authorises 2^depth leaf hashes by proofs of that length.
  lemma {:induction false} PerfectTreeAttains(h: HashFn, t: MTree, depth: nat) returns (w: map<Out, Proof>)
    requires Perfect(t, depth) && |Leaves(t)| == Pow2(depth)
    requires forall i, j | 0 <= i < j < |Leaves(t)| :: Leaves(t)[i] != Leaves(t)[j]
    ensures |w| == Pow2(depth)
    ensures forall leaf | leaf in w :: |w[leaf]| == depth && VerifyProof(h, RootHash(h, t), w[leaf], leaf)
  {
    var keys := set x | x in Leaves(t);
    DistinctCount(Leaves(t));
    forall leaf | leaf in keys
      ensures exists proof :: |proof| == depth && VerifyProof(h, RootHash(h, t), proof, leaf)
    {
      LeavesAreLeafSet(t, leaf);
      var path := LeafHasPath(t, leaf);
      PerfectDepth(t, depth, path, leaf);
      ProofAtVerifies(h, t, path, leaf);
    }
    w := map leaf | leaf in keys :: SomeProof(h, RootHash(h, t), leaf, depth);
    assert w.Keys == keys;
  }

  // Two leading bytes count up to 65536.
  function Numbered(i: nat): (o: Out) {
    [(i / 256 % 256) as Byte, (i % 256) as Byte] + seq(OUT_SIZE - 2, _ => 0)
  }

  lemma NumberedDistinct(i: nat, j: nat)
    requires i < 65536 && j < 65536 && Numbered(i) == Numbered(j)
    ensures i == j
  {
    assert Numbered(i)[0] == Numbered(j)[0] && Numbered(i)[1] == Numbered(j)[1];
  }

  lemma {:induction false} DistinctNumbers(s: seq<Out>)
    requires |s| <= 65536 && forall i: nat | i < |s| :: s[i] == Numbered(i)
    ensures forall i, j | 0 <= i < j < |s| :: s[i] != s[j]
  {
    forall i, j | 0 <= i < j < |s| ensures s[i] != s[j] {
      if s[i] == s[j] { NumberedDistinct(i, j); }
    }
  }

  lemma Pow2Of16()
    ensures Pow2(16) == 65536
  {
    assert Pow2(4) == 16;
    assert Pow2(8) == 256;
    assert Pow2(12) == 4096;
  }

  lemma {:induction false} Pow2Monotone(m: nat, n: nat)
    requires m <= n
    ensures Pow2(m) <= Pow2(n)
    decreases n
  {
    if m == n {
    } else {
      Pow2Monotone(m, n - 1);
    }
  }

  // A perfect tree of the given depth with distinct leaves.
  lemma {:induction false} NumberedTree(depth: nat) returns (t: MTree)
    requires depth <= 16
    ensures Perfect(t, depth) && |Leaves(t)| == Pow2(depth)
    ensures forall i, j | 0 <= i < j < |Leaves(t)| :: Leaves(t)[i] != Leaves(t)[j]
  {
    t := Generate(depth, Numbered, 0).0;
    GeneratedTree(depth, Numbered, 0);
    assert forall i: nat | i < Pow2(depth) :: Leaves(t)[i] == Numbered(0 + i);
    Pow2Of16();
    Pow2Monotone(depth, 16);
    DistinctNumbers(Leaves(t));
  }

  // Whatever the hash function, some root authorises 2^depth leaf hashes.
  lemma {:induction false} BoundIsAttained(h: HashFn, depth: nat) returns (root: Out, w: map<Out, Proof>)
    requires depth <= 16
    ensures |w| == Pow2(depth)
    ensures forall leaf | leaf in w :: |w[leaf]| == depth && VerifyProof(h, root, w[leaf], leaf)
  {
    var t := NumberedTree(depth);
    root := RootHash(h, t);
    w := PerfectTreeAttains(h, t, depth);
  }
}
