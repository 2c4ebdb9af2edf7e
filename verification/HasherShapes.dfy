/** Which types hash unambiguously?

    A `Shape` is a type built from the hashable types.  Its flattening is injective exactly when
    the type holds at most one slice, that slice has elements of fixed width, and it is not
    repeated inside an array or another slice.
 */
module HasherShapes {
  import opened Digests
  import opened Hasher

  datatype Shape =
    | Octet
    | SliceOf(elem: Shape)
    | ArrayOf(len: nat, elem: Shape)
    | RefTo(target: Shape)
    | TupleOf(parts: seq<Shape>)
    | HashedAs(out: Shape)

  // The array lengths and tuple sizes that can be hashed.
  predicate WellFormed(s: Shape) {
    match s
    case Octet => true
    case SliceOf(e) => WellFormed(e)
    case ArrayOf(n, e) => (n == 8 || n == 32) && WellFormed(e)
    case RefTo(t) => WellFormed(t)
    case TupleOf(ps) => 2 <= |ps| <= 4 && forall p | p in ps :: WellFormed(p)
    case HashedAs(o) => WellFormed(o)
  }

  predicate HasShape(v: Value, s: Shape)
    decreases s
  {
    match s
    case Octet => v.U8?
    case SliceOf(e) => v.Slice? && forall i | 0 <= i < |v.items| :: HasShape(v.items[i], e)
    case ArrayOf(n, e) => v.Array? && |v.items| == n && forall i | 0 <= i < n :: HasShape(v.items[i], e)
    case RefTo(t) => v.Ref? && HasShape(v.target, t)
    case TupleOf(ps) => v.Tuple? && |v.items| == |ps| && forall i | 0 <= i < |ps| :: HasShape(v.items[i], ps[i])
    case HashedAs(o) => v.Hashed? && HasShape(v.hash, o)
  }

  // No slice anywhere.
  predicate Fixed(s: Shape) {
    match s
    case Octet => true
    case SliceOf(_) => false
    case ArrayOf(_, e) => Fixed(e)
    case RefTo(t) => Fixed(t)
    case TupleOf(ps) => forall p | p in ps :: Fixed(p)
    case HashedAs(o) => Fixed(o)
  }

  predicate Parsable(s: Shape) {
    match s
    case Octet => true
    case SliceOf(e) => Fixed(e)
    case ArrayOf(_, e) => Fixed(e)
    case RefTo(t) => Parsable(t)
    case TupleOf(ps) =>
      (forall p | p in ps :: Parsable(p)) &&
      (forall i, j | 0 <= i < j < |ps| :: Fixed(ps[i]) || Fixed(ps[j]))
    case HashedAs(o) => Parsable(o)
  }

  // What the types above stand for, constructor by constructor.
  lemma ShapeLaws(s: Shape, n: nat, ps: seq<Shape>, items: seq<Value>, v: Value)
    ensures HasShape(v, Octet) <==> exists b :: v == U8(b)
    ensures HasShape(Slice(items), SliceOf(s)) <==> forall i | 0 <= i < |items| :: HasShape(items[i], s)
    ensures HasShape(Array(items), ArrayOf(n, s)) 
       <==> |items| == n && forall i | 0 <= i < n :: HasShape(items[i], s)
    ensures HasShape(Tuple(items), TupleOf(ps))
       <==> |items| == |ps| && forall i | 0 <= i < |ps| :: HasShape(items[i], ps[i])
    ensures HasShape(Ref(v), RefTo(s)) <==> HasShape(v, s)
    ensures HasShape(Hashed(v), HashedAs(s)) <==> HasShape(v, s)
    ensures WellFormed(s) ==> WellFormed(SliceOf(s)) && WellFormed(RefTo(s)) && WellFormed(HashedAs(s))
    ensures WellFormed(s) ==> WellFormed(ArrayOf(8, s)) && WellFormed(ArrayOf(32, s))
    ensures (forall p | p in ps :: WellFormed(p)) && 2 <= |ps| <= 4 ==> WellFormed(TupleOf(ps))
  {
    if v.U8? { assert v == U8(v.byte); }
  }

  // Lengths.  `Stretch(s, k)` is an all-zero value of shape `s` whose flattening has length
  // `Base(s) + k * Step(s)`; for a fixed shape that is the width of every value.

  function Base(s: Shape): nat
    decreases s, 0
  {
    match s
    case Octet => 1
    case SliceOf(e) => if Fixed(e) then 0 else Base(e)
    case ArrayOf(n, e) => n * Base(e)
    case RefTo(t) => Base(t)
    case TupleOf(ps) => BaseAll(ps)
    case HashedAs(o) => Base(o)
  }

  function BaseAll(ps: seq<Shape>): nat
    decreases ps, 1
  {
    if ps == [] then 0 else Base(ps[0]) + BaseAll(ps[1..])
  }

  function Step(s: Shape): nat
    decreases s, 0
  {
    match s
    case Octet => 0
    case SliceOf(e) => if Fixed(e) then Base(e) else Step(e)
    case ArrayOf(n, e) => n * Step(e)
    case RefTo(t) => Step(t)
    case TupleOf(ps) => StepAll(ps)
    case HashedAs(o) => Step(o)
  }

  function StepAll(ps: seq<Shape>): nat
    decreases ps, 1
  {
    if ps == [] then 0 else Step(ps[0]) + StepAll(ps[1..])
  }

  function Repeat(v: Value, n: nat): (r: seq<Value>)
    ensures |r| == n && forall i | 0 <= i < n :: r[i] == v
  {
    seq(n, _ => v)
  }

  function Stretch(s: Shape, k: nat): Value
    decreases s, 0
  {
    match s
    case Octet => U8(0)
    case SliceOf(e) => if Fixed(e) then Slice(Repeat(Stretch(e, 0), k)) else Slice([Stretch(e, k)])
    case ArrayOf(n, e) => Array(Repeat(Stretch(e, k), n))
    case RefTo(t) => Ref(Stretch(t, k))
    case TupleOf(ps) => Tuple(StretchAll(ps, k))
    case HashedAs(o) => Hashed(Stretch(o, k))
  }

  function StretchAll(ps: seq<Shape>, k: nat): (r: seq<Value>)
    ensures |r| == |ps|
    decreases ps, 1
  {
    if ps == [] then [] else [Stretch(ps[0], k)] + StretchAll(ps[1..], k)
  }

  predicate AllZero(b: Bytes) {
    forall i | 0 <= i < |b| :: b[i] == 0
  }

  // Small facts

  lemma {:induction false} FixedIsParsable(s: Shape)
    requires Fixed(s)
    ensures Parsable(s)
    decreases s
  {
    match s
    case Octet =>
    case SliceOf(_) =>
    case ArrayOf(_, e) =>
    case RefTo(t) => FixedIsParsable(t);
    case TupleOf(ps) =>
      forall p | p in ps ensures Parsable(p) { FixedIsParsable(p); }
    case HashedAs(o) => FixedIsParsable(o);
  }

  lemma {:induction false} BasePositive(s: Shape)
    requires WellFormed(s) && Fixed(s)
    ensures Base(s) > 0
    decreases s
  {
    match s
    case Octet =>
    case SliceOf(_) =>
    case ArrayOf(_, e) => BasePositive(e);
    case RefTo(t) => BasePositive(t);
    case TupleOf(ps) => BasePositive(ps[0]);
    case HashedAs(o) => BasePositive(o);
  }

  lemma {:induction false} StepPositive(s: Shape)
    requires WellFormed(s) && !Fixed(s)
    ensures Step(s) > 0
    decreases s, 0
  {
    match s
    case Octet =>
    case SliceOf(e) => if Fixed(e) { BasePositive(e); } else { StepPositive(e); }
    case ArrayOf(_, e) => StepPositive(e);
    case RefTo(t) => StepPositive(t);
    case TupleOf(ps) => StepAllPositive(ps);
    case HashedAs(o) => StepPositive(o);
  }

  lemma {:induction false} StepAllPositive(ps: seq<Shape>)
    requires forall p | p in ps :: WellFormed(p)
    requires exists p :: p in ps && !Fixed(p)
    ensures StepAll(ps) > 0
    decreases ps, 1
  {
    if Fixed(ps[0]) {
      StepAllPositive(ps[1..]);
    } else {
      StepPositive(ps[0]);
    }
  }

  // Lengths of lists of items of one length

  lemma {:induction false} UniformLength(vs: seq<Value>, w: nat)
    requires forall i | 0 <= i < |vs| :: |Flatten(vs[i])| == w
    ensures |FlattenAll(vs)| == |vs| * w
    decreases |vs|
  {
    if vs == [] {
    } else {
      UniformLength(vs[1..], w);
      assert |vs| * w == w + (|vs| - 1) * w;
    }
  }

  lemma {:induction false} AllZeroItems(vs: seq<Value>)
    requires forall i | 0 <= i < |vs| :: AllZero(Flatten(vs[i]))
    ensures AllZero(FlattenAll(vs))
    decreases |vs|
  {
    if vs == [] {
    } else {
      AllZeroItems(vs[1..]);
    }
  }

  lemma {:induction false} FixedWidth(v: Value, s: Shape)
    requires Fixed(s) && HasShape(v, s)
    ensures |Flatten(v)| == Base(s)
    decreases s, 0
  {
    match s
    case Octet =>
    case SliceOf(_) =>
    case ArrayOf(n, e) =>
      forall i | 0 <= i < n ensures |Flatten(v.items[i])| == Base(e) { FixedWidth(v.items[i], e); }
      UniformLength(v.items, Base(e));
    case RefTo(t) => FixedWidth(v.target, t);
    case TupleOf(ps) => FixedWidths(v.items, ps);
    case HashedAs(o) => FixedWidth(v.hash, o);
  }

  ghost predicate HaveShapes(vs: seq<Value>, ps: seq<Shape>) {
    |vs| == |ps| && forall i | 0 <= i < |ps| :: HasShape(vs[i], ps[i])
  }

  lemma {:induction false} FixedWidths(vs: seq<Value>, ps: seq<Shape>)
    requires HaveShapes(vs, ps) && forall p | p in ps :: Fixed(p)
    ensures |FlattenAll(vs)| == BaseAll(ps)
    decreases ps, 1
  {
    if ps == [] {
    } else {
      FixedWidth(vs[0], ps[0]);
      FixedWidths(vs[1..], ps[1..]);
    }
  }

  // Sufficiency: a parsable shape flattens injectively.

  lemma SplitEqual(a: Bytes, b: Bytes, c: Bytes, d: Bytes)
    requires a + b == c + d && (|a| == |c| || |b| == |d|)
    ensures a == c && b == d
  {
    assert |a + b| == |c + d|;
    assert a == (a + b)[..|a|] == (c + d)[..|c|] == c;
    assert b == (a + b)[|a|..] == (c + d)[|c|..] == d;
  }

  lemma {:induction false} ParsableUnique(v: Value, w: Value, s: Shape)
    requires WellFormed(s) && Parsable(s) && HasShape(v, s) && HasShape(w, s) && Flatten(v) == Flatten(w)
    ensures v == w
    decreases s, 0
  {
    match s
    case Octet =>
    case SliceOf(e) => UniformUnique(v.items, w.items, e);
    case ArrayOf(_, e) => UniformUnique(v.items, w.items, e);
    case RefTo(t) => ParsableUnique(v.target, w.target, t);
    case TupleOf(ps) => PartsUnique(v.items, w.items, ps);
    case HashedAs(o) => ParsableUnique(v.hash, w.hash, o);
  }

  lemma {:induction false} UniformUnique(vs: seq<Value>, ws: seq<Value>, e: Shape)
    requires WellFormed(e) && Fixed(e) && FlattenAll(vs) == FlattenAll(ws)
    requires forall i | 0 <= i < |vs| :: HasShape(vs[i], e)
    requires forall i | 0 <= i < |ws| :: HasShape(ws[i], e)
    ensures vs == ws
    decreases e, |vs| + 1
  {
    BasePositive(e);
    if vs != [] { FixedWidth(vs[0], e); }
    if ws != [] { FixedWidth(ws[0], e); }
    if vs != [] && ws != [] {
      SplitEqual(Flatten(vs[0]), FlattenAll(vs[1..]), Flatten(ws[0]), FlattenAll(ws[1..]));
      FixedIsParsable(e);
      ParsableUnique(vs[0], ws[0], e);
      UniformUnique(vs[1..], ws[1..], e);
      assert vs == [vs[0]] + vs[1..] && ws == [ws[0]] + ws[1..];
    }
  }

  lemma {:induction false} PartsUnique(vs: seq<Value>, ws: seq<Value>, ps: seq<Shape>)
    requires HaveShapes(vs, ps) && HaveShapes(ws, ps) && FlattenAll(vs) == FlattenAll(ws)
    requires forall p | p in ps :: WellFormed(p) && Parsable(p)
    requires forall i, j | 0 <= i < j < |ps| :: Fixed(ps[i]) || Fixed(ps[j])
    ensures vs == ws
    decreases ps, 1
  {
    if ps == [] {
    } else {
      if Fixed(ps[0]) {
        FixedWidth(vs[0], ps[0]);
        FixedWidth(ws[0], ps[0]);
      } else {
        forall p | p in ps[1..] ensures Fixed(p) {
          var j :| 0 <= j < |ps[1..]| && ps[1..][j] == p;
          assert Fixed(ps[0]) || Fixed(ps[j + 1]);
        }
        FixedWidths(vs[1..], ps[1..]);
        FixedWidths(ws[1..], ps[1..]);
      }
      SplitEqual(Flatten(vs[0]), FlattenAll(vs[1..]), Flatten(ws[0]), FlattenAll(ws[1..]));
      ParsableUnique(vs[0], ws[0], ps[0]);
      PartsUnique(vs[1..], ws[1..], ps[1..]);
      assert vs == [vs[0]] + vs[1..] && ws == [ws[0]] + ws[1..];
    }
  }

  // Necessity: every other shape has two values with the same flattening.

  // The length of a stretched value.
  function Reach(base: nat, step: nat, k: nat): nat {
    base + k * step
  }

  lemma ReachTimes(n: nat, base: nat, step: nat, k: nat)
    ensures n * Reach(base, step, k) == Reach(n * base, n * step, k)
  {
    assert n * (k * step) == k * (n * step);
  }

  lemma ReachSquare(base: nat, step: nat)
    ensures (step + 1) * base == Reach(base, step, base)
  {
    assert (step + 1) * base == step * base + base;
  }

  lemma ReachPlus(base: nat, step: nat, base': nat, step': nat, k: nat)
    ensures Reach(base, step, k) + Reach(base', step', k) == Reach(base + base', step + step', k)
  {
    assert k * (step + step') == k * step + k * step';
  }

  // Repeating a value of all-zero bytes.
  lemma {:induction false} RepeatFacts(v: Value, n: nat, w: nat)
    requires AllZero(Flatten(v)) && |Flatten(v)| == w
    ensures AllZero(FlattenAll(Repeat(v, n))) && |FlattenAll(Repeat(v, n))| == n * w
  {
    UniformLength(Repeat(v, n), w);
    AllZeroItems(Repeat(v, n));
  }

  lemma {:induction false} StretchFacts(s: Shape, k: nat)
    requires WellFormed(s)
    ensures HasShape(Stretch(s, k), s)
    ensures AllZero(Flatten(Stretch(s, k)))
    ensures |Flatten(Stretch(s, k))| == Reach(Base(s), Step(s), k)
    decreases s, 0
  {
    match s
    case Octet =>
    case SliceOf(e) =>
      if Fixed(e) {
        StretchFacts(e, 0);
        RepeatFacts(Stretch(e, 0), k, Base(e));
      } else {
        StretchFacts(e, k);
        FlattenAllSingle(Stretch(e, k));
      }
    case ArrayOf(n, e) =>
      StretchFacts(e, k);
      RepeatFacts(Stretch(e, k), n, Reach(Base(e), Step(e), k));
      ReachTimes(n, Base(e), Step(e), k);
    case RefTo(t) => StretchFacts(t, k);
    case TupleOf(ps) => StretchAllFacts(ps, k);
    case HashedAs(o) => StretchFacts(o, k);
  }

  lemma {:induction false} StretchAllFacts(ps: seq<Shape>, k: nat)
    requires forall p | p in ps :: WellFormed(p)
    ensures HaveShapes(StretchAll(ps, k), ps)
    ensures AllZero(FlattenAll(StretchAll(ps, k)))
    ensures |FlattenAll(StretchAll(ps, k))| == Reach(BaseAll(ps), StepAll(ps), k)
    decreases ps, 1
  {
    if ps == [] {
    } else {
      StretchFacts(ps[0], k);
      StretchAllFacts(ps[1..], k);
      assert StretchAll(ps, k)[1..] == StretchAll(ps[1..], k);
      ReachPlus(Base(ps[0]), Step(ps[0]), BaseAll(ps[1..]), StepAll(ps[1..]), k);
    }
  }

  lemma AllZeroEqual(a: Bytes, b: Bytes)
    requires AllZero(a) && AllZero(b) && |a| == |b|
    ensures a == b
  {}

  // Two items of all-zero bytes that trade length leave the flattening of the whole list alone.
  lemma {:induction false} TradeLengths(pre: seq<Value>, x: Value, mid: seq<Value>, y: Value,
                                        x': Value, y': Value, post: seq<Value>)
    requires AllZero(Flatten(x)) && AllZero(Flatten(y)) && AllZero(Flatten(x')) && AllZero(Flatten(y'))
    requires AllZero(FlattenAll(mid))
    requires |Flatten(x)| + |Flatten(y)| == |Flatten(x')| + |Flatten(y')|
    ensures FlattenAll(pre + ([x] + mid + [y]) + post) == FlattenAll(pre + ([x'] + mid + [y']) + post)
  {
    FlattenSandwich(x, mid, y);
    FlattenSandwich(x', mid, y');
    AllZeroEqual(FlattenAll([x] + mid + [y]), FlattenAll([x'] + mid + [y']));
    FlattenAllAppend(pre, [x] + mid + [y]);
    FlattenAllAppend(pre + ([x] + mid + [y]), post);
    FlattenAllAppend(pre, [x'] + mid + [y']);
    FlattenAllAppend(pre + ([x'] + mid + [y']), post);
  }

  lemma FlattenSandwich(x: Value, mid: seq<Value>, y: Value)
    ensures FlattenAll([x] + mid + [y]) == Flatten(x) + FlattenAll(mid) + Flatten(y)
  {
    FlattenAllAppend([x] + mid, [y]);
    FlattenAllAppend([x], mid);
    FlattenAllSingle(x);
    FlattenAllSingle(y);
  }

  lemma {:induction false} Ambiguity(s: Shape) returns (v: Value, w: Value)
    requires WellFormed(s) && !Parsable(s)
    ensures HasShape(v, s) && HasShape(w, s) && Flatten(v) == Flatten(w) && v != w
    decreases s
  {
    match s
    case SliceOf(e) => v, w := AmbiguousSlice(e);
    case ArrayOf(n, e) => v, w := AmbiguousArray(n, e);
    case RefTo(t) =>
      var a, b := Ambiguity(t);
      v, w := Ref(a), Ref(b);
    case TupleOf(ps) =>
      if i :| 0 <= i < |ps| && !Parsable(ps[i]) {
        var a, b := Ambiguity(ps[i]);
        v, w := AmbiguousPart(ps, i, a, b);
      } else {
        v, w := AmbiguousParts(ps);
      }
    case HashedAs(o) =>
      var a, b := Ambiguity(o);
      v, w := Hashed(a), Hashed(b);
  }

  // One long element against several short ones.
  lemma {:induction false} AmbiguousSlice(e: Shape) returns (v: Value, w: Value)
    requires WellFormed(e) && !Fixed(e)
    ensures HasShape(v, SliceOf(e)) && HasShape(w, SliceOf(e)) && Flatten(v) == Flatten(w) && v != w
  {
    StepPositive(e);
    var long, short := Stretch(e, Base(e)), Stretch(e, 0);
    StretchFacts(e, Base(e));
    StretchFacts(e, 0);
    OneAgainstMany(long, short, Base(e), Step(e));
    SliceShape([long], e);
    SliceShape(Repeat(short, Step(e) + 1), e);
    v, w := Slice([long]), Slice(Repeat(short, Step(e) + 1));
    assert |v.items| != |w.items|;
  }

  lemma SliceShape(items: seq<Value>, e: Shape)
    requires forall i | 0 <= i < |items| :: HasShape(items[i], e)
    ensures HasShape(Slice(items), SliceOf(e))
  {}

  lemma {:induction false} OneAgainstMany(long: Value, short: Value, base: nat, step: nat)
    requires AllZero(Flatten(long)) && |Flatten(long)| == Reach(base, step, base)
    requires AllZero(Flatten(short)) && |Flatten(short)| == base
    ensures FlattenAll([long]) == FlattenAll(Repeat(short, step + 1))
  {
    FlattenAllSingle(long);
    RepeatFacts(short, step + 1, base);
    ReachSquare(base, step);
    AllZeroEqual(FlattenAll([long]), FlattenAll(Repeat(short, step + 1)));
  }

  // The long element first or second.
  lemma {:induction false} AmbiguousArray(n: nat, e: Shape) returns (v: Value, w: Value)
    requires WellFormed(e) && !Fixed(e) && n >= 2
    ensures HasShape(v, ArrayOf(n, e)) && HasShape(w, ArrayOf(n, e)) && Flatten(v) == Flatten(w) && v != w
  {
    StepPositive(e);
    var x, y := Stretch(e, 1), Stretch(e, 0);
    StretchFacts(e, 1);
    StretchFacts(e, 0);
    var rest := Repeat(y, n - 2);
    TradeLengths([], x, [], y, y, x, rest);
    v, w := Array([] + ([x] + [] + [y]) + rest), Array([] + ([y] + [] + [x]) + rest);
    assert v.items[0] == x && w.items[0] == y;
  }

  // An ambiguous part among zeros.
  lemma {:induction false} AmbiguousPart(ps: seq<Shape>, i: nat, a: Value, b: Value) returns (v: Value, w: Value)
    requires forall p | p in ps :: WellFormed(p)
    requires i < |ps| && HasShape(a, ps[i]) && HasShape(b, ps[i]) && Flatten(a) == Flatten(b) && a != b
    ensures HasShape(v, TupleOf(ps)) && HasShape(w, TupleOf(ps)) && Flatten(v) == Flatten(w) && v != w
  {
    StretchAllFacts(ps, 0);
    var zs := StretchAll(ps, 0);
    ReplaceOne(zs, ps, i, a);
    ReplaceOne(zs, ps, i, b);
    FlattenSandwiched(zs[..i], a, zs[i + 1..]);
    FlattenSandwiched(zs[..i], b, zs[i + 1..]);
    TupleShape(zs[i := a], ps);
    TupleShape(zs[i := b], ps);
    v, w := Tuple(zs[i := a]), Tuple(zs[i := b]);
    assert v.items[i] == a && w.items[i] == b;
  }

  lemma TupleShape(items: seq<Value>, ps: seq<Shape>)
    requires HaveShapes(items, ps)
    ensures HasShape(Tuple(items), TupleOf(ps))
  {}

  lemma ReplaceOne(zs: seq<Value>, ps: seq<Shape>, i: nat, x: Value)
    requires HaveShapes(zs, ps) && i < |ps| && HasShape(x, ps[i])
    ensures HaveShapes(zs[i := x], ps)
    ensures zs[i := x] == zs[..i] + [x] + zs[i + 1..]
  {}

  lemma FlattenSandwiched(pre: seq<Value>, x: Value, post: seq<Value>)
    ensures FlattenAll(pre + [x] + post) == FlattenAll(pre) + Flatten(x) + FlattenAll(post)
  {
    FlattenAllAppend(pre + [x], post);
    FlattenAllAppend(pre, [x]);
    FlattenAllSingle(x);
  }

  // Two parts of variable length.
  lemma {:induction false} AmbiguousParts(ps: seq<Shape>) returns (v: Value, w: Value)
    requires forall p | p in ps :: WellFormed(p)
    requires exists i, j :: 0 <= i < j < |ps| && !Fixed(ps[i]) && !Fixed(ps[j])
    ensures HasShape(v, TupleOf(ps)) && HasShape(w, TupleOf(ps)) && Flatten(v) == Flatten(w) && v != w
  {
    var i, j :| 0 <= i < j < |ps| && !Fixed(ps[i]) && !Fixed(ps[j]);
    var x, y, x', y' := TradedStretches(ps[i], ps[j]);
    StretchAllFacts(ps, 0);
    ZeroMiddle(ps, i + 1, j);
    v, w := TradedParts(StretchAll(ps, 0), ps, i, j, x, y, x', y');
  }

  // A long and a short value against a short and a long one, of the same total length.
  lemma {:induction false} TradedStretches(s: Shape, t: Shape) returns (x: Value, y: Value, x': Value, y': Value)
    requires WellFormed(s) && !Fixed(s) && WellFormed(t) && !Fixed(t)
    ensures x != x' && HasShape(x, s) && HasShape(x', s) && HasShape(y, t) && HasShape(y', t)
    ensures AllZero(Flatten(x)) && AllZero(Flatten(y)) && AllZero(Flatten(x')) && AllZero(Flatten(y'))
    ensures |Flatten(x)| + |Flatten(y)| == |Flatten(x')| + |Flatten(y')|
  {
    x, y, x', y' := Stretch(s, Step(t)), Stretch(t, 0), Stretch(s, 0), Stretch(t, Step(s));
    StepPositive(s);
    StepPositive(t);
    StretchFacts(s, Step(t));
    StretchFacts(t, 0);
    StretchFacts(s, 0);
    StretchFacts(t, Step(s));
    BalancedReach(Base(s), Step(s), Base(t), Step(t));
  }

  lemma BalancedReach(b: nat, s: nat, c: nat, t: nat)
    ensures Reach(b, s, t) + Reach(c, t, 0) == Reach(b, s, 0) + Reach(c, t, s)
    ensures s > 0 && t > 0 ==> Reach(b, s, t) != Reach(b, s, 0)
  {
    assert s * t == t * s;
    assert s > 0 && t > 0 ==> s * t > 0;
  }

  lemma {:induction false} TradedParts(zs: seq<Value>, ps: seq<Shape>, i: nat, j: nat, x: Value, y: Value,
                                       x': Value, y': Value)
    returns (v: Value, w: Value)
    requires HaveShapes(zs, ps) && i < j < |ps| && AllZero(FlattenAll(zs[i + 1..j])) && x != x'
    requires HasShape(x, ps[i]) && HasShape(x', ps[i]) && HasShape(y, ps[j]) && HasShape(y', ps[j])
    requires AllZero(Flatten(x)) && AllZero(Flatten(y)) && AllZero(Flatten(x')) && AllZero(Flatten(y'))
    requires |Flatten(x)| + |Flatten(y)| == |Flatten(x')| + |Flatten(y')|
    ensures HasShape(v, TupleOf(ps)) && HasShape(w, TupleOf(ps)) && Flatten(v) == Flatten(w) && v != w
  {
    var vs, ws := zs[i := x][j := y], zs[i := x'][j := y'];
    ReplaceTwo(zs, ps, i, j, x, y);
    ReplaceTwo(zs, ps, i, j, x', y');
    TupleShape(vs, ps);
    TupleShape(ws, ps);
    TradeLengths(zs[..i], x, zs[i + 1..j], y, x', y', zs[j + 1..]);
    assert vs[i] == x && ws[i] == x';
    v, w := Tuple(vs), Tuple(ws);
  }

  lemma ReplaceTwo(zs: seq<Value>, ps: seq<Shape>, i: nat, j: nat, x: Value, y: Value)
    requires HaveShapes(zs, ps) && i < j < |ps| && HasShape(x, ps[i]) && HasShape(y, ps[j])
    ensures HaveShapes(zs[i := x][j := y], ps)
    ensures zs[i := x][j := y] == zs[..i] + ([x] + zs[i + 1..j] + [y]) + zs[j + 1..]
  {
    ReplaceOne(zs, ps, i, x);
    ReplaceOne(zs[i := x], ps, j, y);
    SpliceTwo(zs, i, j, x, y);
  }

  lemma SpliceTwo<T>(zs: seq<T>, i: nat, j: nat, x: T, y: T)
    requires i < j < |zs|
    ensures zs[i := x][j := y] == zs[..i] + ([x] + zs[i + 1..j] + [y]) + zs[j + 1..]
  {}

  lemma {:induction false} ZeroMiddle(ps: seq<Shape>, i: nat, j: nat)
    requires forall p | p in ps :: WellFormed(p)
    requires i <= j <= |ps|
    ensures AllZero(FlattenAll(StretchAll(ps, 0)[i..j]))
  {
    forall m | 0 <= m < |ps| ensures AllZero(Flatten(StretchAll(ps, 0)[m])) {
      StretchAllAt(ps, 0, m);
      StretchFacts(ps[m], 0);
    }
    AllZeroItems(StretchAll(ps, 0)[i..j]);
  }

  lemma {:induction false} StretchAllAt(ps: seq<Shape>, k: nat, m: nat)
    requires m < |ps|
    ensures StretchAll(ps, k)[m] == Stretch(ps[m], k)
    decreases m
  {
    if m == 0 {
    } else {
      StretchAllAt(ps[1..], k, m - 1);
    }
  }

  // Main results

  lemma {:induction false} InjectiveIffParsable(s: Shape)
    requires WellFormed(s)
    ensures Parsable(s)
       <==> forall v, w | HasShape(v, s) && HasShape(w, s) && Flatten(v) == Flatten(w) :: v == w
  {
    if Parsable(s) {
      forall v, w | HasShape(v, s) && HasShape(w, s) && Flatten(v) == Flatten(w) ensures v == w {
        ParsableUnique(v, w, s);
      }
    } else {
      var v, w := Ambiguity(s);
    }
  }

  // Equal digests of two values of a parsable type mean equal values, or a collision.
  lemma {:induction false} EqualDigests(h: HashFn, s: Shape, v: Value, w: Value)
    requires WellFormed(s) && Parsable(s) && HasShape(v, s) && HasShape(w, s)
    requires HashOf(h, v) == HashOf(h, w)
    ensures v == w || (Flatten(v) != Flatten(w) && h(Flatten(v)) == h(Flatten(w)))
  {
    if Flatten(v) == Flatten(w) { ParsableUnique(v, w, s); }
  }

  // Decoding: a parsable shape has a value for every byte string of a possible length.

  lemma {:induction false} FixedStep(s: Shape)
    requires Fixed(s)
    ensures Step(s) == 0
    decreases s, 0
  {
    match s
    case Octet =>
    case SliceOf(_) =>
    case ArrayOf(_, e) => FixedStep(e);
    case RefTo(t) => FixedStep(t);
    case TupleOf(ps) => FixedSteps(ps);
    case HashedAs(o) => FixedStep(o);
  }

  lemma {:induction false} FixedSteps(ps: seq<Shape>)
    requires forall p | p in ps :: Fixed(p)
    ensures StepAll(ps) == 0
    decreases ps, 1
  {
    if ps == [] {
    } else {
      FixedStep(ps[0]);
      FixedSteps(ps[1..]);
    }
  }

  lemma {:induction false} Decode(s: Shape, b: Bytes, k: nat) returns (v: Value)
    requires WellFormed(s) && Parsable(s) && |b| == Reach(Base(s), Step(s), k)
    ensures HasShape(v, s) && Flatten(v) == b
    decreases s, 0, 0
  {
    match s
    case Octet => v := U8(b[0]);
    case SliceOf(e) =>
      var items := DecodeUniform(e, b, k);
      v := Slice(items);
    case ArrayOf(n, e) =>
      FixedStep(e);
      var items := DecodeUniform(e, b, n);
      v := Array(items);
    case RefTo(t) =>
      var target := Decode(t, b, k);
      v := Ref(target);
    case TupleOf(ps) =>
      var items := DecodeParts(ps, b, k);
      v := Tuple(items);
    case HashedAs(o) =>
      var out := Decode(o, b, k);
      v := Hashed(out);
  }

  // A list of `n` values of one shape, and its bytes.
  ghost predicate Lists(vs: seq<Value>, e: Shape, n: nat, b: Bytes) {
    |vs| == n && FlattenAll(vs) == b && forall i | 0 <= i < n :: HasShape(vs[i], e)
  }

  lemma {:induction false} DecodeUniform(e: Shape, b: Bytes, n: nat) returns (vs: seq<Value>)
    requires WellFormed(e) && Fixed(e) && |b| == n * Base(e)
    ensures Lists(vs, e, n, b)
    decreases e, 2
  {
    TotalIsProduct(n, Base(e));
    vs := DecodeItems(e, b, n, Base(e));
  }

  // `n` times `w`.
  function Total(n: nat, w: nat): nat {
    if n == 0 then 0 else w + Total(n - 1, w)
  }

  lemma {:induction false} TotalIsProduct(n: nat, w: nat)
    ensures Total(n, w) == n * w
    decreases n
  {
    if n == 0 {
    } else {
      TotalIsProduct(n - 1, w);
    }
  }

  lemma {:induction false} DecodeItems(e: Shape, b: Bytes, n: nat, w: nat) returns (vs: seq<Value>)
    requires WellFormed(e) && Fixed(e) && w == Base(e) && |b| == Total(n, w)
    ensures Lists(vs, e, n, b)
    decreases e, 1, n
  {
    if n == 0 {
      vs := [];
      assert b == [];
    } else {
      var v := DecodeFixed(e, b[..w]);
      var rest := DecodeItems(e, b[w..], n - 1, w);
      vs := [v] + rest;
      ListsCons(e, v, rest, n - 1, b[w..]);
      assert b == b[..w] + b[w..];
    }
  }

  lemma ListsCons(e: Shape, v: Value, rest: seq<Value>, n: nat, b: Bytes)
    requires HasShape(v, e) && Lists(rest, e, n, b)
    ensures Lists([v] + rest, e, n + 1, Flatten(v) + b)
  {
    assert ([v] + rest)[1..] == rest;
  }

  lemma {:induction false} DecodeFixed(e: Shape, b: Bytes) returns (v: Value)
    requires WellFormed(e) && Fixed(e) && |b| == Base(e)
    ensures HasShape(v, e) && Flatten(v) == b
    decreases e, 0, 1
  {
    FixedIsParsable(e);
    FixedStep(e);
    v := Decode(e, b, 0);
  }

  lemma {:induction false} DecodeParts(ps: seq<Shape>, b: Bytes, k: nat) returns (vs: seq<Value>)
    requires forall p | p in ps :: WellFormed(p) && Parsable(p)
    requires forall i, j | 0 <= i < j < |ps| :: Fixed(ps[i]) || Fixed(ps[j])
    requires |b| == Reach(BaseAll(ps), StepAll(ps), k)
    ensures HaveShapes(vs, ps) && FlattenAll(vs) == b
    decreases ps, 1, 0
  {
    if ps == [] {
      vs := [];
    } else {
      var w := Reach(Base(ps[0]), Step(ps[0]), k);
      ReachPlus(Base(ps[0]), Step(ps[0]), BaseAll(ps[1..]), StepAll(ps[1..]), k);
      var v := Decode(ps[0], b[..w], k);
      var rest := DecodeParts(ps[1..], b[w..], k);
      vs := [v] + rest;
      assert vs[1..] == rest;
    }
  }

  lemma {:induction false} LengthOf(v: Value, s: Shape) returns (k: nat)
    requires WellFormed(s) && Parsable(s) && HasShape(v, s)
    ensures |Flatten(v)| == Reach(Base(s), Step(s), k)
    decreases s, 0
  {
    if Fixed(s) {
      FixedWidth(v, s);
      FixedStep(s);
      k := 0;
    } else {
      match s
      case SliceOf(e) =>
        forall i | 0 <= i < |v.items| ensures |Flatten(v.items[i])| == Base(e) { FixedWidth(v.items[i], e); }
        UniformLength(v.items, Base(e));
        k := |v.items|;
      case RefTo(t) => k := LengthOf(v.target, t);
      case TupleOf(ps) => k := LengthOfParts(v.items, ps);
      case HashedAs(o) => k := LengthOf(v.hash, o);
    }
  }

  lemma {:induction false} LengthOfParts(vs: seq<Value>, ps: seq<Shape>) returns (k: nat)
    requires HaveShapes(vs, ps) && forall p | p in ps :: WellFormed(p) && Parsable(p)
    requires forall i, j | 0 <= i < j < |ps| :: Fixed(ps[i]) || Fixed(ps[j])
    ensures |FlattenAll(vs)| == Reach(BaseAll(ps), StepAll(ps), k)
    decreases ps, 1
  {
    if ps == [] {
      k := 0;
    } else if Fixed(ps[0]) {
      k := LengthOfParts(vs[1..], ps[1..]);
      FixedWidth(vs[0], ps[0]);
      FixedStep(ps[0]);
    } else {
      forall p | p in ps[1..] ensures Fixed(p) {
        var j :| 0 <= j < |ps[1..]| && ps[1..][j] == p;
        assert Fixed(ps[0]) || Fixed(ps[j + 1]);
      }
      k := LengthOf(vs[0], ps[0]);
      FixedWidths(vs[1..], ps[1..]);
      FixedSteps(ps[1..]);
    }
  }

  // A parsable type has exactly one value for each byte string of length `Base + k * Step`, and no
  // value flattens to any other.
  lemma {:induction false} DecodableIff(s: Shape, b: Bytes)
    requires WellFormed(s) && Parsable(s)
    ensures (exists v :: HasShape(v, s) && Flatten(v) == b)
       <==> (exists k: nat :: |b| == Reach(Base(s), Step(s), k))
  {
    if v :| HasShape(v, s) && Flatten(v) == b {
      var k := LengthOf(v, s);
      assert |b| == Reach(Base(s), Step(s), k);
    }
    if k: nat :| |b| == Reach(Base(s), Step(s), k) {
      var v := Decode(s, b, k);
    }
  }

  // The values the pallet hashes

  // Byte slices and 32-byte outputs, whatever they hold.
  lemma {:induction false} BytesHaveShapes(b: Bytes, o: Out)
    ensures HasShape(SliceValue(b), SliceOf(Octet)) && Parsable(SliceOf(Octet))
    ensures HasShape(OutValue(o), ArrayOf(OUT_SIZE, Octet)) && Parsable(ArrayOf(OUT_SIZE, Octet))
  {}

  // Two adjacent byte slices hash like their concatenation, so the split point is lost.
  lemma {:induction false} AdjacentSlicesMerge(h: HashFn, a: Bytes, b: Bytes)
    ensures HashOf(h, Tuple([Ref(SliceValue(a)), Ref(SliceValue(b))])) == HashOf(h, Ref(SliceValue(a + b))) == h(a + b)
    ensures !Parsable(TupleOf([RefTo(SliceOf(Octet)), RefTo(SliceOf(Octet))]))
  {
    PairFlattens(Ref(SliceValue(a)), Ref(SliceValue(b)));
    var ps := [RefTo(SliceOf(Octet)), RefTo(SliceOf(Octet))];
    assert !Fixed(ps[0]) && !Fixed(ps[1]);
  }

  lemma FourFlatten(a: Value, b: Value, c: Value, d: Value)
    ensures FlattenAll([a, b, c, d]) == Flatten(a) + Flatten(b) + Flatten(c) + Flatten(d)
  {
    FlattenSandwich(a, [b, c], d);
    assert [a] + [b, c] + [d] == [a, b, c, d];
    PairFlattens(b, c);
  }

  // Four arrays of eight bytes hash like one array of 32.
  lemma {:induction false} QuartersMerge(h: HashFn, a: Bytes, b: Bytes, c: Bytes, d: Bytes)
    requires |a| == |b| == |c| == |d| == 8
    ensures var items := [Array(ByteValues(a)), Array(ByteValues(b)), Array(ByteValues(c)), Array(ByteValues(d))];
            HashOf(h, Tuple(items)) == HashOf(h, OutValue(a + b + c + d)) == h(a + b + c + d)
  {
    FourFlatten(Array(ByteValues(a)), Array(ByteValues(b)), Array(ByteValues(c)), Array(ByteValues(d)));
  }

  // What is hashed for a leaf and for an inner node, by reference or by value: the types are
  // parsable, and every value has 32 or 64 bytes.
  lemma {:induction false} NodeShapes(leaf: Out, a: Out, b: Out)
    ensures var s := HashedAs(ArrayOf(OUT_SIZE, Octet));
            var v := Hashed(OutValue(leaf));
            WellFormed(s) && Parsable(s) && HasShape(v, s) && Flatten(v) == leaf && Base(s) == 32 && Step(s) == 0
    ensures var s := TupleOf([ArrayOf(OUT_SIZE, Octet), ArrayOf(OUT_SIZE, Octet)]);
            var v := Tuple([OutValue(a), OutValue(b)]);
            WellFormed(s) && Parsable(s) && HasShape(v, s) && Flatten(v) == a + b && Base(s) == 64 && Step(s) == 0
    ensures var s := TupleOf([RefTo(ArrayOf(OUT_SIZE, Octet)), RefTo(ArrayOf(OUT_SIZE, Octet))]);
            var v := Tuple([Ref(OutValue(a)), Ref(OutValue(b))]);
            WellFormed(s) && Parsable(s) && HasShape(v, s) && Flatten(v) == a + b && Base(s) == 64 && Step(s) == 0
  {
    var arr := ArrayOf(OUT_SIZE, Octet);
    BytesHaveShapes([], leaf);
    BytesHaveShapes([], a);
    BytesHaveShapes([], b);
    assert Base(arr) == 32 && Step(arr) == 0;
    PairShape(arr, OutValue(a), OutValue(b));
    PairShape(RefTo(arr), Ref(OutValue(a)), Ref(OutValue(b)));
  }

  lemma {:induction false} PairShape(s: Shape, v: Value, w: Value)
    requires WellFormed(s) && Fixed(s) && HasShape(v, s) && HasShape(w, s)
    ensures WellFormed(TupleOf([s, s])) && Parsable(TupleOf([s, s])) && HasShape(Tuple([v, w]), TupleOf([s, s]))
    ensures Flatten(Tuple([v, w])) == Flatten(v) + Flatten(w)
    ensures Base(TupleOf([s, s])) == 2 * Base(s) && Step(TupleOf([s, s])) == 0
  {
    PairFlattens(v, w);
    FixedIsParsable(s);
    FixedStep(s);
    TupleShape([v, w], [s, s]);
    assert [s, s][1..] == [s] && [s][1..] == [];
    assert BaseAll([s, s]) == Base(s) + BaseAll([s]) && BaseAll([s]) == Base(s) + BaseAll([]);
    assert StepAll([s, s]) == Step(s) + StepAll([s]) && StepAll([s]) == Step(s) + StepAll([]);
  }
}
