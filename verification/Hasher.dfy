/** Structural hashing: every hashable value streams its bytes into one digest, with no length
    prefixes and no type tags.
 */
module Hasher {
  import opened Digests

  // A value built from the types that can be hashed.  Type tags without data are erased.
  datatype Value =
    | U8(byte: Byte)
    | Slice(items: seq<Value>)
    | Array(items: seq<Value>)
    | Ref(target: Value)
    | Tuple(items: seq<Value>)
    | Hashed(hash: Value)

  // What hashing a value feeds to the digest.
  function Flatten(v: Value): Bytes
    decreases v, 1
  {
    match v
    case U8(b) => [b]
    case Slice(items) => FlattenAll(items)
    case Array(items) => FlattenAll(items)
    case Ref(target) => Flatten(target)
    case Tuple(items) => FlattenAll(items)
    case Hashed(hash) => Flatten(hash)
  }

  function FlattenAll(vs: seq<Value>): Bytes
    decreases vs, 0
  {
    if vs == [] then [] else Flatten(vs[0]) + FlattenAll(vs[1..])
  }

  function HashOf(h: HashFn, v: Value): Out {
    h(Flatten(v))
  }

  // The digest sees the flattening and nothing else.
  lemma HashSeesBytesOnly(h: HashFn, v: Value, w: Value)
    ensures HashOf(h, v) == h(Flatten(v))
    ensures Flatten(v) == Flatten(w) ==> HashOf(h, v) == HashOf(h, w)
  {}

  lemma {:induction false} FlattenAllAppend(a: seq<Value>, b: seq<Value>)
    ensures FlattenAll(a + b) == FlattenAll(a) + FlattenAll(b)
    decreases |a|
  {
    if a == [] {
      assert a + b == b;
    } else {
      assert (a + b)[0] == a[0] && (a + b)[1..] == a[1..] + b;
      FlattenAllAppend(a[1..], b);
    }
  }

  lemma FlattenAllSingle(v: Value)
    ensures FlattenAll([v]) == Flatten(v)
  {
    assert FlattenAll([v]) == Flatten(v) + FlattenAll([v][1..]);
  }

  // A value with a gap in one of its lists, at any depth.

  datatype Kind = SliceKind | ArrayKind | TupleKind

  datatype Context =
    | Gap(kind: Kind, before: seq<Value>, after: seq<Value>)
    | Inside(kind: Kind, before: seq<Value>, inner: Context, after: seq<Value>)
    | UnderRef(inner: Context)
    | UnderHashed(inner: Context)

  function Build(kind: Kind, items: seq<Value>): (v: Value)
    ensures (v.Slice? <==> kind.SliceKind?) && (v.Array? <==> kind.ArrayKind?) && (v.Tuple? <==> kind.TupleKind?)
    ensures v.items == items && Flatten(v) == FlattenAll(items)
  {
    match kind
    case SliceKind => Slice(items)
    case ArrayKind => Array(items)
    case TupleKind => Tuple(items)
  }

  function Plug(c: Context, items: seq<Value>): Value {
    match c
    case Gap(kind, before, after) => Build(kind, before + items + after)
    case Inside(kind, before, inner, after) => Build(kind, before + [Plug(inner, items)] + after)
    case UnderRef(inner) => Ref(Plug(inner, items))
    case UnderHashed(inner) => Hashed(Plug(inner, items))
  }

  // What a context stands for, one level at a time.
  lemma ContextLaws(kind: Kind, before: seq<Value>, after: seq<Value>, inner: Context, items: seq<Value>)
    ensures Plug(Gap(kind, before, after), items) == Build(kind, before + items + after)
    ensures Plug(Inside(kind, before, inner, after), items) == Build(kind, before + [Plug(inner, items)] + after)
    ensures Plug(UnderRef(inner), items) == Ref(Plug(inner, items))
    ensures Plug(UnderHashed(inner), items) == Hashed(Plug(inner, items))
  {}

  lemma {:induction false} FlattenAround(before: seq<Value>, middle: seq<Value>, after: seq<Value>)
    ensures FlattenAll(before + middle + after) == FlattenAll(before) + FlattenAll(middle) + FlattenAll(after)
  {
    FlattenAllAppend(before + middle, after);
    FlattenAllAppend(before, middle);
  }

  // The bytes around the gap.

  function BytesBefore(c: Context): Bytes {
    match c
    case Gap(_, before, _) => FlattenAll(before)
    case Inside(_, before, inner, _) => FlattenAll(before) + BytesBefore(inner)
    case UnderRef(inner) => BytesBefore(inner)
    case UnderHashed(inner) => BytesBefore(inner)
  }

  function BytesAfter(c: Context): Bytes {
    match c
    case Gap(_, _, after) => FlattenAll(after)
    case Inside(_, _, inner, after) => BytesAfter(inner) + FlattenAll(after)
    case UnderRef(inner) => BytesAfter(inner)
    case UnderHashed(inner) => BytesAfter(inner)
  }

  // The items in the gap contribute their own bytes, between those around the gap.
  lemma {:induction false} PlugFlattens(c: Context, items: seq<Value>)
    ensures Flatten(Plug(c, items)) == BytesBefore(c) + FlattenAll(items) + BytesAfter(c)
    decreases c
  {
    match c
    case Gap(_, before, after) => FlattenAround(before, items, after);
    case Inside(_, before, inner, after) =>
      PlugFlattens(inner, items);
      FlattenAround(before, [Plug(inner, items)], after);
      FlattenAllSingle(Plug(inner, items));
    case UnderRef(inner) => PlugFlattens(inner, items);
    case UnderHashed(inner) => PlugFlattens(inner, items);
  }

  // Grouping neighbours into a tuple, an array or a slice is invisible to the digest, at any depth.
  lemma {:induction false} RegroupingIsInvisible(h: HashFn, c: Context, kind: Kind, group: seq<Value>)
    ensures HashOf(h, Plug(c, [Build(kind, group)])) == HashOf(h, Plug(c, group))
  {
    FlattenAllSingle(Build(kind, group));
    PlugFlattens(c, [Build(kind, group)]);
    PlugFlattens(c, group);
  }

  // So are references and the wrapper of a hash, at any depth and outermost.
  lemma {:induction false} WrappersAreInvisible(h: HashFn, c: Context, v: Value)
    ensures HashOf(h, Plug(c, [Ref(v)])) == HashOf(h, Plug(c, [v])) == HashOf(h, Plug(c, [Hashed(v)]))
    ensures HashOf(h, Ref(v)) == HashOf(h, v) == HashOf(h, Hashed(v))
  {
    PlugFlattens(c, [v]);
    PlugFlattens(c, [Ref(v)]);
    PlugFlattens(c, [Hashed(v)]);
    FlattenAllSingle(v);
    FlattenAllSingle(Ref(v));
    FlattenAllSingle(Hashed(v));
  }

  // Streaming appends exactly the flattening, whatever the digest has already seen.
  method HashInto(v: Value, hasher: Digest)
    modifies hasher`buffer
    ensures hasher.buffer == old(hasher.buffer) + Flatten(v)
    decreases v, 1
  {
    match v {
      case U8(b) => hasher.Input([b]);
      case Slice(items) => HashItemsInto(items, hasher);
      case Array(items) => HashItemsInto(items, hasher);
      case Ref(target) => HashInto(target, hasher);
      case Tuple(items) => HashItemsInto(items, hasher);
      case Hashed(hash) => HashInto(hash, hasher);
    }
  }

  method HashItemsInto(items: seq<Value>, hasher: Digest)
    modifies hasher`buffer
    ensures hasher.buffer == old(hasher.buffer) + FlattenAll(items)
    decreases items, 0
  {
    for i := 0 to |items|
      invariant hasher.buffer == old(hasher.buffer) + FlattenAll(items[..i])
    {
      HashInto(items[i], hasher);
      assert items[..i + 1] == items[..i] + [items[i]];
      FlattenAllAppend(items[..i], [items[i]]);
      FlattenAllSingle(items[i]);
    }
    assert items[..|items|] == items;
  }

  method FromPreimage(h: HashFn, preimage: Value) returns (r: Out)
    ensures r == h(Flatten(preimage)) == HashOf(h, preimage)
  {
    var hasher := new Digest(h);
    HashInto(preimage, hasher);
    assert [] + Flatten(preimage) == Flatten(preimage);
    r := hasher.Result();
  }

  // Byte strings as hashable values.

  function ByteValues(b: Bytes): (r: seq<Value>)
    ensures |r| == |b| && forall i | 0 <= i < |b| :: r[i] == U8(b[i])
    ensures FlattenAll(r) == b
  {
    if b == [] then []
    else
      var r := [U8(b[0])] + ByteValues(b[1..]);
      assert r[1..] == ByteValues(b[1..]);
      r
  }

  // A `[u8; 32]`.
  function OutValue(o: Out): (v: Value)
    ensures Flatten(v) == o
  {
    Array(ByteValues(o))
  }

  // A `&[u8]`.
  function SliceValue(b: Bytes): (v: Value)
    ensures Flatten(v) == b
  {
    Slice(ByteValues(b))
  }

  lemma PairFlattens(a: Value, b: Value)
    ensures Flatten(Tuple([a, b])) == Flatten(a) + Flatten(b)
  {
    assert [a, b] == [a] + [b];
    FlattenAllAppend([a], [b]);
    FlattenAllSingle(a);
    FlattenAllSingle(b);
  }
}
