/** The MPI derived-datatype constructors that the layout builders use, with
    the meaning MPI-3.1 gives them: section 4.1.2 (MPI_Type_contiguous,
    MPI_Type_vector, MPI_Type_create_hvector, MPI_Type_create_hindexed,
    MPI_Type_create_hindexed_block) and section 4.1.3
    (MPI_Type_create_subarray, MPI_ORDER_C). A datatype is described by
    the ordered byte runs it covers (`Flatten`) and by its bounds. */
module MpiTypes {
  import opened Runs

  datatype Option<T> = None | Some(value: T)

  /** Predefined element types. */
  datatype Basic = Byte | Float

  /** Size in bytes of a predefined type (MPI_FLOAT is a 4-byte float). */
  function Size(p: Basic): nat
  {
    match p
    case Byte => 1
    case Float => 4
  }

  /** One case per constructor call; `oldtype` is the element type. Strides
      of `Vector` count extents of `oldtype`; strides and displacements of
      the `H` forms count bytes. Hindexed forms have `|displacements|`
      blocks. `Subarray` is C order: the last dimension varies fastest. */
  datatype Ty =
    | Prim(basic: Basic)
    | Contiguous(count: nat, oldtype: Ty)
    | Vector(count: nat, blocklength: nat, stride: int, oldtype: Ty)
    | Hvector(count: nat, blocklength: nat, stride: int, oldtype: Ty)
    | Hindexed(blocklengths: seq<nat>, displacements: seq<int>, oldtype: Ty)
    | HindexedBlock(blocklength: nat, displacements: seq<int>, oldtype: Ty)
    | Subarray(sizes: seq<nat>, subsizes: seq<nat>, starts: seq<nat>, oldtype: Ty)

  /** The arguments of MPI_Type_create_subarray that MPI accepts: at least
      one dimension, positive sizes and subsizes, and every sub-range inside
      its dimension. */
  predicate ValidSubarray(sizes: seq<nat>, subsizes: seq<nat>, starts: seq<nat>)
  {
    |sizes| >= 1 && |subsizes| == |sizes| && |starts| == |sizes| &&
    forall i :: 0 <= i < |sizes| ==> 1 <= subsizes[i] && starts[i] + subsizes[i] <= sizes[i]
  }

  /** A datatype every one of whose constructor calls MPI accepts. */
  predicate WellFormed(t: Ty)
  {
    match t
    case Prim(_) => true
    case Contiguous(_, o) => WellFormed(o)
    case Vector(_, _, _, o) => WellFormed(o)
    case Hvector(_, _, _, o) => WellFormed(o)
    case Hindexed(bls, ds, o) => |bls| == |ds| && WellFormed(o)
    case HindexedBlock(_, _, o) => WellFormed(o)
    case Subarray(sz, sub, st, o) => ValidSubarray(sz, sub, st) && WellFormed(o)
  }

  function Product(s: seq<nat>): nat
  {
    if s == [] then 1 else s[0] * Product(s[1..])
  }

  function Min(a: int, b: int): int { if a <= b then a else b }
  function Max(a: int, b: int): int { if a <= b then b else a }

  /** Lower and upper bound of a type map; the extent is `ub - lb`. */
  datatype Bounds = Bounds(lb: int, ub: int)

  /** Bounds of `count` blocks of `blocklength` copies of a type with bounds
      `inner`, block starts `stride` bytes apart. An empty type map has
      bounds (0, 0). */
  function StridedBounds(inner: Bounds, count: nat, blocklength: nat, stride: int): (r: Bounds)
    requires inner.lb <= inner.ub
    ensures r.lb <= r.ub
    ensures count > 0 && blocklength > 0 ==> r.lb <= inner.lb && inner.ub <= r.ub
  {
    if count == 0 || blocklength == 0 then Bounds(0, 0)
    else
      var e := inner.ub - inner.lb;
      MulNonneg(blocklength - 1, e);
      Bounds(inner.lb + Min(0, (count - 1) * stride),
             inner.ub + (blocklength - 1) * e + Max(0, (count - 1) * stride))
  }

  /** Smallest bounds enclosing every non-empty block of an indexed type;
      `None` when every block is empty. */
  function Hull(inner: Bounds, bls: seq<nat>, ds: seq<int>): (r: Option<Bounds>)
    requires |bls| == |ds| && inner.lb <= inner.ub
    ensures r.Some? ==> r.value.lb <= r.value.ub
    ensures r.None? <==> forall i :: 0 <= i < |bls| ==> bls[i] == 0
    decreases |ds|
  {
    if |ds| == 0 then None
    else
      var rest := Hull(inner, bls[1..], ds[1..]);
      if bls[0] == 0 then
        assert forall i :: 1 <= i < |bls| ==> bls[i] == bls[1..][i - 1];
        rest
      else
        var e := inner.ub - inner.lb;
        MulNonneg(bls[0] - 1, e);
        var here := Bounds(ds[0] + inner.lb, ds[0] + (bls[0] - 1) * e + inner.ub);
        if rest.None? then Some(here)
        else Some(Bounds(Min(here.lb, rest.value.lb), Max(here.ub, rest.value.ub)))
  }

  function HullOrEmpty(h: Option<Bounds>): (r: Bounds)
    requires h.Some? ==> h.value.lb <= h.value.ub
    ensures r.lb <= r.ub
  {
    match h
    case None => Bounds(0, 0)
    case Some(b) => b
  }

  /** The bounds of a datatype; every datatype has a non-negative extent. */
  function TypeBounds(t: Ty): (r: Bounds)
    requires WellFormed(t)
    ensures r.lb <= r.ub
  {
    match t
    case Prim(p) => Bounds(0, Size(p))
    case Contiguous(n, o) => StridedBounds(TypeBounds(o), 1, n, 0)
    case Vector(n, bl, s, o) =>
      var ob := TypeBounds(o);
      StridedBounds(ob, n, bl, s * (ob.ub - ob.lb))
    case Hvector(n, bl, s, o) => StridedBounds(TypeBounds(o), n, bl, s)
    case Hindexed(bls, ds, o) => HullOrEmpty(Hull(TypeBounds(o), bls, ds))
    case HindexedBlock(bl, ds, o) => HullOrEmpty(Hull(TypeBounds(o), seq(|ds|, _ => bl), ds))
    case Subarray(sz, _, _, o) =>
      var ob := TypeBounds(o);
      MulNonneg(Product(sz), ob.ub - ob.lb);
      Bounds(0, Product(sz) * (ob.ub - ob.lb))
  }

  /** The distance between consecutive copies of `t` in a block. */
  function Extent(t: Ty): nat
    requires WellFormed(t)
  {
    TypeBounds(t).ub - TypeBounds(t).lb
  }

  /** The ordered byte runs of `t` placed at byte displacement `base`. */
  function Flatten(t: Ty, base: int): seq<Run>
    requires WellFormed(t)
    decreases t, 0, 0, 0, 0
  {
    match t
    case Prim(p) => [Run(base, Size(p))]
    case Contiguous(n, o) => Block(o, n, base)
    case Vector(n, bl, s, o) => Strided(o, n, bl, s * Extent(o), base)
    case Hvector(n, bl, s, o) => Strided(o, n, bl, s, base)
    case Hindexed(bls, ds, o) => Indexed(o, bls, ds, base)
    case HindexedBlock(bl, ds, o) => IndexedBlock(o, bl, ds, base)
    case Subarray(sz, sub, st, o) => SubarrayRuns(o, sz, sub, st, base)
  }

  /** `n` copies of `o`, each one extent after the previous. */
  function Copies(o: Ty, n: nat, base: int): seq<Run>
    requires WellFormed(o)
    decreases o, 1, 0, 0, n
  {
    if n == 0 then [] else Flatten(o, base) + Copies(o, n - 1, base + Extent(o))
  }

  /** A block of `n` consecutive copies of `o`; a block of a predefined type
      is a single run of `n` elements. */
  function Block(o: Ty, n: nat, base: int): seq<Run>
    requires WellFormed(o)
    decreases o, 2, 0, 0, 0
  {
    if o.Prim? then [Run(base, n * Size(o.basic))] else Copies(o, n, base)
  }

  /** `count` blocks of `blocklength` copies of `o`, block starts `stride`
      bytes apart. */
  function Strided(o: Ty, count: nat, blocklength: nat, stride: int, base: int): seq<Run>
    requires WellFormed(o)
    decreases o, 3, 0, 0, count
  {
    if count == 0 then []
    else Block(o, blocklength, base) + Strided(o, count - 1, blocklength, stride, base + stride)
  }

  /** Block `i` holds `bls[i]` copies of `o` at byte displacement `ds[i]`. */
  function Indexed(o: Ty, bls: seq<nat>, ds: seq<int>, base: int): seq<Run>
    requires WellFormed(o) && |bls| == |ds|
    decreases o, 3, 0, 0, |ds|
  {
    if ds == [] then []
    else Block(o, bls[0], base + ds[0]) + Indexed(o, bls[1..], ds[1..], base)
  }

  /** Block `i` holds `bl` copies of `o` at byte displacement `ds[i]`. */
  function IndexedBlock(o: Ty, bl: nat, ds: seq<int>, base: int): seq<Run>
    requires WellFormed(o)
    decreases o, 3, 0, 0, |ds|
  {
    if ds == [] then []
    else Block(o, bl, base + ds[0]) + IndexedBlock(o, bl, ds[1..], base)
  }

  /** The elements of a C-order subarray: the first dimension is outermost;
      along the last one the selected elements form one block. */
  function SubarrayRuns(o: Ty, sz: seq<nat>, sub: seq<nat>, st: seq<nat>, base: int): seq<Run>
    requires WellFormed(o) && ValidSubarray(sz, sub, st)
    decreases o, 4, |sz|, 1, 0
  {
    if |sz| == 1 then Block(o, sub[0], base + st[0] * Extent(o))
    else Slabs(o, sz, sub, st, sub[0], base + st[0] * (Product(sz[1..]) * Extent(o)))
  }

  /** `n` consecutive slabs along the first dimension, each the subarray of
      the remaining dimensions; slabs are `Product(sz[1..])` elements apart. */
  function Slabs(o: Ty, sz: seq<nat>, sub: seq<nat>, st: seq<nat>, n: nat, base: int): seq<Run>
    requires WellFormed(o) && ValidSubarray(sz, sub, st) && |sz| >= 2
    decreases o, 4, |sz|, 0, n
  {
    if n == 0 then []
    else
      assert ValidSubarray(sz[1..], sub[1..], st[1..]) by { TailValid(sz, sub, st); }
      SubarrayRuns(o, sz[1..], sub[1..], st[1..], base)
        + Slabs(o, sz, sub, st, n - 1, base + Product(sz[1..]) * Extent(o))
  }

  lemma TailValid(sz: seq<nat>, sub: seq<nat>, st: seq<nat>)
    requires ValidSubarray(sz, sub, st) && |sz| >= 2
    ensures ValidSubarray(sz[1..], sub[1..], st[1..])
  {
    forall i | 0 <= i < |sz| - 1
      ensures 1 <= sub[1..][i] && st[1..][i] + sub[1..][i] <= sz[1..][i]
    {
      assert sub[1..][i] == sub[i + 1] && st[1..][i] == st[i + 1] && sz[1..][i] == sz[i + 1];
    }
  }

  /** Blocks of a predefined type: block `k` is one run of `blocklength`
      elements starting `k * stride` bytes after `base`. */
  lemma {:induction false} StridedPrim(p: Basic, count: nat, blocklength: nat, stride: int, base: int)
    ensures Strided(Prim(p), count, blocklength, stride, base) == Row(count, stride, blocklength * Size(p), base)
  {
    if count > 0 {
      StridedPrim(p, count - 1, blocklength, stride, base + stride);
    }
  }

  /** A block of one copy is the copy itself. */
  lemma BlockOne(o: Ty, base: int)
    requires WellFormed(o)
    ensures Block(o, 1, base) == Flatten(o, base)
  {
    if !o.Prim? {
      assert Copies(o, 1, base) == Flatten(o, base) + Copies(o, 0, base + Extent(o));
    }
  }

  /** Repeating, with blocklength 1, a type that is a single run gives a row
      of runs. */
  lemma {:induction false} StridedUnitRun(o: Ty, count: nat, stride: int, len: nat, base: int)
    requires WellFormed(o)
    requires forall b :: Flatten(o, b) == [Run(b, len)]
    ensures Strided(o, count, 1, stride, base) == Row(count, stride, len, base)
  {
    if count > 0 {
      calc {
        Strided(o, count, 1, stride, base);
      ==
        Block(o, 1, base) + Strided(o, count - 1, 1, stride, base + stride);
      == { BlockOne(o, base); }
        Flatten(o, base) + Strided(o, count - 1, 1, stride, base + stride);
      == { StridedUnitRun(o, count - 1, stride, len, base + stride); }
        [Run(base, len)] + Row(count - 1, stride, len, base + stride);
      ==
        Row(count, stride, len, base);
      }
    }
  }

  /** Repeating, with blocklength 1, a type that is a row of runs gives a
      grid: the repetitions are the planes. */
  lemma {:induction false} StridedUnitRow(o: Ty, count: nat, stride: int, ny: nat, ystride: int, len: nat, base: int)
    requires WellFormed(o)
    requires forall b :: Flatten(o, b) == Row(ny, ystride, len, b)
    ensures Strided(o, count, 1, stride, base) == Grid(count, ny, stride, ystride, len, base)
  {
    if count > 0 {
      calc {
        Strided(o, count, 1, stride, base);
      ==
        Block(o, 1, base) + Strided(o, count - 1, 1, stride, base + stride);
      == { BlockOne(o, base); }
        Flatten(o, base) + Strided(o, count - 1, 1, stride, base + stride);
      == { StridedUnitRow(o, count - 1, stride, ny, ystride, len, base + stride); }
        Row(ny, ystride, len, base) + Grid(count - 1, ny, stride, ystride, len, base + stride);
      ==
        Grid(count, ny, stride, ystride, len, base);
      }
    }
  }

  /** Repeating, with blocklength 1, two types that cover the same bytes at
      every displacement covers the same bytes. */
  lemma {:induction false} StridedUnitBytes(o: Ty, o': Ty, count: nat, stride: int, base: int)
    requires WellFormed(o) && WellFormed(o')
    requires forall b :: Bytes(Flatten(o, b)) == Bytes(Flatten(o', b))
    ensures Bytes(Strided(o, count, 1, stride, base)) == Bytes(Strided(o', count, 1, stride, base))
  {
    if count > 0 {
      var rest := Strided(o, count - 1, 1, stride, base + stride);
      var rest' := Strided(o', count - 1, 1, stride, base + stride);
      calc {
        Bytes(Strided(o, count, 1, stride, base));
      == { BlockOne(o, base); }
        Bytes(Flatten(o, base) + rest);
      == { BytesAppend(Flatten(o, base), rest); }
        Bytes(Flatten(o, base)) + Bytes(rest);
      == { StridedUnitBytes(o, o', count - 1, stride, base + stride);
           assert Bytes(Flatten(o, base)) == Bytes(Flatten(o', base));
           assert Bytes(rest) == Bytes(rest'); }
        Bytes(Flatten(o', base)) + Bytes(rest');
      == { BytesAppend(Flatten(o', base), rest'); }
        Bytes(Flatten(o', base) + rest');
      == { BlockOne(o', base); }
        Bytes(Strided(o', count, 1, stride, base));
      }
    }
  }

  /** Cutting a block of predefined elements into one run per element
      covers the same bytes as the single run `Block` uses. */
  lemma {:induction false} PrimCopiesBytes(p: Basic, n: nat, base: int)
    ensures Bytes(Copies(Prim(p), n, base)) == Bytes(Block(Prim(p), n, base))
  {
    var s := Size(p);
    SingleRunBytes(base, n * s);
    if n > 0 {
      var rest := Copies(Prim(p), n - 1, base + s);
      calc {
        Bytes(Copies(Prim(p), n, base));
      == { assert Extent(Prim(p)) == s; assert Copies(Prim(p), n, base) == [Run(base, s)] + rest; }
        Bytes([Run(base, s)] + rest);
      == { BytesAppend([Run(base, s)], rest); SingleRunBytes(base, s); }
        Span(base, s) + Bytes(rest);
      == { PrimCopiesBytes(p, n - 1, base + s); SingleRunBytes(base + s, (n - 1) * s); }
        Span(base, s) + Span(base + s, (n - 1) * s);
      == { SpanAppend(base, s, (n - 1) * s); MulPred(n, s); }
        Span(base, n * s);
      }
    } else {
      assert Copies(Prim(p), n, base) == [];
    }
  }

  /** An indexed type over a predefined type has run `i` at `ds[i]`. */
  lemma {:induction false} IndexedPrim(p: Basic, bls: seq<nat>, ds: seq<int>, base: int)
    requires |bls| == |ds|
    ensures Indexed(Prim(p), bls, ds, base) ==
      seq(|ds|, i requires 0 <= i < |ds| => Run(base + ds[i], bls[i] * Size(p)))
  {
    if ds != [] {
      IndexedPrim(p, bls[1..], ds[1..], base);
    }
  }

  /** MPI_Type_create_hindexed_block is MPI_Type_create_hindexed with every
      block length equal: same runs and same bounds. */
  lemma {:induction false} HindexedBlockIsHindexed(o: Ty, bl: nat, ds: seq<int>, base: int)
    requires WellFormed(o)
    ensures WellFormed(Hindexed(seq(|ds|, _ => bl), ds, o))
    ensures Flatten(HindexedBlock(bl, ds, o), base) == Flatten(Hindexed(seq(|ds|, _ => bl), ds, o), base)
    ensures TypeBounds(HindexedBlock(bl, ds, o)) == TypeBounds(Hindexed(seq(|ds|, _ => bl), ds, o))
  {
    IndexedBlockIsIndexed(o, bl, ds, base);
  }

  lemma {:induction false} IndexedBlockIsIndexed(o: Ty, bl: nat, ds: seq<int>, base: int)
    requires WellFormed(o)
    ensures IndexedBlock(o, bl, ds, base) == Indexed(o, seq(|ds|, _ => bl), ds, base)
  {
    if ds != [] {
      var u: seq<nat> := seq(|ds|, _ => bl);
      assert u[1..] == seq(|ds[1..]|, _ => bl);
      IndexedBlockIsIndexed(o, bl, ds[1..], base);
    }
  }

  /** Slabs each of which is one run form a row whose stride is one slab. */
  lemma {:induction false} SlabsRun(o: Ty, sz: seq<nat>, sub: seq<nat>, st: seq<nat>, n: nat, len: nat, base: int)
    requires WellFormed(o) && ValidSubarray(sz, sub, st) && |sz| >= 2
    requires ValidSubarray(sz[1..], sub[1..], st[1..])
    requires forall b :: SubarrayRuns(o, sz[1..], sub[1..], st[1..], b) == [Run(b, len)]
    ensures Slabs(o, sz, sub, st, n, base) == Row(n, Product(sz[1..]) * Extent(o), len, base)
  {
    if n > 0 {
      SlabsRun(o, sz, sub, st, n - 1, len, base + Product(sz[1..]) * Extent(o));
    }
  }

  /** Slabs each of which is a row form a grid whose planes are the slabs. */
  lemma {:induction false} SlabsRow(o: Ty, sz: seq<nat>, sub: seq<nat>, st: seq<nat>, n: nat,
                                    ny: nat, ystride: int, len: nat, base: int)
    requires WellFormed(o) && ValidSubarray(sz, sub, st) && |sz| >= 2
    requires ValidSubarray(sz[1..], sub[1..], st[1..])
    requires forall b :: SubarrayRuns(o, sz[1..], sub[1..], st[1..], b) == Row(ny, ystride, len, b)
    ensures Slabs(o, sz, sub, st, n, base) == Grid(n, ny, Product(sz[1..]) * Extent(o), ystride, len, base)
  {
    if n > 0 {
      SlabsRow(o, sz, sub, st, n - 1, ny, ystride, len, base + Product(sz[1..]) * Extent(o));
    }
  }

  /** C order in two dimensions: element (i, j) of an `s0 x s1` byte array
      is at `i * s1 + j`, so the selected `m0 x m1` corner is `m0` runs of
      `m1` bytes, `s1` bytes apart. */
  lemma Subarray2DRuns(s0: nat, s1: nat, m0: nat, m1: nat, base: int)
    requires ValidSubarray([s0, s1], [m0, m1], [0, 0])
    ensures SubarrayRuns(Prim(Byte), [s0, s1], [m0, m1], [0, 0], base) == Row(m0, s1, m1, base)
  {
    var sz, sub, st := [s0, s1], [m0, m1], [0, 0];
    assert sz[1..] == [s1] && sub[1..] == [m1] && st[1..] == [0];
    assert Extent(Prim(Byte)) == 1;
    assert Product([s1]) == s1;
    TailValid(sz, sub, st);
    forall b | true
      ensures SubarrayRuns(Prim(Byte), [s1], [m1], [0], b) == [Run(b, m1)]
    {
      assert SubarrayRuns(Prim(Byte), [s1], [m1], [0], b) == Block(Prim(Byte), m1, b + 0 * 1);
    }
    assert SubarrayRuns(Prim(Byte), sz, sub, st, base) == Slabs(Prim(Byte), sz, sub, st, m0, base + 0 * (s1 * 1));
    SlabsRun(Prim(Byte), sz, sub, st, m0, m1, base);
  }

  /** C order in three dimensions: element (i, j, k) of an `s0 x s1 x s2`
      byte array is at `i * s1 * s2 + j * s2 + k`; the last dimension is
      the one whose selected elements are contiguous. */
  lemma Subarray3DRuns(s0: nat, s1: nat, s2: nat, m0: nat, m1: nat, m2: nat, base: int)
    requires ValidSubarray([s0, s1, s2], [m0, m1, m2], [0, 0, 0])
    ensures SubarrayRuns(Prim(Byte), [s0, s1, s2], [m0, m1, m2], [0, 0, 0], base) == Grid(m0, m1, s1 * s2, s2, m2, base)
  {
    var sz, sub, st := [s0, s1, s2], [m0, m1, m2], [0, 0, 0];
    assert sz[1..] == [s1, s2] && sub[1..] == [m1, m2] && st[1..] == [0, 0];
    assert Extent(Prim(Byte)) == 1;
    assert Product([s1, s2]) == s1 * s2 by {
      assert [s1, s2][1..] == [s2];
      assert Product([s2]) == s2;
    }
    TailValid(sz, sub, st);
    assert SubarrayRuns(Prim(Byte), sz, sub, st, base) == Slabs(Prim(Byte), sz, sub, st, m0, base + 0 * (s1 * s2 * 1));
    forall b | true
      ensures SubarrayRuns(Prim(Byte), [s1, s2], [m1, m2], [0, 0], b) == Row(m1, s2, m2, b)
    {
      Subarray2DRuns(s1, s2, m1, m2, b);
    }
    SlabsRow(Prim(Byte), sz, sub, st, m0, m1, s2, m2, base);
  }
}
