/** Byte runs: the vocabulary in which every datatype layout is compared.
    A layout is an ordered sequence of runs; two layouts describe the same
    data when they have the same ordered byte displacements. */
module Runs {

  /** `len` contiguous bytes starting at byte displacement `off`. */
  datatype Run = Run(off: int, len: nat)

  /** The `n` consecutive displacements `off, off + 1, ..., off + n - 1`. */
  function Span(off: int, n: nat): seq<int>
  {
    seq(n, i => off + i)
  }

  /** The ordered byte displacements covered by `rs`, i.e. the type map of
      the layout once every run is cut into single bytes. */
  function Bytes(rs: seq<Run>): seq<int>
  {
    if rs == [] then [] else Span(rs[0].off, rs[0].len) + Bytes(rs[1..])
  }

  /** The displacement of every run, in order. */
  function Offsets(rs: seq<Run>): (ds: seq<int>)
    ensures |ds| == |rs| && forall i :: 0 <= i < |rs| ==> ds[i] == rs[i].off
  {
    seq(|rs|, i requires 0 <= i < |rs| => rs[i].off)
  }

  lemma {:induction false} BytesAppend(a: seq<Run>, b: seq<Run>)
    ensures Bytes(a + b) == Bytes(a) + Bytes(b)
  {
    if a == [] {
      assert a + b == b;
    } else {
      assert (a + b)[1..] == a[1..] + b;
      BytesAppend(a[1..], b);
    }
  }

  lemma SpanAppend(off: int, n: nat, m: nat)
    ensures Span(off, n) + Span(off + n, m) == Span(off, n + m)
  {
  }

  /** Every run holds at least one byte. */
  predicate Positive(rs: seq<Run>)
  {
    forall i :: 0 <= i < |rs| ==> rs[i].len > 0
  }

  /** No run ends where the next one begins: no two neighbours could merge. */
  predicate Maximal(rs: seq<Run>)
  {
    forall i :: 0 <= i < |rs| - 1 ==> rs[i].off + rs[i].len != rs[i + 1].off
  }

  /** Groups a displacement sequence into maximal runs of consecutive
      displacements; cutting the runs back into bytes gives `bs` again. */
  function RunsOf(bs: seq<int>): (rs: seq<Run>)
    ensures Bytes(rs) == bs
    ensures Positive(rs) && Maximal(rs)
    ensures (rs == []) == (bs == [])
    ensures rs != [] ==> rs[0].off == bs[0]
  {
    if bs == [] then []
    else
      var rest := RunsOf(bs[1..]);
      assert bs == [bs[0]] + bs[1..];
      if rest != [] && rest[0].off == bs[0] + 1 then
        ExtendFirst(bs[0], rest);
        [Run(bs[0], rest[0].len + 1)] + rest[1..]
      else
        PrependByte(bs[0], rest);
        [Run(bs[0], 1)] + rest
  }

  /** Growing the first run one byte downwards adds that byte in front and
      keeps the runs positive and maximal. */
  lemma ExtendFirst(b: int, rest: seq<Run>)
    requires rest != [] && rest[0].off == b + 1
    requires Positive(rest) && Maximal(rest)
    ensures Bytes([Run(b, rest[0].len + 1)] + rest[1..]) == [b] + Bytes(rest)
    ensures Positive([Run(b, rest[0].len + 1)] + rest[1..])
    ensures Maximal([Run(b, rest[0].len + 1)] + rest[1..])
  {
    ExtendFirstBytes(b, rest);
    ExtendFirstShape(b, rest);
  }

  lemma ExtendFirstShape(b: int, rest: seq<Run>)
    requires rest != [] && rest[0].off == b + 1
    requires Positive(rest) && Maximal(rest)
    ensures Positive([Run(b, rest[0].len + 1)] + rest[1..])
    ensures Maximal([Run(b, rest[0].len + 1)] + rest[1..])
  {
    var r := [Run(b, rest[0].len + 1)] + rest[1..];
    assert |r| == |rest|;
    assert forall i :: 1 <= i < |r| ==> r[i] == rest[i];
  }

  lemma ExtendFirstBytes(b: int, rest: seq<Run>)
    requires rest != []
    ensures Bytes([Run(b, rest[0].len + 1)] + rest[1..]) == [b] + Span(b + 1, rest[0].len) + Bytes(rest[1..])
  {
    var len := rest[0].len;
    var r := [Run(b, len + 1)] + rest[1..];
    assert r[0] == Run(b, len + 1) && r[1..] == rest[1..];
    calc {
      Bytes(r);
    ==
      Span(b, len + 1) + Bytes(rest[1..]);
    == { SpanAppend(b, 1, len); assert Span(b, 1) == [b]; }
      [b] + Span(b + 1, len) + Bytes(rest[1..]);
    }
  }

  /** A one-byte run in front adds that byte in front; it keeps the runs
      positive and maximal when the next run does not start right after. */
  lemma PrependByte(b: int, rest: seq<Run>)
    requires Positive(rest) && Maximal(rest)
    requires rest != [] ==> rest[0].off != b + 1
    ensures Bytes([Run(b, 1)] + rest) == [b] + Bytes(rest)
    ensures Positive([Run(b, 1)] + rest) && Maximal([Run(b, 1)] + rest)
  {
    var r := [Run(b, 1)] + rest;
    assert r[1..] == rest;
    assert Span(b, 1) == [b];
    PrependShape(b, rest);
  }

  lemma PrependShape(b: int, rest: seq<Run>)
    requires Positive(rest) && Maximal(rest)
    requires rest != [] ==> rest[0].off != b + 1
    ensures Positive([Run(b, 1)] + rest) && Maximal([Run(b, 1)] + rest)
  {
    var r := [Run(b, 1)] + rest;
    assert forall i :: 1 <= i < |r| ==> r[i] == rest[i - 1];
  }

  /** Merges adjacent runs and drops empty ones: the canonical form of a
      layout. Two layouts with the same bytes have the same canonical form. */
  function Coalesce(rs: seq<Run>): (m: seq<Run>)
    ensures Bytes(m) == Bytes(rs)
    ensures Positive(m) && Maximal(m)
  {
    RunsOf(Bytes(rs))
  }

  /** A single run covers exactly its span. */
  lemma SingleRunBytes(off: int, n: nat)
    ensures Bytes([Run(off, n)]) == Span(off, n)
  {
    assert Bytes([Run(off, n)]) == Span(off, n) + Bytes([]);
  }

  lemma {:induction false} RunsOfSpan(off: int, n: nat)
    requires n > 0
    ensures RunsOf(Span(off, n)) == [Run(off, n)]
    decreases n
  {
    if n > 1 {
      assert Span(off, n)[1..] == Span(off + 1, n - 1);
      RunsOfSpan(off + 1, n - 1);
    } else {
      assert Span(off, n)[1..] == [];
    }
  }

  /** `n` runs of `len` bytes, the k-th starting at `base + k * stride`. */
  function Row(n: nat, stride: int, len: nat, base: int): seq<Run>
  {
    if n == 0 then [] else [Run(base, len)] + Row(n - 1, stride, len, base + stride)
  }

  /** `nz` copies of `Row(ny, ystride, len, _)`, the k-th starting at
      `base + k * zstride`: plane after plane, row after row. */
  function Grid(nz: nat, ny: nat, zstride: int, ystride: int, len: nat, base: int): seq<Run>
  {
    if nz == 0 then []
    else Row(ny, ystride, len, base) + Grid(nz - 1, ny, zstride, ystride, len, base + zstride)
  }

  lemma {:induction false} RowAt(n: nat, stride: int, len: nat, base: int)
    ensures |Row(n, stride, len, base)| == n
    ensures forall k :: 0 <= k < n ==> Row(n, stride, len, base)[k] == Run(base + k * stride, len)
  {
    if n > 0 {
      RowAt(n - 1, stride, len, base + stride);
      var r := Row(n, stride, len, base);
      forall k | 0 <= k < n
        ensures r[k] == Run(base + k * stride, len)
      {
        if k > 0 {
          assert r[k] == Row(n - 1, stride, len, base + stride)[k - 1];
          assert base + stride + (k - 1) * stride == base + k * stride;
        }
      }
    }
  }

  /** Entry `z * ny + y` of a grid is row `y` of plane `z`. */
  lemma {:induction false} GridAt(nz: nat, ny: nat, zstride: int, ystride: int, len: nat, base: int, z: nat, y: nat)
    requires z < nz && y < ny
    ensures |Grid(nz, ny, zstride, ystride, len, base)| == nz * ny
    ensures z * ny + y < nz * ny
    ensures Grid(nz, ny, zstride, ystride, len, base)[z * ny + y] == Run(base + z * zstride + y * ystride, len)
  {
    GridLength(nz, ny, zstride, ystride, len, base);
    IndexBound(nz, ny, z, y);
    GridEntry(nz, ny, zstride, ystride, len, base, z, y);
  }

  lemma IndexBound(nz: nat, ny: nat, z: nat, y: nat)
    requires z < nz && y < ny
    ensures z * ny + y < nz * ny
  {
    MulPred(z + 1, ny);
    MulLe(z + 1, nz, ny);
  }

  lemma {:induction false} GridEntry(nz: nat, ny: nat, zstride: int, ystride: int, len: nat, base: int, z: nat, y: nat)
    requires z < nz && y < ny
    ensures z * ny + y < |Grid(nz, ny, zstride, ystride, len, base)|
    ensures Grid(nz, ny, zstride, ystride, len, base)[z * ny + y] == Run(base + z * zstride + y * ystride, len)
  {
    GridLength(nz, ny, zstride, ystride, len, base);
    IndexBound(nz, ny, z, y);
    var row: seq<Run> := Row(ny, ystride, len, base);
    var rest: seq<Run> := Grid(nz - 1, ny, zstride, ystride, len, base + zstride);
    assert Grid(nz, ny, zstride, ystride, len, base) == row + rest;
    if z == 0 {
      RowAt(ny, ystride, len, base);
      ZeroPlane(ny, zstride, y);
      assert (row + rest)[y] == row[y];
    } else {
      RowLength(ny, ystride, len, base);
      var j := (z - 1) * ny + y;
      MulNonneg(z - 1, ny);
      GridEntry(nz - 1, ny, zstride, ystride, len, base + zstride, z - 1, y);
      assert rest[j] == Run(base + zstride + (z - 1) * zstride + y * ystride, len);
      NextPlane(ny, zstride, z, y);
      AppendIndex(row, rest, j);
    }
  }

  lemma {:induction false} RowLength(n: nat, stride: int, len: nat, base: int)
    ensures |Row(n, stride, len, base)| == n
  {
    if n > 0 {
      RowLength(n - 1, stride, len, base + stride);
    }
  }

  lemma ZeroPlane(ny: int, zstride: int, y: int)
    ensures 0 * ny + y == y && 0 * zstride == 0
  {
  }

  lemma NextPlane(ny: int, zstride: int, z: int, y: int)
    ensures z * ny + y == ny + ((z - 1) * ny + y)
    ensures z * zstride == zstride + (z - 1) * zstride
  {
    MulPred(z, ny);
    MulPred(z, zstride);
  }

  lemma AppendIndex<T>(a: seq<T>, b: seq<T>, k: int)
    requires 0 <= k < |b|
    ensures (a + b)[|a| + k] == b[k]
  {
  }

  lemma MulPred(a: int, b: int)
    ensures a * b == b + (a - 1) * b
  {
  }

  lemma MulZero(b: int)
    ensures 0 * b == 0
  {
  }

  lemma MulNonneg(a: int, b: int)
    requires a >= 0 && b >= 0
    ensures a * b >= 0
  {
  }

  lemma {:induction false} GridLength(nz: nat, ny: nat, zstride: int, ystride: int, len: nat, base: int)
    ensures |Grid(nz, ny, zstride, ystride, len, base)| == nz * ny
  {
    if nz > 0 {
      RowAt(ny, ystride, len, base);
      GridLength(nz - 1, ny, zstride, ystride, len, base + zstride);
      MulPred(nz, ny);
    }
  }

  /** Every run of a grid has length `len` and starts at or after `base`. */
  lemma {:induction false} GridRuns(nz: nat, ny: nat, zstride: int, ystride: int, len: nat, base: int)
    requires ystride >= 0 && zstride >= 0
    ensures forall i :: 0 <= i < |Grid(nz, ny, zstride, ystride, len, base)| ==>
      Grid(nz, ny, zstride, ystride, len, base)[i].len == len &&
      Grid(nz, ny, zstride, ystride, len, base)[i].off >= base
  {
    if nz > 0 {
      var row: seq<Run> := Row(ny, ystride, len, base);
      var rest: seq<Run> := Grid(nz - 1, ny, zstride, ystride, len, base + zstride);
      RowAt(ny, ystride, len, base);
      GridRuns(nz - 1, ny, zstride, ystride, len, base + zstride);
      forall i | 0 <= i < |row + rest|
        ensures (row + rest)[i].len == len && (row + rest)[i].off >= base
      {
        if i < |row| {
          assert (row + rest)[i] == row[i];
        } else {
          assert (row + rest)[i] == rest[i - |row|];
        }
      }
    }
  }

  /** Runs start at least `g` bytes after every earlier run starts. */
  predicate Spaced(rs: seq<Run>, g: int)
  {
    forall i, j :: 0 <= i < j < |rs| ==> rs[i].off + g <= rs[j].off
  }

  /** No run overlaps a later one, and runs appear in address order. */
  predicate NonOverlapping(rs: seq<Run>)
  {
    forall i, j :: 0 <= i < j < |rs| ==> rs[i].off + rs[i].len <= rs[j].off
  }

  /** Run displacements strictly increase in sequence order. */
  predicate Increasing(rs: seq<Run>)
  {
    forall i, j :: 0 <= i < j < |rs| ==> rs[i].off < rs[j].off
  }

  lemma MulAssoc(a: int, b: int, c: int)
    ensures a * b * c == a * (b * c)
  {
  }

  lemma MulLe(k: int, n: int, s: int)
    requires 0 <= k <= n && s >= 0
    ensures k * s <= n * s
  {
  }

  lemma {:induction false} RowSpaced(n: nat, stride: int, len: nat, base: int, g: int)
    requires 0 <= g <= stride
    ensures Spaced(Row(n, stride, len, base), g)
    ensures forall k :: 0 <= k < |Row(n, stride, len, base)| ==>
      base <= Row(n, stride, len, base)[k].off && Row(n, stride, len, base)[k].off + g <= base + n * stride
  {
    var r := Row(n, stride, len, base);
    RowAt(n, stride, len, base);
    forall i, j | 0 <= i < j < |r|
      ensures r[i].off + g <= r[j].off
    {
      MulLe(i + 1, j, stride);
      MulPred(i + 1, stride);
    }
    forall k | 0 <= k < |r|
      ensures base <= r[k].off && r[k].off + g <= base + n * stride
    {
      MulNonneg(k, stride);
      MulLe(k + 1, n, stride);
      MulPred(k + 1, stride);
    }
  }

  lemma SpacedAppend(a: seq<Run>, b: seq<Run>, g: int)
    requires Spaced(a, g) && Spaced(b, g)
    requires forall i, j :: 0 <= i < |a| && 0 <= j < |b| ==> a[i].off + g <= b[j].off
    ensures Spaced(a + b, g)
  {
    forall i, j | 0 <= i < j < |a + b|
      ensures (a + b)[i].off + g <= (a + b)[j].off
    {
      if j < |a| {
        assert (a + b)[i] == a[i] && (a + b)[j] == a[j];
      } else if i < |a| {
        assert (a + b)[i] == a[i] && (a + b)[j] == b[j - |a|];
      } else {
        assert (a + b)[i] == b[i - |a|] && (a + b)[j] == b[j - |a|];
      }
    }
  }

  /** A grid whose rows fit their y stride and whose planes fit their z
      stride lists its runs in address order, each `g <= ystride` bytes
      after the previous one starts. */
  lemma {:induction false} GridSpaced(nz: nat, ny: nat, zstride: int, ystride: int, len: nat, base: int, g: int)
    requires 0 <= g <= ystride && ny * ystride <= zstride
    ensures Spaced(Grid(nz, ny, zstride, ystride, len, base), g)
  {
    if nz > 0 {
      var row: seq<Run> := Row(ny, ystride, len, base);
      var rest: seq<Run> := Grid(nz - 1, ny, zstride, ystride, len, base + zstride);
      RowSpaced(ny, ystride, len, base, g);
      GridSpaced(nz - 1, ny, zstride, ystride, len, base + zstride, g);
      MulLe(0, ny, ystride);
      GridRuns(nz - 1, ny, zstride, ystride, len, base + zstride);
      SpacedAppend(row, rest, g);
    }
  }

  /** A row whose run length equals its stride covers one contiguous span
      of bytes. */
  lemma {:induction false} DenseRowBytes(n: nat, len: nat, base: int)
    ensures Bytes(Row(n, len, len, base)) == Span(base, n * len)
  {
    if n > 0 {
      var rest := Row(n - 1, len, len, base + len);
      MulNonneg(n - 1, len);
      var q: nat := (n - 1) * len;
      assert n * len == len + q by { MulPred(n, len); }
      calc {
        Bytes(Row(n, len, len, base));
      == { assert Row(n, len, len, base) == [Run(base, len)] + rest; }
        Span(base, len) + Bytes(rest);
      == { DenseRowBytes(n - 1, len, base + len); }
        Span(base, len) + Span(base + len, q);
      == { SpanAppend(base, len, q); }
        Span(base, len + q);
      }
    }
  }

  /** A grid whose run length equals its y stride and whose z stride is a
      whole plane covers one contiguous span of bytes. */
  lemma {:induction false} DenseGridBytes(nz: nat, ny: nat, len: nat, base: int)
    ensures Bytes(Grid(nz, ny, ny * len, len, len, base)) == Span(base, nz * (ny * len))
  {
    if nz > 0 {
      MulNonneg(ny, len);
      var p: nat := ny * len;
      MulNonneg(nz - 1, p);
      var q: nat := (nz - 1) * p;
      var row := Row(ny, len, len, base);
      var rest := Grid(nz - 1, ny, p, len, len, base + p);
      assert nz * p == p + q by { MulPred(nz, p); }
      calc {
        Bytes(Grid(nz, ny, p, len, len, base));
      == { assert Grid(nz, ny, p, len, len, base) == row + rest; }
        Bytes(row + rest);
      == { BytesAppend(row, rest); }
        Bytes(row) + Bytes(rest);
      == { DenseRowBytes(ny, len, base); DenseGridBytes(nz - 1, ny, len, base + p); }
        Span(base, p) + Span(base + p, q);
      == { SpanAppend(base, p, q); }
        Span(base, p + q);
      }
    }
  }

  /** A grid covers `nz * ny * len` bytes in all. */
  lemma {:induction false} GridByteCount(nz: nat, ny: nat, zstride: int, ystride: int, len: nat, base: int)
    ensures |Bytes(Grid(nz, ny, zstride, ystride, len, base))| == nz * ny * len
  {
    if nz > 0 {
      var row: seq<Run> := Row(ny, ystride, len, base);
      var rest: seq<Run> := Grid(nz - 1, ny, zstride, ystride, len, base + zstride);
      BytesAppend(row, rest);
      RowByteCount(ny, ystride, len, base);
      GridByteCount(nz - 1, ny, zstride, ystride, len, base + zstride);
      MulPred(nz, ny * len);
      MulAssoc(nz, ny, len);
      MulAssoc(nz - 1, ny, len);
    }
  }

  lemma {:induction false} RowByteCount(n: nat, stride: int, len: nat, base: int)
    ensures |Bytes(Row(n, stride, len, base))| == n * len
  {
    if n > 0 {
      var rest := Row(n - 1, stride, len, base + stride);
      assert Row(n, stride, len, base) == [Run(base, len)] + rest;
      assert Bytes(Row(n, stride, len, base)) == Span(base, len) + Bytes(rest);
      RowByteCount(n - 1, stride, len, base + stride);
      MulPred(n, len);
    }
  }

  /** The bytes of a layout are its first run's span followed by the
      bytes of the rest. */
  lemma BytesHead(rs: seq<Run>)
    requires rs != []
    ensures Bytes(rs) == Span(rs[0].off, rs[0].len) + Bytes(rs[1..])
  {
  }
}
