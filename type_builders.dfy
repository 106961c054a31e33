/** The layout-descriptor builders of support/type.cpp. Each builder takes a
    copy extent (the region being transferred) and an allocation extent
    (the 3-D byte array holding it, region at the origin) and returns the
    MPI datatype it constructs. The common promise is that every encoding
    describes the same ordered rows: row (y, z) of the region starts at
    `z * allocExt.y * allocExt.x + y * allocExt.x` and spans `copyExt.x`
    bytes, with z the outer and y the inner loop (`Rows`). */
module TypeBuilders {
  import opened Runs
  import opened MpiTypes

  /** A 3-D extent in bytes; x is the axis along a row, z the slowest.
      Index 0, 1, 2 of the source's extents is read as x, y, z. */
  datatype Dim3 = Dim3(x: nat, y: nat, z: nat)

  const INT_MAX: int := 0x7fff_ffff

  const INT64_MAX: int := 0x7fff_ffff_ffff_ffff

  /** make_byte_v_hv, make_byte_v1_hv_hv and make_byte_vn_hv_hv narrow the
      counts `copyExt.x`, `copyExt.y`, `copyExt.z`, the row stride
      `allocExt.x` and the plane stride `allocExt.x * allocExt.y` to `int`. */
  predicate VectorFits(c: Dim3, a: Dim3)
  {
    c.x <= INT_MAX && c.y <= INT_MAX && c.z <= INT_MAX &&
    a.x <= INT_MAX && a.x * a.y <= INT_MAX
  }

  /** make_float_v_hv narrows the float counts `copyExt.x / 4` and
      `allocExt.x / 4` instead of the byte ones. */
  predicate FloatVectorFits(c: Dim3, a: Dim3)
  {
    c.x / 4 <= INT_MAX && c.y <= INT_MAX && c.z <= INT_MAX &&
    a.x / 4 <= INT_MAX && a.x * a.y <= INT_MAX
  }

  /** make_hi and make_hib narrow the row count `copyExt.z * copyExt.y` and
      the block length `copyExt.x` to `int`, and compute every displacement
      in 64 bits; bounding the products by the last plane's keeps each of
      them exact. */
  predicate HindexedFits(c: Dim3, a: Dim3)
  {
    c.x <= INT_MAX && c.z * c.y <= INT_MAX &&
    c.z * a.y <= INT64_MAX && c.z * a.y * a.x + c.y * a.x <= INT64_MAX
  }

  /** make_subarray casts all six extents to `int`. */
  predicate SubarrayFits(c: Dim3, a: Dim3)
  {
    c.x <= INT_MAX && c.y <= INT_MAX && c.z <= INT_MAX &&
    a.x <= INT_MAX && a.y <= INT_MAX && a.z <= INT_MAX
  }

  /** make_subarray_v casts the plane's four extents and the plane count
      `copyExt.z`; `allocExt.z` is never used. */
  predicate SubarrayVFits(c: Dim3, a: Dim3)
  {
    c.x <= INT_MAX && c.y <= INT_MAX && c.z <= INT_MAX &&
    a.x <= INT_MAX && a.y <= INT_MAX
  }

  /** The copy region lies inside the allocation on every axis. */
  predicate Within(c: Dim3, a: Dim3)
  {
    c.x <= a.x && c.y <= a.y && c.z <= a.z
  }

  /** The reference layout: `copyExt.z` planes `allocExt.x * allocExt.y`
      bytes apart, each of `copyExt.y` rows `allocExt.x` bytes apart, each
      row `copyExt.x` bytes long. */
  function Rows(c: Dim3, a: Dim3): seq<Run>
  {
    Grid(c.z, c.y, a.x * a.y, a.x, c.x, 0)
  }

  /** Row (y, z) is entry `z * copyExt.y + y`, at
      `z * allocExt.y * allocExt.x + y * allocExt.x`, `copyExt.x` bytes. */
  lemma RowsAt(c: Dim3, a: Dim3, z: nat, y: nat)
    requires z < c.z && y < c.y
    ensures |Rows(c, a)| == c.z * c.y
    ensures z * c.y + y < c.z * c.y
    ensures Rows(c, a)[z * c.y + y] == Run(z * a.y * a.x + y * a.x, c.x)
  {
    GridAt(c.z, c.y, a.x * a.y, a.x, c.x, 0, z, y);
    assert z * (a.x * a.y) == z * a.y * a.x;
  }

  lemma RowsLength(c: Dim3, a: Dim3)
    ensures |Rows(c, a)| == c.z * c.y
  {
    GridLength(c.z, c.y, a.x * a.y, a.x, c.x, 0);
  }

  /** The extents of the test program: 611 rows of 100 bytes, the first at
      0 and the last, row (12, 46), at 46 * 131072 + 12 * 256. */
  lemma RowsTestScenario()
    ensures |Rows(Dim3(100, 13, 47), Dim3(256, 512, 1024))| == 611
    ensures Rows(Dim3(100, 13, 47), Dim3(256, 512, 1024))[0] == Run(0, 100)
    ensures Rows(Dim3(100, 13, 47), Dim3(256, 512, 1024))[610] == Run(46 * 131072 + 12 * 256, 100)
  {
    var c, a := Dim3(100, 13, 47), Dim3(256, 512, 1024);
    RowsAt(c, a, 0, 0);
    RowsAt(c, a, 46, 12);
  }

  /** Inside the allocation, rows come in address order and never overlap. */
  lemma RowsNonOverlapping(c: Dim3, a: Dim3)
    requires Within(c, a)
    ensures NonOverlapping(Rows(c, a))
  {
    MulLe(c.y, a.y, a.x);
    assert c.y * a.x <= a.x * a.y;
    GridSpaced(c.z, c.y, a.x * a.y, a.x, c.x, 0, c.x);
    GridRuns(c.z, c.y, a.x * a.y, a.x, c.x, 0);
  }

  /** Inside a non-degenerate allocation the row displacements strictly
      increase in fill order. */
  lemma RowsIncreasing(c: Dim3, a: Dim3)
    requires Within(c, a) && a.x > 0
    ensures Increasing(Rows(c, a))
  {
    MulLe(c.y, a.y, a.x);
    assert c.y * a.x <= a.x * a.y;
    GridSpaced(c.z, c.y, a.x * a.y, a.x, c.x, 0, 1);
  }

  /** When the region is the whole allocation the rows merge into a single
      contiguous run of every byte. */
  lemma RowsWholeAllocation(a: Dim3)
    requires a.x * a.y * a.z > 0
    ensures Coalesce(Rows(a, a)) == [Run(0, a.x * a.y * a.z)]
  {
    RowsDense(a);
    RunsOfSpan(0, a.x * a.y * a.z);
  }

  /** The rows of the whole allocation are every byte of it, in order. */
  lemma RowsDense(a: Dim3)
    ensures Bytes(Rows(a, a)) == Span(0, a.x * a.y * a.z)
  {
    PlaneVolume(a.x, a.y, a.z);
    DenseGridBytes(a.z, a.y, a.x, 0);
  }

  lemma PlaneVolume(x: nat, y: nat, z: nat)
    ensures x * y == y * x
    ensures z * (y * x) == x * y * z
  {
    MulAssoc(x, y, z);
  }

  // ---------------------------------------------------------------------
  // Hindexed encodings

  /** The displacement loop of make_hi and make_hib: for every plane z and
      row y it writes the row's byte offset into slot `z * copyExt.y + y`. */
  method RowDisplacements(c: Dim3, a: Dim3) returns (displacements: array<int>)
    requires HindexedFits(c, a)
    ensures fresh(displacements)
    ensures displacements[..] == Offsets(Rows(c, a))
  {
    RowsLength(c, a);
    displacements := new int[c.z * c.y];
    var z := 0;
    while z < c.z
      invariant 0 <= z <= c.z
      invariant z * c.y <= c.z * c.y
      invariant displacements[..z * c.y] == Offsets(Rows(c, a))[..z * c.y]
    {
      var y := 0;
      while y < c.y
        invariant 0 <= y <= c.y
        invariant z * c.y + y <= c.z * c.y
        invariant displacements[..z * c.y + y] == Offsets(Rows(c, a))[..z * c.y + y]
      {
        var bo := z * a.y * a.x + y * a.x;
        RowsAt(c, a, z, y);
        displacements[z * c.y + y] := bo;
        y := y + 1;
      }
      MulPred(z + 1, c.y);
      MulLe(z + 1, c.z, c.y);
      z := z + 1;
    }
  }

  /** An hindexed type of bytes with the row displacements and uniform block
      length `copyExt.x` is exactly the row layout. */
  lemma HindexedRows(c: Dim3, a: Dim3)
    ensures WellFormed(Hindexed(seq(c.z * c.y, _ => c.x), Offsets(Rows(c, a)), Prim(Byte)))
    ensures Flatten(Hindexed(seq(c.z * c.y, _ => c.x), Offsets(Rows(c, a)), Prim(Byte)), 0) == Rows(c, a)
  {
    var rows := Rows(c, a);
    var ds := Offsets(rows);
    var bls: seq<nat> := seq(c.z * c.y, _ => c.x);
    RowsLength(c, a);
    GridRuns(c.z, c.y, a.x * a.y, a.x, c.x, 0);
    IndexedPrim(Byte, bls, ds, 0);
    assert Indexed(Prim(Byte), bls, ds, 0) == rows;
  }

  /** make_hi: `copyExt.z * copyExt.y` blocks of `copyExt.x` bytes, block
      `z * copyExt.y + y` at the offset of row (y, z). */
  method MakeHi(c: Dim3, a: Dim3) returns (t: Ty)
    requires HindexedFits(c, a)
    ensures t == Hindexed(seq(c.z * c.y, _ => c.x), Offsets(Rows(c, a)), Prim(Byte))
    ensures WellFormed(t) && Flatten(t, 0) == Rows(c, a)
  {
    var count := c.z * c.y;
    var displacements := RowDisplacements(c, a);
    var blocklengths := new nat[count];
    var i := 0;
    while i < count
      modifies blocklengths
      invariant 0 <= i <= count
      invariant forall j :: 0 <= j < i ==> blocklengths[j] == c.x
    {
      blocklengths[i] := c.x;
      i := i + 1;
    }
    assert blocklengths[..] == seq(c.z * c.y, _ => c.x);
    assert displacements[..] == Offsets(Rows(c, a));
    t := Hindexed(blocklengths[..], displacements[..], Prim(Byte));
    HindexedRows(c, a);
  }

  /** make_hib: the same displacements with the single block length
      `copyExt.x`; it describes the same rows as make_hi. */
  method MakeHib(c: Dim3, a: Dim3) returns (t: Ty)
    requires HindexedFits(c, a)
    ensures t == HindexedBlock(c.x, Offsets(Rows(c, a)), Prim(Byte))
    ensures WellFormed(t) && Flatten(t, 0) == Rows(c, a)
  {
    var blocklength := c.x;
    var displacements := RowDisplacements(c, a);
    t := HindexedBlock(blocklength, displacements[..], Prim(Byte));
    RowsLength(c, a);
    HindexedBlockIsHindexed(Prim(Byte), c.x, Offsets(Rows(c, a)), 0);
    HindexedRows(c, a);
  }

  // ---------------------------------------------------------------------
  // Vector / hvector encodings

  /** make_byte_vn_hv_hv: a row of `copyExt.x` one-byte blocks at unit
      stride, repeated along y and z by byte-strided hvectors. */
  function MakeByteVnHvHv(c: Dim3, a: Dim3): (t: Ty)
    requires VectorFits(c, a)
    ensures WellFormed(t)
  {
    var rowType := Vector(c.x, 1, 1, Prim(Byte));
    assert WellFormed(rowType);
    var planeType := Hvector(c.y, 1, a.x, rowType);
    assert WellFormed(planeType);
    Hvector(c.z, 1, a.x * a.y, planeType)
  }

  /** make_byte_v1_hv_hv: a row that is one block of `copyExt.x` bytes,
      repeated along y and z by byte-strided hvectors. */
  function MakeByteV1HvHv(c: Dim3, a: Dim3): (t: Ty)
    requires VectorFits(c, a)
    ensures WellFormed(t)
  {
    var rowType := Vector(1, c.x, a.x, Prim(Byte));
    assert WellFormed(rowType);
    var planeType := Hvector(c.y, 1, a.x, rowType);
    assert WellFormed(planeType);
    Hvector(c.z, 1, a.x * a.y, planeType)
  }

  /** make_byte_v_hv: a plane that is one byte vector of `copyExt.y` blocks
      of `copyExt.x` bytes `allocExt.x` apart, repeated along z. */
  function MakeByteVHv(c: Dim3, a: Dim3): (t: Ty)
    requires VectorFits(c, a)
    ensures WellFormed(t)
  {
    var planeType := Vector(c.y, c.x, a.x, Prim(Byte));
    assert WellFormed(planeType);
    Hvector(c.z, 1, a.x * a.y, planeType)
  }

  /** make_float_v_hv: as make_byte_v_hv but counting 4-byte floats, so the
      block length and row stride are `copyExt.x / 4` and `allocExt.x / 4`
      floats (C division, truncating). */
  function MakeFloatVHv(c: Dim3, a: Dim3): (t: Ty)
    requires FloatVectorFits(c, a)
    ensures WellFormed(t)
  {
    var planeType := Vector(c.y, c.x / 4, a.x / 4, Prim(Float));
    assert WellFormed(planeType);
    Hvector(c.z, 1, a.x * a.y, planeType)
  }

  /** The v1 row unit, one block of `copyExt.x` bytes, gives the rows. */
  lemma ByteV1HvHvLayout(c: Dim3, a: Dim3)
    requires VectorFits(c, a)
    ensures Flatten(MakeByteV1HvHv(c, a), 0) == Rows(c, a)
  {
    var rowType := Vector(1, c.x, a.x, Prim(Byte));
    var planeType := Hvector(c.y, 1, a.x, rowType);
    forall b | true
      ensures Flatten(rowType, b) == [Run(b, c.x)]
    {
      StridedPrim(Byte, 1, c.x, a.x * 1, b);
    }
    forall b | true
      ensures Flatten(planeType, b) == Row(c.y, a.x, c.x, b)
    {
      StridedUnitRun(rowType, c.y, a.x, c.x, b);
    }
    StridedUnitRow(planeType, c.z, a.x * a.y, c.y, a.x, c.x, 0);
  }

  /** The vn row unit splits each row into `copyExt.x` one-byte runs; after
      merging adjacent runs it is the v1 layout, i.e. the rows. */
  lemma ByteVnHvHvLayout(c: Dim3, a: Dim3)
    requires VectorFits(c, a)
    ensures Flatten(MakeByteVnHvHv(c, a).oldtype.oldtype, 0) == Row(c.x, 1, 1, 0)
    ensures Bytes(Flatten(MakeByteVnHvHv(c, a), 0)) == Bytes(Flatten(MakeByteV1HvHv(c, a), 0))
    ensures Coalesce(Flatten(MakeByteVnHvHv(c, a), 0)) == Coalesce(Rows(c, a))
  {
    var rowN := Vector(c.x, 1, 1, Prim(Byte));
    var row1 := Vector(1, c.x, a.x, Prim(Byte));
    var planeN := Hvector(c.y, 1, a.x, rowN);
    var plane1 := Hvector(c.y, 1, a.x, row1);
    forall b | true
      ensures Flatten(rowN, b) == Row(c.x, 1, 1, b)
      ensures Bytes(Flatten(rowN, b)) == Bytes(Flatten(row1, b))
    {
      StridedPrim(Byte, c.x, 1, 1 * 1, b);
      StridedPrim(Byte, 1, c.x, a.x * 1, b);
      DenseRowBytes(c.x, 1, b);
      assert Bytes([Run(b, c.x)]) == Span(b, c.x) + Bytes([]);
    }
    forall b | true
      ensures Bytes(Flatten(planeN, b)) == Bytes(Flatten(plane1, b))
    {
      StridedUnitBytes(rowN, row1, c.y, a.x, b);
    }
    StridedUnitBytes(planeN, plane1, c.z, a.x * a.y, 0);
    ByteV1HvHvLayout(c, a);
  }

  /** The byte plane vector repeated along z gives the rows. */
  lemma ByteVHvLayout(c: Dim3, a: Dim3)
    requires VectorFits(c, a)
    ensures Flatten(MakeByteVHv(c, a), 0) == Rows(c, a)
  {
    var planeType := Vector(c.y, c.x, a.x, Prim(Byte));
    forall b | true
      ensures Flatten(planeType, b) == Row(c.y, a.x, c.x, b)
    {
      StridedPrim(Byte, c.y, c.x, a.x * 1, b);
    }
    StridedUnitRow(planeType, c.z, a.x * a.y, c.y, a.x, c.x, 0);
  }

  /** With a single plane the z step is a no-op: the whole type describes
      exactly its plane type, the 2-D rows. */
  lemma ByteVHvSinglePlane(c: Dim3, a: Dim3)
    requires VectorFits(c, a) && c.z == 1
    ensures Flatten(MakeByteVHv(c, a), 0) == Flatten(MakeByteVHv(c, a).oldtype, 0)
    ensures Flatten(MakeByteVHv(c, a), 0) == Row(c.y, a.x, c.x, 0)
  {
    StridedPrim(Byte, c.y, c.x, a.x * 1, 0);
    ByteVHvLayout(c, a);
    assert Grid(1, c.y, a.x * a.y, a.x, c.x, 0) == Row(c.y, a.x, c.x, 0) + Grid(0, c.y, a.x * a.y, a.x, c.x, a.x * a.y);
  }

  /** The float plane has rows of `4 * (copyExt.x / 4)` bytes, `4 *
      (allocExt.x / 4)` bytes apart; planes are still one plane apart. */
  lemma FloatVHvLayout(c: Dim3, a: Dim3)
    requires FloatVectorFits(c, a)
    ensures Flatten(MakeFloatVHv(c, a), 0) == Grid(c.z, c.y, a.x * a.y, 4 * (a.x / 4), 4 * (c.x / 4), 0)
  {
    var planeType := Vector(c.y, c.x / 4, a.x / 4, Prim(Float));
    assert Extent(Prim(Float)) == 4;
    forall b | true
      ensures Flatten(planeType, b) == Row(c.y, 4 * (a.x / 4), 4 * (c.x / 4), b)
    {
      StridedPrim(Float, c.y, c.x / 4, (a.x / 4) * 4, b);
    }
    StridedUnitRow(planeType, c.z, a.x * a.y, c.y, 4 * (a.x / 4), 4 * (c.x / 4), 0);
  }

  /** For a non-empty region the float encoding describes the same rows as
      the byte encoding exactly when the row length is a whole number of
      floats and, if there is more than one row, so is the row stride;
      otherwise the division truncates. */
  lemma FloatVHvMatchesByte(c: Dim3, a: Dim3)
    requires VectorFits(c, a) && c.y > 0 && c.z > 0
    ensures Flatten(MakeFloatVHv(c, a), 0) == Flatten(MakeByteVHv(c, a), 0) <==>
      c.x % 4 == 0 && (c.y == 1 || a.x % 4 == 0)
  {
    if c.x % 4 == 0 && c.y == 1 {
      SingleRowPlanes(c, a);
    } else {
      FloatVHvLayout(c, a);
      ByteVHvLayout(c, a);
      var f := Grid(c.z, c.y, a.x * a.y, 4 * (a.x / 4), 4 * (c.x / 4), 0);
      var r := Grid(c.z, c.y, a.x * a.y, a.x, c.x, 0);
      if c.x % 4 == 0 && a.x % 4 == 0 {
        assert f == r;
      } else if c.x % 4 == 0 {
        GridAt(c.z, c.y, a.x * a.y, 4 * (a.x / 4), 4 * (c.x / 4), 0, 0, 1);
        GridAt(c.z, c.y, a.x * a.y, a.x, c.x, 0, 0, 1);
        assert f[1] != r[1];
      } else {
        GridAt(c.z, c.y, a.x * a.y, 4 * (a.x / 4), 4 * (c.x / 4), 0, 0, 0);
        GridAt(c.z, c.y, a.x * a.y, a.x, c.x, 0, 0, 0);
        assert f[0] != r[0];
      }
    }
  }

  /** With a single row per plane the row stride plays no part: when the row
      is a whole number of floats both encodings are one run per plane. */
  lemma SingleRowPlanes(c: Dim3, a: Dim3)
    requires VectorFits(c, a) && c.y == 1 && c.x % 4 == 0
    ensures Flatten(MakeFloatVHv(c, a), 0) == Row(c.z, a.x * a.y, c.x, 0)
    ensures Flatten(MakeByteVHv(c, a), 0) == Row(c.z, a.x * a.y, c.x, 0)
  {
    var floatPlane := Vector(1, c.x / 4, a.x / 4, Prim(Float));
    var bytePlane := Vector(1, c.x, a.x, Prim(Byte));
    assert Extent(Prim(Float)) == 4 && Extent(Prim(Byte)) == 1;
    forall b | true
      ensures Flatten(floatPlane, b) == [Run(b, c.x)]
    {
      StridedPrim(Float, 1, c.x / 4, (a.x / 4) * 4, b);
      assert Row(1, (a.x / 4) * 4, c.x, b) == [Run(b, c.x)] + Row(0, (a.x / 4) * 4, c.x, b + (a.x / 4) * 4);
    }
    forall b | true
      ensures Flatten(bytePlane, b) == [Run(b, c.x)]
    {
      StridedPrim(Byte, 1, c.x, a.x * 1, b);
      assert Row(1, a.x, c.x, b) == [Run(b, c.x)] + Row(0, a.x, c.x, b + a.x);
    }
    StridedUnitRun(floatPlane, c.z, a.x * a.y, c.x, 0);
    StridedUnitRun(bytePlane, c.z, a.x * a.y, c.x, 0);
  }

  // ---------------------------------------------------------------------
  // Subarray encodings

  /** make_subarray as written: sizes `{allocExt.x, allocExt.y, allocExt.z}`
      in C order, so z is the fastest dimension. MPI accepts it exactly for
      a non-empty region inside the allocation. */
  function MakeSubarray(c: Dim3, a: Dim3): (t: Ty)
    requires SubarrayFits(c, a)
    ensures WellFormed(t) <==> NonEmptyWithin(c, a)
  {
    ValidAtOrigin3(a.x, a.y, a.z, c.x, c.y, c.z);
    Subarray([a.x, a.y, a.z], [c.x, c.y, c.z], [0, 0, 0], Prim(Byte))
  }

  /** make_subarray_v as written: a C-order plane of sizes
      `{allocExt.x, allocExt.y}`, repeated `copyExt.z` times at a stride of
      one plane extent. MPI accepts it exactly when the x-y plane is a
      non-empty region inside the allocation's plane; the z count is not
      checked. */
  function MakeSubarrayV(c: Dim3, a: Dim3): (t: Ty)
    requires SubarrayVFits(c, a)
    ensures WellFormed(t) <==> 1 <= c.x <= a.x && 1 <= c.y <= a.y
  {
    var plane := Subarray([a.x, a.y], [c.x, c.y], [0, 0], Prim(Byte));
    ValidAtOrigin2(a.x, a.y, c.x, c.y);
    assert WellFormed(plane) <==> ValidSubarray([a.x, a.y], [c.x, c.y], [0, 0]);
    assert WellFormed(Vector(c.z, 1, 1, plane)) <==> WellFormed(plane);
    Vector(c.z, 1, 1, plane)
  }

  /** The region is non-empty and inside the allocation on every axis. */
  predicate NonEmptyWithin(c: Dim3, a: Dim3)
  {
    1 <= c.x <= a.x && 1 <= c.y <= a.y && 1 <= c.z <= a.z
  }

  lemma Product2(p: nat, q: nat)
    ensures Product([p, q]) == p * q
  {
    assert [p, q][1..] == [q];
    assert [q][1..] == [];
    assert Product([q]) == q;
  }

  lemma Product3(p: nat, q: nat, r: nat)
    ensures Product([p, q, r]) == p * q * r
  {
    assert [p, q, r][1..] == [q, r];
    Product2(q, r);
    MulAssoc(p, q, r);
  }

  /** Zero starts: the subarray arguments are valid exactly when every
      subsize is between 1 and its size. */
  lemma ValidAtOrigin2(s0: nat, s1: nat, m0: nat, m1: nat)
    ensures ValidSubarray([s0, s1], [m0, m1], [0, 0]) <==> 1 <= m0 <= s0 && 1 <= m1 <= s1
  {
    var sz, sub: seq<nat> := [s0, s1], [m0, m1];
    if ValidSubarray(sz, sub, [0, 0]) {
      assert 1 <= sub[0] <= sz[0] && 1 <= sub[1] <= sz[1];
    }
  }

  lemma ValidAtOrigin3(s0: nat, s1: nat, s2: nat, m0: nat, m1: nat, m2: nat)
    ensures ValidSubarray([s0, s1, s2], [m0, m1, m2], [0, 0, 0]) <==>
      1 <= m0 <= s0 && 1 <= m1 <= s1 && 1 <= m2 <= s2
  {
    var sz, sub: seq<nat> := [s0, s1, s2], [m0, m1, m2];
    if ValidSubarray(sz, sub, [0, 0, 0]) {
      assert 1 <= sub[0] <= sz[0] && 1 <= sub[1] <= sz[1] && 1 <= sub[2] <= sz[2];
    }
  }

  /** The 3-D subarray as written has z fastest: `copyExt.x` slabs of
      `copyExt.y` runs of `copyExt.z` bytes, runs `allocExt.z` bytes apart.
      It covers `copyExt.x * copyExt.y * copyExt.z` bytes and its extent is
      the whole allocation. */
  lemma SubarrayLayout(c: Dim3, a: Dim3)
    requires SubarrayFits(c, a) && NonEmptyWithin(c, a)
    ensures WellFormed(MakeSubarray(c, a))
    ensures Flatten(MakeSubarray(c, a), 0) == Grid(c.x, c.y, a.y * a.z, a.z, c.z, 0)
    ensures Flatten(MakeSubarray(c, a), 0)[0] == Run(0, c.z)
    ensures |Bytes(Flatten(MakeSubarray(c, a), 0))| == c.x * c.y * c.z
    ensures Extent(MakeSubarray(c, a)) == a.x * a.y * a.z
  {
    Subarray3DRuns(a.x, a.y, a.z, c.x, c.y, c.z, 0);
    GridAt(c.x, c.y, a.y * a.z, a.z, c.z, 0, 0, 0);
    MulZero(c.y);
    MulZero(a.y * a.z);
    MulZero(a.z);
    GridByteCount(c.x, c.y, a.y * a.z, a.z, c.z, 0);
    Product3(a.x, a.y, a.z);
    assert Extent(Prim(Byte)) == 1;
  }

  /** The plane of make_subarray_v as written has y fastest: `copyExt.x`
      runs of `copyExt.y` bytes, `allocExt.y` bytes apart; planes are one
      plane extent, `allocExt.x * allocExt.y` bytes, apart. */
  lemma SubarrayVLayout(c: Dim3, a: Dim3)
    requires SubarrayVFits(c, a) && 1 <= c.x <= a.x && 1 <= c.y <= a.y
    ensures WellFormed(MakeSubarrayV(c, a))
    ensures Extent(MakeSubarrayV(c, a).oldtype) == a.x * a.y
    ensures Flatten(MakeSubarrayV(c, a), 0) == Grid(c.z, c.x, a.x * a.y, a.y, c.y, 0)
    ensures c.z > 0 ==> Flatten(MakeSubarrayV(c, a), 0)[0] == Run(0, c.y)
    ensures |Bytes(Flatten(MakeSubarrayV(c, a), 0))| == c.x * c.y * c.z
  {
    var plane := Subarray([a.x, a.y], [c.x, c.y], [0, 0], Prim(Byte));
    assert MakeSubarrayV(c, a) == Vector(c.z, 1, 1, plane);
    ColumnPlane(c, a);
    StridedUnitRow(plane, c.z, 1 * (a.x * a.y), c.x, a.y, c.y, 0);
    GridByteCount(c.z, c.x, a.x * a.y, a.y, c.y, 0);
    assert c.z * c.x * c.y == c.x * c.y * c.z;
    if c.z > 0 {
      GridAt(c.z, c.x, a.x * a.y, a.y, c.y, 0, 0, 0);
      MulZero(c.x);
      MulZero(a.x * a.y);
      MulZero(a.y);
    }
  }

  /** The C-order plane `{allocExt.x, allocExt.y}`: one run of `copyExt.y`
      bytes per x, `allocExt.y` bytes apart. */
  lemma ColumnPlane(c: Dim3, a: Dim3)
    requires SubarrayVFits(c, a) && 1 <= c.x <= a.x && 1 <= c.y <= a.y
    ensures WellFormed(MakeSubarrayV(c, a).oldtype)
    ensures Extent(MakeSubarrayV(c, a).oldtype) == a.x * a.y
    ensures forall b :: Flatten(MakeSubarrayV(c, a).oldtype, b) == Row(c.x, a.y, c.y, b)
  {
    var plane := Subarray([a.x, a.y], [c.x, c.y], [0, 0], Prim(Byte));
    ValidAtOrigin2(a.x, a.y, c.x, c.y);
    assert Extent(Prim(Byte)) == 1;
    Product2(a.x, a.y);
    forall b | true
      ensures Flatten(plane, b) == Row(c.x, a.y, c.y, b)
    {
      Subarray2DRuns(a.x, a.y, c.x, c.y, b);
    }
  }

  /** The byte at position `c.z` is the first byte of the second run when
      the first run has `c.z` bytes. */
  lemma SecondRunByte(f: seq<Run>, len: nat, next: int)
    requires |f| >= 2 && len >= 1 && f[0].len == len && f[1] == Run(next, len)
    ensures |Bytes(f)| > len && Bytes(f)[len] == next
  {
    BytesHead(f);
    BytesHead(f[1..]);
    assert f[1..][0] == f[1];
  }

  /** A byte inside the first run sits at its own position. */
  lemma FirstRunByte(f: seq<Run>, k: nat)
    requires |f| >= 1 && f[0].off == 0 && k < f[0].len
    ensures |Bytes(f)| > k && Bytes(f)[k] == k
  {
    BytesHead(f);
  }

  /** When a row is longer than a z column, there are at least two rows and
      the region does not span the allocation's z axis, make_subarray as
      written does not describe the rows: byte `copyExt.z` of its type map
      is at offset `allocExt.z`, not `copyExt.z`. */
  lemma SubarrayIsNotRows(c: Dim3, a: Dim3)
    requires SubarrayFits(c, a) && NonEmptyWithin(c, a)
    requires c.z < c.x && c.y >= 2 && c.z < a.z
    ensures WellFormed(MakeSubarray(c, a))
    ensures |Bytes(Flatten(MakeSubarray(c, a), 0))| > c.z && |Bytes(Rows(c, a))| > c.z
    ensures Bytes(Flatten(MakeSubarray(c, a), 0))[c.z] == a.z
    ensures Bytes(Rows(c, a))[c.z] == c.z
    ensures Coalesce(Flatten(MakeSubarray(c, a), 0)) != Coalesce(Rows(c, a))
  {
    SubarrayLayout(c, a);
    var f := Grid(c.x, c.y, a.y * a.z, a.z, c.z, 0);
    GridAt(c.x, c.y, a.y * a.z, a.z, c.z, 0, 0, 0);
    GridAt(c.x, c.y, a.y * a.z, a.z, c.z, 0, 0, 1);
    MulZero(c.y);
    MulZero(a.y * a.z);
    SecondRunByte(f, c.z, a.z);
    RowsAt(c, a, 0, 0);
    MulZero(a.y);
    FirstRunByte(Rows(c, a), c.z);
  }

  /** The test program's extents meet the conditions above. The extents are
      parameters pinned by the precondition rather than literals in the
      contract, so that the solver instantiates the general lemma instead
      of unfolding `Grid` over 611 concrete rows. */
  lemma SubarrayTestScenario(c: Dim3, a: Dim3)
    requires c == TestCopyExt && a == TestAllocExt
    ensures SubarrayFits(c, a) && WellFormed(MakeSubarray(c, a))
    ensures |Bytes(Flatten(MakeSubarray(c, a), 0))| > 47 && |Bytes(Rows(c, a))| > 47
    ensures Bytes(Flatten(MakeSubarray(c, a), 0))[47] == 1024
    ensures Bytes(Rows(c, a))[47] == 47
  {
    SubarrayIsNotRows(c, a);
  }

  /** When a row is longer than a y column and the plane does not span the
      allocation's y axis, make_subarray_v as written does not describe the
      rows: byte `copyExt.y` of its type map is at offset `allocExt.y`, not
      `copyExt.y`. */
  lemma SubarrayVIsNotRows(c: Dim3, a: Dim3)
    requires SubarrayVFits(c, a) && 1 <= c.y < c.x <= a.x && c.y < a.y && c.z >= 1
    ensures WellFormed(MakeSubarrayV(c, a))
    ensures |Bytes(Flatten(MakeSubarrayV(c, a), 0))| > c.y && |Bytes(Rows(c, a))| > c.y
    ensures Bytes(Flatten(MakeSubarrayV(c, a), 0))[c.y] == a.y
    ensures Bytes(Rows(c, a))[c.y] == c.y
    ensures Coalesce(Flatten(MakeSubarrayV(c, a), 0)) != Coalesce(Rows(c, a))
  {
    SubarrayVLayout(c, a);
    var f := Grid(c.z, c.x, a.x * a.y, a.y, c.y, 0);
    GridAt(c.z, c.x, a.x * a.y, a.y, c.y, 0, 0, 0);
    GridAt(c.z, c.x, a.x * a.y, a.y, c.y, 0, 0, 1);
    MulZero(c.x);
    MulZero(a.x * a.y);
    SecondRunByte(f, c.y, a.y);
    RowsAt(c, a, 0, 0);
    MulZero(a.y);
    FirstRunByte(Rows(c, a), c.y);
  }

  /** The test program's extents meet the conditions above; parameters
      pinned by the precondition, as for `SubarrayTestScenario`. */
  lemma SubarrayVTestScenario(c: Dim3, a: Dim3)
    requires c == TestCopyExt && a == TestAllocExt
    ensures SubarrayVFits(c, a) && WellFormed(MakeSubarrayV(c, a))
    ensures |Bytes(Flatten(MakeSubarrayV(c, a), 0))| > 13 && |Bytes(Rows(c, a))| > 13
    ensures Bytes(Flatten(MakeSubarrayV(c, a), 0))[13] == 512
    ensures Bytes(Rows(c, a))[13] == 13
  {
    SubarrayVIsNotRows(c, a);
  }

  /** The extents of the test program. */
  const TestCopyExt := Dim3(100, 13, 47)
  const TestAllocExt := Dim3(256, 512, 1024)

  /** The evidently intended 3-D subarray: dimensions listed slowest first,
      `{allocExt.z, allocExt.y, allocExt.x}`, so that x is fastest in C
      order. MPI accepts it for the same regions as make_subarray. */
  function MakeSubarrayRowMajor(c: Dim3, a: Dim3): (t: Ty)
    requires SubarrayFits(c, a)
    ensures WellFormed(t) <==> NonEmptyWithin(c, a)
  {
    ValidAtOrigin3(a.z, a.y, a.x, c.z, c.y, c.x);
    Subarray([a.z, a.y, a.x], [c.z, c.y, c.x], [0, 0, 0], Prim(Byte))
  }

  /** The evidently intended subarray-plus-vector: a plane listed
      `{allocExt.y, allocExt.x}`, repeated along z. MPI accepts it for the
      same planes as make_subarray_v. */
  function MakeSubarrayVRowMajor(c: Dim3, a: Dim3): (t: Ty)
    requires SubarrayVFits(c, a)
    ensures WellFormed(t) <==> 1 <= c.x <= a.x && 1 <= c.y <= a.y
  {
    var plane := Subarray([a.y, a.x], [c.y, c.x], [0, 0], Prim(Byte));
    ValidAtOrigin2(a.y, a.x, c.y, c.x);
    assert WellFormed(plane) <==> ValidSubarray([a.y, a.x], [c.y, c.x], [0, 0]);
    assert WellFormed(Vector(c.z, 1, 1, plane)) <==> WellFormed(plane);
    Vector(c.z, 1, 1, plane)
  }

  /** With dimensions listed slowest first MPI accepts the same regions and
      the subarray describes exactly the rows. */
  lemma SubarrayRowMajorLayout(c: Dim3, a: Dim3)
    requires SubarrayFits(c, a)
    ensures WellFormed(MakeSubarrayRowMajor(c, a)) <==> NonEmptyWithin(c, a)
    ensures WellFormed(MakeSubarrayRowMajor(c, a)) ==> Flatten(MakeSubarrayRowMajor(c, a), 0) == Rows(c, a)
    ensures WellFormed(MakeSubarrayRowMajor(c, a)) ==> Extent(MakeSubarrayRowMajor(c, a)) == a.x * a.y * a.z
  {
    ValidAtOrigin3(a.z, a.y, a.x, c.z, c.y, c.x);
    if NonEmptyWithin(c, a) {
      Subarray3DRuns(a.z, a.y, a.x, c.z, c.y, c.x, 0);
      assert a.y * a.x == a.x * a.y;
      Product3(a.z, a.y, a.x);
      assert a.z * a.y * a.x == a.x * a.y * a.z;
      assert Extent(Prim(Byte)) == 1;
    }
  }

  /** With the plane listed slowest first MPI accepts the same planes and
      subarray-plus-vector describes exactly the rows. */
  lemma SubarrayVRowMajorLayout(c: Dim3, a: Dim3)
    requires SubarrayVFits(c, a)
    ensures WellFormed(MakeSubarrayVRowMajor(c, a)) <==> 1 <= c.x <= a.x && 1 <= c.y <= a.y
    ensures WellFormed(MakeSubarrayVRowMajor(c, a)) ==> Flatten(MakeSubarrayVRowMajor(c, a), 0) == Rows(c, a)
  {
    ValidAtOrigin2(a.y, a.x, c.y, c.x);
    var plane := Subarray([a.y, a.x], [c.y, c.x], [0, 0], Prim(Byte));
    assert WellFormed(plane) <==> ValidSubarray([a.y, a.x], [c.y, c.x], [0, 0]);
    assert WellFormed(MakeSubarrayVRowMajor(c, a)) <==> WellFormed(plane);
    if WellFormed(plane) {
      assert Extent(Prim(Byte)) == 1;
      Product2(a.y, a.x);
      assert Extent(plane) == a.x * a.y;
      forall b | true
        ensures Flatten(plane, b) == Row(c.y, a.x, c.x, b)
      {
        Subarray2DRuns(a.y, a.x, c.y, c.x, b);
      }
      StridedUnitRow(plane, c.z, 1 * (a.x * a.y), c.y, a.x, c.x, 0);
    }
  }

  // ---------------------------------------------------------------------
  // Contiguous runs of n bytes

  /** make_contiguous_byte_v1: `n` one-byte blocks at unit stride. */
  function MakeContiguousByteV1(n: nat): (t: Ty)
    requires n <= INT_MAX
    ensures WellFormed(t)
  {
    Vector(n, 1, 1, Prim(Byte))
  }

  /** make_contiguous_byte_vn: one block of `n` bytes. */
  function MakeContiguousByteVn(n: nat): (t: Ty)
    requires n <= INT_MAX
    ensures WellFormed(t)
  {
    Vector(1, n, n, Prim(Byte))
  }

  /** make_contiguous_subarray: the whole of a 1-D array of `n` bytes. */
  function MakeContiguousSubarray(n: nat): (t: Ty)
    requires n <= INT_MAX
    ensures WellFormed(t) <==> n >= 1
  {
    var sz: seq<nat> := [n];
    assert ValidSubarray(sz, sz, [0]) ==> 1 <= sz[0];
    assert n >= 1 ==> ValidSubarray(sz, sz, [0]);
    Subarray(sz, sz, [0], Prim(Byte))
  }

  /** make_contiguous_contiguous: `n` consecutive bytes. */
  function MakeContiguousContiguous(n: nat): (t: Ty)
    requires n <= INT_MAX
    ensures WellFormed(t)
  {
    Contiguous(n, Prim(Byte))
  }

  /** `n` one-byte runs: the bytes `0 .. n - 1`, extent `n`. */
  lemma ContiguousByteV1Layout(n: nat)
    requires n <= INT_MAX
    ensures Flatten(MakeContiguousByteV1(n), 0) == Row(n, 1, 1, 0)
    ensures Bytes(Flatten(MakeContiguousByteV1(n), 0)) == Span(0, n)
    ensures Extent(MakeContiguousByteV1(n)) == n
  {
    assert Extent(Prim(Byte)) == 1;
    assert Flatten(MakeContiguousByteV1(n), 0) == Strided(Prim(Byte), n, 1, 1, 0);
    StridedPrim(Byte, n, 1, 1, 0);
    assert 1 * Size(Byte) == 1;
    DenseRowBytes(n, 1, 0);
    assert n * 1 == n;
    UnitVectorExtent(n);
  }

  lemma UnitVectorExtent(n: nat)
    ensures Extent(Vector(n, 1, 1, Prim(Byte))) == n
  {
    var ob := TypeBounds(Prim(Byte));
    assert ob == Bounds(0, 1);
    assert TypeBounds(Vector(n, 1, 1, Prim(Byte))) == StridedBounds(ob, n, 1, 1);
    if n > 0 {
      assert (n - 1) * 1 == n - 1;
      assert StridedBounds(ob, n, 1, 1) == Bounds(0, n);
    }
  }

  /** One run of `n` bytes at the origin, extent `n`. */
  lemma ContiguousByteVnLayout(n: nat)
    requires n <= INT_MAX
    ensures Flatten(MakeContiguousByteVn(n), 0) == [Run(0, n)]
    ensures Bytes(Flatten(MakeContiguousByteVn(n), 0)) == Span(0, n)
    ensures Extent(MakeContiguousByteVn(n)) == n
  {
    StridedPrim(Byte, 1, n, n * 1, 0);
    SingleRunBytes(0, n);
  }

  /** MPI accepts the 1-D subarray only for `n >= 1`; it is then one run of
      `n` bytes at the origin, extent `n`. */
  lemma ContiguousSubarrayLayout(n: nat)
    requires n <= INT_MAX
    ensures WellFormed(MakeContiguousSubarray(n)) <==> n >= 1
    ensures WellFormed(MakeContiguousSubarray(n)) ==>
      && Flatten(MakeContiguousSubarray(n), 0) == [Run(0, n)]
      && Bytes(Flatten(MakeContiguousSubarray(n), 0)) == Span(0, n)
      && Extent(MakeContiguousSubarray(n)) == n
  {
    var sz: seq<nat> := [n];
    if ValidSubarray(sz, sz, [0]) {
      assert 1 <= sz[0];
    }
    if n >= 1 {
      assert ValidSubarray(sz, sz, [0]);
      assert Extent(Prim(Byte)) == 1;
      assert sz[1..] == [];
      assert Product(sz) == n;
      assert SubarrayRuns(Prim(Byte), sz, sz, [0], 0) == Block(Prim(Byte), n, 0 + 0 * 1);
      SingleRunBytes(0, n);
    }
  }

  /** One run of `n` bytes at the origin, extent `n`. */
  lemma ContiguousContiguousLayout(n: nat)
    requires n <= INT_MAX
    ensures Flatten(MakeContiguousContiguous(n), 0) == [Run(0, n)]
    ensures Bytes(Flatten(MakeContiguousContiguous(n), 0)) == Span(0, n)
    ensures Extent(MakeContiguousContiguous(n)) == n
  {
    SingleRunBytes(0, n);
    if n > 0 {
      assert (n - 1) * 1 == n - 1;
      assert TypeBounds(MakeContiguousContiguous(n)) == Bounds(0, n);
    }
  }

  /** The four contiguous encodings describe identical bytes: after merging,
      each is the single run of `n` bytes at the origin. */
  lemma ContiguousBuildersAgree(n: nat)
    requires 1 <= n <= INT_MAX
    ensures Coalesce(Flatten(MakeContiguousByteV1(n), 0)) == [Run(0, n)]
    ensures Coalesce(Flatten(MakeContiguousByteVn(n), 0)) == [Run(0, n)]
    ensures WellFormed(MakeContiguousSubarray(n)) && Coalesce(Flatten(MakeContiguousSubarray(n), 0)) == [Run(0, n)]
    ensures Coalesce(Flatten(MakeContiguousContiguous(n), 0)) == [Run(0, n)]
  {
    ContiguousByteV1Layout(n);
    ContiguousByteVnLayout(n);
    ContiguousSubarrayLayout(n);
    ContiguousContiguousLayout(n);
    RunsOfSpan(0, n);
  }
}
