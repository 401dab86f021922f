/**
 * `src/lib.rs`: the `SpatialMap` container. A fixed array of
 * `dimX * dimY * dimZ` cells addressed by wrapping each signed coordinate
 * into its axis with `wrap_mod` and linearising as `(x * dimY + y) * dimZ + z`.
 * Each slot holds at most one entry: `insert` and `remove` overwrite the
 * slot of the given coordinate unconditionally, and `get` returns the
 * resident value only when the resident coordinate is the one asked for.
 */
module Lib {
  import opened RustInt
  import opened Wrappers

  /** The cell type of `lib.rs`: a tagged slot. */
  datatype SpatialCell<T> = Occupied(position: I32x3, value: T) | Empty

  function Volume(dim: I32x3): int
  {
    dim[0] * dim[1] * dim[2]
  }

  /**
   * Axis lengths (after `d as i32`) that `with_capacity` admits: each a
   * power of two, with a product that fits in an `i32`, so that neither
   * the `u32` product, nor the casts, nor the `i32` arithmetic of `index`
   * overflows.
   */
  predicate ValidDims(dim: I32x3)
  {
    IsPowerOfTwo(dim[0]) && IsPowerOfTwo(dim[1]) && IsPowerOfTwo(dim[2])
    && Volume(dim) <= I32_MAX
  }

  /** A coordinate already inside the grid on every axis. */
  predicate InRange(dim: I32x3, p: I32x3)
  {
    0 <= p[0] < dim[0] && 0 <= p[1] < dim[1] && 0 <= p[2] < dim[2]
  }

  /** `wrap_mod`: `((n % m) + m) % m` with Rust's truncating `%`. */
  function WrapMod(n: i32, m: i32): (r: i32)
    requires 0 < m && Rem(n, m) + m <= I32_MAX
    ensures 0 <= r < m
    ensures (n - r) % m == 0
  {
    var a := Rem(n, m);
    var s: i32 := a + m;
    var r := Rem(s, m);
    MultipleMod(m, -1);
    CongruentTrans(a, s, r, m);
    CongruentTrans(n, a, r, m);
    r
  }

  /** The coordinate after each axis is folded into the grid. */
  function Wrapped(dim: I32x3, p: I32x3): (w: I32x3)
    requires ValidDims(dim)
    ensures InRange(dim, w)
  {
    ValidDimsBounds(dim);
    [WrapMod(p[0], dim[0]), WrapMod(p[1], dim[1]), WrapMod(p[2], dim[2])]
  }

  /** Row-major linearisation of an in-range coordinate. */
  function Linear(dim: I32x3, w: I32x3): (r: int)
    requires ValidDims(dim) && InRange(dim, w)
    ensures 0 <= r < Volume(dim)
  {
    var row := w[0] * dim[1] + w[1];
    MixedRadixBound(w[0], w[1], dim[0], dim[1]);
    MixedRadixBound(row, w[2], dim[0] * dim[1], dim[2]);
    row * dim[2] + w[2]
  }

  /**
   * `index`: the slot of a coordinate. Every intermediate value of the
   * source's `i32` arithmetic stays below the volume, so none overflows.
   */
  function SlotIndex(dim: I32x3, position: I32x3): (r: int)
    requires ValidDims(dim)
    ensures 0 <= r < Volume(dim)
  {
    Linear(dim, Wrapped(dim, position))
  }

  /** `pos_equal`: component-wise comparison, which is coordinate equality. */
  predicate PosEqual(a: I32x3, b: I32x3)
    ensures PosEqual(a, b) <==> a == b
  {
    a[0] == b[0] && a[1] == b[1] && a[2] == b[2]
  }

  /**
   * `get` on the cells of a map: the value stored at the coordinate's
   * slot, if the coordinate stored there is exactly `p`.
   */
  function Lookup<T>(dim: I32x3, cells: seq<SpatialCell<T>>, p: I32x3): (r: Option<T>)
    requires ValidDims(dim) && |cells| == Volume(dim)
    ensures r.Some? <==> cells[SlotIndex(dim, p)].Occupied? && cells[SlotIndex(dim, p)].position == p
    ensures r.Some? ==> cells[SlotIndex(dim, p)].value == r.value
  {
    match cells[SlotIndex(dim, p)]
    case Occupied(q, v) => if PosEqual(q, p) then Some(v) else None
    case Empty => None
  }

  /**
   * The residency invariant of a map's cells: every occupied slot holds a
   * coordinate whose own slot it is, because `insert` writes a coordinate
   * only at its `index`.
   */
  ghost predicate Resident<T>(dim: I32x3, cells: seq<SpatialCell<T>>)
    requires ValidDims(dim) && |cells| == Volume(dim)
  {
    forall i | 0 <= i < |cells| :: cells[i].Occupied? ==> SlotIndex(dim, cells[i].position) == i
  }

  /** The cells after `insert(p, v)`: `p` is found with `v`, no other slot changes, residency is kept. */
  function Put<T>(dim: I32x3, cells: seq<SpatialCell<T>>, p: I32x3, v: T): (r: seq<SpatialCell<T>>)
    requires ValidDims(dim) && |cells| == Volume(dim)
    ensures |r| == |cells|
    ensures Lookup(dim, r, p) == Some(v)
    ensures forall i | 0 <= i < |r| && i != SlotIndex(dim, p) :: r[i] == cells[i]
    ensures Resident(dim, cells) ==> Resident(dim, r)
  {
    cells[SlotIndex(dim, p) := Occupied(p, v)]
  }

  /** The cells after `remove(p)`: `p` is not found, no other slot changes, residency is kept. */
  function Clear<T>(dim: I32x3, cells: seq<SpatialCell<T>>, p: I32x3): (r: seq<SpatialCell<T>>)
    requires ValidDims(dim) && |cells| == Volume(dim)
    ensures |r| == |cells|
    ensures Lookup(dim, r, p) == None
    ensures forall i | 0 <= i < |r| && i != SlotIndex(dim, p) :: r[i] == cells[i]
    ensures Resident(dim, cells) ==> Resident(dim, r)
  {
    cells[SlotIndex(dim, p) := Empty]
  }

  /**
   * Under residency `get` misses nothing: `p` is found with `v` exactly
   * when some slot of the map holds `(p, v)`.
   */
  lemma ResidentLookup<T>(dim: I32x3, cells: seq<SpatialCell<T>>, p: I32x3, v: T)
    requires ValidDims(dim) && |cells| == Volume(dim) && Resident(dim, cells)
    ensures Lookup(dim, cells, p) == Some(v) <==> exists i | 0 <= i < |cells| :: cells[i] == Occupied(p, v)
  {
    var k := SlotIndex(dim, p);
    if Lookup(dim, cells, p) == Some(v) {
      assert cells[k] == Occupied(p, v);
    }
    if exists i | 0 <= i < |cells| :: cells[i] == Occupied(p, v) {
      var i :| 0 <= i < |cells| && cells[i] == Occupied(p, v);
      assert SlotIndex(dim, cells[i].position) == i;
    }
  }

  /** Under residency `get` returns `None` exactly when no slot holds `p`. */
  lemma ResidentMisses<T>(dim: I32x3, cells: seq<SpatialCell<T>>, p: I32x3)
    requires ValidDims(dim) && |cells| == Volume(dim) && Resident(dim, cells)
    ensures Lookup(dim, cells, p).None? <==> forall i | 0 <= i < |cells| :: !(cells[i].Occupied? && cells[i].position == p)
  {
    if Lookup(dim, cells, p).None? {
      forall i | 0 <= i < |cells| ensures !(cells[i].Occupied? && cells[i].position == p) {
        if cells[i].Occupied? {
          assert SlotIndex(dim, cells[i].position) == i;
        }
      }
    }
  }

  class SpatialMap<T> {
    /** `data`: the boxed slice, allocated once, never resized. */
    const data: array<SpatialCell<T>>
    /** `dim`: the axis lengths as `i32`. */
    const dim: I32x3

    /** The dimensions `with_capacity` admits, and the residency invariant of the cells. */
    ghost predicate Valid()
      reads data
    {
      ValidDims(dim) && data.Length == Volume(dim) && Resident(dim, data[..])
    }

    /** The current cells, as a sequence. */
    ghost function Cells(): (s: seq<SpatialCell<T>>)
      reads data
      requires Valid()
      ensures |s| == Volume(dim)
    {
      data[..]
    }

    /**
     * `with_capacity`: asserts that every dimension is a power of two and
     * allocates `dims[0] * dims[1] * dims[2]` empty cells.
     */
    constructor WithCapacity(dims: U32x3)
      requires IsPowerOfTwo(dims[0]) && IsPowerOfTwo(dims[1]) && IsPowerOfTwo(dims[2])
      requires dims[0] * dims[1] * dims[2] <= I32_MAX
      ensures Valid() && fresh(data)
      ensures dim == dims
      ensures data.Length == dims[0] * dims[1] * dims[2]
      ensures forall i | 0 <= i < data.Length :: data[i] == Empty
    {
      var len := dims[0] * dims[1] * dims[2];
      ProductBounds(dims[0], dims[1], dims[2]);
      dim := [dims[0], dims[1], dims[2]];
      data := new SpatialCell<T>[len](_ => Empty);
    }

    /** `index`: the slot of `position`, always inside the array. */
    function Index(position: I32x3): (r: nat)
      reads data
      requires Valid()
      ensures r < data.Length
    {
      SlotIndex(dim, position)
    }

    /** `insert`: stores `(position, value)` in its slot, evicting whatever was there. */
    method Insert(position: I32x3, value: T)
      requires Valid()
      modifies data
      ensures Valid()
      ensures Cells() == Put(dim, old(Cells()), position, value)
      ensures forall i | 0 <= i < data.Length && i != Index(position) :: data[i] == old(data[i])
      ensures Get(position) == Some(value)
      ensures forall q: I32x3 :: Get(q) == if q == position then Some(value)
                                            else if Index(q) == Index(position) then None
                                            else old(Get(q))
    {
      var index := Index(position);
      data[index] := Occupied(position, value);
      assert data[..] == Put(dim, old(data[..]), position, value);
      forall q: I32x3 ensures Get(q) == if q == position then Some(value)
                                        else if Index(q) == Index(position) then None
                                        else old(Get(q))
      {
        LookupAfterPut(dim, old(Cells()), position, value, q);
      }
    }

    /** `remove`: empties the slot of `position`, whoever resides there. */
    method Remove(position: I32x3)
      requires Valid()
      modifies data
      ensures Valid()
      ensures Cells() == Clear(dim, old(Cells()), position)
      ensures forall i | 0 <= i < data.Length && i != Index(position) :: data[i] == old(data[i])
      ensures forall q: I32x3 :: Get(q) == if Index(q) == Index(position) then None else old(Get(q))
    {
      var index := Index(position);
      data[index] := Empty;
      assert data[..] == Clear(dim, old(data[..]), position);
      forall q: I32x3 ensures Get(q) == if Index(q) == Index(position) then None else old(Get(q))
      {
        LookupAfterClear(dim, old(Cells()), position, q);
      }
    }

    /**
     * `get`: the exact read. It finds `position` exactly when some slot
     * holds it, and then returns the value stored with it.
     */
    function Get(position: I32x3): (r: Option<T>)
      reads data
      requires Valid()
      ensures r.Some? ==> data[Index(position)] == Occupied(position, r.value)
      ensures r.None? ==> forall i | 0 <= i < data.Length :: !(data[i].Occupied? && data[i].position == position)
    {
      ResidentMisses(dim, data[..], position);
      Lookup(dim, data[..], position)
    }
  }

  // ---------------------------------------------------------------------------
  // Addressing

  /** `wrap_mod` is the Euclidean remainder. */
  lemma WrapModIsEuclidean(n: i32, m: i32)
    requires 0 < m && Rem(n, m) + m <= I32_MAX
    ensures WrapMod(n, m) == n % m
  {
    EuclideanRemUnique(n, m, WrapMod(n, m));
  }

  /** A coordinate already in `[0, m)` is left alone by `wrap_mod`. */
  lemma WrapModInRange(n: i32, m: i32)
    requires 0 <= n < m
    ensures Rem(n, m) + m <= I32_MAX ==> WrapMod(n, m) == n
  {
    DivModOfMixed(0, n, m);
    if Rem(n, m) + m <= I32_MAX {
      WrapModIsEuclidean(n, m);
    }
  }

  /** On in-range coordinates `index` is injective. */
  lemma LinearInjective(dim: I32x3, a: I32x3, b: I32x3)
    requires ValidDims(dim) && InRange(dim, a) && InRange(dim, b)
    requires Linear(dim, a) == Linear(dim, b)
    ensures a == b
  {
    var ra, rb := a[0] * dim[1] + a[1], b[0] * dim[1] + b[1];
    assert Linear(dim, a) == ra * dim[2] + a[2];
    assert Linear(dim, b) == rb * dim[2] + b[2];
    DigitsUnique(ra, a[2], rb, b[2], dim[2]);
    DigitsUnique(a[0], a[1], b[0], b[1], dim[1]);
  }

  /** Restricted to in-range coordinates, `index` is injective. */
  lemma IndexInjective(dim: I32x3, a: I32x3, b: I32x3)
    requires ValidDims(dim) && InRange(dim, a) && InRange(dim, b)
    requires SlotIndex(dim, a) == SlotIndex(dim, b)
    ensures a == b
  {
    WrappedInRange(dim, a);
    WrappedInRange(dim, b);
    LinearInjective(dim, a, b);
  }

  /** An in-range coordinate is its own wrapped form. */
  lemma WrappedInRange(dim: I32x3, p: I32x3)
    requires ValidDims(dim) && InRange(dim, p)
    ensures Wrapped(dim, p) == p
  {
    ValidDimsBounds(dim);
    WrapModInRange(p[0], dim[0]);
    WrapModInRange(p[1], dim[1]);
    WrapModInRange(p[2], dim[2]);
  }

  /** The in-range coordinate of a slot: `index` maps the in-range coordinates onto every slot. */
  function SlotCoordinate(dim: I32x3, s: int): (p: I32x3)
    requires ValidDims(dim) && 0 <= s < Volume(dim)
    ensures InRange(dim, p) && SlotIndex(dim, p) == s
  {
    ValidDimsBounds(dim);
    var d1, d2 := dim[1], dim[2];
    var row := s / d2;
    QuotientBelow(s, dim[0] * d1, d2);
    QuotientBelow(row, dim[0], d1);
    var p: I32x3 := [row / d1, row % d1, s % d2];
    WrappedInRange(dim, p);
    Recompose(s, d1, d2);
    p
  }

  /** Two coordinates share a slot exactly when they are congruent on every axis. */
  lemma SameSlotIff(dim: I32x3, p: I32x3, q: I32x3)
    requires ValidDims(dim)
    ensures SlotIndex(dim, p) == SlotIndex(dim, q) <==>
              (p[0] - q[0]) % dim[0] == 0 && (p[1] - q[1]) % dim[1] == 0 && (p[2] - q[2]) % dim[2] == 0
  {
    ValidDimsBounds(dim);
    var wp, wq := Wrapped(dim, p), Wrapped(dim, q);
    if SlotIndex(dim, p) == SlotIndex(dim, q) {
      LinearInjective(dim, wp, wq);
    }
    WrapModEqualIff(p[0], q[0], dim[0]);
    WrapModEqualIff(p[1], q[1], dim[1]);
    WrapModEqualIff(p[2], q[2], dim[2]);
  }

  /** `wrap_mod` sends two values to the same residue exactly when they are congruent. */
  lemma WrapModEqualIff(a: i32, b: i32, m: i32)
    requires 0 < m <= 0x4000_0000
    ensures WrapMod(a, m) == WrapMod(b, m) <==> (a - b) % m == 0
  {
    WrapModIsEuclidean(a, m);
    WrapModIsEuclidean(b, m);
    CongruentIff(a, b, m);
  }

  /** Periodicity: shifting any axis by a multiple of its length keeps the slot. */
  lemma IndexPeriodic(dim: I32x3, p: I32x3, axis: int, k: int)
    requires ValidDims(dim) && 0 <= axis < 3
    requires I32_MIN <= p[axis] + k * dim[axis] <= I32_MAX
    ensures SlotIndex(dim, p[axis := p[axis] + k * dim[axis]]) == SlotIndex(dim, p)
  {
    var q := p[axis := p[axis] + k * dim[axis]];
    var d := dim[axis];
    MultipleMod(d, k);
    assert (q[axis] - p[axis]) % d == 0 by {
      assert q[axis] - p[axis] == d * k;
    }
    MultipleMod(dim[0], 0);
    MultipleMod(dim[1], 0);
    MultipleMod(dim[2], 0);
    if axis == 0 {
      assert q[1] - p[1] == dim[1] * 0 && q[2] - p[2] == dim[2] * 0;
    } else if axis == 1 {
      assert q[0] - p[0] == dim[0] * 0 && q[2] - p[2] == dim[2] * 0;
    } else {
      assert q[0] - p[0] == dim[0] * 0 && q[1] - p[1] == dim[1] * 0;
    }
    SameSlotIff(dim, q, p);
  }

  /** With axis length 8, `[-1, 0, 0]` and `[7, 0, 0]` share slot 448. */
  lemma NegativeCoordinatesWrap()
    ensures SlotIndex([8, 8, 8], [-1, 0, 0]) == SlotIndex([8, 8, 8], [7, 0, 0]) == 448
  {
    assert IsPowerOfTwo(8);
    assert Rem(-1, 8) == -1 && Rem(7, 8) == 7;
    assert WrapMod(-1, 8) == WrapMod(7, 8) == 7;
  }

  // ---------------------------------------------------------------------------
  // Reads after writes

  /** `get(q)` after `insert(p, v)`: `v` at `p`, nothing at the coordinates that alias `p`, and as before elsewhere. */
  lemma LookupAfterPut<T>(dim: I32x3, cells: seq<SpatialCell<T>>, p: I32x3, v: T, q: I32x3)
    requires ValidDims(dim) && |cells| == Volume(dim)
    ensures Lookup(dim, Put(dim, cells, p, v), q) ==
              if q == p then Some(v)
              else if SlotIndex(dim, q) == SlotIndex(dim, p) then None
              else Lookup(dim, cells, q)
  {
  }

  /** `get(q)` after `remove(p)`: nothing in `p`'s slot, even for a resident other than `p`; as before elsewhere. */
  lemma LookupAfterClear<T>(dim: I32x3, cells: seq<SpatialCell<T>>, p: I32x3, q: I32x3)
    requires ValidDims(dim) && |cells| == Volume(dim)
    ensures Lookup(dim, Clear(dim, cells, p), q) ==
              if SlotIndex(dim, q) == SlotIndex(dim, p) then None else Lookup(dim, cells, q)
  {
  }

  /** Aliasing eviction: after `insert(a, va)` and `insert(b, vb)` into one slot, only `b` is found. */
  lemma AliasEvicts<T>(dim: I32x3, cells: seq<SpatialCell<T>>, a: I32x3, va: T, b: I32x3, vb: T)
    requires ValidDims(dim) && |cells| == Volume(dim)
    requires a != b && SlotIndex(dim, a) == SlotIndex(dim, b)
    ensures Lookup(dim, Put(dim, Put(dim, cells, a, va), b, vb), a) == None
    ensures Lookup(dim, Put(dim, Put(dim, cells, a, va), b, vb), b) == Some(vb)
  {
    LookupAfterPut(dim, Put(dim, cells, a, va), b, vb, a);
    LookupAfterPut(dim, Put(dim, cells, a, va), b, vb, b);
  }

  /**
   * A client of the map: with axis length 4, `[0, 0, 0]` and `[4, 0, 0]`
   * alias; after inserting both, only the second is found.
   */
  method AliasingExample() returns (atOrigin: Option<int>, atFour: Option<int>)
    ensures atOrigin == None && atFour == Some(2)
  {
    assert IsPowerOfTwo(4);
    var grid := new SpatialMap<int>.WithCapacity([4, 4, 4]);
    grid.Insert([0, 0, 0], 1);
    grid.Insert([4, 0, 0], 2);
    assert grid.Index([0, 0, 0]) == grid.Index([4, 0, 0]);
    atOrigin := grid.Get([0, 0, 0]);
    atFour := grid.Get([4, 0, 0]);
  }

  // ---------------------------------------------------------------------------
  // Arithmetic of the addressing

  /** Valid axis lengths lie in `[1, 2^30]`. */
  lemma ValidDimsBounds(dim: I32x3)
    requires ValidDims(dim)
    ensures 0 < dim[0] <= 0x4000_0000 && 0 < dim[1] <= 0x4000_0000 && 0 < dim[2] <= 0x4000_0000
  {
    ProductBounds(dim[0], dim[1], dim[2]);
    PowerOfTwoFitsI32(dim[0]);
    PowerOfTwoFitsI32(dim[1]);
    PowerOfTwoFitsI32(dim[2]);
  }

  /** Each factor of a product of positive integers is at most the product. */
  lemma ProductBounds(a: int, b: int, c: int)
    requires a >= 1 && b >= 1 && c >= 1
    ensures a <= a * b * c && b <= a * b * c && c <= a * b * c && a * b <= a * b * c
  {
    MulAtLeast(a, b);
    MulAtLeast(b, a);
    MulAtLeast(a * b, c);
    MulAtLeast(c, a * b);
  }

  /** Mixed-radix digits are unique: `k * m + d` with `0 <= d < m` determines `k` and `d`. */
  lemma DigitsUnique(k1: int, d1: int, k2: int, d2: int, m: int)
    requires 0 <= d1 < m && 0 <= d2 < m && k1 * m + d1 == k2 * m + d2
    ensures k1 == k2 && d1 == d2
  {
    assert m * (k1 - k2) == d2 - d1;
    MultipleInRange(m, k1 - k2);
  }

  /** Splitting a slot into digits and recombining them gives the slot back. */
  lemma Recompose(s: int, d1: int, d2: int)
    requires d1 > 0 && d2 > 0
    ensures ((s / d2) / d1 * d1 + (s / d2) % d1) * d2 + s % d2 == s
  {
    var row := s / d2;
    assert row / d1 * d1 + row % d1 == row;
    assert row * d2 + s % d2 == s;
  }

  /** Mixed-radix bound: a digit pair `(a, b)` below `(n, m)` gives `a * m + b < n * m`. */
  lemma MixedRadixBound(a: int, b: int, n: int, m: int)
    requires 0 <= a < n && 0 <= b < m
    ensures 0 <= a * m + b < n * m
  {
    assert (n - 1 - a) * m >= 0;
    assert n * m == (n - 1) * m + m;
  }

  /** A value below `n * m` has a quotient by `m` below `n`. */
  lemma QuotientBelow(s: int, n: int, m: int)
    requires 0 <= s < n * m && m > 0
    ensures 0 <= s / m < n
  {
  }
}
