/**
 * The coordinate and capacity wrappers of `src/dims.rs`: `I3` wraps an
 * `[i32; 3]`, `U3` a `[u32; 3]`; both dereference to the wrapped array
 * and are built by `From` conversions.
 */
module Dims {
  import opened RustInt

  /** A signed grid coordinate. */
  datatype I3 = I3(inner: I32x3) {
    /** `Deref for I3`: the wrapped array. */
    function Deref(): (r: I32x3)
      ensures I3(r) == this
    {
      inner
    }
  }

  /** An unsigned per-axis capacity. */
  datatype U3 = U3(inner: U32x3) {
    /** `Deref for U3`: the wrapped array. */
    function Deref(): (r: U32x3)
      ensures U3(r) == this
    {
      inner
    }
  }

  /** `From<[i32; 3]> for I3`: wraps the array unchanged. */
  function I3FromArray(dim: I32x3): (r: I3)
    ensures r.Deref() == dim
  {
    I3(dim)
  }

  /**
   * `From<(isize, isize, isize)> for I3`: the components go to indices
   * 0, 1 and 2, each narrowed by `as i32`.
   */
  function I3FromTuple(dim: (isize, isize, isize)): (r: I3)
    ensures (r.Deref()[0] - dim.0) % WORD == 0
    ensures (r.Deref()[1] - dim.1) % WORD == 0
    ensures (r.Deref()[2] - dim.2) % WORD == 0
    ensures I32_MIN <= dim.0 <= I32_MAX ==> r.Deref()[0] == dim.0
    ensures I32_MIN <= dim.1 <= I32_MAX ==> r.Deref()[1] == dim.1
    ensures I32_MIN <= dim.2 <= I32_MAX ==> r.Deref()[2] == dim.2
  {
    var x, y, z := AsI32(dim.0), AsI32(dim.1), AsI32(dim.2);
    NegateDivisible(x - dim.0, WORD);
    NegateDivisible(y - dim.1, WORD);
    NegateDivisible(z - dim.2, WORD);
    I3([x, y, z])
  }

  /** `From<[u32; 3]> for U3`: wraps the array unchanged; zero components are accepted. */
  function U3FromArray(dim: U32x3): (r: U3)
    ensures r.Deref() == dim
  {
    U3(dim)
  }

  /** Dereferencing and converting back gives the same coordinate. */
  lemma I3DerefRoundTrip(v: I3)
    ensures I3FromArray(v.Deref()) == v
  {
  }

  /** Dereferencing and converting back gives the same capacity. */
  lemma U3DerefRoundTrip(v: U3)
    ensures U3FromArray(v.Deref()) == v
  {
  }

  /** `as i32` keeps only the low 32 bits: 2^31 becomes `i32::MIN` and 2^32 + 5 becomes 5. */
  lemma I3FromTupleTruncates()
    ensures I3FromTuple((0x8000_0000, 0x1_0000_0005, -1)).Deref() == [I32_MIN, 5, -1]
  {
  }
}
