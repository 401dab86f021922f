# spatialmap in Dafny

A model of the `spatialmap` crate: a fixed-capacity three-dimensional grid
container. A `SpatialMap` owns one flat array of `dimX * dimY * dimZ` cells.
A signed coordinate `[x, y, z]` is folded into the grid on every axis with
`wrap_mod(n, m) = ((n % m) + m) % m` (Rust's truncating `%`), which is
toroidal (wraparound) addressing. It is then linearised as
`(x * dimY + y) * dimZ + z`. A slot holds at most one entry. `insert` and
`remove` overwrite the slot of the given coordinate unconditionally. `get` is
the exact read: it returns the stored value only when the stored coordinate is
the one asked for. Two coordinates that alias, meaning they fall into the same
slot, therefore evict each other.

The project also models the crate's other pieces:

- the sentinel-encoded cell of `src/cell.rs`: a cell is empty when the first
  component of its position is `i32::MIN`;
- the coordinate wrappers `I3` / `U3` of `src/dims.rs`;
- the three remainder variants that `src/main.rs` benchmarks against each
  other.

Files and modules:

- `wrappers.dfy` (`Wrappers`): `Option`.
- `rust_int.dfy` (`RustInt`): the Rust integer semantics the crate relies on.
  `i32` / `u32` / `isize` are subset types of `int`. `Rem` is Rust's
  truncating `%`, and Dafny's own `%` is Euclidean. `AsI32` is the narrowing
  `as i32`. `Bits` reinterprets an `i32` as its unsigned word in two's
  complement. `IsPowerOfTwo` is `u32::is_power_of_two` and `BitAnd` is `&`.
  The file also holds the arithmetic lemmas used elsewhere: uniqueness of
  mixed-radix digits, congruences, and powers of two.
- `dims.rs` → `dims.dfy` (`Dims`): datatypes `I3`, `U3`, their `Deref` and
  the `From` conversions.
- `cell.rs` → `cell.dfy` (`Cell`): class `SpatialCell` with mutable
  `position` and `value`. `take` and `take_checked` are methods that modify the
  cell. The value of an empty cell is left unspecified, which stands in for the
  source's `mem::zeroed()`. `take` copies it along, but no contract depends
  on its content.
- `lib.rs` → `lib.dfy` (`Lib`): the tagged cell datatype of `lib.rs`, the
  addressing functions and class `SpatialMap`. The class holds the array
  `data` (the boxed slice, never reallocated) and `dim`. Its invariant `Valid()`
  includes residency: every occupied slot holds a coordinate whose own slot it
  is, since `insert` writes a coordinate only at its `index`. `Insert` and `Remove`
  modify the array in place. `Get` is a function of the array. The read-after-write
  properties are stated once on sequences of cells (`Lookup`, `Put`,
  `Clear`), and the methods' postconditions connect the array to them.
- `main.rs` → `remainders.dfy` (`Remainders`): `old`, `old_p2` and `new`.
  Each has exactly the precondition under which the Rust expression does not
  panic with overflow checks on (the debug profile).

Facts about the code that shape the model:

- `src/lib.rs` has only `insert` and `remove`, which return nothing, and `get`,
  which is the exact read. There is no non-exact read and no `*_exact` or
  `*_index` variant. Only these three operations are modelled.
- `with_capacity` asserts that every dimension is a power of two, so zero is
  rejected. The model requires exactly that.
- `From<[u32; 3]> for U3` performs no validation, and the model accepts zero
  components.
- `src/cell.rs` encodes an empty cell with the sentinel `i32::MIN` in the first
  coordinate, and that is what `Cell` models. `src/lib.rs` uses its own tagged
  enum, and `Lib.SpatialCell` models that one.

## Model

| member | source | states |
|---|---|---|
| `RustInt.Rem` | src/lib.rs:53 | Rust's `%`: the remainder is smaller than the divisor in absolute value, has the sign of the dividend, and differs from the dividend by a multiple of the divisor |
| `RustInt.AsI32` | src/dims.rs:28 | `as i32` gives a value congruent to the input modulo 2^32, and the input itself whenever it fits in an `i32` |
| `RustInt.Bits` | src/main.rs:11 | the unsigned word of an `i32` is congruent to it modulo 2^32 and equal to it when non-negative |
| `RustInt.BitAnd` | src/main.rs:11 | `a & b` on non-negative words is at most each operand |
| `RustInt.BitAndLowMask` | src/main.rs:11 | `a & (p - 1)` is `a mod p` for every power of two `p` |
| `RustInt.IsPowerOfTwo` | src/lib.rs:14 | a power of two is at least 1, so `is_power_of_two` rejects zero |
| `RustInt.Pow2IsPowerOfTwo` | src/lib.rs:14 | every `2^k` satisfies `is_power_of_two` |
| `RustInt.PowerOfTwoIsPow2` | src/lib.rs:14 | every value satisfying `is_power_of_two` is `2^k` for some `k`; with `Pow2IsPowerOfTwo`, the predicate holds exactly on the powers of two |
| `RustInt.PowerOfTwoFitsI32` | src/lib.rs:14-18 | a power-of-two dimension that fits in an `i32` is at most 2^30, so `d as i32` stays positive |
| `RustInt.PowerOfTwoDividesWord` | src/main.rs:10-12 | every power of two up to 2^32 divides 2^32, so two's-complement masking agrees with the Euclidean remainder |
| `Dims.I3FromArray` | src/dims.rs:12-23 | `deref(I3::from(a)) == a` |
| `Dims.I3DerefRoundTrip` | src/dims.rs:12-23 | `I3::from(*v) == v`: conversion and dereference are inverse |
| `Dims.I3FromTuple` | src/dims.rs:25-31 | components go to indices 0, 1, 2 in order; each is congruent to its `isize` modulo 2^32 and equal to it when it fits in an `i32` |
| `Dims.I3FromTupleTruncates` | src/dims.rs:28 | `(2^31, 2^32 + 5, -1)` becomes `[i32::MIN, 5, -1]` |
| `Dims.U3FromArray` | src/dims.rs:48-59 | `deref(U3::from(a)) == a` for every array, zero components included (no validation) |
| `Dims.I3.Deref` | src/dims.rs:12-17 | dereferencing gives the array that rebuilds the same `I3` |
| `Dims.U3.Deref` | src/dims.rs:48-53 | dereferencing gives the array that rebuilds the same `U3` |
| `Dims.U3DerefRoundTrip` | src/dims.rs:48-59 | `U3::from(*v) == v` |
| `Cell.SpatialCell.New` | src/cell.rs:13-15 | stores the position and value; the cell is occupied (`is_some`) exactly when the position's first component is not `i32::MIN` |
| `Cell.SpatialCell.NewEmpty` | src/cell.rs:18-23 | position `[i32::MIN; 3]` and `is_some()` false |
| `Cell.SpatialCell.Take` | src/cell.rs:40-42 | returns a cell with the prior position and value, and leaves this cell empty with the sentinel position |
| `Cell.SpatialCell.TakeChecked` | src/cell.rs:31-37 | on an occupied cell returns `Some` of the prior contents and empties the cell; on an empty cell returns `None` and leaves the cell unchanged; afterwards the cell is empty either way |
| `Cell.SpatialCell.IsSome` | src/cell.rs:26-28 | the sentinel position `[i32::MIN; 3]` that `new_empty` stores reads as empty |
| `Cell.SpatialCell.Position` | src/cell.rs:51-53 | the returned array is the stored position: converting it back gives the same `I3` |
| `Cell.SpatialCell.PositionEq` | src/cell.rs:45-48 | true exactly when the stored position equals `pos` in all three components; it reads the cell and changes nothing |
| `Lib.WrapMod` | src/lib.rs:52-54 | for `m > 0` without overflow, the result lies in `[0, m)` and is congruent to `n` modulo `m` |
| `Lib.WrapModIsEuclidean` | src/lib.rs:52-54 | `wrap_mod(n, m)` is the Euclidean remainder |
| `Lib.WrapModInRange` | src/lib.rs:52-54 | a coordinate already in `[0, m)` is left unchanged |
| `Lib.WrapModEqualIff` | src/lib.rs:52-54 | two values wrap to the same residue exactly when they are congruent modulo `m` |
| `Lib.Wrapped` | src/lib.rs:45-47 | every coordinate folds into the grid on every axis |
| `Lib.Linear` | src/lib.rs:48 | the linearisation of an in-range coordinate lies in `[0, dimX*dimY*dimZ)`, with no `i32` overflow |
| `Lib.SlotIndex` | src/lib.rs:44-49 | for every coordinate, `index` lies in `[0, dimX*dimY*dimZ)` |
| `Lib.LinearInjective` | src/lib.rs:48 | distinct in-range coordinates have distinct linearisations |
| `Lib.IndexInjective` | src/lib.rs:44-49 | restricted to in-range coordinates, `index` is injective |
| `Lib.WrappedInRange` | src/lib.rs:44-47 | an in-range coordinate is its own wrapped form |
| `Lib.SlotCoordinate` | src/lib.rs:44-49 | every slot is the `index` of an in-range coordinate, so with `IndexInjective` `index` is a bijection from the in-range coordinates onto `[0, len)` |
| `Lib.SameSlotIff` | src/lib.rs:44-54 | two coordinates share a slot if and only if they are congruent on every axis |
| `Lib.IndexPeriodic` | src/lib.rs:44-54 | adding `k * dim` on any axis leaves the slot unchanged |
| `Lib.NegativeCoordinatesWrap` | src/lib.rs:44-54 | with dims 8, `[-1, 0, 0]` and `[7, 0, 0]` both map to slot 448 |
| `Lib.PosEqual` | src/lib.rs:57-59 | component-wise comparison holds exactly when the coordinates are equal |
| `Lib.Lookup` | src/lib.rs:33-41 | `get` returns a value exactly when the cell in the coordinate's slot is occupied by that same coordinate, and then returns the stored value |
| `Lib.Put` | src/lib.rs:22-26 | the cells after `insert(p, v)`: `get(p)` is `Some(v)`, no other slot changes, and residency is kept |
| `Lib.Clear` | src/lib.rs:28-31 | the cells after `remove(p)`: `get(p)` is `None`, no other slot changes, and residency is kept |
| `Lib.ResidentLookup` | src/lib.rs:22-41 | in resident cells, `get(p)` is `Some(v)` exactly when some slot holds `(p, v)` |
| `Lib.ResidentMisses` | src/lib.rs:22-41 | in resident cells, `get(p)` is `None` exactly when no slot holds `p` |
| `Lib.LookupAfterPut` | src/lib.rs:22-41 | after `insert(p, v)`, `get(p) == Some(v)`; `get(q)` is `None` for every other `q` in `p`'s slot; every other slot reads as before |
| `Lib.LookupAfterClear` | src/lib.rs:28-41 | after `remove(p)`, `get(q)` is `None` for every `q` in `p`'s slot, even when the resident coordinate was not `p`; every other slot reads as before |
| `Lib.AliasEvicts` | src/lib.rs:22-41 | for `a != b` in one slot, after `insert(a, va)` and `insert(b, vb)`, `get(a)` is `None` and `get(b)` is `Some(vb)` |
| `Lib.SpatialMap.WithCapacity` | src/lib.rs:13-20 | requires every dimension to be a power of two (so zero is rejected); allocates `d0*d1*d2` cells, every one `Empty`, and records the dimensions as `i32`; the map starts valid, residency included |
| `Lib.SpatialMap.Index` | src/lib.rs:44-49 | the slot of any coordinate is a valid index of `data` |
| `Lib.SpatialMap.Insert` | src/lib.rs:22-26 | writes `Occupied(position, value)` into slot `index(position)` and changes no other slot; keeps `Valid()`, residency included; afterwards `get` behaves as in `LookupAfterPut` |
| `Lib.SpatialMap.Remove` | src/lib.rs:28-31 | writes `Empty` into slot `index(position)` and changes no other slot; keeps `Valid()`, residency included; afterwards `get` behaves as in `LookupAfterClear` |
| `Lib.SpatialMap.Get` | src/lib.rs:33-41 | a `Some` result is the value stored with `position` in its slot; `None` means no slot of the map holds `position` |
| `Lib.AliasingExample` | src/lib.rs:13-41 | with dims 4, after inserting `([0,0,0], 1)` and `([4,0,0], 2)`, `get([0,0,0])` is `None` and `get([4,0,0])` is `Some(2)` |
| `Remainders.Old` | src/main.rs:5-7 | defined exactly where the expression does not panic with overflow checks on; the result is smaller than `p` in absolute value, congruent to `n`, and non-negative when `p > 0` |
| `Remainders.OldP2` | src/main.rs:10-12 | for `p > 0` the result lies in `[0, p)`, for any `p`, even one that is not a power of two |
| `Remainders.New` | src/main.rs:15-17 | `rem_euclid` lies in `[0, abs(p))` and is congruent to `n` modulo `p` |
| `Remainders.NewIsEuclidean` | src/main.rs:15-17 | for `p > 0`, `new(n, p)` is the Euclidean `n mod p` |
| `Remainders.OldEqualsNew` | src/main.rs:5-17 | for `0 < p <= 2^30`, `(n % p) + p` does not overflow and `old(n, p) == new(n, p)` |
| `Remainders.OldP2EqualsNew` | src/main.rs:10-17 | for every positive power of two `p`, `old_p2(n, p) == new(n, p)` |
| `Remainders.OldDiffersForNegativeDivisor` | src/main.rs:5-17 | `old(5, -4) == -3` but `new(5, -4) == 1`, so the equivalence needs `p > 0` |
| `Remainders.OldP2DiffersForNonPowerOfTwo` | src/main.rs:10-17 | `old_p2(1, 3) == 0` but `new(1, 3) == 1`, so the equivalence needs a power of two |
| `Remainders.OldOverflowsAbove2To30` | src/main.rs:5-7 | at `p = i32::MAX`, `n = i32::MAX - 1` the intermediate `(n % p) + p` overflows |

## Left out

- Integer-width hazards of `with_capacity` are preconditions, not modelled
  wrap-around. The product of the dimensions must be at most `i32::MAX`. That
  one bound rules out the overflow of the `u32` product, `d as i32` turning
  2^31 negative, and overflow in the `i32` arithmetic of `index`. It also
  excludes the one product the source does handle, exactly 2^31 with every
  axis at most 2^30 (for example `[65536, 32768, 1]`): the `u32` product
  fits and the largest slot is 2^31 - 1.
- `isize` is taken to be 64 bits wide, as on a 64-bit target.
- Rust's `%` and `rem_euclid` panic on `i32::MIN % -1`, `%` panics on a zero
  divisor, and `p - 1` overflows at `i32::MIN`. These become preconditions of
  `Old`, `OldP2` and `New` rather than modelled panics.
- Remainders.Old: release-build wrap-around of `(n % p) + p` is not
  modelled. With overflow checks off the sum wraps instead of panicking
  (`old(i32::MAX - 1, i32::MAX)` returns `-3`), and the model leaves such
  inputs outside its precondition.
- Remainders.OldP2: release-build wrap-around of `p - 1` at `p = i32::MIN` is
  not modelled. The model excludes that input.
- `&` on `i32` is modelled as a bitwise AND (`BitAnd`) on the unsigned 32-bit
  encoding of each operand, not on Dafny's `bv32`. The verifier cannot relate
  `bv32` operations to integer values at this size.
- `get` returns a copy of the stored value, not a reference. `T: Copy` makes
  the two the same to a caller.
- `position_eq` takes an `I3`. The `impl Into<I3>` argument stands for a call
  to one of the `From` conversions, which are modelled separately.
- The `unsafe transmute` in `insert` is an identity on `[i32; 3]` and is
  modelled as a plain copy.
- `mem::zeroed()` in `new_empty` is modelled as an unspecified value of `T`,
  not as memory contents. `take` copies that value along, but no contract
  depends on its content.
- The glam adapters (`From<glam::IVec3>`, `From<glam::UVec3>`) are a
  feature-gated field copy from a foreign library.
- `test_index`, `temp` and `main` in `src/main.rs` are timing harnesses
  (`Instant`, `println!`, `black_box`). They are I/O and are left out.
- The `Debug` / `Clone` / `Copy` derives and the `repr(C)` layout carry no logic.
- `SpatialCell` in `src/cell.rs` is a Rust value type. The model makes it a
  class, so a cell returned by `take` is a fresh object rather than a moved
  value.
