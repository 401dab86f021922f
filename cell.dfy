/**
 * The sentinel-encoded storage cell of `src/cell.rs`. A cell always holds
 * a position and a value; it counts as empty when the first component of
 * its position is `i32::MIN`. The value of an empty cell is an
 * unspecified placeholder that no contract depends on.
 */
module Cell {
  import opened RustInt
  import opened Dims
  import opened Wrappers

  /** The position stored in an empty cell: `[i32::MIN; 3]`. */
  const EMPTY_POSITION: I32x3 := [I32_MIN, I32_MIN, I32_MIN]

  class SpatialCell<T(0)> {
    var position: I3
    var value: T

    /** `new`: a cell holding `position` and `value`. */
    constructor New(position: I3, value: T)
      ensures this.position == position && this.value == value
      ensures IsSome() <==> position.Deref()[0] != I32_MIN
    {
      this.position := position;
      this.value := value;
    }

    /** `new_empty`: the sentinel position; the value is left unspecified. */
    constructor NewEmpty()
      ensures position.Deref() == EMPTY_POSITION
      ensures !IsSome()
    {
      position := I3FromArray(EMPTY_POSITION);
    }

    /** `is_some`: occupied unless the first coordinate is the sentinel. */
    predicate IsSome()
      reads this
      ensures position.Deref() == EMPTY_POSITION ==> !IsSome()
    {
      position.Deref()[0] != I32_MIN
    }

    /** `take`: returns the prior contents and leaves this cell empty. */
    method Take() returns (prior: SpatialCell<T>)
      modifies this
      ensures fresh(prior)
      ensures prior.position == old(position) && prior.value == old(value)
      ensures prior.IsSome() == old(IsSome())
      ensures position.Deref() == EMPTY_POSITION && !IsSome()
    {
      prior := new SpatialCell.New(position, value);
      var empty := new SpatialCell<T>.NewEmpty();
      position, value := empty.position, empty.value;
    }

    /** `take_checked`: `take` on an occupied cell; on an empty one, nothing. */
    method TakeChecked() returns (r: Option<SpatialCell<T>>)
      modifies this
      ensures old(IsSome()) ==> r.Some? && fresh(r.value)
                                && r.value.position == old(position) && r.value.value == old(value)
                                && position.Deref() == EMPTY_POSITION
      ensures !old(IsSome()) ==> r.None? && unchanged(this)
      ensures !IsSome()
    {
      if IsSome() {
        var prior := Take();
        r := Some(prior);
      } else {
        r := None;
      }
    }

    /** `position_eq`: the stored position equals `pos` in all three components. */
    predicate PositionEq(pos: I3)
      reads this
      ensures PositionEq(pos) <==> position.Deref() == pos.Deref()
    {
      position.Deref()[0] == pos.Deref()[0] && position.Deref()[1] == pos.Deref()[1]
        && position.Deref()[2] == pos.Deref()[2]
    }

    /** `position`: the stored coordinate. */
    function Position(): (r: I32x3)
      reads this
      ensures I3FromArray(r) == position
    {
      position.Deref()
    }
  }
}
