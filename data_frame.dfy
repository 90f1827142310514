/**
 * The slice of a pandas DataFrame the comparator uses: named numeric columns
 * of one common height. The frame is an object shared with the caller, so a
 * column the comparator adds is visible to whoever passed the frame in.
 */
module Frames {

  /** Divides every entry of a column by d, as `frame[col] / d` does. */
  function DivideColumn(values: seq<real>, d: real): (r: seq<real>)
    requires d != 0.0
    ensures |r| == |values|
    ensures forall i :: 0 <= i < |values| ==> r[i] * d == values[i]
  {
    seq(|values|, i requires 0 <= i < |values| => values[i] / d)
  }

  class DataFrame {
    var columns: map<string, seq<real>>
    var height: nat

    /** Every column has one entry per row. */
    ghost predicate Valid()
      reads this
    {
      forall name :: name in columns ==> |columns[name]| == height
    }

    constructor (columns: map<string, seq<real>>, height: nat)
      requires forall name :: name in columns ==> |columns[name]| == height
      ensures Valid()
      ensures this.columns == columns && this.height == height
    {
      this.columns := columns;
      this.height := height;
    }

    /** `frame[name] = values`: adds the column, or replaces it when it exists. */
    method SetColumn(name: string, values: seq<real>)
      requires Valid() && |values| == height
      modifies this`columns
      ensures Valid()
      ensures columns == old(columns)[name := values]
    {
      columns := columns[name := values];
    }
  }
}
