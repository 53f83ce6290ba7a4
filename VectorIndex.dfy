/**
 * The flat inner-product index the pipeline builds (`faiss.IndexFlatIP`),
 * reduced to what the pipeline uses of it: a fixed dimension and the
 * rows added to it, in order. Floating-point values are `real`s.
 */
module VectorIndex {

  type Vector = seq<real>

  /** Every vector of `vs` has dimension `d`. */
  predicate AllOfDimension(vs: seq<Vector>, d: nat) {
    forall k :: 0 <= k < |vs| ==> |vs[k]| == d
  }

  class FlatIndex {
    const d: nat
    var rows: seq<Vector>

    /** Every stored row has the index's dimension. */
    ghost predicate Valid()
      reads this
    {
      AllOfDimension(rows, d)
    }

    /** `IndexFlatIP(d)`: an empty index of dimension `d`. */
    constructor (d: nat)
      ensures Valid()
      ensures this.d == d && rows == []
    {
      this.d := d;
      rows := [];
    }

    /** `ntotal`. */
    function Size(): nat
      reads this
    {
      |rows|
    }

    /** `add(vs)`: appends the vectors, in order, after the stored rows. */
    method Add(vs: seq<Vector>)
      requires Valid()
      requires AllOfDimension(vs, d)
      modifies this
      ensures Valid()
      ensures rows == old(rows) + vs
      ensures Size() == old(Size()) + |vs|
    {
      rows := rows + vs;
    }
  }
}
