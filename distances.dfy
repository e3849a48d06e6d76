/** The distance matrix of delivery_logic.py: its completion, and the view the routing code has of it. */
module Distances {
  import opened Wrappers

  /**
   * A cell as load_distance_data reads it: `None` (blank or unparsable text), a float that
   * is `inf` or `nan`, or a finite number of miles.
   */
  datatype Cell = Blank | NonFinite | Miles(miles: real)

  /**
   * What routing and driving can use of a cell. A finite distance is a candidate; `None`,
   * `inf` and `nan` never are, since `d < min_distance` is false for them.
   */
  function Usable(c: Cell): (r: Option<real>)
    ensures r.Some? <==> c.Miles?
  {
    match c
    case Miles(m) => Some(m)
    case _ => None
  }

  /** A read-only matrix as the routing code receives it, each cell already passed through `Usable`. */
  type Matrix = seq<seq<Option<real>>>

  /** The matrix is square and every location index of the address table is a row and a column of it. */
  predicate Covers(index: map<string, nat>, d: Matrix) {
    && (forall i :: 0 <= i < |d| ==> |d[i]| == |d|)
    && (forall key :: key in index ==> index[key] < |d|)
  }

  /**
   * A cell after completion: its own value unless it is `None`, otherwise its mirror's.
   * An `inf` or `nan` cell is not `None`, so it is kept even when its mirror is finite.
   */
  function Mirror(own: Cell, mirrored: Cell): (r: Cell)
    ensures !own.Blank? ==> r == own
    ensures r.Blank? <==> own.Blank? && mirrored.Blank?
    ensures own.Blank? ==> r == mirrored
  {
    if own.Blank? then mirrored else own
  }

  /** When no pair of mirrored cells that are both given disagrees, completion makes the pair equal. */
  lemma MirrorSymmetric(own: Cell, mirrored: Cell)
    requires !own.Blank? && !mirrored.Blank? ==> own == mirrored
    ensures Mirror(own, mirrored) == Mirror(mirrored, own)
  {
  }

  /**
   * After completion a cell gives routing a distance exactly when it held a finite one,
   * or was `None` and its mirror held a finite one.
   */
  lemma CompletedUsable(own: Cell, mirrored: Cell)
    ensures Usable(Mirror(own, mirrored)).Some? <==> own.Miles? || (own.Blank? && mirrored.Miles?)
    ensures own.NonFinite? ==> Usable(Mirror(own, mirrored)).None?
  {
  }

  /**
   * The two completion passes of load_distance_data, in place: first each `None` cell
   * below the diagonal takes its mirror, then every `None` cell takes a mirror that is not `None`.
   */
  method CompleteDistances(d: array2<Cell>)
    requires d.Length0 == d.Length1
    modifies d
    ensures forall i, j :: 0 <= i < d.Length0 && 0 <= j < d.Length1 ==> d[i, j] == Mirror(old(d[i, j]), old(d[j, i]))
  {
    var n := d.Length0;
    var i := 0;
    while i < n
      invariant 0 <= i <= n
      invariant forall a, b :: 0 <= a < n && 0 <= b < n ==>
        d[a, b] == (if b < a < i then Mirror(old(d[a, b]), old(d[b, a])) else old(d[a, b]))
    {
      var j := 0;
      while j < i
        invariant 0 <= j <= i
        invariant forall a, b :: 0 <= a < n && 0 <= b < n ==>
          d[a, b] == (if b < a < i || (a == i && b < j) then Mirror(old(d[a, b]), old(d[b, a])) else old(d[a, b]))
      {
        if d[i, j].Blank? {
          d[i, j] := d[j, i];
        }
        j := j + 1;
      }
      i := i + 1;
    }
    i := 0;
    while i < n
      invariant 0 <= i <= n
      invariant forall a, b :: 0 <= a < n && 0 <= b < n ==>
        d[a, b] == (if a < i || b < a then Mirror(old(d[a, b]), old(d[b, a])) else old(d[a, b]))
    {
      var j := 0;
      while j < n
        invariant 0 <= j <= n
        invariant forall a, b :: 0 <= a < n && 0 <= b < n ==>
          d[a, b] == (if a < i || (a == i && b < j) || b < a then Mirror(old(d[a, b]), old(d[b, a])) else old(d[a, b]))
      {
        if d[i, j].Blank? && !d[j, i].Blank? {
          d[i, j] := d[j, i];
        }
        j := j + 1;
      }
      i := i + 1;
    }
  }
}
