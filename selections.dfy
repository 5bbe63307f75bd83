/** `Selection`: a pair of points, possibly reversed. */
module Selections {
  import opened Points

  datatype Selection = Selection(start: Point, end: Point)
  {
    /** `Selection::new`. */
    static function New(start: Point, end: Point): (s: Selection)
      ensures s.start == start && s.end == end
    {
      Selection(start, end)
    }

    /** `Selection::cursor`: an empty selection at `p`. */
    static function Cursor(p: Point): (s: Selection)
      ensures s.start == p && s.end == p && s.IsEmpty()
    {
      Selection(p, p)
    }

    /** `is_empty`: the selection is just a cursor. */
    predicate IsEmpty()
    {
      start == end
    }

    /** `range`: the two ends in order. */
    function Range(): (r: (Point, Point))
      ensures r.0.Le(r.1)
      ensures (r.0 == start && r.1 == end) || (r.0 == end && r.1 == start)
      ensures start.Le(end) ==> r == (start, end)
    {
      LeTotalOrder(start, end, start);
      if start.Le(end) then (start, end) else (end, start)
    }
  }
}
