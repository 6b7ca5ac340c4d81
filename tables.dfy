/** The data-store lookups the controllers issue, over tables modelled as sequences of rows. */
module Tables {

  datatype Option<T> = None | Some(value: T)

  /** Position of the first row satisfying `p`, or None: the model of the ORM's
      `findByPk` and `findOne` queries. */
  function Find<T>(rows: seq<T>, p: T -> bool): (r: Option<nat>)
    ensures r.Some? ==> r.value < |rows| && p(rows[r.value])
    ensures r.Some? ==> forall j :: 0 <= j < r.value ==> !p(rows[j])
    ensures r.None? <==> forall i :: 0 <= i < |rows| ==> !p(rows[i])
  {
    if rows == [] then None
    else if p(rows[0]) then Some(0)
    else match Find(rows[1..], p)
      case None => None
      case Some(k) => Some(k + 1)
  }
}
