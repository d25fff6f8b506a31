/** The missing-value marker shared by every stage: pandas' NA / NaN / NaT
    becomes None, a present cell becomes Some. */
module Options {

  datatype Option<+T> = None | Some(value: T) {

    /** The value, or `default` when missing (pandas' fillna). */
    function GetOr(default: T): T {
      match this
      case Some(v) => v
      case None => default
    }
  }

  /** The larger of two optional integers, skipping a missing side
      (pandas' max skips NaT; the max of nothing is NaT). */
  function MaxOption(a: Option<int>, b: Option<int>): (r: Option<int>)
    ensures r.None? <==> a.None? && b.None?
    ensures a.Some? ==> r.Some? && r.value >= a.value
    ensures b.Some? ==> r.Some? && r.value >= b.value
    ensures r.Some? ==> r == a || r == b
  {
    match (a, b)
    case (None, _) => b
    case (_, None) => a
    case (Some(x), Some(y)) => if x >= y then a else b
  }
}
