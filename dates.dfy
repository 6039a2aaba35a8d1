/** The run window both scripts build in `__main__`: every day from
    `run_date - days_ago` up to `run_date`, as integer day numbers. */
module Dates {

  /** `[start + timedelta(days=x) for x in range(0, (end - start).days + 1)]`
      with `start = end - timedelta(days_ago)`. */
  function DateRange(end: int, daysAgo: int): (days: seq<int>)
    ensures daysAgo < 0 ==> days == []
    ensures daysAgo >= 0 ==> |days| == daysAgo + 1 && days[0] == end - daysAgo && days[|days| - 1] == end
    ensures forall i :: 0 <= i < |days| - 1 ==> days[i + 1] == days[i] + 1
  {
    var start := end - daysAgo;
    var count := (end - start) + 1;
    if count <= 0 then [] else seq(count, x => start + x)
  }

  /** The window holds exactly the days from `run_date - days_ago` to `run_date`. */
  lemma DateRangeCovers(end: int, daysAgo: int)
    ensures forall d :: d in DateRange(end, daysAgo) <==> end - daysAgo <= d <= end
  {
    var days := DateRange(end, daysAgo);
    forall d | end - daysAgo <= d <= end ensures d in days {
      var i := d - (end - daysAgo);
      assert days[i] == d;
    }
  }
}
