/** The list of missing points that a time series shows (mdlt), and which of its entries a notification
    carries. */
module MissingPoints {

  /** The last `mdn` of the points, or all of them if `mdn` is not positive. */
  function Newest(points: seq<int>, mdn: int): seq<int> {
    if 0 < mdn < |points| then points[|points| - mdn..] else points
  }

  lemma NewestOneMore(points: seq<int>, p: int, mdn: int)
    ensures Newest(Newest(points, mdn) + [p], mdn) == Newest(points + [p], mdn)
  {
  }

  /** The entries notify_missing_data finds for points before + 1 to before + num of `total`. */
  function Batch(mdlt: seq<int>, total: int, before: int, num: int): seq<int> {
    var start := if total - before > |mdlt| then 0 else |mdlt| - (total - before);
    var end := if start + num > |mdlt| then |mdlt| else start + num;
    if 0 <= start < end then mdlt[start..end] else []
  }

  /** The entries ts_md_flush_sub sends when points reported + 1 to `total` are pending. */
  function Flushed(mdlt: seq<int>, total: int, reported: int): seq<int> {
    if total <= reported then []
    else if total - reported > |mdlt| then mdlt
    else mdlt[|mdlt| - (total - reported)..]
  }

  predicate Increasing(points: seq<int>) {
    forall i, j :: 0 <= i < j < |points| ==> points[i] < points[j]
  }

  /** mdlt shows the last few of all points recorded for a series. */
  predicate Shows(points: seq<int>, mdlt: seq<int>) {
    |mdlt| <= |points| && mdlt == points[|points| - |mdlt|..]
  }

  lemma ShowsMore(points: seq<int>, mdlt: seq<int>, more: seq<int>, mdn: int)
    requires Shows(points, mdlt)
    ensures Shows(points + more, Newest(mdlt + more, mdn))
  {
  }

  /** Of the points recorded, `old` came before any that count, `total` are counted, and `late` were
      recorded after that total was taken.  A notification carries the points it accounts for exactly
      when none is late and mdlt still has all that are pending. */
  lemma BatchIsRun(points: seq<int>, mdlt: seq<int>, gone: nat, total: int, late: nat, before: int, num: int)
    requires Increasing(points) && Shows(points, mdlt) && gone + total + late == |points|
    requires 0 <= before && num > 0 && before + num <= total
    ensures Batch(mdlt, total, before, num) == points[gone + before..gone + before + num] <==>
            late == 0 && total - before <= |mdlt|
  {
    var first, batch, pending := gone + before, Batch(mdlt, total, before, num), total - before;
    var start := if pending > |mdlt| then 0 else |mdlt| - pending;
    if late == 0 && pending <= |mdlt| {
      assert mdlt[start..start + num] == points[first..first + num];
    } else if batch != [] {
      assert batch[0] == points[|points| - |mdlt| + start] && points[first..first + num][0] == points[first];
      assert |points| - |mdlt| + start > first;
    }
  }

  /** The same for what is sent when a subscription goes away. */
  lemma FlushIsRun(points: seq<int>, mdlt: seq<int>, gone: nat, total: int, late: nat, reported: int)
    requires Increasing(points) && Shows(points, mdlt) && gone + total + late == |points|
    requires 0 <= reported < total
    ensures Flushed(mdlt, total, reported) == points[gone + reported..gone + total] <==>
            late == 0 && total - reported <= |mdlt|
  {
    var first, batch, pending := gone + reported, Flushed(mdlt, total, reported), total - reported;
    var start := if pending > |mdlt| then 0 else |mdlt| - pending;
    if late == 0 && pending <= |mdlt| {
      assert mdlt[start..] == points[first..first + pending];
    } else if batch != [] {
      assert batch[0] == points[|points| - |mdlt| + start] && points[first..first + pending][0] == points[first];
      assert |points| - |mdlt| + start > first;
    }
  }
}
