/** Choice of the chain height to sync up to, from the node's list of chain
    tips (src/main.rs:98-105). */
module ChainTips {
  import opened Results
  import opened RustText

  /** The status a node reports for a chain tip. */
  datatype TipStatus = Invalid | HeadersOnly | ValidHeaders | ValidFork | Active

  datatype ChainTip = ChainTip(height: U64, branchLength: nat, status: TipStatus)

  /** Tip `i` is active and no tip before it is. */
  predicate FirstActiveAt(tips: seq<ChainTip>, i: int) {
    0 <= i < |tips| && tips[i].status == Active
    && forall j :: 0 <= j < i ==> tips[j].status != Active
  }

  /** The height of the first tip whose status is `Active`, or `None` where
      the walker's `.first().unwrap()` panics because no tip is active. */
  function ActiveTipHeight(tips: seq<ChainTip>): (r: Option<U64>)
    ensures r.None? <==> forall i :: 0 <= i < |tips| ==> tips[i].status != Active
    ensures r.Some? ==> exists i :: FirstActiveAt(tips, i) && tips[i].height == r.value
  {
    if tips == [] then None
    else if tips[0].status == Active then
      assert FirstActiveAt(tips, 0);
      Some(tips[0].height)
    else
      var r := ActiveTipHeight(tips[1..]);
      assert r.Some? ==> exists i :: FirstActiveAt(tips, i) && tips[i].height == r.value by {
        if r.Some? {
          var i :| FirstActiveAt(tips[1..], i) && tips[1..][i].height == r.value;
          assert FirstActiveAt(tips, i + 1);
        }
      }
      r
  }
}
