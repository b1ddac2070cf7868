/** The audit trail and the coins it justifies (the reconciliation sum of the anomaly check). */
module Trail {
  import opened Records

  /** Coins one audit action justifies: 100 for a mine, 5 for an ad view, nothing for any other action. */
  function Credit(action: string): (c: nat)
    ensures c > 0 <==> action == "mine" || action == "view_ad"
    ensures c <= MineReward
  {
    if action == "mine" then MineReward
    else if action == "view_ad" then AdReward
    else 0
  }

  /** The rows of `log` that belong to user `id`, in log order (the `WHERE user_id = ...` query). */
  function AuditsOf(log: seq<Audit>, id: nat): (rows: seq<Audit>)
    ensures |rows| <= |log|
    ensures forall a :: a in rows <==> a in log && a.userId == id
    ensures forall a :: multiset(rows)[a] == if a.userId == id then multiset(log)[a] else 0
    decreases |log|
  {
    if log == [] then []
    else
      var last := log[|log| - 1];
      assert log == log[..|log| - 1] + [last];
      AuditsOf(log[..|log| - 1], id) + (if last.userId == id then [last] else [])
  }

  /** Coins justified by a list of audit rows, summed in order as the anomaly check does. */
  function Expected(rows: seq<Audit>): (e: nat)
    ensures e <= MineReward * |rows|
    decreases |rows|
  {
    if rows == [] then 0 else Expected(rows[..|rows| - 1]) + Credit(rows[|rows| - 1].action)
  }

  /** Number of rows carrying `action`. */
  function Count(rows: seq<Audit>, action: string): nat
    decreases |rows|
  {
    if rows == [] then 0
    else Count(rows[..|rows| - 1], action) + (if rows[|rows| - 1].action == action then 1 else 0)
  }

  /** Coins the whole trail justifies for user `id`: the credits of that user's rows. */
  function Justified(log: seq<Audit>, id: nat): nat
    decreases |log|
  {
    if log == [] then 0
    else Justified(log[..|log| - 1], id) + (if log[|log| - 1].userId == id then Credit(log[|log| - 1].action) else 0)
  }

  /** Justified is what the anomaly check computes: select the user's rows, then sum their credits. */
  lemma {:induction false} JustifiedIsExpectedOfRows(log: seq<Audit>, id: nat)
    ensures Justified(log, id) == Expected(AuditsOf(log, id))
    decreases |log|
  {
    if log != [] {
      var prefix, last := log[..|log| - 1], log[|log| - 1];
      JustifiedIsExpectedOfRows(prefix, id);
      if last.userId == id {
        ExpectedAppend(AuditsOf(prefix, id), [last]);
        assert [last][..0] == [];
      } else {
        assert AuditsOf(prefix, id) + [] == AuditsOf(prefix, id);
      }
    }
  }

  /** The reconciliation sum is 100 per "mine" row plus 5 per "view_ad" row. */
  lemma {:induction false} ExpectedIsWeightedCount(rows: seq<Audit>)
    ensures Expected(rows) == MineReward * Count(rows, "mine") + AdReward * Count(rows, "view_ad")
    decreases |rows|
  {
    if rows != [] {
      ExpectedIsWeightedCount(rows[..|rows| - 1]);
    }
  }

  /** Reconciliation distributes over concatenation of trails. */
  lemma {:induction false} ExpectedAppend(a: seq<Audit>, b: seq<Audit>)
    ensures Expected(a + b) == Expected(a) + Expected(b)
    decreases |b|
  {
    if b == [] {
      assert a + b == a;
    } else {
      var b' := b[..|b| - 1];
      assert (a + b)[..|a + b| - 1] == a + b';
      ExpectedAppend(a, b');
    }
  }

  /** Appending one row raises its owner's justified total by that row's credit and nobody else's. */
  lemma JustifiedSnoc(log: seq<Audit>, x: Audit)
    ensures forall id :: Justified(log + [x], id) == Justified(log, id) + (if x.userId == id then Credit(x.action) else 0)
  {
    assert (log + [x])[..|log|] == log;
  }

  /** A user the trail never mentions is justified nothing. */
  lemma {:induction false} JustifiedUnmentioned(log: seq<Audit>, id: nat)
    requires forall k :: 0 <= k < |log| ==> log[k].userId != id
    ensures Justified(log, id) == 0
    decreases |log|
  {
    if log != [] { JustifiedUnmentioned(log[..|log| - 1], id); }
  }

  /** The accumulation loop of the anomaly check: 100 per "mine", 5 per "view_ad". */
  method ComputeExpected(rows: seq<Audit>) returns (expected: nat)
    ensures expected == Expected(rows)
    ensures expected == MineReward * Count(rows, "mine") + AdReward * Count(rows, "view_ad")
  {
    expected := 0;
    var i := 0;
    while i < |rows|
      invariant 0 <= i <= |rows|
      invariant expected == Expected(rows[..i])
    {
      var a := rows[i];
      if a.action == "mine" { expected := expected + MineReward; }
      if a.action == "view_ad" { expected := expected + AdReward; }
      assert rows[..i + 1][..i] == rows[..i];
      i := i + 1;
    }
    assert rows[..i] == rows;
    ExpectedIsWeightedCount(rows);
  }
}
