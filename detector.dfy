/** The decision rule of run_quick_anomaly_check: compare awarded coins with what the trail justifies. */
module Detector {
  import opened Records
  import opened Trail

  /** Whether the check raises the flag and whether it also blocks. */
  datatype Decision = Decision(flag: bool, block: bool)

  /** Awarded coins per justified coin (exact; the source computes it in floating point). */
  function Ratio(awarded: int, expected: nat): (r: real)
    requires expected > 0
    ensures r * expected as real == awarded as real
    ensures awarded >= 0 ==> r >= 0.0
  {
    awarded as real / expected as real
  }

  /** Comparing the ratio with a whole threshold is comparing awarded with a multiple of expected. */
  lemma RatioExceeds(awarded: int, expected: nat, k: nat)
    requires expected > 0
    ensures Ratio(awarded, expected) > k as real <==> awarded > k * expected
  {
    var r := Ratio(awarded, expected);
    var e := expected as real;
    assert r * e == awarded as real;
    assert (k * expected) as real == k as real * e;
    if r > k as real {
      assert r * e > k as real * e;
    } else {
      assert r * e <= k as real * e;
    }
  }

  /**
   * The detector's verdict for an account with `awarded` coins issued and `expected` coins justified.
   * With nothing justified, any award is flagged (never blocked); otherwise the account is flagged when the
   * ratio exceeds 2 or the excess exceeds 1000 coins, and blocked as well when the ratio exceeds 4.
   */
  function Detect(awarded: int, expected: nat): (d: Decision)
    ensures expected == 0 ==> d == Decision(awarded > 0, false)
    ensures expected > 0 ==> d.flag == (awarded > 2 * expected || awarded > expected + AnomalySlack)
    ensures expected > 0 ==> d.block == (awarded > 4 * expected)
    ensures d.block ==> d.flag
    ensures awarded <= expected ==> d == Decision(false, false)
  {
    if expected == 0 then Decision(awarded > 0, false)
    else
      RatioExceeds(awarded, expected, 2);
      RatioExceeds(awarded, expected, 4);
      var ratio := Ratio(awarded, expected);
      var flag := ratio > AnomalyCoinRateThreshold || awarded > expected + AnomalySlack;
      Decision(flag, flag && ratio > AnomalyCoinRateThreshold * 2.0)
  }

  /** The audit rows the check appends for user `id`: "flag", then "auto_block" when it blocks. */
  function Entries(id: nat, d: Decision): (rows: seq<Audit>)
    ensures |rows| == (if d.flag then 1 else 0) + (if d.block then 1 else 0)
    ensures forall k :: 0 <= k < |rows| ==> rows[k].userId == id && Credit(rows[k].action) == 0
    ensures d.flag ==> rows[0] == Audit(id, "flag")
    ensures d.block ==> rows[|rows| - 1] == Audit(id, "auto_block")
  {
    (if d.flag then [Audit(id, "flag")] else []) + (if d.block then [Audit(id, "auto_block")] else [])
  }

  /** The row after the check: flags are only ever raised, never cleared; coins are untouched. */
  function Checked(u: User, d: Decision): (v: User)
    ensures v.coins == u.coins && v.totalSystemAwarded == u.totalSystemAwarded
    ensures (u.flagged ==> v.flagged) && (u.blocked ==> v.blocked)
    ensures v == u.(flagged := v.flagged, blocked := v.blocked)
    ensures v.flagged == (u.flagged || d.flag) && v.blocked == (u.blocked || d.block)
  {
    u.(flagged := u.flagged || d.flag, blocked := u.blocked || d.block)
  }

  /** The rows the check appends justify no coins, for anybody. */
  lemma {:induction false} EntriesJustifyNothing(log: seq<Audit>, id: nat, d: Decision)
    ensures forall j :: Justified(log + Entries(id, d), j) == Justified(log, j)
  {
    var es := Entries(id, d);
    if |es| == 0 {
      assert log + es == log;
    } else if |es| == 1 {
      JustifiedSnoc(log, es[0]);
      assert log + es == log + [es[0]];
    } else {
      JustifiedSnoc(log, es[0]);
      JustifiedSnoc(log + [es[0]], es[1]);
      assert log + es == log + [es[0]] + [es[1]];
    }
  }

  /** Running the check a second time on its own output decides the same and changes no status. */
  lemma DetectorIdempotent(u: User, log: seq<Audit>)
    ensures var d := Detect(u.totalSystemAwarded, Justified(log, u.id));
            var v := Checked(u, d);
            var log' := log + Entries(u.id, d);
            Detect(v.totalSystemAwarded, Justified(log', v.id)) == d && Checked(v, d) == v
  {
    var d := Detect(u.totalSystemAwarded, Justified(log, u.id));
    EntriesJustifyNothing(log, u.id, d);
  }
}
