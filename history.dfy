/** Histories of one account made only of ledger requests (mine, view_ad, skip_ad). */
module History {
  import opened Records
  import opened Trail
  import opened Ledger
  import opened Detector

  datatype LedgerOp = Mine | ViewAd | SkipAd

  /** The audit action a successful request appends. */
  function Action(op: LedgerOp): string {
    match op
    case Mine => "mine"
    case ViewAd => "view_ad"
    case SkipAd => "skip_ad"
  }

  /** The rule a request applies to the row, once the blocked-user gate has let it through. */
  function Perform(u: User, op: LedgerOp, now: int): (r: Result<User>)
    ensures r.Ok? ==> r.value.coins == u.coins + Credit(Action(op))
    ensures r.Ok? ==> r.value.totalSystemAwarded == u.totalSystemAwarded + Credit(Action(op))
    ensures r.Ok? ==> r.value.id == u.id && r.value.flagged == u.flagged && r.value.blocked == u.blocked
  {
    match op
    case Mine => MineStep(u, now)
    case ViewAd => ViewAdStep(u, now)
    case SkipAd => SkipAdStep(u, now)
  }

  /**
   * Replays timed requests against one account: a blocked account and a refused request change nothing;
   * a granted request updates the row and appends its audit row.
   */
  function Replay(u: User, log: seq<Audit>, ops: seq<(LedgerOp, int)>): (User, seq<Audit>)
    decreases |ops|
  {
    if ops == [] then (u, log)
    else
      var (op, now) := ops[0];
      if u.blocked then Replay(u, log, ops[1..])
      else match Perform(u, op, now)
        case Err(_) => Replay(u, log, ops[1..])
        case Ok(v) => Replay(v, log + [Audit(u.id, Action(op))], ops[1..])
  }

  /** The trail justifies exactly the coins awarded, and the balance equals them. */
  predicate Balanced(u: User, log: seq<Audit>) {
    u.totalSystemAwarded == Justified(log, u.id) && u.coins == u.totalSystemAwarded
  }

  /**
   * A balanced account stays balanced through any ledger-only history, keeps its status and the quota
   * bounds, and the anomaly check then finds nothing to flag.
   */
  lemma {:induction false} ReplayStaysClean(u: User, log: seq<Audit>, ops: seq<(LedgerOp, int)>)
    requires Balanced(u, log) && UserInv(u)
    ensures var (v, log') := Replay(u, log, ops);
            v.id == u.id && Balanced(v, log') && UserInv(v) &&
            v.flagged == u.flagged && v.blocked == u.blocked &&
            Detect(v.totalSystemAwarded, Justified(log', v.id)) == Decision(false, false)
    decreases |ops|
  {
    if ops != [] {
      var (op, now) := ops[0];
      if !u.blocked && Perform(u, op, now).Ok? {
        var v := Perform(u, op, now).value;
        var x := Audit(u.id, Action(op));
        JustifiedSnoc(log, x);
        assert UserInv(v) by {
          match op
          case Mine =>
          case ViewAd =>
          case SkipAd =>
        }
        ReplayStaysClean(v, log + [x], ops[1..]);
      } else {
        ReplayStaysClean(u, log, ops[1..]);
      }
    }
  }
}
