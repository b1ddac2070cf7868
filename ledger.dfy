/** The reward rules of the mine, view_ad and skip_ad handlers, as steps on one user row. */
module Ledger {
  import opened Records

  /** The ad window has lapsed: it was never opened, or opened strictly more than 12 hours ago. */
  predicate WindowExpired(start: Option<int>, now: int)
    ensures start.None? ==> WindowExpired(start, now)
    ensures start.Some? && now <= start.value + AdWindow ==> !WindowExpired(start, now)
    ensures start.Some? && now > start.value + AdWindow ==> WindowExpired(start, now)
  {
    start.None? || now - start.value > AdWindow
  }

  /** The lazy window reset that view_ad and skip_ad both perform before their quota check. */
  function Rollover(u: User, now: int): (w: User)
    ensures WindowExpired(u.adsViewedWindowStart, now) ==>
      w.adsViewedWindowStart == Some(now) && w.adsViewedCount == 0 && w.adSkipsCount == 0
    ensures !WindowExpired(u.adsViewedWindowStart, now) ==> w == u
    ensures w == u.(adsViewedWindowStart := w.adsViewedWindowStart,
                    adsViewedCount := w.adsViewedCount, adSkipsCount := w.adSkipsCount)
    ensures !WindowExpired(w.adsViewedWindowStart, now)
    ensures UserInv(u) ==> UserInv(w)
  {
    if WindowExpired(u.adsViewedWindowStart, now) then
      u.(adsViewedWindowStart := Some(now), adsViewedCount := 0, adSkipsCount := 0)
    else u
  }

  /** Minutes of cooldown left, as the error message reports them (whole minutes, rounded down). */
  function MinutesLeft(last: int, now: int): (m: int)
    ensures 60 * m <= MineCooldown - (now - last) < 60 * m + 60
    ensures last <= now < last + MineCooldown ==> 0 <= m <= MineCooldown / 60
    ensures now < last ==> m >= MineCooldown / 60
  {
    (MineCooldown - (now - last)) / 60
  }

  /** mine: 100 coins, at most once per 12 hours (the boundary itself is allowed). */
  function MineStep(u: User, now: int): (r: Result<User>)
    ensures r.Err? <==> u.lastMinedAt.Some? && now - u.lastMinedAt.value < MineCooldown
    ensures r.Err? ==> r.error == CooldownActive(MinutesLeft(u.lastMinedAt.value, now))
    ensures r.Err? ==> (r.error.CooldownActive? &&
                        (u.lastMinedAt.value <= now ==> 0 <= r.error.minutesLeft <= MineCooldown / 60))
    ensures r.Ok? ==> r.value == u.(coins := u.coins + MineReward,
                                     totalSystemAwarded := u.totalSystemAwarded + MineReward,
                                     lastMinedAt := Some(now))
    ensures r.Ok? && UserInv(u) ==> UserInv(r.value)
  {
    if u.lastMinedAt.Some? && now - u.lastMinedAt.value < MineCooldown then
      Err(CooldownActive(MinutesLeft(u.lastMinedAt.value, now)))
    else
      Ok(u.(coins := u.coins + MineReward,
            totalSystemAwarded := u.totalSystemAwarded + MineReward,
            lastMinedAt := Some(now)))
  }

  /** view_ad: 5 coins, at most 5 times per ad window. */
  function ViewAdStep(u: User, now: int): (r: Result<User>)
    ensures r.Err? <==> !WindowExpired(u.adsViewedWindowStart, now) && u.adsViewedCount >= MaxAdViewsPer12h
    ensures r.Err? ==> r.error == AdViewLimitReached && Rollover(u, now) == u
    ensures r.Ok? ==>
      var w := Rollover(u, now);
      r.value == w.(adsViewedCount := w.adsViewedCount + 1,
                    coins := u.coins + AdReward,
                    totalSystemAwarded := u.totalSystemAwarded + AdReward)
    ensures r.Ok? ==> r.value.adsViewedCount <= MaxAdViewsPer12h
    ensures r.Ok? && UserInv(u) ==> UserInv(r.value)
  {
    var w := Rollover(u, now);
    if w.adsViewedCount >= MaxAdViewsPer12h then Err(AdViewLimitReached)
    else
      Ok(w.(adsViewedCount := w.adsViewedCount + 1,
            coins := w.coins + AdReward,
            totalSystemAwarded := w.totalSystemAwarded + AdReward))
  }

  /** skip_ad: no coins, at most 2 skips per ad window. */
  function SkipAdStep(u: User, now: int): (r: Result<User>)
    ensures r.Err? <==> !WindowExpired(u.adsViewedWindowStart, now) && u.adSkipsCount >= MaxAdSkipsPer12h
    ensures r.Err? ==> r.error == SkipLimitReached && Rollover(u, now) == u
    ensures r.Ok? ==>
      var w := Rollover(u, now);
      r.value == w.(adSkipsCount := w.adSkipsCount + 1)
    ensures r.Ok? ==> r.value.coins == u.coins && r.value.totalSystemAwarded == u.totalSystemAwarded
    ensures r.Ok? && UserInv(u) ==> UserInv(r.value)
  {
    var w := Rollover(u, now);
    if w.adSkipsCount >= MaxAdSkipsPer12h then Err(SkipLimitReached)
    else Ok(w.(adSkipsCount := w.adSkipsCount + 1))
  }

  /** Two mines within one cooldown never both succeed; the next one exactly 12 hours later does. */
  lemma MineOncePerCooldown(u: User, t: int, t': int)
    requires MineStep(u, t).Ok?
    ensures t' < t + MineCooldown ==> MineStep(MineStep(u, t).value, t').Err?
    ensures MineStep(MineStep(u, t).value, t + MineCooldown).Ok?
  {
  }

  /** Whichever of view_ad and skip_ad finds the window lapsed, both counters restart from zero. */
  lemma RolloverEitherWay(u: User, now: int)
    requires WindowExpired(u.adsViewedWindowStart, now)
    ensures ViewAdStep(u, now).Ok? && SkipAdStep(u, now).Ok?
    ensures ViewAdStep(u, now).value.adsViewedWindowStart == Some(now) == SkipAdStep(u, now).value.adsViewedWindowStart
    ensures ViewAdStep(u, now).value.adsViewedCount == 1 && ViewAdStep(u, now).value.adSkipsCount == 0
    ensures SkipAdStep(u, now).value.adsViewedCount == 0 && SkipAdStep(u, now).value.adSkipsCount == 1
  {
  }

  /** Five views fill a window: the sixth view in the same window is refused, coins unchanged. */
  lemma SixthViewRefused(u: User, t0: int, t1: int, t2: int, t3: int, t4: int, t5: int)
    requires WindowExpired(u.adsViewedWindowStart, t0)
    requires t0 <= t1 <= t2 <= t3 <= t4 <= t5 <= t0 + AdWindow
    ensures var v1 := ViewAdStep(u, t0).value;
            var v2 := ViewAdStep(v1, t1).value;
            var v3 := ViewAdStep(v2, t2).value;
            var v4 := ViewAdStep(v3, t3).value;
            var v5 := ViewAdStep(v4, t4).value;
            v5.coins == u.coins + 5 * AdReward && v5.adsViewedCount == MaxAdViewsPer12h &&
            ViewAdStep(v5, t5) == Err(AdViewLimitReached)
  {
  }
}
