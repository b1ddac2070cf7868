/** Rows, constants and failures of the reward backend (backend/main.py). */
module Records {

  datatype Option<+T> = None | Some(value: T)

  /** The HTTP errors the handlers raise, one constructor per distinct condition. */
  datatype Error =
    | InvalidToken                      // require_user: the session token does not decode (401)
    | UserNotFound                      // require_user: no row for the token's user id (401)
    | UserBlocked                       // require_user: the account is blocked (403)
    | CooldownActive(minutesLeft: int)  // mine: claimed again within 12 hours (400)
    | AdViewLimitReached                // view_ad: 5 views already in this window (400)
    | SkipLimitReached                  // skip_ad: 2 skips already in this window (400)
    | VerificationFailed                // pi_auth: the Pi verification returned nothing (401)
    | KycNotVerified                    // pi_auth: verified, but KYC is not (403)
    | NotFound                          // admin_block: no user with that pi_name (404)

  datatype Result<+T> = Ok(value: T) | Err(error: Error)

  // Reward rules and fraud thresholds. Timestamps are integer seconds.
  const MineReward := 100
  const MineCooldown := 12 * 3600
  const AdReward := 5
  const AdWindow := 12 * 3600
  const MaxAdViewsPer12h := 5
  const MaxAdSkipsPer12h := 2
  const AnomalyCoinRateThreshold: real := 2.0
  const AnomalySlack := 1000

  /** One row of the user table. */
  datatype User = User(
    id: nat,
    piName: string,
    avatarUrl: Option<string>,
    gender: string,
    coins: int,
    lastMinedAt: Option<int>,
    adsViewedWindowStart: Option<int>,
    adsViewedCount: int,
    adSkipsCount: int,
    createdAt: int,
    blocked: bool,
    flagged: bool,
    totalSystemAwarded: int)

  /** One row of the audit table: which user, which action. */
  datatype Audit = Audit(userId: nat, action: string)

  /** What the Pi verification reports about a proof it accepted. */
  datatype PiInfo = PiInfo(piName: string, kycVerified: bool, avatarUrl: Option<string>, gender: string)

  /** Bounds every reachable row keeps: the per-window quotas and non-negative totals. */
  predicate UserInv(u: User) {
    0 <= u.adsViewedCount <= MaxAdViewsPer12h &&
    0 <= u.adSkipsCount <= MaxAdSkipsPer12h &&
    0 <= u.coins && 0 <= u.totalSystemAwarded
  }

  /** The row pi_auth inserts for a first-time, KYC-verified Pi user. */
  function NewUser(id: nat, info: PiInfo, now: int): (u: User)
    ensures u.id == id && u.piName == info.piName && u.createdAt == now
    ensures u.coins == 0 && u.totalSystemAwarded == 0 && !u.blocked && !u.flagged
    ensures u.lastMinedAt.None? && u.adsViewedWindowStart.None?
    ensures UserInv(u)
  {
    User(id, info.piName, info.avatarUrl, info.gender, 0, None, None, 0, 0, now, false, false, 0)
  }
}
