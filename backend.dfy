/** The backend's state (the user table and the audit table) and its handlers. */
module Backend {
  import opened Records
  import opened Trail
  import opened Ledger
  import opened Detector

  /** Dense ids from 1, each row filed under its own id and within its quotas, unique pi_names, audits of known users. */
  ghost predicate TablesValid(users: map<nat, User>, audits: seq<Audit>, nextId: nat) {
    nextId >= 1 &&
    (forall id :: id in users <==> 1 <= id < nextId) &&
    (forall id :: id in users ==> users[id].id == id && UserInv(users[id])) &&
    (forall i, j :: i in users && j in users && users[i].piName == users[j].piName ==> i == j) &&
    (forall k :: 0 <= k < |audits| ==> audits[k].userId in users)
  }

  /** Every account's awarded total is what its audit rows justify, and its balance equals that total. */
  ghost predicate TablesConsistent(users: map<nat, User>, audits: seq<Audit>) {
    forall id :: id in users ==>
      users[id].totalSystemAwarded == Justified(audits, id) && users[id].coins == users[id].totalSystemAwarded
  }

  /** Rewriting one row in place (same id and name, within its quotas) keeps the tables valid. */
  lemma RowUpdateKeepsValid(users: map<nat, User>, audits: seq<Audit>, nextId: nat, id: nat, v: User)
    requires TablesValid(users, audits, nextId) && id in users
    requires v.id == id && v.piName == users[id].piName && UserInv(v)
    ensures TablesValid(users[id := v], audits, nextId)
  {
  }

  /** Inserting a row with a fresh name under the next id keeps the tables valid. */
  lemma InsertKeepsValid(users: map<nat, User>, audits: seq<Audit>, nextId: nat, v: User)
    requires TablesValid(users, audits, nextId)
    requires v.id == nextId && UserInv(v)
    requires forall id :: id in users ==> users[id].piName != v.piName
    ensures TablesValid(users[nextId := v], audits, nextId + 1)
  {
  }

  /**
   * A row update paired with its audit row keeps the ledger invariant when the row's coins and awarded
   * total both grow by exactly what the audit row justifies.
   */
  lemma CreditKeepsConsistent(users: map<nat, User>, audits: seq<Audit>, id: nat, v: User, action: string)
    requires TablesConsistent(users, audits) && id in users
    requires v.totalSystemAwarded == users[id].totalSystemAwarded + Credit(action)
    requires v.coins == users[id].coins + Credit(action)
    ensures TablesConsistent(users[id := v], audits + [Audit(id, action)])
  {
    JustifiedSnoc(audits, Audit(id, action));
  }

  /** A new account with no coins, inserted under an id the trail never mentions, keeps the ledger invariant. */
  lemma InsertKeepsConsistent(users: map<nat, User>, audits: seq<Audit>, nextId: nat, v: User)
    requires TablesValid(users, audits, nextId) && TablesConsistent(users, audits)
    requires v.totalSystemAwarded == 0 && v.coins == 0
    ensures TablesConsistent(users[nextId := v], audits)
  {
    JustifiedUnmentioned(audits, nextId);
  }

  class Server {
    /** The user table, keyed by id; ids are handed out from 1 upwards. */
    var users: map<nat, User>
    /** The audit table, in insertion order; rows are only ever appended. */
    var audits: seq<Audit>
    /** The id the next inserted user receives. */
    var nextId: nat

    ghost predicate Valid()
      reads this
    {
      TablesValid(users, audits, nextId)
    }

    /**
     * The ledger invariant. It is not part of Valid: the anomaly check exists for states in which
     * it has been broken from outside the handlers.
     */
    ghost predicate Consistent()
      reads this
    {
      TablesConsistent(users, audits)
    }

    /** An empty database. */
    constructor ()
      ensures Valid() && Consistent()
      ensures users == map[] && audits == [] && nextId == 1
    {
      users := map[];
      audits := [];
      nextId := 1;
    }

    /** audit(): appends one row for an existing user. A row that justifies no coins keeps the ledger invariant. */
    method AppendAudit(userId: nat, action: string)
      requires Valid() && userId in users
      modifies this
      ensures Valid()
      ensures users == old(users) && nextId == old(nextId)
      ensures audits == old(audits) + [Audit(userId, action)]
      ensures old(Consistent()) && Credit(action) == 0 ==> Consistent()
    {
      ghost var (u0, a0) := (users, audits);
      audits := audits + [Audit(userId, action)];
      if TablesConsistent(u0, a0) && Credit(action) == 0 {
        CreditKeepsConsistent(u0, a0, userId, u0[userId], action);
        assert u0[userId := u0[userId]] == u0;
      }
    }

    /**
     * Commits an edited row, then logs its audit row (one atomic step here). The ledger invariant is kept
     * when the row's coins and awarded total grew by exactly what the audit row justifies.
     */
    method Commit(id: nat, v: User, action: string)
      requires Valid() && id in users
      requires v.id == id && v.piName == users[id].piName && UserInv(v)
      modifies this
      ensures Valid() && nextId == old(nextId)
      ensures users == old(users)[id := v] && audits == old(audits) + [Audit(id, action)]
      ensures (old(Consistent()) &&
               v.totalSystemAwarded == old(users[id].totalSystemAwarded) + Credit(action) &&
               v.coins == old(users[id].coins) + Credit(action)) ==> Consistent()
    {
      ghost var (u0, a0) := (users, audits);
      RowUpdateKeepsValid(users, audits, nextId, id, v);
      users := users[id := v];
      audits := audits + [Audit(id, action)];
      if TablesConsistent(u0, a0) &&
         v.totalSystemAwarded == u0[id].totalSystemAwarded + Credit(action) &&
         v.coins == u0[id].coins + Credit(action) {
        CreditKeepsConsistent(u0, a0, id, v, action);
      }
    }

    /** require_user: the decoded token must name an existing user who is not blocked. */
    function RequireUser(token: Option<nat>): (r: Result<User>)
      reads this
      ensures token.None? ==> r == Err(InvalidToken)
      ensures token.Some? && token.value !in users ==> r == Err(UserNotFound)
      ensures token.Some? && token.value in users && users[token.value].blocked ==> r == Err(UserBlocked)
      ensures r.Ok? <==> token.Some? && token.value in users && !users[token.value].blocked
      ensures r.Ok? ==> r.value == users[token.value]
    {
      match token
      case None => Err(InvalidToken)
      case Some(id) =>
        if id !in users then Err(UserNotFound)
        else if users[id].blocked then Err(UserBlocked)
        else Ok(users[id])
    }

    /** The `pi_name == name` query's first row (lowest id), if any. */
    method FindByName(name: string) returns (found: Option<nat>)
      requires Valid()
      ensures found.Some? ==> found.value in users && users[found.value].piName == name
      ensures found.Some? ==> forall id :: id in users && id < found.value ==> users[id].piName != name
      ensures found.None? <==> forall id :: id in users ==> users[id].piName != name
    {
      var i := 1;
      while i < nextId
        invariant 1 <= i <= nextId
        invariant forall j :: 1 <= j < i ==> users[j].piName != name
      {
        if users[i].piName == name {
          return Some(i);
        }
        i := i + 1;
      }
      return None;
    }

    /**
     * The "create or get user" step of pi_auth for a verified name: the existing row, or a new row under the
     * next id, logged with a "create_user" audit row.
     */
    method LookupOrCreate(info: PiInfo, now: int) returns (user: User)
      requires Valid()
      modifies this
      ensures Valid()
      ensures old(Consistent()) ==> Consistent()
      ensures user.piName == info.piName && user.id in users && users[user.id] == user
      ensures user.id in old(users) ==> users == old(users) && nextId == old(nextId) && audits == old(audits)
      ensures forall id :: id in old(users) && old(users)[id].piName == info.piName ==>
        user == old(users)[id] && users == old(users) && nextId == old(nextId) && audits == old(audits)
      ensures (forall id :: id in old(users) ==> old(users)[id].piName != info.piName) ==>
        user == NewUser(old(nextId), info, now) &&
        users == old(users)[old(nextId) := user] && nextId == old(nextId) + 1 &&
        audits == old(audits) + [Audit(user.id, "create_user")]
    {
      var found := FindByName(info.piName);
      if found.Some? {
        return users[found.value];
      }
      user := NewUser(nextId, info, now);
      InsertKeepsValid(users, audits, nextId, user);
      if Consistent() {
        InsertKeepsConsistent(users, audits, nextId, user);
      }
      users := users[nextId := user];
      nextId := nextId + 1;
      AppendAudit(user.id, "create_user");
    }

    /**
     * pi_auth once the Pi verification has answered: `info` is its result (None when it failed).
     * A KYC-verified name is looked up, or inserted on first sight; either way an "auth" row is logged
     * and the account is returned. Authenticating the same name again never inserts a second row.
     */
    method PiAuth(info: Option<PiInfo>, now: int) returns (r: Result<User>)
      requires Valid()
      modifies this
      ensures Valid()
      ensures old(Consistent()) ==> Consistent()
      ensures info.None? ==> r == Err(VerificationFailed) && unchanged(this)
      ensures info.Some? && !info.value.kycVerified ==> r == Err(KycNotVerified) && unchanged(this)
      ensures info.Some? && info.value.kycVerified ==>
        r.Ok? && r.value.piName == info.value.piName && r.value.id in users && users[r.value.id] == r.value
      ensures r.Ok? && r.value.id in old(users) ==>
        users == old(users) && nextId == old(nextId) && audits == old(audits) + [Audit(r.value.id, "auth")]
      ensures info.Some? && info.value.kycVerified ==>
        forall id :: id in old(users) && old(users)[id].piName == info.value.piName ==>
          r == Ok(old(users)[id]) && users == old(users) && nextId == old(nextId) &&
          audits == old(audits) + [Audit(id, "auth")]
      ensures info.Some? && info.value.kycVerified &&
              (forall id :: id in old(users) ==> old(users)[id].piName != info.value.piName) ==>
        r == Ok(NewUser(old(nextId), info.value, now)) &&
        users == old(users)[old(nextId) := r.value] && nextId == old(nextId) + 1 &&
        audits == old(audits) + [Audit(r.value.id, "create_user"), Audit(r.value.id, "auth")]
    {
      if info.None? {
        return Err(VerificationFailed);
      }
      if !info.value.kycVerified {
        return Err(KycNotVerified);
      }
      var user := LookupOrCreate(info.value, now);
      AppendAudit(user.id, "auth");
      r := Ok(user);
    }

    /** mine: +100 coins to a user whose last mine is at least 12 hours old. Returns the new balance. */
    method Mine(token: Option<nat>, now: int) returns (r: Result<int>)
      requires Valid()
      modifies this
      ensures Valid() && nextId == old(nextId)
      ensures old(Consistent()) ==> Consistent()
      ensures var g := old(RequireUser(token));
        g.Err? ==> r == Err(g.error) && unchanged(this)
      ensures var g := old(RequireUser(token));
        g.Ok? && MineStep(g.value, now).Err? ==> r == Err(MineStep(g.value, now).error) && unchanged(this)
      ensures var g := old(RequireUser(token));
        g.Ok? && MineStep(g.value, now).Ok? ==>
          var v := MineStep(g.value, now).value;
          r == Ok(v.coins) && users == old(users)[g.value.id := v] &&
          audits == old(audits) + [Audit(g.value.id, "mine")]
    {
      var g := RequireUser(token);
      if g.Err? {
        return Err(g.error);
      }
      var id := g.value.id;
      var dbu := users[id];
      if dbu.lastMinedAt.Some? && now - dbu.lastMinedAt.value < MineCooldown {
        return Err(CooldownActive(MinutesLeft(dbu.lastMinedAt.value, now)));
      }
      dbu := dbu.(coins := dbu.coins + MineReward);
      dbu := dbu.(totalSystemAwarded := dbu.totalSystemAwarded + MineReward);
      dbu := dbu.(lastMinedAt := Some(now));
      Commit(id, dbu, "mine");
      r := Ok(dbu.coins);
    }

    /** view_ad: +5 coins, at most 5 per ad window. Returns the new balance and the window's view count. */
    method ViewAd(token: Option<nat>, now: int) returns (r: Result<(int, int)>)
      requires Valid()
      modifies this
      ensures Valid() && nextId == old(nextId)
      ensures old(Consistent()) ==> Consistent()
      ensures var g := old(RequireUser(token));
        g.Err? ==> r == Err(g.error) && unchanged(this)
      ensures var g := old(RequireUser(token));
        g.Ok? && ViewAdStep(g.value, now).Err? ==> r == Err(AdViewLimitReached) && unchanged(this)
      ensures var g := old(RequireUser(token));
        g.Ok? && ViewAdStep(g.value, now).Ok? ==>
          var v := ViewAdStep(g.value, now).value;
          r == Ok((v.coins, v.adsViewedCount)) && users == old(users)[g.value.id := v] &&
          audits == old(audits) + [Audit(g.value.id, "view_ad")]
    {
      var g := RequireUser(token);
      if g.Err? {
        return Err(g.error);
      }
      var id := g.value.id;
      var dbu := users[id];
      if dbu.adsViewedWindowStart.None? || now - dbu.adsViewedWindowStart.value > AdWindow {
        dbu := dbu.(adsViewedWindowStart := Some(now), adsViewedCount := 0, adSkipsCount := 0);
      }
      if dbu.adsViewedCount >= MaxAdViewsPer12h {
        return Err(AdViewLimitReached);
      }
      dbu := dbu.(adsViewedCount := dbu.adsViewedCount + 1);
      dbu := dbu.(coins := dbu.coins + AdReward);
      dbu := dbu.(totalSystemAwarded := dbu.totalSystemAwarded + AdReward);
      Commit(id, dbu, "view_ad");
      r := Ok((dbu.coins, dbu.adsViewedCount));
    }

    /** skip_ad: no coins, at most 2 per ad window. Returns the window's skip count. */
    method SkipAd(token: Option<nat>, now: int) returns (r: Result<int>)
      requires Valid()
      modifies this
      ensures Valid() && nextId == old(nextId)
      ensures old(Consistent()) ==> Consistent()
      ensures var g := old(RequireUser(token));
        g.Err? ==> r == Err(g.error) && unchanged(this)
      ensures var g := old(RequireUser(token));
        g.Ok? && SkipAdStep(g.value, now).Err? ==> r == Err(SkipLimitReached) && unchanged(this)
      ensures var g := old(RequireUser(token));
        g.Ok? && SkipAdStep(g.value, now).Ok? ==>
          var v := SkipAdStep(g.value, now).value;
          r == Ok(v.adSkipsCount) && users == old(users)[g.value.id := v] &&
          audits == old(audits) + [Audit(g.value.id, "skip_ad")]
    {
      var g := RequireUser(token);
      if g.Err? {
        return Err(g.error);
      }
      var id := g.value.id;
      var dbu := users[id];
      if dbu.adsViewedWindowStart.None? || now - dbu.adsViewedWindowStart.value > AdWindow {
        dbu := dbu.(adsViewedWindowStart := Some(now), adsViewedCount := 0, adSkipsCount := 0);
      }
      if dbu.adSkipsCount >= MaxAdSkipsPer12h {
        return Err(SkipLimitReached);
      }
      dbu := dbu.(adSkipsCount := dbu.adSkipsCount + 1);
      Commit(id, dbu, "skip_ad");
      r := Ok(dbu.adSkipsCount);
    }

    /** admin_block: blocks the user with this pi_name; from then on require_user refuses them. */
    method AdminBlock(piName: string) returns (r: Result<()>)
      requires Valid()
      modifies this
      ensures Valid() && nextId == old(nextId)
      ensures old(Consistent()) ==> Consistent()
      ensures r.Err? <==> forall id :: id in old(users) ==> old(users)[id].piName != piName
      ensures r.Err? ==> r.error == NotFound && unchanged(this)
      ensures r.Ok? ==> exists id :: (id in old(users) && old(users)[id].piName == piName &&
        users == old(users)[id := old(users)[id].(blocked := true)] &&
        audits == old(audits) + [Audit(id, "admin_block")] &&
        RequireUser(Some(id)) == Err(UserBlocked))
    {
      var found := FindByName(piName);
      if found.None? {
        return Err(NotFound);
      }
      var id := found.value;
      var u := users[id];
      u := u.(blocked := true);
      Commit(id, u, "admin_block");
      r := Ok(());
    }

    /**
     * run_quick_anomaly_check: reconciles one user's awarded total with their audit rows, then raises
     * the flag, and possibly blocks, logging "flag" and "auto_block". An unknown id is ignored.
     */
    method RunQuickAnomalyCheck(userId: nat)
      requires Valid()
      modifies this
      ensures Valid() && nextId == old(nextId)
      ensures userId !in old(users) ==> unchanged(this)
      ensures userId in old(users) ==>
        var u := old(users)[userId];
        var d := Detect(u.totalSystemAwarded, Justified(old(audits), userId));
        users == old(users)[userId := Checked(u, d)] && audits == old(audits) + Entries(userId, d)
      ensures old(Consistent()) ==> users == old(users) && audits == old(audits)
    {
      if userId !in users {
        return;
      }
      var expected := ComputeExpected(AuditsOf(audits, userId));
      JustifiedIsExpectedOfRows(audits, userId);
      ghost var u := users[userId];
      ghost var clean := Consistent();
      assert clean == old(Consistent());
      assert clean ==> u.totalSystemAwarded == expected;
      ApplyVerdict(userId, expected);
      if clean {
        assert Checked(u, Decision(false, false)) == u;
        assert users == old(users) && audits == old(audits);
      }
    }

    /** The decision half of run_quick_anomaly_check, given the user's justified total `expected`. */
    method ApplyVerdict(userId: nat, expected: nat)
      requires Valid() && userId in users
      modifies this
      ensures Valid() && nextId == old(nextId)
      ensures var u := old(users)[userId];
        var d := Detect(u.totalSystemAwarded, expected);
        users == old(users)[userId := Checked(u, d)] && audits == old(audits) + Entries(userId, d)
    {
      var u := users[userId];
      ghost var d := Detect(u.totalSystemAwarded, expected);
      if expected == 0 {
        if u.totalSystemAwarded > 0 {
          u := u.(flagged := true);
          Commit(userId, u, "flag");
        }
        return;
      }
      RatioExceeds(u.totalSystemAwarded, expected, 2);
      RatioExceeds(u.totalSystemAwarded, expected, 4);
      var ratio := u.totalSystemAwarded as real / expected as real;
      if ratio > AnomalyCoinRateThreshold || u.totalSystemAwarded > expected + AnomalySlack {
        u := u.(flagged := true);
        Commit(userId, u, "flag");
        if ratio > AnomalyCoinRateThreshold * 2.0 {
          u := u.(blocked := true);
          Commit(userId, u, "auto_block");
        }
      }
    }
  }
}
