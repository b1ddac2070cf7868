# PiPromise reward ledger and anomaly check, modelled in Dafny

PiPromise's backend (`backend/main.py`) pays a virtual coin to Pi Network users. `mine` pays 100 coins at most once
every 12 hours. `view_ad` pays 5 coins, at most 5 times per lazily rolled 12-hour ad window. `skip_ad` pays
nothing and is limited to 2 per window. Every paid or counted action is written to an append-only audit table.
`run_quick_anomaly_check` later recomputes the coins those audit rows justify and compares them with the
`total_system_awarded` counter: an excess flags the account, and a large excess blocks it. `pi_auth` looks up or
creates the account once the Pi verification has answered. `admin_block` blocks an account by name.
`require_user` turns blocked accounts away before any handler touches the ledger.

The project is organised in these modules:

- `records.dfy` (`Records`): the `User` and `Audit` rows, the verified identity `PiInfo`, the error datatype,
  and the reward and threshold constants. Timestamps are integer seconds, so 12 hours is `12 * 3600`.
- `trail.dfy` (`Trail`): the coins an audit row justifies (`Credit`) and the per-user select (`AuditsOf`). It
  also holds the reconciliation sum as the detector computes it (`Expected` over the selected rows, and the
  loop `ComputeExpected`) and as the ledger invariant states it (`Justified`, a sum over the whole log), with
  lemmas proving the two agree.
- `ledger.dfy` (`Ledger`): the three reward rules as pure steps on one user row (`MineStep`, `ViewAdStep`,
  `SkipAdStep`, and the shared `Rollover`).
- `detector.dfy` (`Detector`): the anomaly rule `Detect`. Its ratio is an exact `real`, which lemma
  `RatioExceeds` turns into integer cross-multiplication. The module also holds the audit rows the check appends
  and the status change it makes.
- `history.dfy` (`History`): a history made only of ledger requests keeps the account balanced, so the check
  finds nothing in it.
- `backend.dfy` (`Backend`): class `Server` holds the user table (`map<nat, User>`), the audit table
  (`seq<Audit>`) and the next id. Each handler is a method that edits the row field by field and commits it
  together with its audit row. `Valid()` is the table invariant: dense ids, unique names, quotas respected and
  audits only for known users. `Consistent()` is the ledger invariant: `total_system_awarded` and `coins` both
  equal what the user's audit rows justify. Every handler keeps `Consistent()`, and the anomaly check changes
  nothing on a consistent database.

The model follows the code literally in these choices:

- Audit actions are the code's strings (`"mine"`, `"view_ad"`, `"skip_ad"`, `"create_user"`, `"auth"`,
  `"admin_block"`, `"flag"`, `"auto_block"`).
- The account status is the code's two booleans, `flagged` and `blocked`, rather than a three-valued status.
- The cooldown error carries the remaining whole minutes, as the message does.
- `pi_auth` looks the account up by the name the verification returned.

## Model

| member | source | states |
|---|---|---|
| `Records.NewUser` | backend/main.py:119 | A first-time user starts with no coins, no awarded total, no mine and no ad window, is neither flagged nor blocked, and is within every quota |
| `Trail.Credit` | backend/main.py:227-228 | An audit row justifies coins iff its action is "mine" or "view_ad", and never more than 100; every other action (skip, auth, creation, flags, blocks) justifies nothing |
| `Trail.AuditsOf` | backend/main.py:224 | The select keeps every row of the log that belongs to the given user, each as many times as it occurs in the log, and no row of anyone else |
| `Trail.Expected` | backend/main.py:225-228 | The reconciliation sum of a list of rows is at most 100 coins per row |
| `Trail.ComputeExpected` | backend/main.py:225-228 | The accumulation loop returns exactly the reconciliation sum of the rows: 100 per "mine" row plus 5 per "view_ad" row |
| `Trail.ExpectedIsWeightedCount` | backend/main.py:226-228 | The reconciliation sum equals 100 × (number of "mine" rows) + 5 × (number of "view_ad" rows) |
| `Trail.ExpectedAppend` | backend/main.py:226-228 | The reconciliation sum of two concatenated trails is the sum of theirs |
| `Trail.JustifiedIsExpectedOfRows` | backend/main.py:224-228 | Summing credits over the whole log for one user equals selecting that user's rows and summing them, which is what the check does |
| `Trail.JustifiedSnoc` | backend/main.py:137-139 | Appending one audit row raises its owner's justified total by that row's credit and leaves everyone else's unchanged |
| `Trail.JustifiedUnmentioned` | backend/main.py:118-121 | A user id no audit row mentions is justified 0 coins |
| `Ledger.WindowExpired` | backend/main.py:169 | An unset window counts as lapsed. A window opened at t is live up to and including t + 43200 s, even when t lies in the future, and lapsed strictly afterwards |
| `Ledger.MinutesLeft` | backend/main.py:149-150 | The reported minutes are the remaining cooldown seconds divided by 60, rounded down. They lie in 0..720 while the cooldown is running, and are at least 720 when the last mine lies in the future |
| `Ledger.Rollover` | backend/main.py:169-170 | If the window start is unset or strictly more than 43200 s old, the start becomes now and both counters become 0; otherwise nothing changes; only the three window fields can change; quotas are kept |
| `Ledger.MineStep` | backend/main.py:148-154 | Mine fails iff a last mine exists and fewer than 43200 s have passed; the error carries `MinutesLeft`, the remaining cooldown in whole minutes rounded down, which lies in 0..720 when the last mine is not in the future; on success coins and total rise by exactly 100, last_mined_at becomes now, and nothing else changes |
| `Ledger.ViewAdStep` | backend/main.py:169-175 | A view fails iff the window has not lapsed and 5 views are already counted, and a failure implies no rollover was due; on success the view count (after rollover) rises by 1, coins and total rise by 5, and the count never exceeds 5 |
| `Ledger.SkipAdStep` | backend/main.py:187-191 | A skip fails iff the window has not lapsed and 2 skips are already counted; on success the skip count (after rollover) rises by 1; coins and total never change |
| `Ledger.MineOncePerCooldown` | backend/main.py:148-154 | After a successful mine at t, every later mine request stamped before t + 43200 fails, even one stamped before t, and the mine at exactly t + 43200 succeeds |
| `Ledger.RolloverEitherWay` | backend/main.py:169-188 | Whichever of view_ad and skip_ad finds the window lapsed, it succeeds, starts the window at now and resets the other counter to 0 |
| `Ledger.SixthViewRefused` | backend/main.py:171-175 | Five views in one fresh window add 25 coins and fill the quota; a sixth view within the window is refused |
| `Detector.Ratio` | backend/main.py:233 | The ratio times the justified total gives back the awarded total, and it is non-negative when the award is |
| `Detector.RatioExceeds` | backend/main.py:233-237 | For expected > 0, ratio > k holds iff awarded > k × expected |
| `Detector.Detect` | backend/main.py:229-238 | With expected = 0 the check flags iff awarded > 0 and never blocks. Otherwise it flags iff awarded > 2 × expected or awarded > expected + 1000, and blocks iff awarded > 4 × expected. A block implies a flag, and awarded ≤ expected is never flagged |
| `Detector.Entries` | backend/main.py:231-238 | The check appends a "flag" row first when it flags, and an "auto_block" row last when it blocks, and nothing else; all rows are for the checked user and justify 0 coins |
| `Detector.Checked` | backend/main.py:231-238 | The check only raises `flagged`/`blocked`, never clears them, and never touches coins or the awarded total |
| `Detector.EntriesJustifyNothing` | backend/main.py:226-236 | The rows the check appends change nobody's justified total |
| `Detector.DetectorIdempotent` | backend/main.py:220-238 | Re-running the check on its own output reaches the same decision and changes no status |
| `History.Perform` | backend/main.py:152-193 | A granted ledger request raises coins and the awarded total by exactly the credit of the audit row it writes, and keeps id and status |
| `History.ReplayStaysClean` | backend/main.py:152-177 | A balanced account stays balanced through any history of mine/view_ad/skip_ad requests: awarded = justified = coins. It keeps its flags and quotas, and the check then neither flags nor blocks it |
| `Backend.RowUpdateKeepsValid` | backend/main.py:152-155 | Committing an edited row under its own id and name, within its quotas, keeps the tables valid |
| `Backend.InsertKeepsValid` | backend/main.py:118-120 | Inserting a row with an unused name under the next id keeps the tables valid |
| `Backend.CreditKeepsConsistent` | backend/main.py:152-156 | A row commit paired with its audit row keeps the ledger invariant when coins and total grow by exactly that row's credit |
| `Backend.InsertKeepsConsistent` | backend/main.py:118-121 | Inserting a zero-coin account under a fresh id keeps the ledger invariant |
| `Backend.Server.constructor` | backend/main.py:49-50 | The empty database is valid and consistent |
| `Backend.Server.AppendAudit` | backend/main.py:137-139 | audit() appends exactly one row and changes nothing else; a row justifying no coins keeps the ledger invariant |
| `Backend.Server.Commit` | backend/main.py:155-156 | A row commit plus its audit row replace exactly that row and append exactly that audit row |
| `Backend.Server.RequireUser` | backend/main.py:127-135 | A bad token, an unknown id or a blocked user is refused with its own error; otherwise the stored row is returned |
| `Backend.Server.FindByName` | backend/main.py:117 | The name query returns the lowest id holding that name, or nothing iff no user holds it |
| `Backend.Server.LookupOrCreate` | backend/main.py:116-121 | A name already in the table returns exactly its stored row and changes nothing; an unknown name inserts `NewUser` under the next id with one "create_user" row |
| `Backend.Server.PiAuth` | backend/main.py:110-124 | A failed verification and a KYC-false identity are refused and change nothing. A KYC-verified name already in the table yields exactly its stored row, inserts nothing and appends one "auth" row; an unknown one is inserted as `NewUser` under the next id, with "create_user" and "auth" rows. Valid and Consistent are kept |
| `Backend.Server.Mine` | backend/main.py:143-159 | A gate refusal or a cooldown refusal changes nothing. Otherwise the user's row becomes `MineStep`'s result, one "mine" row is appended, and the ledger invariant is kept |
| `Backend.Server.ViewAd` | backend/main.py:163-179 | A gate refusal or an exhausted quota changes nothing. Otherwise the row becomes `ViewAdStep`'s result, one "view_ad" row is appended, and the ledger invariant is kept |
| `Backend.Server.SkipAd` | backend/main.py:182-194 | A gate refusal or an exhausted skip quota changes nothing. Otherwise the row becomes `SkipAdStep`'s result, one "skip_ad" row is appended, and the ledger invariant is kept |
| `Backend.Server.AdminBlock` | backend/main.py:210-217 | An unknown name fails with NotFound and changes nothing. Otherwise exactly that user's `blocked` becomes true, one "admin_block" row is appended, and `RequireUser` refuses the user from then on |
| `Backend.Server.RunQuickAnomalyCheck` | backend/main.py:220-228 | An unknown id changes nothing. Otherwise the row becomes `Checked` by `Detect(awarded, justified)` and `Entries` are appended. On a consistent database the check changes nothing |
| `Backend.Server.ApplyVerdict` | backend/main.py:229-238 | Given the justified total, the branches on expected = 0, on the ratio and on the slack set exactly the flags and append exactly the rows `Detect` decides |

## Left out

- JWT issuing and decoding (backend/main.py:56-64) belong to a foreign library. A token is modelled as its decoded user id, with `None` for a token that does not decode, and `pi_auth` returns the account instead of a token.
- The Pi verification call and its JSON handling (backend/main.py:70-100) are network I/O. Their result is the input of `PiAuth`, as `Option<PiInfo>`.
- The leaderboard (backend/main.py:197-201) is a query delegated to the database's ORDER BY/LIMIT. The profile and health endpoints are read-only projections.
- `BackgroundTasks` scheduling is left out. The anomaly check is a separate method that the caller invokes after `mine`/`view_ad`.
- Each handler is one atomic step. The gap between the row commit and the audit commit (backend/main.py:155-156), and interleavings of concurrent requests, are not modelled.
- The ratio is compared in exact rational arithmetic rather than floating point. Timestamps are whole seconds rather than microsecond `total_seconds()` values.
- The audit `detail` and `timestamp` columns, and logging, are left out. The clock is a `now` parameter.
- HTTP status codes and message strings become constructors of the `Error` datatype.
- The name query has no ORDER BY. The model takes its first row as the lowest id; with unique names (an invariant here) there is at most one.
- The frontends are left out: they are UI and fetch plumbing.
