# Tournament standings and event generation — a Dafny model

This project models the core of a small tournament system, split into two halves.

- **Event creation** (`POST /api/events`):
  - The request is validated.
  - An event row is stored.
  - Every entered team gets an all-zero standings row.
  - The first-round fixtures are generated: a single round robin for a `league`, or consecutive pairs of a shuffled copy of the team list for any other type (only `knockout` gets past the type check).
- **Standings maintenance**:
  - A team's row is credited with one match result.
  - An event's table is recalculated from its completed matches.
  - `getEventStandings` lists the event's table in ranked order. If the event has no standings rows yet, it first repairs them: one zero row per team that appears in its matches, then a recalculation.

Files:

- `schema.dfy` (module `Schema`) holds the records of the three tables and the store. The records keep their column defaults:
  - a new event is `active`;
  - a new match is round 1, `Scheduled`, 0–0;
  - a standings row is all zeros.

  The store is a class `Database` whose fields are the tables, which the handlers update in place. Standings rows are keyed by `(event, team)`, so UNIQUE(event_id, team_id) holds by construction.
- `standings.dfy` (module `Standings`) holds the pure specification of a row update (`Seeded`/`Record`/`Credit`) and of recalculation (`Recalc`, a fold of `Credit` over the completed matches). It also holds the proofs about them:
  - the match order does not matter;
  - recalculation is idempotent;
  - recalculation conserves totals: goals for equal goals against, wins equal losses, and there are 2 appearances per match.

  The store methods mirror `updateTeamStanding`, `recalculateEventStandings` and `getEventStandings`, and each is proved against those specifications.
- `events.dfy` (module `Events`) holds:
  - the fixture generators as loops, proved against `LeagueFixtures` and `KnockoutFixtures`, with lemmas about them:
    - a round robin has n(n-1)/2 fixtures;
    - every pair of teams meets exactly once, the earlier-listed team at home;
    - a knockout team plays at most once, and everyone plays except the last seeded team when the count is odd;
  - the creation handler, whose transaction is modelled as all-or-nothing.

Four behaviours of the code worth noting:

- Recalculation replays the completed matches in whatever order the unordered `SELECT` returns them, not in creation order. `Standings.RecalcOrderIndependent` shows the order cannot change the result.
- Knockout creation inserts only the round-1 pairs; it creates no empty round-2 fixture.
- Every store failure (unknown type, a name too long for its column, duplicate team) becomes a rolled-back transaction answered with status 500. None of them is answered with 400 or 409.
- A name longer than 200 characters is accepted when every character past the 200th is a space: the `VARCHAR(200)` column cuts those spaces off and the event is created with the shortened name.

## Model

| member | source | states |
|---|---|---|
| Schema.Database.constructor | netlify/functions/setup-db.js:20-61 | an empty store whose event ids start at 1 satisfies the foreign-key and id invariant `Valid` |
| Standings.Seeded | netlify/functions/standings.js:265-276 | the inserted row has played 1 and the match's goals for and against; won, drawn and lost are each 1 exactly when goals for >, =, < goals against; points are 3·won + drawn |
| Standings.Record | netlify/functions/standings.js:277-289 | the update adds 1 played and the goals; exactly one of won/drawn/lost grows, each by its outcome; the points grow by 3 for a win and 1 for a draw; a consistent row stays consistent |
| Standings.RecordAddsSeeded | netlify/functions/standings.js:265-289 | the UPDATE branch adds to the existing row exactly the row the INSERT branch would create |
| Standings.SeededIsRecordOfZero | netlify/functions/standings.js:265-289 | inserting a fresh row equals updating an all-zero row |
| Standings.Credit | netlify/functions/standings.js:254-291 | crediting a result adds the inserted row's counts to the team's row (a missing row reads as all zeros), creates no other key and leaves every other row as it was |
| Standings.UpdateTeamStanding | netlify/functions/standings.js:254-291 | the store's standings become `Credit` of the old ones; the invariant is kept |
| Standings.CompletedMatches | netlify/functions/standings.js:224-227 | exactly the event's matches with status completed are selected, each as often as it occurs in the table, so `|CompletedMatches(..)|` is the number of completed matches |
| Standings.RecalculateEventStandings | netlify/functions/standings.js:221-252 | after the loop the standings are `Recalc`: the event's rows reset to zero, then both teams of every completed match credited |
| Standings.ReplayKeys | netlify/functions/standings.js:238-246 | replaying matches leaves a row for every team that played in them and creates no other row |
| Standings.ReplayOtherEvents | netlify/functions/standings.js:229-246 | recalculating one event neither adds, removes nor changes a row of another event |
| Standings.CreditConsistent | netlify/functions/standings.js:254-291 | crediting a result keeps points = 3·won + drawn and played = won + drawn + lost on every row of the event |
| Standings.ReplayConsistent | netlify/functions/standings.js:238-246 | replaying any matches keeps every row of the event consistent |
| Standings.RecalcRows | netlify/functions/standings.js:221-252 | after a recalculation every row of the event is consistent; rows of other events are unchanged |
| Standings.CreditCommutes | netlify/functions/standings.js:254-291 | two credits applied in either order give the same table |
| Standings.ReplayMatchCommutes | netlify/functions/standings.js:238-246 | crediting two matches in either order gives the same table |
| Standings.ReplayConcat | netlify/functions/standings.js:238-246 | replaying a + b is replaying a, then b |
| Standings.ReplayMatchThrough | netlify/functions/standings.js:238-246 | a match may be credited before or after any other matches |
| Standings.ReplayMoveToEnd | netlify/functions/standings.js:238-246 | a match may be moved to the end of the replay |
| Standings.ReplayPermutation | netlify/functions/standings.js:224-246 | two replays of the same multiset of matches, in any order, give the same table |
| Standings.RecalcOrderIndependent | netlify/functions/standings.js:224-246 | the unordered SELECT of completed matches cannot influence the recalculated standings |
| Standings.CreditSameRows | netlify/functions/standings.js:254-291 | supporting lemma for `RecalcIdempotent`: tables that agree when missing rows are read as zero still agree after a credit |
| Standings.ReplaySameRows | netlify/functions/standings.js:238-246 | such tables still agree after a replay |
| Standings.RecalcIdempotent | netlify/functions/standings.js:221-252 | recalculating twice from the same completed matches gives exactly the table of one recalculation |
| Standings.SumTallyPick | netlify/functions/standings.js:221-252 | supporting lemma for `RecalcBalanced`: the column-wise total of a set of rows is any one row plus the total of the rest |
| Standings.SumTallyAgree | netlify/functions/standings.js:221-252 | supporting lemma for `RecalcBalanced`: totals depend only on the rows summed |
| Standings.SumTallyZero | netlify/functions/standings.js:229-235 | supporting lemma for `RecalcBalanced`: the total of reset rows is zero |
| Standings.PlusSwap | netlify/functions/standings.js:279-289 | supporting lemma for `RecalcBalanced`: adding row counts is order-insensitive |
| Standings.EventTotalCredit | netlify/functions/standings.js:254-291 | a credit adds exactly the inserted row's counts to the event total |
| Standings.EventTotalReplayMatch | netlify/functions/standings.js:238-246 | one match adds 2 played, equal goals for and against, and either one win and one loss or two draws to the event total |
| Standings.ReplayBalanced | netlify/functions/standings.js:238-246 | replaying n matches onto a balanced total keeps it balanced with 2n more appearances |
| Standings.RecalcBalanced | netlify/functions/standings.js:221-252 | after recalculating from c completed matches: total goals for = goals against, wins = losses, draws are even, and played = 2c |
| Standings.AddNew | netlify/functions/standings.js:99-105 | adding a team to a duplicate-free list keeps it duplicate-free and adds exactly that team |
| Standings.TeamsInEvent | netlify/functions/standings.js:99-105 | the SELECT DISTINCT lists every team of the event's matches exactly once |
| Standings.SeedZerosRows | netlify/functions/standings.js:109-115 | the ON CONFLICT DO NOTHING inserts keep existing rows and add a zero row exactly for listed teams without one |
| Standings.SeedZerosStep | netlify/functions/standings.js:109-115 | inserting teams one at a time equals inserting the whole set |
| Standings.InsertZeroRow | netlify/functions/standings.js:110-114 | one insert with ON CONFLICT DO NOTHING |
| Standings.SeedEventRows | netlify/functions/standings.js:107-115 | the insert loop adds zero rows for exactly the listed teams that lacked one |
| Standings.CompletedTeamsInEvent | netlify/functions/standings.js:99-118 | every team of a completed match of the event is among the teams the self-heal seeds |
| Standings.SelfHealRows | netlify/functions/standings.js:96-118 | after the self-heal, the event has a row for exactly the teams of its matches; every row is consistent; the totals are balanced over its completed matches; other rows are untouched |
| Standings.RanksAtLeastTotalPreorder | netlify/functions/standings.js:93 | the ORDER BY points, goal difference, goals for is a total preorder |
| Standings.InsertRanked | netlify/functions/standings.js:93 | inserting a row into a listing adds exactly that row |
| Standings.InsertRankedKeepsRanked | netlify/functions/standings.js:93 | insertion into a ranked listing keeps it ranked |
| Standings.ListEventStandings | netlify/functions/standings.js:83-94 | the listing holds each of the event's rows exactly once, ranked by points, then goal difference, then goals for; it is empty exactly when the event has no rows |
| Standings.GetEventStandings | netlify/functions/standings.js:68-170 | an unknown event gets not-found; otherwise a ranked listing of the event's current rows. The standings change only when the event had no rows and has matches, and then they become the self-healed table |
| Events.GenerateLeagueMatches | netlify/functions/events.js:137-147 | the nested loops append exactly `LeagueFixtures`, in row-major order |
| Events.RowFixturesLength | netlify/functions/events.js:139-145 | the inner loop for team i inserts n - i - 1 fixtures |
| Events.LeaguePrefixLength | netlify/functions/events.js:138-146 | the first p passes of the outer loop insert p(2n - p - 1)/2 fixtures |
| Events.LeagueFixtureCount | netlify/functions/events.js:137-147 | a league of n teams gets n(n-1)/2 fixtures |
| Events.RowFixturesShape | netlify/functions/events.js:139-145 | every fixture of team i's row pairs it with a later-listed team |
| Events.LeaguePrefixShape | netlify/functions/events.js:138-146 | every fixture of the first p rows pairs an earlier with a later team |
| Events.LeagueFixtureShape | netlify/functions/events.js:140-144 | every league fixture is a round-1, scheduled, 0–0 fixture of the event between list entries i < j, with entry i at home; with distinct teams nobody plays itself |
| Events.MeetingCountConcat | netlify/functions/events.js:137-147 | supporting lemma for `LeagueMeetsOnce`: meetings of two teams add up over concatenated fixture lists |
| Events.RowFixturesMeetings | netlify/functions/events.js:139-145 | team i's row meets entry b once exactly when b lies in that row |
| Events.LeaguePrefixMeetings | netlify/functions/events.js:138-146 | teams a < b meet once in the first p rows exactly when a < p |
| Events.RowFixturesContain | netlify/functions/events.js:139-145 | team i's row contains its fixture against every later entry |
| Events.LeaguePrefixContainsRow | netlify/functions/events.js:138-146 | the first p rows contain all of row i for i < p |
| Events.LeagueMeetsOnce | netlify/functions/events.js:137-147 | with distinct teams, every two entered teams meet exactly once, the earlier-listed one at home |
| Events.GenerateKnockoutMatches | netlify/functions/events.js:150-163 | the stride-2 loop over the shuffled copy appends exactly `KnockoutFixtures`, pairing entries 2k and 2k+1 and skipping an unpaired last entry |
| Events.KnockoutPrefixAppearances | netlify/functions/events.js:154-161 | the first p knockout fixtures use each team as often as it occurs among the first 2p seeded entries |
| Events.DistinctOnce | netlify/functions/events.js:152 | supporting lemma for `KnockoutAppearances`: a duplicate-free list holds each of its teams exactly once |
| Events.KnockoutAppearances | netlify/functions/events.js:150-163 | with distinct teams there are n/2 fixtures and nobody plays twice. Every team plays when n is even; when n is odd, all but the last seeded team play |
| Events.KnockoutNoSelfPairing | netlify/functions/events.js:154-161 | with distinct teams no knockout fixture pits a team against itself |
| Events.AppearancesAt | netlify/functions/events.js:154-161 | supporting lemma for `KnockoutNoSelfPairing`: a fixture's teams are counted among the appearances of the list |
| Events.StoredName | netlify/functions/setup-db.js:24 | the stored name is the whole name when it has at most 200 characters and exactly its first 200 characters when it is longer, and for a name the column accepts, the stored name followed by the cut-off spaces is the original |
| Events.StageZeroRows | netlify/functions/events.js:99-105 | the insert loop succeeds exactly when no team is entered twice, and then adds a zero row per entered team |
| Events.CreatedRows | netlify/functions/events.js:99-105 | a new event has a zero row for exactly its entered teams, so the self-heal never applies to it |
| Events.CreateEvent | netlify/functions/events.js:76-125 | 400 exactly for an incomplete request (missing or empty name or type, fewer than 2 teams). A storage failure (a name over 200 characters with anything but spaces past the 200th, an unknown type, a duplicate team) changes nothing. Otherwise the event gets the next id, the stored (truncated) name and status active, one zero row per team, and league or knockout fixtures as the type selects |

## Left out

- HTTP routing, headers, JSON parsing and the status-code mapping are not modelled. Request fields are typed values (`Option<string>`, `Option<seq<TeamId>>`), so a non-string name or non-integer team id cannot occur.
- The database client, connection handling and the 500 replies for connection or query failures are not modelled. The only store failures modelled are the constraint violations event creation can hit.
- `BEGIN`/`COMMIT`/`ROLLBACK` are not modelled as statements; event creation is atomic. The SERIAL id a failed insert consumes is not modelled: a rolled-back creation leaves `nextEventId` unchanged.
- `Math.random` in the knockout shuffle is replaced by a `seeding` argument that must be a rearrangement of the entered teams. The copy-before-sort is implicit because sequences are values.
- Bracket advancement, `getAllStandings`, the GET event endpoints, the demo/health/test handlers, the teams endpoints (teams.js) and the front end (app.js) are not part of this model.
- The teams table is not modelled. The foreign keys from standings and matches to teams, and the JOIN with teams in the listings, are taken to hold. A team id that does not exist would fail there.
- Match team slots are never null in the model. Every fixture the modelled code creates has both teams.
- Match scores are never null in the model (`score1`/`score2` are `int`). The score columns are nullable, and for a completed match with NULL scores `updateTeamStanding` would credit a draw (NULL equals NULL in the JavaScript comparison) and set the goal columns to NULL. The modelled code only creates matches with the default scores 0; nothing here writes a NULL score.
- PostgreSQL INTEGER is 32 bits; scores, totals and ids are unbounded integers here, so overflow is not modelled.
- The 200-character name limit counts Dafny characters; PostgreSQL counts characters of the database encoding.
- Rows with equal points, goal difference and goals for may be listed in any order. `Standings.ListEventStandings` promises only the ranking and the contents, not a particular tie order.
- Concurrent requests are not modelled; every operation runs alone against the store.
