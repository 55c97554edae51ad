/** Creation of an event (a league or a knockout tournament): request
    validation, one zero standings row per entered team, and the first-round
    fixtures, all committed together or not at all. */
module Events {
  import opened Schema
  import Standings

  datatype Option<T> = None | Some(value: T)

  /** The body of a creation request; a field the client left out is None. */
  datatype EventRequest = EventRequest(
    name: Option<string>, kind: Option<string>, teams: Option<seq<TeamId>>)

  /** 201 with the new event's id, 400 for an incomplete request, or a
      failed (rolled back) transaction. */
  datatype CreateReply = Created(event: EventId) | BadRequest | StoreError

  /** The request names a non-empty name and type and at least two teams. */
  predicate Complete(req: EventRequest) {
    && req.name.Some? && req.name.value != ""
    && req.kind.Some? && req.kind.value != ""
    && req.teams.Some? && |req.teams.value| >= 2
  }

  /** Length of the events.name column (VARCHAR(200)). */
  const MaxNameLength := 200

  /** The column takes a longer value only when every character beyond the
      200th is a space. */
  predicate NameFits(name: string) {
    forall i | MaxNameLength <= i < |name| :: name[i] == ' '
  }

  /** The value the column keeps: a fitting name with its excess spaces cut
      off. */
  function StoredName(name: string): (stored: string)
    ensures |stored| == if |name| <= MaxNameLength then |name| else MaxNameLength
    ensures stored <= name
    ensures |name| <= MaxNameLength ==> stored == name
    ensures NameFits(name) ==> name == stored + seq(|name| - |stored|, _ => ' ')
  {
    if |name| <= MaxNameLength then name else name[..MaxNameLength]
  }

  predicate KnownKind(kind: string) {
    kind == "league" || kind == "knockout"
  }

  /** A complete request the store accepts: the name fits its column, the
      type passes the CHECK constraint, and no team is entered twice (a
      second zero row for the same team breaks UNIQUE(event_id, team_id)). */
  predicate Storable(req: EventRequest)
    requires Complete(req)
  {
    && NameFits(req.name.value)
    && KnownKind(req.kind.value)
    && Distinct(req.teams.value)
  }

  // ---------------------------------------------------------------------
  // League: a single round robin

  /** The fixtures of teams[i] against teams[i+1 .. m), in list order. */
  function RowFixtures(e: EventId, teams: seq<TeamId>, i: nat, m: nat): seq<Match>
    requires i < m <= |teams|
    decreases m - i
  {
    if m == i + 1 then [] else RowFixtures(e, teams, i, m - 1) + [Fixture(e, teams[i], teams[m - 1])]
  }

  /** The fixtures of the first p rows of the round robin. */
  function LeaguePrefix(e: EventId, teams: seq<TeamId>, p: nat): seq<Match>
    requires p <= |teams|
  {
    if p == 0 then [] else LeaguePrefix(e, teams, p - 1) + RowFixtures(e, teams, p - 1, |teams|)
  }

  /** Every team against every later-listed team, the earlier one at home. */
  function LeagueFixtures(e: EventId, teams: seq<TeamId>): seq<Match> {
    LeaguePrefix(e, teams, |teams|)
  }

  /** generateLeagueMatches: the two nested index loops, one insert per pair. */
  method GenerateLeagueMatches(db: Database, e: EventId, teams: seq<TeamId>)
    requires db.Valid() && e in db.events
    modifies db`matches
    ensures db.Valid()
    ensures db.matches == old(db.matches) + LeagueFixtures(e, teams)
  {
    var i := 0;
    while i < |teams|
      invariant 0 <= i <= |teams|
      invariant db.Valid()
      invariant db.matches == old(db.matches) + LeaguePrefix(e, teams, i)
    {
      var j := i + 1;
      while j < |teams|
        invariant i + 1 <= j <= |teams|
        invariant db.Valid()
        invariant db.matches == old(db.matches) + LeaguePrefix(e, teams, i) + RowFixtures(e, teams, i, j)
      {
        db.matches := db.matches + [Fixture(e, teams[i], teams[j])];
        j := j + 1;
      }
      i := i + 1;
    }
  }

  lemma {:induction false} RowFixturesLength(e: EventId, teams: seq<TeamId>, i: nat, m: nat)
    requires i < m <= |teams|
    ensures |RowFixtures(e, teams, i, m)| == m - i - 1
    decreases m - i
  {
    if m > i + 1 {
      RowFixturesLength(e, teams, i, m - 1);
    }
  }

  lemma {:induction false} LeaguePrefixLength(e: EventId, teams: seq<TeamId>, p: nat)
    requires p <= |teams|
    ensures 2 * |LeaguePrefix(e, teams, p)| == p * (2 * |teams| - p - 1)
  {
    if p > 0 {
      LeaguePrefixLength(e, teams, p - 1);
      RowFixturesLength(e, teams, p - 1, |teams|);
      TriangleStep(|teams|, p);
    }
  }

  lemma TriangleStep(n: int, p: int)
    ensures (p - 1) * (2 * n - p) + 2 * (n - p) == p * (2 * n - p - 1)
  {
    assert (p - 1) * (2 * n - p) == p * (2 * n - p) - (2 * n - p);
    assert p * (2 * n - p) == p * (2 * n - p - 1) + p;
  }

  /** n teams play n(n-1)/2 league fixtures. */
  lemma LeagueFixtureCount(e: EventId, teams: seq<TeamId>)
    ensures 2 * |LeagueFixtures(e, teams)| == |teams| * (|teams| - 1)
  {
    LeaguePrefixLength(e, teams, |teams|);
  }

  /** The two teams of a fixture are entries i < j of the list, with the
      earlier one as team 1. */
  predicate PairedInOrder(teams: seq<TeamId>, x: Match) {
    exists i, j :: 0 <= i < j < |teams| && x.team1 == teams[i] && x.team2 == teams[j]
  }

  lemma {:induction false} RowFixturesShape(e: EventId, teams: seq<TeamId>, i: nat, m: nat)
    requires i < m <= |teams|
    ensures forall x :: x in RowFixtures(e, teams, i, m) ==>
              x == Fixture(e, x.team1, x.team2) && PairedInOrder(teams, x)
    decreases m - i
  {
    if m > i + 1 {
      RowFixturesShape(e, teams, i, m - 1);
      var last := Fixture(e, teams[i], teams[m - 1]);
      assert last.team1 == teams[i] && last.team2 == teams[m - 1];
      assert PairedInOrder(teams, last);
    }
  }

  lemma {:induction false} LeaguePrefixShape(e: EventId, teams: seq<TeamId>, p: nat)
    requires p <= |teams|
    ensures forall x :: x in LeaguePrefix(e, teams, p) ==>
              x == Fixture(e, x.team1, x.team2) && PairedInOrder(teams, x)
  {
    if p > 0 {
      LeaguePrefixShape(e, teams, p - 1);
      RowFixturesShape(e, teams, p - 1, |teams|);
    }
  }

  /** Every league fixture is a fresh round-1 fixture of the event between
      two listed teams, the earlier-listed one at home; with distinct teams
      nobody plays itself. */
  lemma LeagueFixtureShape(e: EventId, teams: seq<TeamId>)
    ensures forall x :: x in LeagueFixtures(e, teams) ==>
              && x.eventId == e && x.round == 1 && x.status == Scheduled
              && x.score1 == 0 && x.score2 == 0
              && PairedInOrder(teams, x)
              && (Distinct(teams) ==> x.team1 != x.team2)
  {
    LeaguePrefixShape(e, teams, |teams|);
  }

  /** Fixture x is a meeting of a and b, either way round. */
  predicate Meets(x: Match, a: TeamId, b: TeamId) {
    (x.team1 == a && x.team2 == b) || (x.team1 == b && x.team2 == a)
  }

  /** How many of the first k fixtures of fs are meetings of a and b. */
  function MeetingsUpTo(fs: seq<Match>, a: TeamId, b: TeamId, k: nat): nat
    requires k <= |fs|
  {
    if k == 0 then 0 else MeetingsUpTo(fs, a, b, k - 1) + (if Meets(fs[k - 1], a, b) then 1 else 0)
  }

  /** How many fixtures of fs are meetings of a and b. */
  function MeetingCount(fs: seq<Match>, a: TeamId, b: TeamId): nat {
    MeetingsUpTo(fs, a, b, |fs|)
  }

  lemma {:induction false} MeetingsUpToPrefix(fs: seq<Match>, gs: seq<Match>, a: TeamId, b: TeamId, k: nat)
    requires k <= |fs|
    ensures MeetingsUpTo(fs + gs, a, b, k) == MeetingsUpTo(fs, a, b, k)
  {
    if k > 0 {
      MeetingsUpToPrefix(fs, gs, a, b, k - 1);
      assert (fs + gs)[k - 1] == fs[k - 1];
    }
  }

  lemma {:induction false} MeetingsUpToSuffix(fs: seq<Match>, gs: seq<Match>, a: TeamId, b: TeamId, k: nat)
    requires k <= |gs|
    ensures MeetingsUpTo(fs + gs, a, b, |fs| + k) == MeetingCount(fs, a, b) + MeetingsUpTo(gs, a, b, k)
  {
    if k > 0 {
      MeetingsUpToSuffix(fs, gs, a, b, k - 1);
      assert (fs + gs)[|fs| + k - 1] == gs[k - 1];
    } else {
      MeetingsUpToPrefix(fs, gs, a, b, |fs|);
    }
  }

  lemma MeetingCountConcat(fs: seq<Match>, gs: seq<Match>, a: TeamId, b: TeamId)
    ensures MeetingCount(fs + gs, a, b) == MeetingCount(fs, a, b) + MeetingCount(gs, a, b)
  {
    MeetingsUpToSuffix(fs, gs, a, b, |gs|);
  }

  lemma {:induction false} RowFixturesMeetings(e: EventId, teams: seq<TeamId>, i: nat, m: nat, a: nat, b: nat)
    requires Distinct(teams)
    requires i < m <= |teams| && a < b < |teams|
    ensures MeetingCount(RowFixtures(e, teams, i, m), teams[a], teams[b]) ==
              if i == a && b < m then 1 else 0
    decreases m - i
  {
    if m > i + 1 {
      var prev := RowFixtures(e, teams, i, m - 1);
      var last := Fixture(e, teams[i], teams[m - 1]);
      RowFixturesMeetings(e, teams, i, m - 1, a, b);
      MeetingCountConcat(prev, [last], teams[a], teams[b]);
      assert [last][0] == last;
      assert MeetingsUpTo([last], teams[a], teams[b], 0) == 0;
      assert MeetingCount([last], teams[a], teams[b]) == if Meets(last, teams[a], teams[b]) then 1 else 0;
      assert Meets(last, teams[a], teams[b]) <==> i == a && m - 1 == b;
    }
  }

  lemma {:induction false} LeaguePrefixMeetings(e: EventId, teams: seq<TeamId>, p: nat, a: nat, b: nat)
    requires Distinct(teams)
    requires p <= |teams| && a < b < |teams|
    ensures MeetingCount(LeaguePrefix(e, teams, p), teams[a], teams[b]) == if a < p then 1 else 0
  {
    if p > 0 {
      var pre, row := LeaguePrefix(e, teams, p - 1), RowFixtures(e, teams, p - 1, |teams|);
      LeaguePrefixMeetings(e, teams, p - 1, a, b);
      RowFixturesMeetings(e, teams, p - 1, |teams|, a, b);
      MeetingCountConcat(pre, row, teams[a], teams[b]);
    }
  }

  lemma {:induction false} RowFixturesContain(e: EventId, teams: seq<TeamId>, i: nat, m: nat, j: nat)
    requires i < j < m <= |teams|
    ensures Fixture(e, teams[i], teams[j]) in RowFixtures(e, teams, i, m)
    decreases m - i
  {
    if j < m - 1 {
      RowFixturesContain(e, teams, i, m - 1, j);
    }
  }

  lemma {:induction false} LeaguePrefixContainsRow(e: EventId, teams: seq<TeamId>, p: nat, i: nat)
    requires i < p <= |teams|
    ensures forall x :: x in RowFixtures(e, teams, i, |teams|) ==> x in LeaguePrefix(e, teams, p)
  {
    if i < p - 1 {
      LeaguePrefixContainsRow(e, teams, p - 1, i);
    }
  }

  /** With distinct teams, every two of them meet exactly once in the
      league, the earlier-listed one at home. */
  lemma LeagueMeetsOnce(e: EventId, teams: seq<TeamId>, a: nat, b: nat)
    requires Distinct(teams)
    requires a < b < |teams|
    ensures MeetingCount(LeagueFixtures(e, teams), teams[a], teams[b]) == 1
    ensures Fixture(e, teams[a], teams[b]) in LeagueFixtures(e, teams)
  {
    LeaguePrefixMeetings(e, teams, |teams|, a, b);
    RowFixturesContain(e, teams, a, |teams|, b);
    LeaguePrefixContainsRow(e, teams, |teams|, a);
  }

  // ---------------------------------------------------------------------
  // Knockout: one round of pairs from a shuffled copy

  /** Consecutive pairs of the seeding: entries 2k and 2k+1 meet; an odd
      last entry gets no fixture. */
  function KnockoutFixtures(e: EventId, seeding: seq<TeamId>): seq<Match> {
    seq(|seeding| / 2, k requires 0 <= k < |seeding| / 2 => Fixture(e, seeding[2 * k], seeding[2 * k + 1]))
  }

  /** generateKnockoutMatches: the shuffled copy is given as `seeding`, a
      rearrangement of `teams`; the loop steps by two and inserts a fixture
      only while a partner is left. */
  method GenerateKnockoutMatches(db: Database, e: EventId, teams: seq<TeamId>, seeding: seq<TeamId>)
    requires db.Valid() && e in db.events
    requires multiset(seeding) == multiset(teams)
    modifies db`matches
    ensures db.Valid()
    ensures db.matches == old(db.matches) + KnockoutFixtures(e, seeding)
  {
    var shuffled := seeding;
    ghost var fixtures := KnockoutFixtures(e, shuffled);
    var i := 0;
    while i < |shuffled|
      invariant 0 <= i <= |shuffled| + 1 && i % 2 == 0
      invariant db.Valid()
      invariant db.matches == old(db.matches) + fixtures[..Min(i / 2, |fixtures|)]
    {
      if i + 1 < |shuffled| {
        db.matches := db.matches + [Fixture(e, shuffled[i], shuffled[i + 1])];
        assert fixtures[..i / 2 + 1] == fixtures[..i / 2] + [fixtures[i / 2]];
      }
      i := i + 2;
    }
    assert fixtures[..Min(i / 2, |fixtures|)] == fixtures;
  }

  function Min(a: int, b: int): int {
    if a < b then a else b
  }

  /** How often team t occurs in the fixtures fs, counting both slots. */
  function Appearances(fs: seq<Match>, t: TeamId): nat {
    if fs == [] then 0
    else Appearances(fs[..|fs| - 1], t)
         + (if fs[|fs| - 1].team1 == t then 1 else 0)
         + (if fs[|fs| - 1].team2 == t then 1 else 0)
  }

  lemma {:induction false} KnockoutPrefixAppearances(e: EventId, seeding: seq<TeamId>, p: nat, t: TeamId)
    requires p <= |seeding| / 2
    ensures Appearances(KnockoutFixtures(e, seeding)[..p], t) == multiset(seeding[..2 * p])[t]
  {
    var fs := KnockoutFixtures(e, seeding);
    if p > 0 {
      KnockoutPrefixAppearances(e, seeding, p - 1, t);
      assert fs[..p][..p - 1] == fs[..p - 1];
      assert seeding[..2 * p] == seeding[..2 * (p - 1)] + [seeding[2 * p - 2], seeding[2 * p - 1]];
    } else {
      assert seeding[..0] == [];
    }
  }

  lemma {:induction false} DistinctOnce(s: seq<TeamId>, t: TeamId)
    requires Distinct(s)
    ensures multiset(s)[t] == if t in s then 1 else 0
    decreases |s|
  {
    if s != [] {
      var s' := s[..|s| - 1];
      assert s == s' + [s[|s| - 1]];
      assert Distinct(s');
      DistinctOnce(s', t);
      if t == s[|s| - 1] {
        assert t !in s';
      }
    }
  }

  /** With distinct teams the knockout round has |teams|/2 fixtures, nobody
      plays twice, and everybody plays except, for an odd number of teams,
      the team seeded last. */
  lemma KnockoutAppearances(e: EventId, teams: seq<TeamId>, seeding: seq<TeamId>, t: TeamId)
    requires Distinct(teams)
    requires multiset(seeding) == multiset(teams)
    ensures |KnockoutFixtures(e, seeding)| == |teams| / 2
    ensures Appearances(KnockoutFixtures(e, seeding), t) <= 1
    ensures |teams| % 2 == 0 ==>
              (Appearances(KnockoutFixtures(e, seeding), t) == 1 <==> t in teams)
    ensures |teams| % 2 == 1 ==>
              (Appearances(KnockoutFixtures(e, seeding), t) == 1 <==> t in teams && t != seeding[|seeding| - 1])
  {
    var n := |seeding|;
    assert |multiset(seeding)| == |multiset(teams)|;
    var fs := KnockoutFixtures(e, seeding);
    KnockoutPrefixAppearances(e, seeding, n / 2, t);
    assert fs[..n / 2] == fs;
    DistinctOnce(teams, t);
    assert (t in teams) == (t in multiset(teams));
    assert (t in seeding) == (t in multiset(seeding));
    if n % 2 == 0 {
      assert seeding[..2 * (n / 2)] == seeding;
    } else {
      assert seeding == seeding[..2 * (n / 2)] + [seeding[n - 1]];
    }
  }

  /** A self-pairing would count its team twice, so with distinct teams
      no knockout fixture pits a team against itself. */
  lemma KnockoutNoSelfPairing(e: EventId, teams: seq<TeamId>, seeding: seq<TeamId>, k: nat)
    requires Distinct(teams)
    requires multiset(seeding) == multiset(teams)
    requires k < |KnockoutFixtures(e, seeding)|
    ensures KnockoutFixtures(e, seeding)[k].team1 != KnockoutFixtures(e, seeding)[k].team2
  {
    var fs := KnockoutFixtures(e, seeding);
    var t := fs[k].team1;
    KnockoutAppearances(e, teams, seeding, t);
    AppearancesAt(fs, k, t);
  }

  lemma {:induction false} AppearancesAt(fs: seq<Match>, k: nat, t: TeamId)
    requires k < |fs|
    ensures Appearances(fs, t) >=
              (if fs[k].team1 == t then 1 else 0) + (if fs[k].team2 == t then 1 else 0)
  {
    if k < |fs| - 1 {
      AppearancesAt(fs[..|fs| - 1], k, t);
    }
  }

  // ---------------------------------------------------------------------
  // The POST handler

  /** The fixtures the type selects: the round robin for 'league', the
      knockout pairs for any other type. */
  function Fixtures(e: EventId, kind: string, teams: seq<TeamId>, seeding: seq<TeamId>): seq<Match> {
    if kind == "league" then LeagueFixtures(e, teams) else KnockoutFixtures(e, seeding)
  }

  /** The standings inserts of a new event, staged: one all-zero row per
      entered team; a team entered twice makes the second insert break
      UNIQUE(event_id, team_id). */
  method StageZeroRows(rows: Standings.Table, e: EventId, teams: seq<TeamId>)
      returns (ok: bool, staged: Standings.Table)
    requires forall k: Key :: k in rows ==> k.eventId != e
    ensures ok <==> Distinct(teams)
    ensures ok ==> staged == Standings.SeedZeros(rows, e, Standings.TeamSet(teams))
  {
    staged := rows;
    var i := 0;
    while i < |teams|
      invariant 0 <= i <= |teams|
      invariant Distinct(teams[..i])
      invariant staged == Standings.SeedZeros(rows, e, Standings.TeamSet(teams[..i]))
    {
      var k := Key(e, teams[i]);
      StagedKey(rows, e, teams, i);
      if k in staged {
        return false, staged;
      }
      DistinctStep(teams, i);
      Standings.SeedZerosNew(staged, e, teams[i]);
      Standings.SeedZerosStep(rows, e, Standings.TeamSet(teams[..i]), teams[i]);
      TeamSetStep(teams, i);
      staged := staged[k := ZeroTally];
      i := i + 1;
    }
    assert teams[..i] == teams;
    return true, staged;
  }

  /** Before the insert of entry i, its key is taken exactly when the team
      was entered earlier, and then the list is not duplicate-free. */
  lemma StagedKey(rows: Standings.Table, e: EventId, teams: seq<TeamId>, i: nat)
    requires forall k: Key :: k in rows ==> k.eventId != e
    requires i < |teams|
    ensures Key(e, teams[i]) in Standings.SeedZeros(rows, e, Standings.TeamSet(teams[..i]))
            <==> teams[i] in teams[..i]
    ensures teams[i] in teams[..i] ==> !Distinct(teams)
  {
    Standings.SeedZerosRows(rows, e, Standings.TeamSet(teams[..i]));
    if teams[i] in teams[..i] {
      var j :| 0 <= j < i && teams[..i][j] == teams[i];
      assert teams[j] == teams[i];
    }
  }

  lemma DistinctStep(s: seq<TeamId>, i: nat)
    requires i < |s| && Distinct(s[..i]) && s[i] !in s[..i]
    ensures Distinct(s[..i + 1])
  {
    assert s[..i + 1] == s[..i] + [s[i]];
  }

  lemma TeamSetStep(s: seq<TeamId>, i: nat)
    requires i < |s|
    ensures Standings.TeamSet(s[..i + 1]) == Standings.TeamSet(s[..i]) + {s[i]}
  {
    assert s[..i + 1] == s[..i] + [s[i]];
  }

  /** A new event's standings hold exactly one all-zero row per entered
      team, so its standings are never empty and the self-heal of
      getEventStandings does not apply to it. */
  lemma CreatedRows(m: Standings.Table, e: EventId, teams: seq<TeamId>)
    requires forall k: Key :: k in m ==> k.eventId != e
    ensures forall t :: Key(e, t) in Standings.SeedZeros(m, e, Standings.TeamSet(teams)) <==> t in teams
    ensures forall t :: t in teams ==> Standings.SeedZeros(m, e, Standings.TeamSet(teams))[Key(e, t)] == ZeroTally
    ensures teams != [] ==> Standings.EventKeys(Standings.SeedZeros(m, e, Standings.TeamSet(teams)), e) != {}
  {
    var seeded := Standings.SeedZeros(m, e, Standings.TeamSet(teams));
    Standings.SeedZerosRows(m, e, Standings.TeamSet(teams));
    if teams != [] {
      assert Key(e, teams[0]) in Standings.EventKeys(seeded, e);
    }
  }

  /** POST /api/events. The event row, its standings rows and its fixtures
      are written in one transaction: on any failure nothing is kept. */
  method CreateEvent(db: Database, req: EventRequest, seeding: seq<TeamId>) returns (reply: CreateReply)
    requires db.Valid()
    requires req.teams.Some? ==> multiset(seeding) == multiset(req.teams.value)
    modifies db
    ensures db.Valid()
    ensures reply == BadRequest <==> !Complete(req)
    ensures reply == StoreError <==> Complete(req) && !Storable(req)
    ensures !reply.Created? ==> unchanged(db)
    ensures reply.Created? ==>
              && reply.event == old(db.nextEventId)
              && db.nextEventId == old(db.nextEventId) + 1
              && db.events == old(db.events)[reply.event := NewEvent(StoredName(req.name.value), req.kind.value)]
              && db.standings == Standings.SeedZeros(old(db.standings), reply.event, Standings.TeamSet(req.teams.value))
              && db.matches == old(db.matches) + Fixtures(reply.event, req.kind.value, req.teams.value, seeding)
  {
    if !Complete(req) {
      return BadRequest;
    }
    var name, kind, teams := req.name.value, req.kind.value, req.teams.value;
    var id := db.nextEventId;
    if !NameFits(name) || !KnownKind(kind) {
      return StoreError;
    }
    var ok, staged := StageZeroRows(db.standings, id, teams);
    if !ok {
      return StoreError;
    }
    db.events := db.events[id := NewEvent(StoredName(name), kind)];
    db.nextEventId := id + 1;
    Standings.SeedZerosRows(db.standings, id, Standings.TeamSet(teams));
    db.standings := staged;
    if kind == "league" {
      GenerateLeagueMatches(db, id, teams);
    } else {
      GenerateKnockoutMatches(db, id, teams, seeding);
    }
    return Created(id);
  }
}
