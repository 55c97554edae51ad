/** League standings of one event: how one match result is credited to a
    team's row, how the event's rows are recomputed from its completed
    matches, how an event without rows is repaired, and the order in which
    rows are listed. */
module Standings {
  import opened Schema

  /*************************************************************************
   * One result credited to one row
   *************************************************************************/

  /** The two bookkeeping invariants of a standings row. */
  predicate Consistent(t: Tally) {
    && t.points == 3 * t.won + t.drawn
    && t.played == t.won + t.drawn + t.lost
  }

  /** Column-wise sum of two rows. */
  function Plus(a: Tally, b: Tally): Tally {
    Tally(a.played + b.played, a.won + b.won, a.drawn + b.drawn, a.lost + b.lost,
          a.goalsFor + b.goalsFor, a.goalsAgainst + b.goalsAgainst, a.points + b.points)
  }

  /** The row inserted for a team that has no standing yet: one game, this
      game's goals, and the win/draw/loss flags with their 3/1/0 points. */
  function Seeded(goalsFor: int, goalsAgainst: int): (r: Tally)
    ensures Consistent(r) && r.played == 1
    ensures r.goalsFor == goalsFor && r.goalsAgainst == goalsAgainst
    ensures 0 <= r.won <= 1 && 0 <= r.drawn <= 1 && 0 <= r.lost <= 1
    ensures r.won == 1 <==> goalsFor > goalsAgainst
    ensures r.drawn == 1 <==> goalsFor == goalsAgainst
    ensures r.lost == 1 <==> goalsFor < goalsAgainst
  {
    var isWin := goalsFor > goalsAgainst;
    var isDraw := goalsFor == goalsAgainst;
    var isLoss := goalsFor < goalsAgainst;
    Tally(1, if isWin then 1 else 0, if isDraw then 1 else 0, if isLoss then 1 else 0,
          goalsFor, goalsAgainst, if isWin then 3 else if isDraw then 1 else 0)
  }

  /** The in-place update of an existing row. */
  function Record(t: Tally, goalsFor: int, goalsAgainst: int): (r: Tally)
    ensures r.played == t.played + 1
    ensures r.goalsFor == t.goalsFor + goalsFor
    ensures r.goalsAgainst == t.goalsAgainst + goalsAgainst
    ensures t.won <= r.won && t.drawn <= r.drawn && t.lost <= r.lost
    ensures (r.won - t.won) + (r.drawn - t.drawn) + (r.lost - t.lost) == 1
    ensures r.won > t.won <==> goalsFor > goalsAgainst
    ensures r.drawn > t.drawn <==> goalsFor == goalsAgainst
    ensures r.lost > t.lost <==> goalsFor < goalsAgainst
    ensures r.points - t.points == 3 * (r.won - t.won) + (r.drawn - t.drawn)
    ensures Consistent(t) ==> Consistent(r)
  {
    var isWin := goalsFor > goalsAgainst;
    var isDraw := goalsFor == goalsAgainst;
    var isLoss := goalsFor < goalsAgainst;
    Tally(t.played + 1,
          t.won + (if isWin then 1 else 0),
          t.drawn + (if isDraw then 1 else 0),
          t.lost + (if isLoss then 1 else 0),
          t.goalsFor + goalsFor,
          t.goalsAgainst + goalsAgainst,
          t.points + (if isWin then 3 else if isDraw then 1 else 0))
  }

  /** Inserting a seeded row gives what updating an all-zero row would. */
  lemma SeededIsRecordOfZero(goalsFor: int, goalsAgainst: int)
    ensures Seeded(goalsFor, goalsAgainst) == Record(ZeroTally, goalsFor, goalsAgainst)
  {
  }

  /** Updating a row adds the one-match row to it. */
  lemma RecordAddsSeeded(t: Tally, goalsFor: int, goalsAgainst: int)
    ensures Record(t, goalsFor, goalsAgainst) == Plus(t, Seeded(goalsFor, goalsAgainst))
  {
  }

  /*************************************************************************
   * The table as a map from (event, team) to row
   *************************************************************************/

  type Table = map<Key, Tally>

  /** A row's value, reading a missing row as all zeros. */
  function Get(m: Table, k: Key): Tally {
    if k in m then m[k] else ZeroTally
  }

  /** What one updateTeamStanding call does to the table, whichever branch
      it takes: the row k (or an all-zero row if k has none) gets one more
      result, and no other row changes. */
  function Credit(m: Table, k: Key, goalsFor: int, goalsAgainst: int): (r: Table)
    ensures r.Keys == m.Keys + {k}
    ensures forall j :: j in m && j != k ==> r[j] == m[j]
    ensures r[k] == Plus(Get(m, k), Seeded(goalsFor, goalsAgainst))
  {
    m[k := Plus(Get(m, k), Seeded(goalsFor, goalsAgainst))]
  }

  /** One completed match credited to both of its teams in event e:
      team1 with its own score first, team2 with the scores swapped. */
  function ReplayMatch(m: Table, e: EventId, x: Match): Table {
    Credit(Credit(m, Key(e, x.team1), x.score1, x.score2), Key(e, x.team2), x.score2, x.score1)
  }

  /** The teams that play in the matches ms. */
  function TeamsOf(ms: seq<Match>): set<TeamId> {
    if ms == [] then {} else TeamsOf(ms[..|ms| - 1]) + {ms[|ms| - 1].team1, ms[|ms| - 1].team2}
  }

  /** The matches ms credited one after another, in order. */
  function Replay(m: Table, e: EventId, ms: seq<Match>): Table
    decreases |ms|
  {
    if ms == [] then m else ReplayMatch(Replay(m, e, ms[..|ms| - 1]), e, ms[|ms| - 1])
  }

  lemma PrefixStep(ms: seq<Match>, i: nat)
    requires i < |ms|
    ensures ms[..i + 1] == ms[..i] + [ms[i]]
  {
  }

  /** Replaying one more match credits it after the others. */
  lemma ReplayAppend(m: Table, e: EventId, ms: seq<Match>, x: Match)
    ensures Replay(m, e, ms + [x]) == ReplayMatch(Replay(m, e, ms), e, x)
  {
    assert (ms + [x])[..|ms|] == ms;
  }

  /** Replay adds rows exactly for the teams of the matches it credits. */
  lemma {:induction false} ReplayKeys(m: Table, e: EventId, ms: seq<Match>)
    ensures Replay(m, e, ms).Keys == m.Keys + KeysFor(e, TeamsOf(ms))
    decreases |ms|
  {
    if ms != [] {
      var ms' := ms[..|ms| - 1];
      var x := ms[|ms| - 1];
      ReplayKeys(m, e, ms');
      assert KeysFor(e, TeamsOf(ms)) == KeysFor(e, TeamsOf(ms')) + {Key(e, x.team1), Key(e, x.team2)};
    }
  }

  /** Replay for event e leaves the rows of every other event alone. */
  lemma {:induction false} ReplayOtherEvents(m: Table, e: EventId, ms: seq<Match>, k: Key)
    requires k.eventId != e
    ensures k in Replay(m, e, ms) <==> k in m
    ensures k in m ==> Replay(m, e, ms)[k] == m[k]
    decreases |ms|
  {
    if ms != [] {
      ReplayOtherEvents(m, e, ms[..|ms| - 1], k);
    }
  }

  /** Every row of event e keeps both row invariants. */
  ghost predicate EventConsistent(m: Table, e: EventId) {
    forall k :: k in m && k.eventId == e ==> Consistent(m[k])
  }

  lemma CreditConsistent(m: Table, e: EventId, k: Key, goalsFor: int, goalsAgainst: int)
    requires EventConsistent(m, e) && k.eventId == e
    ensures EventConsistent(Credit(m, k, goalsFor, goalsAgainst), e)
  {
    var v := Plus(Get(m, k), Seeded(goalsFor, goalsAgainst));
    assert Consistent(Get(m, k));
    PlusConsistent(Get(m, k), Seeded(goalsFor, goalsAgainst));
    UpdateConsistent(m, e, k, v);
  }

  lemma UpdateConsistent(m: Table, e: EventId, k: Key, v: Tally)
    requires EventConsistent(m, e) && Consistent(v)
    ensures EventConsistent(m[k := v], e)
  {
  }

  lemma PlusConsistent(a: Tally, b: Tally)
    requires Consistent(a) && Consistent(b)
    ensures Consistent(Plus(a, b))
  {
  }

  /** Replay keeps both row invariants on every row of event e. */
  lemma {:induction false} ReplayConsistent(m: Table, e: EventId, ms: seq<Match>)
    requires EventConsistent(m, e)
    ensures EventConsistent(Replay(m, e, ms), e)
    decreases |ms|
  {
    if ms != [] {
      var ms' := ms[..|ms| - 1];
      var x := ms[|ms| - 1];
      ReplayConsistent(m, e, ms');
      var r := Replay(m, e, ms');
      CreditConsistent(r, e, Key(e, x.team1), x.score1, x.score2);
      CreditConsistent(Credit(r, Key(e, x.team1), x.score1, x.score2), e, Key(e, x.team2), x.score2, x.score1);
    }
  }

  /** The rows of event e, all set back to zero. */
  function ResetEvent(m: Table, e: EventId): Table {
    map k | k in m :: if k.eventId == e then ZeroTally else m[k]
  }

  /** The completed matches of event e, in table order. */
  function CompletedMatches(ms: seq<Match>, e: EventId): (c: seq<Match>)
    ensures |c| <= |ms|
    ensures forall x :: x in c <==> x in ms && x.eventId == e && x.status == Completed
    ensures forall x :: multiset(c)[x] == if x.eventId == e && x.status == Completed then multiset(ms)[x] else 0
  {
    if ms == [] then []
    else
      var x := ms[|ms| - 1];
      assert ms == ms[..|ms| - 1] + [x];
      CompletedMatches(ms[..|ms| - 1], e) + if x.eventId == e && x.status == Completed then [x] else []
  }

  /** The table recalculateEventStandings leaves behind, given the completed
      matches it read. */
  function Recalc(m: Table, e: EventId, completed: seq<Match>): Table {
    Replay(ResetEvent(m, e), e, completed)
  }

  /** The distinct teams named by the matches of event e: the self-heal's
      SELECT DISTINCT over the whole matches table, which filters on the
      event itself. `TeamsOf` serves the replay instead, whose matches are
      already the event's completed ones; `CompletedTeamsInEvent` relates
      the two. */
  function EventTeams(ms: seq<Match>, e: EventId): set<TeamId> {
    if ms == [] then {}
    else
      var x := ms[|ms| - 1];
      EventTeams(ms[..|ms| - 1], e) + if x.eventId == e then {x.team1, x.team2} else {}
  }

  function TeamSet(ts: seq<TeamId>): set<TeamId> {
    set t | t in ts
  }

  /** ts with t appended unless it is already there. */
  function AddNew(ts: seq<TeamId>, t: TeamId): (r: seq<TeamId>)
    requires Distinct(ts)
    ensures Distinct(r)
    ensures forall u :: u in r <==> u in ts || u == t
  {
    if t in ts then ts else ts + [t]
  }

  /** SELECT DISTINCT over the teams of event e's matches: every team once,
      in order of first appearance. */
  function TeamsInEvent(ms: seq<Match>, e: EventId): (ts: seq<TeamId>)
    ensures Distinct(ts)
    ensures forall t :: t in ts <==> t in EventTeams(ms, e)
  {
    if ms == [] then []
    else
      var x := ms[|ms| - 1];
      var before := TeamsInEvent(ms[..|ms| - 1], e);
      if x.eventId == e then AddNew(AddNew(before, x.team1), x.team2) else before
  }

  /** The keys of event e's rows. */
  function EventKeys(m: Table, e: EventId): set<Key> {
    set k | k in m && k.eventId == e
  }

  /** The self-heal: a zero row for every team of the event that has none
      (existing rows are kept as they are), then a recalculation. */
  function SeedZeros(m: Table, e: EventId, ts: set<TeamId>): Table {
    ZeroRows(e, ts) + m
  }

  /** The self-heal's inserts keep every existing row as it was and add an
      all-zero row exactly for the listed teams that had none. */
  lemma SeedZerosRows(m: Table, e: EventId, ts: set<TeamId>)
    ensures SeedZeros(m, e, ts).Keys == m.Keys + KeysFor(e, ts)
    ensures forall k :: k in m ==> SeedZeros(m, e, ts)[k] == m[k]
    ensures forall k :: k in SeedZeros(m, e, ts) && k !in m ==> SeedZeros(m, e, ts)[k] == ZeroTally
  {
    ZeroRowsKeys(e, ts);
  }

  lemma SeedZerosStep(m: Table, e: EventId, ts: set<TeamId>, t: TeamId)
    ensures SeedZeros(SeedZeros(m, e, ts), e, {t}) == SeedZeros(m, e, ts + {t})
  {
    var lhs, rhs := SeedZeros(SeedZeros(m, e, ts), e, {t}), SeedZeros(m, e, ts + {t});
    SeedZerosRows(m, e, ts);
    SeedZerosRows(SeedZeros(m, e, ts), e, {t});
    SeedZerosRows(m, e, ts + {t});
    assert lhs.Keys == rhs.Keys;
    forall k | k in lhs ensures lhs[k] == rhs[k] {
    }
  }

  /** Inserting a zero row for a team without one adds exactly that row. */
  lemma SeedZerosNew(m: Table, e: EventId, t: TeamId)
    requires Key(e, t) !in m
    ensures SeedZeros(m, e, {t}) == m[Key(e, t) := ZeroTally]
  {
    SeedZerosRows(m, e, {t});
    assert SeedZeros(m, e, {t}).Keys == m.Keys + {Key(e, t)};
  }

  function SelfHeal(m: Table, e: EventId, ms: seq<Match>): Table {
    Recalc(SeedZeros(m, e, EventTeams(ms, e)), e, CompletedMatches(ms, e))
  }

  /*************************************************************************
   * Replay is order independent
   *************************************************************************/

  lemma CreditCommutes(m: Table, k1: Key, a1: int, b1: int, k2: Key, a2: int, b2: int)
    ensures Credit(Credit(m, k1, a1, b1), k2, a2, b2) == Credit(Credit(m, k2, a2, b2), k1, a1, b1)
  {
    var s1, s2 := Seeded(a1, b1), Seeded(a2, b2);
    var r1, r2 := Plus(Get(m, k1), s1), Plus(Get(m, k2), s2);
    if k1 == k2 {
      var g := Get(m, k1);
      assert Plus(Plus(g, s1), s2) == Plus(Plus(g, s2), s1);
    } else {
      assert Credit(Credit(m, k1, a1, b1), k2, a2, b2) == m[k1 := r1][k2 := r2];
      assert Credit(Credit(m, k2, a2, b2), k1, a1, b1) == m[k2 := r2][k1 := r1];
    }
  }

  lemma ReplayMatchCommutes(m: Table, e: EventId, x: Match, y: Match)
    ensures ReplayMatch(ReplayMatch(m, e, x), e, y) == ReplayMatch(ReplayMatch(m, e, y), e, x)
  {
    var x1, x2 := Key(e, x.team1), Key(e, x.team2);
    var y1, y2 := Key(e, y.team1), Key(e, y.team2);
    var m1 := Credit(m, x1, x.score1, x.score2);
    CreditCommutes(m1, x2, x.score2, x.score1, y1, y.score1, y.score2);
    var m2 := Credit(m1, y1, y.score1, y.score2);
    CreditCommutes(m2, x2, x.score2, x.score1, y2, y.score2, y.score1);
    CreditCommutes(m, x1, x.score1, x.score2, y1, y.score1, y.score2);
    var m3 := Credit(m, y1, y.score1, y.score2);
    CreditCommutes(Credit(m3, x1, x.score1, x.score2), x2, x.score2, x.score1, y2, y.score2, y.score1);
    CreditCommutes(m3, x1, x.score1, x.score2, y2, y.score2, y.score1);
  }

  lemma {:induction false} ReplayConcat(m: Table, e: EventId, a: seq<Match>, b: seq<Match>)
    ensures Replay(m, e, a + b) == Replay(Replay(m, e, a), e, b)
    decreases |b|
  {
    if b == [] {
      assert a + b == a;
    } else {
      var b' := b[..|b| - 1];
      assert (a + b)[..|a + b| - 1] == a + b';
      assert (a + b)[|a + b| - 1] == b[|b| - 1];
      ReplayConcat(m, e, a, b');
    }
  }

  lemma {:induction false} ReplayMatchThrough(m: Table, e: EventId, ms: seq<Match>, x: Match)
    ensures ReplayMatch(Replay(m, e, ms), e, x) == Replay(ReplayMatch(m, e, x), e, ms)
    decreases |ms|
  {
    if ms != [] {
      var ms' := ms[..|ms| - 1];
      var y := ms[|ms| - 1];
      ReplayMatchThrough(m, e, ms', x);
      ReplayMatchCommutes(Replay(m, e, ms'), e, y, x);
    }
  }

  /** A match may be moved to the end of the replay. */
  lemma ReplayMoveToEnd(m: Table, e: EventId, b: seq<Match>, x: Match, c: seq<Match>)
    ensures Replay(m, e, b + [x] + c) == ReplayMatch(Replay(m, e, b + c), e, x)
  {
    var rb := Replay(m, e, b);
    ReplayConcat(m, e, b, c);
    ReplayMatchThrough(rb, e, c, x);
    assert (b + [x])[..|b|] == b;
    assert Replay(m, e, b + [x]) == ReplayMatch(rb, e, x);
    ReplayConcat(m, e, b + [x], c);
  }

  /** Replaying the same multiset of matches in any order gives the same table. */
  lemma {:induction false} ReplayPermutation(m: Table, e: EventId, ms1: seq<Match>, ms2: seq<Match>)
    requires multiset(ms1) == multiset(ms2)
    ensures Replay(m, e, ms1) == Replay(m, e, ms2)
    decreases |ms1|
  {
    if ms1 == [] {
      assert |ms2| == |multiset(ms2)| == 0;
    } else {
      var n := |ms1| - 1;
      var a, x := ms1[..n], ms1[n];
      assert ms1 == a + [x];
      assert x in multiset(ms2);
      var j :| 0 <= j < |ms2| && ms2[j] == x;
      var b, c := ms2[..j], ms2[j + 1..];
      RemoveMatched(ms1, ms2, j);
      ReplayPermutation(m, e, a, b + c);
      ReplayMoveToEnd(m, e, b, x, c);
      ReplayAppend(m, e, a, x);
    }
  }

  /** Removing the last match of ms1 and an equal match of ms2 leaves two
      sequences with equal multisets. */
  lemma RemoveMatched(ms1: seq<Match>, ms2: seq<Match>, j: nat)
    requires multiset(ms1) == multiset(ms2)
    requires ms1 != [] && j < |ms2| && ms2[j] == ms1[|ms1| - 1]
    ensures ms2 == ms2[..j] + [ms2[j]] + ms2[j + 1..]
    ensures multiset(ms1[..|ms1| - 1]) == multiset(ms2[..j] + ms2[j + 1..])
  {
    var n := |ms1| - 1;
    var a, x, b, c := ms1[..n], ms1[n], ms2[..j], ms2[j + 1..];
    assert ms1 == a + [x];
    assert ms2 == b + [x] + c;
    assert multiset(ms1) == multiset(a) + multiset{x};
    assert multiset(ms2) == multiset(b) + multiset{x} + multiset(c);
    assert multiset(b + c) == multiset(b) + multiset(c);
    assert multiset(a) == multiset(ms1) - multiset{x};
    assert multiset(b + c) == multiset(ms2) - multiset{x};
  }

  /** Recalculation depends only on the multiset of completed matches, not
      on the order the store returns them in. */
  lemma RecalcOrderIndependent(m: Table, e: EventId, c1: seq<Match>, c2: seq<Match>)
    requires multiset(c1) == multiset(c2)
    ensures Recalc(m, e, c1) == Recalc(m, e, c2)
  {
    ReplayPermutation(ResetEvent(m, e), e, c1, c2);
  }

  /*************************************************************************
   * Recalculation is idempotent
   *************************************************************************/

  /** Two tables that agree once missing rows are read as zero rows. */
  ghost predicate SameRows(m1: Table, m2: Table) {
    forall k :: Get(m1, k) == Get(m2, k)
  }

  lemma CreditSameRows(m1: Table, m2: Table, k: Key, goalsFor: int, goalsAgainst: int)
    requires SameRows(m1, m2)
    ensures SameRows(Credit(m1, k, goalsFor, goalsAgainst), Credit(m2, k, goalsFor, goalsAgainst))
  {
    var r1, r2 := Credit(m1, k, goalsFor, goalsAgainst), Credit(m2, k, goalsFor, goalsAgainst);
    forall j ensures Get(r1, j) == Get(r2, j) {
      assert Get(m1, j) == Get(m2, j);
      CreditGet(m1, k, goalsFor, goalsAgainst, j);
      CreditGet(m2, k, goalsFor, goalsAgainst, j);
    }
  }

  /** Reading a row after a credit: the credited row gained one result, any
      other row reads as before. */
  lemma CreditGet(m: Table, k: Key, goalsFor: int, goalsAgainst: int, j: Key)
    ensures Get(Credit(m, k, goalsFor, goalsAgainst), j)
         == if j == k then Plus(Get(m, k), Seeded(goalsFor, goalsAgainst)) else Get(m, j)
  {
  }

  lemma {:induction false} ReplaySameRows(m1: Table, m2: Table, e: EventId, ms: seq<Match>)
    requires SameRows(m1, m2)
    ensures SameRows(Replay(m1, e, ms), Replay(m2, e, ms))
    decreases |ms|
  {
    if ms != [] {
      var ms' := ms[..|ms| - 1];
      var x := ms[|ms| - 1];
      ReplaySameRows(m1, m2, e, ms');
      var r1, r2 := Replay(m1, e, ms'), Replay(m2, e, ms');
      CreditSameRows(r1, r2, Key(e, x.team1), x.score1, x.score2);
      CreditSameRows(Credit(r1, Key(e, x.team1), x.score1, x.score2),
                     Credit(r2, Key(e, x.team1), x.score1, x.score2),
                     Key(e, x.team2), x.score2, x.score1);
    }
  }

  /** Running recalculation a second time over the same completed matches
      leaves the table as the first run left it. */
  lemma RecalcIdempotent(m: Table, e: EventId, completed: seq<Match>)
    ensures Recalc(Recalc(m, e, completed), e, completed) == Recalc(m, e, completed)
  {
    var r := ResetEvent(m, e);
    var r1 := Replay(r, e, completed);
    var r2 := ResetEvent(r1, e);
    var r3 := Replay(r2, e, completed);
    assert SameRows(r2, r) by {
      forall k ensures Get(r2, k) == Get(r, k) {
        if k.eventId != e {
          ReplayOtherEvents(r, e, completed, k);
        }
      }
    }
    ReplaySameRows(r2, r, e, completed);
    ReplayKeys(r, e, completed);
    ReplayKeys(r2, e, completed);
    assert r3.Keys == r1.Keys;
    forall k | k in r3 ensures r3[k] == r1[k] {
      assert Get(r3, k) == Get(r1, k);
    }
  }

  /*************************************************************************
   * Conservation over an event's rows
   *************************************************************************/

  /** Column-wise sum of the rows with keys in ks. */
  ghost function SumTally(m: Table, ks: set<Key>): Tally
    requires ks <= m.Keys
    decreases ks
  {
    if ks == {} then ZeroTally
    else
      var k :| k in ks;
      Plus(m[k], SumTally(m, ks - {k}))
  }

  lemma PlusSwap(a: Tally, b: Tally, c: Tally)
    ensures Plus(a, Plus(b, c)) == Plus(b, Plus(a, c))
  {
  }

  lemma {:induction false} SumTallyPick(m: Table, ks: set<Key>, k: Key)
    requires ks <= m.Keys && k in ks
    ensures SumTally(m, ks) == Plus(m[k], SumTally(m, ks - {k}))
    decreases ks
  {
    var j :| j in ks && SumTally(m, ks) == Plus(m[j], SumTally(m, ks - {j}));
    if j != k {
      var rest := ks - {j} - {k};
      assert ks - {k} - {j} == rest;
      SumTallyPick(m, ks - {j}, k);
      SumTallyPick(m, ks - {k}, j);
      assert SumTally(m, ks - {j}) == Plus(m[k], SumTally(m, rest));
      assert SumTally(m, ks - {k}) == Plus(m[j], SumTally(m, rest));
      assert SumTally(m, ks) == Plus(m[j], Plus(m[k], SumTally(m, rest)));
      PlusSwap(m[j], m[k], SumTally(m, rest));
    }
  }

  lemma {:induction false} SumTallyAgree(m1: Table, m2: Table, ks: set<Key>)
    requires ks <= m1.Keys && ks <= m2.Keys
    requires forall k :: k in ks ==> m1[k] == m2[k]
    ensures SumTally(m1, ks) == SumTally(m2, ks)
    decreases ks
  {
    if ks != {} {
      var k :| k in ks;
      SumTallyPick(m1, ks, k);
      SumTallyPick(m2, ks, k);
      SumTallyAgree(m1, m2, ks - {k});
    }
  }

  lemma {:induction false} SumTallyZero(m: Table, ks: set<Key>)
    requires ks <= m.Keys
    requires forall k :: k in ks ==> m[k] == ZeroTally
    ensures SumTally(m, ks) == ZeroTally
    decreases ks
  {
    if ks != {} {
      var k :| k in ks;
      SumTallyPick(m, ks, k);
      SumTallyZero(m, ks - {k});
    }
  }

  /** The column totals over all rows of event e. */
  ghost function EventTotal(m: Table, e: EventId): Tally {
    SumTally(m, EventKeys(m, e))
  }

  lemma EventTotalCredit(m: Table, e: EventId, t: TeamId, goalsFor: int, goalsAgainst: int)
    ensures EventTotal(Credit(m, Key(e, t), goalsFor, goalsAgainst), e)
         == Plus(EventTotal(m, e), Seeded(goalsFor, goalsAgainst))
  {
    var k := Key(e, t);
    var m' := Credit(m, k, goalsFor, goalsAgainst);
    var ks, ks' := EventKeys(m, e), EventKeys(m', e);
    assert ks' == ks + {k};
    var rest := ks - {k};
    assert ks' - {k} == rest;
    SumTallyPick(m', ks', k);
    SumTallyAgree(m', m, rest);
    if k in m {
      SumTallyPick(m, ks, k);
    } else {
      assert ks == rest;
    }
  }

  lemma EventTotalReplayMatch(m: Table, e: EventId, x: Match)
    ensures EventTotal(ReplayMatch(m, e, x), e)
         == Plus(Plus(EventTotal(m, e), Seeded(x.score1, x.score2)), Seeded(x.score2, x.score1))
  {
    EventTotalCredit(m, e, x.team1, x.score1, x.score2);
    EventTotalCredit(Credit(m, Key(e, x.team1), x.score1, x.score2), e, x.team2, x.score2, x.score1);
  }

  /** The conservation laws of n matches: every goal scored is a goal
      conceded, every win is someone's loss, draws come in pairs and every
      match is played by two teams. */
  ghost predicate Balanced(total: Tally, n: int) {
    && total.goalsFor == total.goalsAgainst
    && total.won == total.lost
    && total.drawn % 2 == 0
    && total.played == 2 * n
  }

  lemma {:induction false} ReplayBalanced(m: Table, e: EventId, ms: seq<Match>, n: int)
    requires Balanced(EventTotal(m, e), n)
    ensures Balanced(EventTotal(Replay(m, e, ms), e), n + |ms|)
    decreases |ms|
  {
    if ms != [] {
      var ms' := ms[..|ms| - 1];
      var x := ms[|ms| - 1];
      ReplayBalanced(m, e, ms', n);
      EventTotalReplayMatch(Replay(m, e, ms'), e, x);
      BalancedStep(EventTotal(Replay(m, e, ms'), e), n + |ms'|, x.score1, x.score2);
    }
  }

  /** One match keeps a balanced total balanced, with one more match. */
  lemma BalancedStep(total: Tally, n: int, score1: int, score2: int)
    requires Balanced(total, n)
    ensures Balanced(Plus(Plus(total, Seeded(score1, score2)), Seeded(score2, score1)), n + 1)
  {
    var s1, s2 := Seeded(score1, score2), Seeded(score2, score1);
    assert s1.won == s2.lost && s1.lost == s2.won && s1.drawn == s2.drawn;
  }

  /** After recalculation, the event's rows together satisfy the
      conservation laws of its completed matches. */
  lemma RecalcBalanced(m: Table, e: EventId, completed: seq<Match>)
    ensures Balanced(EventTotal(Recalc(m, e, completed), e), |completed|)
  {
    var r := ResetEvent(m, e);
    SumTallyZero(r, EventKeys(r, e));
    ReplayBalanced(r, e, completed, 0);
  }

  /** After recalculation every row of the event keeps both row invariants,
      and rows of other events are as they were. */
  lemma RecalcRows(m: Table, e: EventId, completed: seq<Match>)
    ensures EventConsistent(Recalc(m, e, completed), e)
    ensures forall k: Key :: k.eventId != e ==>
              (k in Recalc(m, e, completed) <==> k in m)
    ensures forall k :: k in m && k.eventId != e ==> Recalc(m, e, completed)[k] == m[k]
  {
    var r := ResetEvent(m, e);
    ReplayConsistent(r, e, completed);
    forall k: Key | k.eventId != e
      ensures k in Recalc(m, e, completed) <==> k in m
      ensures k in m ==> Recalc(m, e, completed)[k] == m[k]
    {
      ReplayOtherEvents(r, e, completed, k);
    }
  }

  /*************************************************************************
   * The self-heal of an event without rows
   *************************************************************************/

  lemma {:induction false} CompletedTeamsInEvent(ms: seq<Match>, e: EventId)
    ensures TeamsOf(CompletedMatches(ms, e)) <= EventTeams(ms, e)
    decreases |ms|
  {
    if ms != [] {
      var ms' := ms[..|ms| - 1];
      var x := ms[|ms| - 1];
      CompletedTeamsInEvent(ms', e);
      var c' := CompletedMatches(ms', e);
      if x.eventId == e && x.status == Completed {
        assert (c' + [x])[..|c'|] == c';
      } else {
        assert c' + [] == c';
      }
    }
  }

  /** For an event without rows, the self-heal leaves exactly one row per
      distinct team of its matches, every one consistent, the event totals
      balanced against its completed matches, and every other row untouched. */
  lemma SelfHealRows(m: Table, e: EventId, ms: seq<Match>)
    requires EventKeys(m, e) == {}
    ensures forall k: Key :: k.eventId == e ==> (k in SelfHeal(m, e, ms) <==> k.teamId in EventTeams(ms, e))
    ensures forall k :: k in SelfHeal(m, e, ms) && k.eventId == e ==> Consistent(SelfHeal(m, e, ms)[k])
    ensures forall k :: k in m ==> k in SelfHeal(m, e, ms) && SelfHeal(m, e, ms)[k] == m[k]
    ensures forall k :: k in SelfHeal(m, e, ms) && k.eventId != e ==> k in m
    ensures Balanced(EventTotal(SelfHeal(m, e, ms), e), |CompletedMatches(ms, e)|)
  {
    var teams, completed := EventTeams(ms, e), CompletedMatches(ms, e);
    var seeded := SeedZeros(m, e, teams);
    SeedZerosRows(m, e, teams);
    var reset := ResetEvent(seeded, e);
    var healed := Replay(reset, e, completed);
    assert healed == SelfHeal(m, e, ms);
    CompletedTeamsInEvent(ms, e);
    ReplayKeys(reset, e, completed);
    KeysForMembers(e, TeamsOf(completed));
    KeysForMembers(e, teams);
    assert KeysFor(e, TeamsOf(completed)) <= KeysFor(e, teams);
    assert healed.Keys == m.Keys + KeysFor(e, teams);
    forall k: Key | k.eventId == e ensures k in healed <==> k.teamId in teams {
      assert k !in m by { assert k !in EventKeys(m, e); }
    }
    RecalcRows(seeded, e, completed);
    forall k | k in m ensures k in healed && healed[k] == m[k] {
      assert k !in EventKeys(m, e);
    }
    RecalcBalanced(seeded, e, completed);
  }

  /*************************************************************************
   * Listing order: points, then goal difference, then goals for, all
   * descending
   *************************************************************************/

  datatype Row = Row(teamId: TeamId, tally: Tally)

  function GoalDifference(t: Tally): int {
    t.goalsFor - t.goalsAgainst
  }

  /** a may be listed before b. */
  predicate RanksAtLeast(a: Tally, b: Tally) {
    || a.points > b.points
    || (a.points == b.points && GoalDifference(a) > GoalDifference(b))
    || (a.points == b.points && GoalDifference(a) == GoalDifference(b) && a.goalsFor >= b.goalsFor)
  }

  /** The order is a total preorder: any two rows can be listed one way or
      the other, and it is transitive. */
  lemma RanksAtLeastTotalPreorder(a: Tally, b: Tally, c: Tally)
    ensures RanksAtLeast(a, b) || RanksAtLeast(b, a)
    ensures RanksAtLeast(a, b) && RanksAtLeast(b, c) ==> RanksAtLeast(a, c)
  {
  }

  predicate Ranked(rows: seq<Row>) {
    forall i, j :: 0 <= i < j < |rows| ==> RanksAtLeast(rows[i].tally, rows[j].tally)
  }

  /** r placed into a list before the first row it ranks at least as high as. */
  function InsertRanked(r: Row, rows: seq<Row>): (res: seq<Row>)
    ensures multiset(res) == multiset(rows) + multiset{r}
    decreases |rows|
  {
    if rows == [] || RanksAtLeast(r.tally, rows[0].tally) then
      [r] + rows
    else
      assert rows == [rows[0]] + rows[1..];
      [rows[0]] + InsertRanked(r, rows[1..])
  }

  /** Inserting into a ranked list keeps it ranked. */
  lemma {:induction false} InsertRankedKeepsRanked(r: Row, rows: seq<Row>)
    requires Ranked(rows)
    ensures Ranked(InsertRanked(r, rows))
    decreases |rows|
  {
    if rows == [] || RanksAtLeast(r.tally, rows[0].tally) {
      if rows != [] {
        HeadRanksAll(r, rows);
      }
      RankedCons(r, rows);
    } else {
      var tail := InsertRanked(r, rows[1..]);
      InsertRankedKeepsRanked(r, rows[1..]);
      RanksAtLeastTotalPreorder(r.tally, rows[0].tally, r.tally);
      forall y | y in tail ensures RanksAtLeast(rows[0].tally, y.tally) {
        assert y in multiset(tail);
        if y != r {
          assert y in multiset(rows[1..]);
          var k :| 0 <= k < |rows[1..]| && rows[1..][k] == y;
          assert rows[k + 1] == y;
        }
      }
      RankedCons(rows[0], tail);
    }
  }

  /** A row that ranks at least as high as the head of a ranked list ranks
      at least as high as every row of it. */
  lemma HeadRanksAll(r: Row, rows: seq<Row>)
    requires Ranked(rows) && rows != [] && RanksAtLeast(r.tally, rows[0].tally)
    ensures forall y | y in rows :: RanksAtLeast(r.tally, y.tally)
  {
    forall y | y in rows ensures RanksAtLeast(r.tally, y.tally) {
      var j :| 0 <= j < |rows| && rows[j] == y;
      RanksAtLeastTotalPreorder(r.tally, rows[0].tally, y.tally);
    }
  }

  /** A row ahead of every row of a ranked list heads a ranked list. */
  lemma RankedCons(x: Row, rest: seq<Row>)
    requires Ranked(rest)
    requires forall y | y in rest :: RanksAtLeast(x.tally, y.tally)
    ensures Ranked([x] + rest)
  {
    var res := [x] + rest;
    forall i, j | 0 <= i < j < |res| ensures RanksAtLeast(res[i].tally, res[j].tally) {
      if i == 0 {
        assert res[j] == rest[j - 1];
      } else {
        assert res[i] == rest[i - 1] && res[j] == rest[j - 1];
      }
    }
  }

  /** The rows of event e as (team, row) pairs. */
  function EventRows(m: Table, e: EventId): set<Row> {
    set k | k in m && k.eventId == e :: Row(k.teamId, m[k])
  }

  /*************************************************************************
   * The store operations
   *************************************************************************/

  datatype StandingsReply = EventNotFound | Listed(rows: seq<Row>)

  /** updateTeamStanding: read the row of (e, team); insert a seeded row if
      there is none, otherwise add this result to it. */
  method UpdateTeamStanding(db: Database, e: EventId, team: TeamId, goalsFor: int, goalsAgainst: int)
    requires db.Valid() && e in db.events
    modifies db`standings
    ensures db.Valid()
    ensures db.standings == Credit(old(db.standings), Key(e, team), goalsFor, goalsAgainst)
  {
    var k := Key(e, team);
    if k !in db.standings {
      assert Plus(ZeroTally, Seeded(goalsFor, goalsAgainst)) == Seeded(goalsFor, goalsAgainst);
      db.standings := db.standings[k := Seeded(goalsFor, goalsAgainst)];
    } else {
      RecordAddsSeeded(db.standings[k], goalsFor, goalsAgainst);
      db.standings := db.standings[k := Record(db.standings[k], goalsFor, goalsAgainst)];
    }
  }

  /** recalculateEventStandings: read the event's completed matches, zero the
      event's rows, then credit every match to both of its teams. */
  method RecalculateEventStandings(db: Database, e: EventId)
    requires db.Valid() && e in db.events
    modifies db`standings
    ensures db.Valid()
    ensures db.standings == Recalc(old(db.standings), e, CompletedMatches(db.matches, e))
  {
    var completed := CompletedMatches(db.matches, e);
    db.standings := ResetEvent(db.standings, e);
    ghost var reset := db.standings;
    var i := 0;
    while i < |completed|
      invariant 0 <= i <= |completed|
      invariant db.Valid()
      invariant db.standings == Replay(reset, e, completed[..i])
    {
      var x := completed[i];
      UpdateTeamStanding(db, e, x.team1, x.score1, x.score2);
      UpdateTeamStanding(db, e, x.team2, x.score2, x.score1);
      PrefixStep(completed, i);
      ReplayAppend(reset, e, completed[..i], x);
      i := i + 1;
    }
    assert completed[..i] == completed;
  }

  /** INSERT of an all-zero row ... ON CONFLICT (event_id, team_id) DO NOTHING. */
  method InsertZeroRow(db: Database, e: EventId, team: TeamId)
    requires db.Valid() && e in db.events
    modifies db`standings
    ensures db.Valid()
    ensures db.standings == SeedZeros(old(db.standings), e, {team})
  {
    var k := Key(e, team);
    if k !in db.standings {
      db.standings := db.standings[k := ZeroTally];
    }
  }

  /** The insert loop of the self-heal: one zero row per team, in no
      particular order, skipping teams that already have a row. */
  method SeedEventRows(db: Database, e: EventId, teams: seq<TeamId>)
    requires db.Valid() && e in db.events
    modifies db`standings
    ensures db.Valid()
    ensures db.standings == SeedZeros(old(db.standings), e, TeamSet(teams))
  {
    var i := 0;
    while i < |teams|
      invariant 0 <= i <= |teams|
      invariant db.Valid() && e in db.events
      invariant db.standings == SeedZeros(old(db.standings), e, TeamSet(teams[..i]))
    {
      InsertZeroRow(db, e, teams[i]);
      SeedZerosPrefix(old(db.standings), e, teams, i);
      i := i + 1;
    }
    assert teams[..i] == teams;
  }

  lemma SeedZerosPrefix(m: Table, e: EventId, teams: seq<TeamId>, i: nat)
    requires i < |teams|
    ensures SeedZeros(SeedZeros(m, e, TeamSet(teams[..i])), e, {teams[i]}) == SeedZeros(m, e, TeamSet(teams[..i + 1]))
  {
    SeedZerosStep(m, e, TeamSet(teams[..i]), teams[i]);
    assert TeamSet(teams[..i + 1]) == TeamSet(teams[..i]) + {teams[i]} by {
      assert teams[..i + 1] == teams[..i] + [teams[i]];
    }
  }

  lemma EventRowsGrow(m: Table, e: EventId, pending: set<Key>, k: Key)
    requires k in pending && k in m && k.eventId == e
    ensures multiset(EventRows(m - (pending - {k}), e))
            == multiset(EventRows(m - pending, e)) + multiset{Row(k.teamId, m[k])}
  {
    var r := Row(k.teamId, m[k]);
    assert r !in EventRows(m - pending, e);
    assert EventRows(m - (pending - {k}), e) == EventRows(m - pending, e) + {r};
  }

  /** SELECT of the event's rows ORDER BY points DESC, goal difference DESC,
      goals_for DESC: every row of the event exactly once, ranked. */
  method ListEventStandings(db: Database, e: EventId) returns (rows: seq<Row>)
    ensures Ranked(rows)
    ensures multiset(rows) == multiset(EventRows(db.standings, e))
    ensures rows == [] <==> EventKeys(db.standings, e) == {}
  {
    var pending := EventKeys(db.standings, e);
    rows := [];
    while pending != {}
      invariant pending <= EventKeys(db.standings, e)
      invariant Ranked(rows)
      invariant multiset(rows) == multiset(EventRows(db.standings - pending, e))
      decreases pending
    {
      var k :| k in pending;
      var r := Row(k.teamId, db.standings[k]);
      EventRowsGrow(db.standings, e, pending, k);
      InsertRankedKeepsRanked(r, rows);
      rows := InsertRanked(r, rows);
      pending := pending - {k};
    }
    EventRowsEmpty(db.standings, e);
  }

  lemma EventRowsEmpty(m: Table, e: EventId)
    ensures EventRows(m, e) == {} <==> EventKeys(m, e) == {}
  {
    if k :| k in EventKeys(m, e) {
      assert Row(k.teamId, m[k]) in EventRows(m, e);
    } else {
      assert forall k :: k in m ==> k.eventId != e by {
        forall k | k in m ensures k.eventId != e {
          assert k !in EventKeys(m, e);
        }
      }
    }
  }

  /** getEventStandings: 404 for an unknown event; an event without rows but
      with matches gets a zero row per distinct team of its matches and a
      recalculation before its rows are listed. */
  method GetEventStandings(db: Database, e: EventId) returns (reply: StandingsReply)
    requires db.Valid()
    modifies db`standings
    ensures db.Valid()
    ensures e !in db.events ==> reply == EventNotFound
    ensures e in db.events ==>
              reply.Listed? && Ranked(reply.rows)
              && multiset(reply.rows) == multiset(EventRows(db.standings, e))
    ensures db.standings ==
              if e in db.events && EventKeys(old(db.standings), e) == {} && EventTeams(db.matches, e) != {}
              then SelfHeal(old(db.standings), e, db.matches)
              else old(db.standings)
  {
    if e !in db.events {
      return EventNotFound;
    }
    var current := ListEventStandings(db, e);
    if current == [] {
      var teams := TeamsInEvent(db.matches, e);
      assert TeamSet(teams) == EventTeams(db.matches, e);
      if teams != [] {
        ghost var before := db.standings;
        assert EventKeys(before, e) == {};
        assert teams[0] in EventTeams(db.matches, e);
        SeedEventRows(db, e, teams);
        RecalculateEventStandings(db, e);
        assert db.standings == SelfHeal(before, e, db.matches);
        var updated := ListEventStandings(db, e);
        return Listed(updated);
      }
      assert TeamSet(teams) == {};
    }
    return Listed(current);
  }
}
