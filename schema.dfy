/** The relational records of the tournament store (events, matches,
    standings) with the column defaults of the schema, and the store itself
    as an object whose tables the request handlers update in place. */
module Schema {

  type EventId = int
  type TeamId = int

  /** The aggregate columns of one standings row. */
  datatype Tally = Tally(
    played: int, won: int, drawn: int, lost: int,
    goalsFor: int, goalsAgainst: int, points: int)

  /** Every aggregate column at its default, 0. */
  const ZeroTally := Tally(0, 0, 0, 0, 0, 0, 0)

  /** A standings row is identified by UNIQUE(event_id, team_id). */
  datatype Key = Key(eventId: EventId, teamId: TeamId)

  datatype MatchStatus = Scheduled | Completed

  datatype Match = Match(
    eventId: EventId, team1: TeamId, team2: TeamId,
    score1: int, score2: int, round: int, status: MatchStatus)

  datatype Event = Event(name: string, kind: string, status: string)

  /** A freshly inserted match row: only event and teams are given, the
      scores default to 0, the round to 1 and the status to 'scheduled'. */
  function Fixture(e: EventId, home: TeamId, away: TeamId): Match
  {
    Match(e, home, away, 0, 0, 1, Scheduled)
  }

  /** A freshly inserted event row: status defaults to 'active'. */
  function NewEvent(name: string, kind: string): Event
  {
    Event(name, kind, "active")
  }

  /** No entry occurs twice. */
  predicate Distinct<T(==)>(s: seq<T>) {
    forall i, j :: 0 <= i < j < |s| ==> s[i] != s[j]
  }

  /** The standings keys of event e for the teams ts. */
  function KeysFor(e: EventId, ts: set<TeamId>): set<Key> {
    set t | t in ts :: Key(e, t)
  }

  lemma KeysForMembers(e: EventId, ts: set<TeamId>)
    ensures forall k :: k in KeysFor(e, ts) <==> k.eventId == e && k.teamId in ts
  {
    forall k: Key | k.eventId == e && k.teamId in ts ensures k in KeysFor(e, ts) {
      assert k == Key(e, k.teamId);
    }
  }

  /** One all-zero standings row of event e for every team in ts. */
  function ZeroRows(e: EventId, ts: set<TeamId>): map<Key, Tally> {
    map k | k in KeysFor(e, ts) :: ZeroTally
  }

  lemma ZeroRowsKeys(e: EventId, ts: set<TeamId>)
    ensures forall k :: k in ZeroRows(e, ts) <==> k.eventId == e && k.teamId in ts
    ensures forall k :: k in ZeroRows(e, ts) ==> ZeroRows(e, ts)[k] == ZeroTally
  {
    forall k: Key | k.eventId == e && k.teamId in ts ensures k in KeysFor(e, ts) {
      assert k == Key(e, k.teamId);
    }
  }

  /** The store. Matches are kept in insertion order (their SERIAL ids). */
  class Database {
    var events: map<EventId, Event>
    var nextEventId: EventId
    var matches: seq<Match>
    var standings: map<Key, Tally>

    /** SERIAL ids are never reused, and the foreign keys from standings and
        matches to events hold. */
    ghost predicate Valid()
      reads this
    {
      && (forall id :: id in events ==> id < nextEventId)
      && (forall k :: k in standings ==> k.eventId in events)
      && (forall i :: 0 <= i < |matches| ==> matches[i].eventId in events)
    }

    constructor ()
      ensures Valid()
      ensures events == map[] && nextEventId == 1 && matches == [] && standings == map[]
    {
      events := map[];
      nextEventId := 1;
      matches := [];
      standings := map[];
    }
  }
}
