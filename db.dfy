// The database the application talks to through Prisma, as an in-memory
// store: one sequence per table, held by a Database object whose methods are
// the Prisma calls the core makes (upsert, deleteMany, count). Instants are
// integers (milliseconds since the epoch).
module Db {

  datatype Option<T> = None | Some(value: T)

  const ADMIN: string := "ADMIN"
  const CONFIRMED: string := "CONFIRMED"

  datatype User = User(id: int, email: string, name: string, role: string, passwordHash: string)
  datatype Computer = Computer(id: int, pcLabel: string, isActive: bool)
  datatype Team = Team(id: string, name: string, gameTitle: string)
  datatype Scope = ALL | COMPUTER
  datatype Blackout = Blackout(startsAt: int, endsAt: int, scope: Scope, computerId: Option<int>)
  datatype Reservation = Reservation(
    computerId: int,
    teamId: string,
    startsAt: int,
    endsAt: int,
    status: string,
    createdByUserId: int)

  /** The half-open overlap test every guard uses: a row [startsAt, endsAt)
      meets the window [start, end) iff `startsAt < end && endsAt > start`. */
  predicate Overlaps(startsAt: int, endsAt: int, start: int, end: int)
    ensures endsAt <= start || end <= startsAt ==> !Overlaps(startsAt, endsAt, start, end)
    ensures start < end && startsAt <= start < endsAt ==> Overlaps(startsAt, endsAt, start, end)
    ensures startsAt < endsAt && start <= startsAt < end ==> Overlaps(startsAt, endsAt, start, end)
  {
    startsAt < end && endsAt > start
  }

  /** Two CONFIRMED rows on the same computer whose intervals overlap. */
  predicate Clash(a: Reservation, b: Reservation) {
    && a.computerId == b.computerId
    && a.status == CONFIRMED && b.status == CONFIRMED
    && Overlaps(a.startsAt, a.endsAt, b.startsAt, b.endsAt)
  }

  /** The booking invariant: no two distinct rows of the table clash. */
  predicate NoDoubleBooking(rs: seq<Reservation>) {
    forall i, j :: 0 <= i < |rs| && 0 <= j < |rs| && i != j ==> !Clash(rs[i], rs[j])
  }

  /** `user.findUnique({ where: { id } })` finds a row. */
  predicate HasUser(users: seq<User>, id: int) {
    exists u :: u in users && u.id == id
  }

  /** `team.findUnique({ where: { id } })` finds a row. */
  predicate HasTeam(teams: seq<Team>, id: string) {
    exists t :: t in teams && t.id == id
  }

  predicate UniqueComputerIds(cs: seq<Computer>) {
    forall i, j :: 0 <= i < j < |cs| ==> cs[i].id != cs[j].id
  }

  predicate UniqueComputerLabels(cs: seq<Computer>) {
    forall i, j :: 0 <= i < j < |cs| ==> cs[i].pcLabel != cs[j].pcLabel
  }

  predicate UniqueTeamIds(ts: seq<Team>) {
    forall i, j :: 0 <= i < j < |ts| ==> ts[i].id != ts[j].id
  }

  predicate UniqueUsers(us: seq<User>) {
    forall i, j :: 0 <= i < j < |us| ==> us[i].id != us[j].id && us[i].email != us[j].email
  }

  /** The rows `deleteMany({ where: { endsAt: { lt: cutoff } } })` removes. */
  function Expired(rs: seq<Reservation>, cutoff: int): (r: seq<Reservation>)
    ensures forall x :: x in r <==> x in rs && x.endsAt < cutoff
    ensures |r| <= |rs|
  {
    if rs == [] then []
    else Expired(rs[..|rs| - 1], cutoff)
         + (if rs[|rs| - 1].endsAt < cutoff then [rs[|rs| - 1]] else [])
  }

  /** The rows such a deleteMany keeps, in their original order. */
  function Surviving(rs: seq<Reservation>, cutoff: int): (r: seq<Reservation>)
    ensures forall x :: x in r <==> x in rs && x.endsAt >= cutoff
    ensures |r| <= |rs|
  {
    if rs == [] then []
    else Surviving(rs[..|rs| - 1], cutoff)
         + (if rs[|rs| - 1].endsAt >= cutoff then [rs[|rs| - 1]] else [])
  }

  /** Purging splits the table exactly: every row, counted with its
      multiplicity, is either deleted or kept, and never both. */
  lemma {:induction false} PurgePartition(rs: seq<Reservation>, cutoff: int)
    ensures multiset(rs) == multiset(Expired(rs, cutoff)) + multiset(Surviving(rs, cutoff))
    ensures |Expired(rs, cutoff)| + |Surviving(rs, cutoff)| == |rs|
  {
    if rs != [] {
      var init, last := rs[..|rs| - 1], rs[|rs| - 1];
      assert rs == init + [last];
      PurgePartition(init, cutoff);
    }
  }

  /** Appending one row to a table without double bookings keeps it free of
      them exactly when the row clashes with none already there. */
  lemma NoDoubleBookingSnoc(rs: seq<Reservation>, x: Reservation)
    ensures NoDoubleBooking(rs + [x]) <==> NoDoubleBooking(rs) && forall y :: y in rs ==> !Clash(x, y) && !Clash(y, x)
  {
    var t := rs + [x];
    if NoDoubleBooking(t) {
      forall y | y in rs ensures !Clash(x, y) && !Clash(y, x) {
        var k :| 0 <= k < |rs| && rs[k] == y;
        assert t[k] == y && t[|rs|] == x;
      }
      forall i, j | 0 <= i < |rs| && 0 <= j < |rs| && i != j ensures !Clash(rs[i], rs[j]) {
        assert t[i] == rs[i] && t[j] == rs[j];
      }
    }
    if NoDoubleBooking(rs) && forall y :: y in rs ==> !Clash(x, y) && !Clash(y, x) {
      forall i, j | 0 <= i < |t| && 0 <= j < |t| && i != j ensures !Clash(t[i], t[j]) {
        if i < |rs| && j < |rs| {
          assert t[i] == rs[i] && t[j] == rs[j];
        } else if i < |rs| {
          assert t[i] in rs;
        } else {
          assert t[j] in rs;
        }
      }
    }
  }

  /** Deleting expired rows never creates a double booking. */
  lemma {:induction false} PurgeKeepsNoDoubleBooking(rs: seq<Reservation>, cutoff: int)
    requires NoDoubleBooking(rs)
    ensures NoDoubleBooking(Surviving(rs, cutoff))
  {
    if rs != [] {
      var init, last := rs[..|rs| - 1], rs[|rs| - 1];
      assert rs == init + [last];
      NoDoubleBookingSnoc(init, last);
      PurgeKeepsNoDoubleBooking(init, cutoff);
      if last.endsAt >= cutoff {
        NoDoubleBookingSnoc(Surviving(init, cutoff), last);
      }
    }
  }

  /** Position of the user with this email, if any (the email is a unique key). */
  function FindUserByEmail(us: seq<User>, email: string): (k: Option<nat>)
    ensures k.Some? ==> k.value < |us| && us[k.value].email == email
    ensures k.None? ==> forall u :: u in us ==> u.email != email
  {
    if us == [] then None
    else if us[|us| - 1].email == email then Some(|us| - 1)
    else FindUserByEmail(us[..|us| - 1], email)
  }

  /** Promoting the user at position k keeps ids and emails unique and
      below the id bound, keeps every other user, and leaves an ADMIN with
      the new hash in the table. */
  lemma PromoteKeepsUsers(us: seq<User>, k: nat, passwordHash: string, bound: int)
    requires UniqueUsers(us) && k < |us| && forall u :: u in us ==> u.id < bound
    ensures var promoted := us[k := us[k].(role := ADMIN, passwordHash := passwordHash)];
      && UniqueUsers(promoted)
      && (forall u :: u in promoted ==> u.id < bound)
      && (forall u :: u in us && u.email != us[k].email ==> u in promoted)
      && promoted[k] in promoted && promoted[k].email == us[k].email
      && (forall u :: u in promoted && u !in us ==> u == promoted[k])
  {
    var promoted := us[k := us[k].(role := ADMIN, passwordHash := passwordHash)];
    forall u | u in promoted && u != promoted[k] ensures u in us {
      var j :| 0 <= j < |promoted| && promoted[j] == u;
      assert promoted[j] == us[j];
    }
    forall u | u in promoted ensures u.id < bound {
      var j :| 0 <= j < |promoted| && promoted[j] == u;
      assert j != k ==> promoted[j] == us[j];
    }
    forall u | u in us && u.email != us[k].email ensures u in promoted {
      var j :| 0 <= j < |us| && us[j] == u;
      assert promoted[j] == u;
    }
  }

  lemma AppendUserKeepsUnique(us: seq<User>, u: User)
    requires UniqueUsers(us) && forall v :: v in us ==> v.id < u.id && v.email != u.email
    ensures UniqueUsers(us + [u])
  {
    var t := us + [u];
    forall i, j | 0 <= i < j < |t| ensures t[i].id != t[j].id && t[i].email != t[j].email {
      assert t[i] == us[i] && us[i] in us;
      if j < |us| {
        assert t[j] == us[j];
      }
    }
  }

  /** The tables of the application. `nextUserId` and `nextComputerId` stand
      for the database's id generators (a cuid for users, an autoincrement
      sequence for computers): every id handed out is new. */
  class Database {
    var users: seq<User>
    var computers: seq<Computer>
    var teams: seq<Team>
    var blackouts: seq<Blackout>
    var reservations: seq<Reservation>
    var nextUserId: int
    var nextComputerId: int

    /** The table constraints: primary keys and unique columns. */
    ghost predicate Valid()
      reads this
    {
      && UniqueUsers(users)
      && UniqueComputerIds(computers) && UniqueComputerLabels(computers)
      && UniqueTeamIds(teams)
      && (forall u :: u in users ==> u.id < nextUserId)
      && (forall c :: c in computers ==> c.id < nextComputerId)
    }

    /** A database with no users, computers or teams, holding the given
        blackout windows and reservation rows. */
    constructor (blackouts: seq<Blackout>, reservations: seq<Reservation>)
      ensures Valid()
      ensures users == [] && computers == [] && teams == []
      ensures this.blackouts == blackouts && this.reservations == reservations
    {
      users, computers, teams := [], [], [];
      this.blackouts, this.reservations := blackouts, reservations;
      nextUserId, nextComputerId := 1, 1;
    }

    /** `reservation.count({ where: { endsAt: { lt: cutoff } } })`. */
    function CountEndingBefore(cutoff: int): (n: nat)
      reads this
      ensures n == |reservations| - |Surviving(reservations, cutoff)|
    {
      PurgePartition(reservations, cutoff);
      |Expired(reservations, cutoff)|
    }

    /** `reservation.deleteMany({ where: { endsAt: { lt: cutoff } } })`:
        removes exactly the rows ending strictly before the cutoff, keeps the
        others in order, and reports how many went. */
    method DeleteEndingBefore(cutoff: int) returns (count: nat)
      modifies this`reservations
      ensures reservations == Surviving(old(reservations), cutoff)
      ensures count == |Expired(old(reservations), cutoff)|
      ensures count == |old(reservations)| - |reservations|
    {
      var rs := reservations;
      var kept: seq<Reservation> := [];
      var i := 0;
      count := 0;
      while i < |rs|
        invariant 0 <= i <= |rs|
        invariant kept == Surviving(rs[..i], cutoff)
        invariant count == |Expired(rs[..i], cutoff)|
      {
        var r := rs[i];
        ghost var next := rs[..i + 1];
        assert next[..i] == rs[..i] && next[i] == r;
        if r.endsAt < cutoff {
          count := count + 1;
        } else {
          kept := kept + [r];
        }
        i := i + 1;
      }
      assert rs[..i] == rs;
      PurgePartition(rs, cutoff);
      reservations := kept;
    }

    /** `user.upsert` keyed by email as the seed's upsertAdmin issues it: an
        existing user becomes ADMIN with the new hash (name untouched); a
        missing one is created with this email, name, ADMIN role and hash. */
    method UpsertAdmin(email: string, name: string, passwordHash: string)
      requires Valid()
      modifies this`users, this`nextUserId
      ensures Valid()
      ensures match FindUserByEmail(old(users), email)
        case Some(k) =>
          && users == old(users)[k := old(users)[k].(role := ADMIN, passwordHash := passwordHash)]
          && nextUserId == old(nextUserId)
        case None =>
          && users == old(users) + [User(old(nextUserId), email, name, ADMIN, passwordHash)]
          && nextUserId == old(nextUserId) + 1
      ensures exists u :: u in users && u.email == email && u.role == ADMIN && u.passwordHash == passwordHash
      ensures forall u :: u in old(users) && u.email != email ==> u in users
      ensures forall u :: u in users && u !in old(users) ==>
                u.email == email && u.role == ADMIN && u.passwordHash == passwordHash
    {
      match FindUserByEmail(users, email)
      case Some(k) =>
        PromoteKeepsUsers(users, k, passwordHash, nextUserId);
        users := users[k := users[k].(role := ADMIN, passwordHash := passwordHash)];
      case None =>
        AppendUserKeepsUnique(users, User(nextUserId, email, name, ADMIN, passwordHash));
        users := users + [User(nextUserId, email, name, ADMIN, passwordHash)];
        nextUserId := nextUserId + 1;
        assert users[|users| - 1] in users;
    }

    /** `computer.upsert({ where: { label }, update: {}, create: { label,
        isActive: true } })`: an existing computer is left as it is; a
        missing one gets a fresh id and is active. */
    method UpsertComputer(pcLabel: string)
      requires Valid()
      modifies this`computers, this`nextComputerId
      ensures Valid()
      ensures (exists c :: c in old(computers) && c.pcLabel == pcLabel) ==>
                computers == old(computers) && nextComputerId == old(nextComputerId)
      ensures (forall c :: c in old(computers) ==> c.pcLabel != pcLabel) ==>
                && computers == old(computers) + [Computer(old(nextComputerId), pcLabel, true)]
                && nextComputerId == old(nextComputerId) + 1
      ensures old(computers) <= computers
      ensures exists c :: c in computers && c.pcLabel == pcLabel
      ensures forall c :: c in computers && c !in old(computers) ==> c.pcLabel == pcLabel && c.isActive
    {
      if exists c :: c in computers && c.pcLabel == pcLabel {
      } else {
        computers := computers + [Computer(nextComputerId, pcLabel, true)];
        nextComputerId := nextComputerId + 1;
        assert computers[|computers| - 1].pcLabel == pcLabel;
      }
    }

    /** `team.upsert({ where: { id: t.id }, update: {}, create: t })`. */
    method UpsertTeam(t: Team)
      requires Valid()
      modifies this`teams
      ensures Valid()
      ensures (exists u :: u in old(teams) && u.id == t.id) ==> teams == old(teams)
      ensures (forall u :: u in old(teams) ==> u.id != t.id) ==> teams == old(teams) + [t]
      ensures old(teams) <= teams
      ensures exists u :: u in teams && u.id == t.id
      ensures forall u :: u in teams && u !in old(teams) ==> u == t
    {
      if exists u :: u in teams && u.id == t.id {
      } else {
        teams := teams + [t];
        assert teams[|teams| - 1] == t;
      }
    }
  }
}
