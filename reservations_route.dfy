// The /api/reservations route: POST books one or more computers for a team
// over one time window, all or nothing; GET lists reservation rows, filtered
// by computer and time window and ordered by start time.
module ReservationsRoute {
  import opened Text
  import opened Db

  /** What `Number(x)` makes of one computer id taken from the request body:
      a finite (integral) number, or NaN / an infinity. */
  datatype RawId = Finite(n: int) | NonFinite

  /** The caller's session as next-auth resolves it. */
  datatype Session = Session(userId: int, role: string)

  /** The JSON body of a POST. `computerIds` is present when the body's field
      is an array, each entry already passed through `Number`; `computerId`
      is the legacy single id, present when not null or undefined. An instant
      is absent when the field is missing or empty, and also when it is not a
      date (such a value fails the same `start < end` test an absent one
      does). */
  datatype Body = Body(
    teamId: Option<string>,
    computerId: Option<RawId>,
    computerIds: Option<seq<RawId>>,
    startsAt: Option<int>,
    endsAt: Option<int>)

  /** An HTTP response of POST: 201 with the created rows, or an error status
      with the message of the JSON error body. */
  datatype PostResult = Created(rows: seq<Reservation>) | Failed(status: int, error: string)

  /** A request that passed validation: what the transaction works with. */
  datatype Request = Request(teamId: string, ids: seq<int>, start: int, end: int, userId: int)

  datatype Validation = Reject(status: int, error: string) | Accept(req: Request)

  const STALE_SESSION: string := "Your session is out of date. Please sign out and sign back in."
  const INVALID_PAYLOAD: string := "Invalid payload"
  const UNKNOWN_TEAM: string := "teamId does not exist"
  const BAD_COMPUTERS: string := "Invalid or inactive computerId(s): "
  const BLACKOUT_MESSAGE: string := "Time is blocked by a blackout window"
  const CONFLICT_PREFIX: string := "Already reserved for: "

  predicate Distinct<T(==)>(s: seq<T>) {
    forall i, j :: 0 <= i < j < |s| ==> s[i] != s[j]
  }

  /* ---------- id normalisation ---------- */

  /** `.filter(Number.isFinite)`: the finite entries, in order. */
  function KeepFinite(xs: seq<RawId>): (r: seq<RawId>)
    ensures forall x :: x in r <==> x in xs && x.Finite?
    ensures forall x :: multiset(r)[x] == if x.Finite? then multiset(xs)[x] else 0
    ensures (forall x :: x in xs ==> x.Finite?) ==> r == xs
    ensures |r| <= |xs|
  {
    if xs == [] then []
    else
      var init, last := xs[..|xs| - 1], xs[|xs| - 1];
      assert xs == init + [last];
      KeepFinite(init) + (if last.Finite? then [last] else [])
  }

  /** The requested computer ids: the finite entries of `computerIds` when it
      is an array; otherwise the legacy `computerId` (not filtered); otherwise
      none. */
  function NormalizeIds(body: Body): (ids: seq<RawId>)
    ensures body.computerIds.Some? ==>
              forall x :: x in ids <==> x in body.computerIds.value && x.Finite?
    ensures body.computerIds.Some? ==>
              forall x :: multiset(ids)[x] == if x.Finite? then multiset(body.computerIds.value)[x] else 0
    ensures body.computerIds.Some? && (forall x :: x in body.computerIds.value ==> x.Finite?) ==>
              ids == body.computerIds.value
    ensures body.computerIds.None? && body.computerId.Some? ==> ids == [body.computerId.value]
    ensures body.computerIds.None? && body.computerId.None? ==> ids == []
  {
    match body.computerIds
    case Some(xs) => KeepFinite(xs)
    case None =>
      match body.computerId
      case Some(x) => [x]
      case None => []
  }

  /** The values of the finite ids, in order. */
  function FiniteValues(xs: seq<RawId>): (r: seq<int>)
    ensures |r| <= |xs|
    ensures (forall x :: x in xs ==> x.Finite?) ==>
              |r| == |xs| && forall i :: 0 <= i < |xs| ==> r[i] == xs[i].n
  {
    if xs == [] then []
    else FiniteValues(xs[..|xs| - 1]) + (if xs[|xs| - 1].Finite? then [xs[|xs| - 1].n] else [])
  }

  function FiniteSet(xs: seq<RawId>): set<int> {
    set x | x in xs && x.Finite? :: x.n
  }

  /* ---------- validation ---------- */

  /** The payload test of the route: a missing or empty team id, a missing
      instant, a window that is not strictly increasing, or no ids. */
  predicate InvalidPayload(body: Body, ids: seq<RawId>)
    ensures ids == [] ==> InvalidPayload(body, ids)
    ensures body.startsAt.Some? && body.endsAt.Some? && body.endsAt.value <= body.startsAt.value ==>
              InvalidPayload(body, ids)
    ensures !InvalidPayload(body, ids) ==>
              && body.teamId.Some? && |body.teamId.value| > 0 && |ids| > 0
              && body.startsAt.Some? && body.endsAt.Some? && body.startsAt.value < body.endsAt.value
  {
    || body.teamId.None? || body.teamId.value == ""
    || body.startsAt.None? || body.endsAt.None?
    || !(body.startsAt.value < body.endsAt.value)
    || |ids| == 0
  }

  /** `computer.findMany({ where: { id: { in: ids }, isActive: true } })`. */
  function ActiveMatches(cs: seq<Computer>, ids: seq<RawId>): (r: seq<Computer>)
    ensures forall c :: c in r <==> c in cs && c.isActive && Finite(c.id) in ids
  {
    if cs == [] then []
    else
      var c := cs[|cs| - 1];
      ActiveMatches(cs[..|cs| - 1], ids) + (if c.isActive && Finite(c.id) in ids then [c] else [])
  }

  function IdsOf(cs: seq<Computer>): set<int> {
    set c | c in cs :: c.id
  }

  /** `${id}` inside the missing-id message. A finite id prints in decimal.
      Every non-finite id prints as "NaN", although `String(Infinity)` is
      "Infinity": RawId does not tell NaN and the infinities apart. */
  function RawIdToString(x: RawId): string {
    match x
    case Finite(n) => IntToString(n)
    case NonFinite => "NaN"
  }

  /** The requested ids that are not among the found active computers, in
      request order, as the error message lists them. */
  function MissingIds(ids: seq<RawId>, found: set<int>): (r: seq<string>)
    ensures forall i :: 0 <= i < |r| ==> exists x :: x in ids && (x.Finite? ==> x.n !in found) && r[i] == RawIdToString(x)
    ensures forall x :: x in ids && (x.NonFinite? || x.n !in found) ==> RawIdToString(x) in r
  {
    if ids == [] then []
    else
      var init, x := ids[..|ids| - 1], ids[|ids| - 1];
      assert forall y :: y in ids ==> y in init || y == x;
      MissingIds(init, found)
        + (if x.NonFinite? || x.n !in found then [RawIdToString(x)] else [])
  }

  /** Everything POST checks before it opens the transaction, in the route's
      order: the session, the session's user row, the ADMIN role, the
      payload, the team, and the set of active computers. */
  function Validate(users: seq<User>, computers: seq<Computer>, teams: seq<Team>,
                    session: Option<Session>, body: Body): (v: Validation)
    ensures session.None? ==> v == Reject(401, "Unauthorized")
    ensures session.Some? && !HasUser(users, session.value.userId) ==> v == Reject(401, STALE_SESSION)
    ensures session.Some? && HasUser(users, session.value.userId) && session.value.role != ADMIN ==>
              v == Reject(403, "Forbidden")
    ensures session.Some? && HasUser(users, session.value.userId) && session.value.role == ADMIN ==>
              (InvalidPayload(body, NormalizeIds(body)) ==> v == Reject(400, INVALID_PAYLOAD))
    ensures session.Some? && HasUser(users, session.value.userId) && session.value.role == ADMIN ==>
              (!InvalidPayload(body, NormalizeIds(body)) && !HasTeam(teams, body.teamId.value) ==>
                 v == Reject(400, UNKNOWN_TEAM))
    ensures v.Reject? ==> v.status == 400 || v.status == 401 || v.status == 403
    ensures v.Accept? ==> session.Some? && session.value.role == ADMIN && v.req.userId == session.value.userId
  {
    if session.None? then Reject(401, "Unauthorized")
    else if !HasUser(users, session.value.userId) then Reject(401, STALE_SESSION)
    else if session.value.role != ADMIN then Reject(403, "Forbidden")
    else
      var ids := NormalizeIds(body);
      if InvalidPayload(body, ids) then Reject(400, INVALID_PAYLOAD)
      else if !HasTeam(teams, body.teamId.value) then Reject(400, UNKNOWN_TEAM)
      else CheckComputers(computers, ids, body.teamId.value, body.startsAt.value,
                          body.endsAt.value, session.value.userId)
  }

  /** The last check of validation: every requested id must name a distinct
      active computer, which is so when as many active computers are found
      as ids were requested. */
  function CheckComputers(computers: seq<Computer>, ids: seq<RawId>, teamId: string,
                          start: int, end: int, userId: int): (v: Validation)
    ensures v.Reject? ==> v.status == 400 && BAD_COMPUTERS <= v.error
    ensures v.Reject? ==> v.error == BAD_COMPUTERS + Join(MissingIds(ids, IdsOf(ActiveMatches(computers, ids))), ", ")
    ensures v.Accept? ==> v.req.teamId == teamId && v.req.start == start && v.req.end == end && v.req.userId == userId
  {
    var comps := ActiveMatches(computers, ids);
    if |comps| != |ids| then
      Reject(400, BAD_COMPUTERS + Join(MissingIds(ids, IdsOf(comps)), ", "))
    else
      Accept(Request(teamId, FiniteValues(ids), start, end, userId))
  }

  /* ---------- guards ---------- */

  /** A blackout blocks the request when it overlaps the window and covers
      all computers, or covers one of the requested ones. */
  predicate Blocks(b: Blackout, req: Request)
    ensures b.endsAt <= req.start || req.end <= b.startsAt ==> !Blocks(b, req)
  {
    && Overlaps(b.startsAt, b.endsAt, req.start, req.end)
    && (b.scope == ALL || (b.scope == COMPUTER && b.computerId.Some? && b.computerId.value in req.ids))
  }

  /** The blackout `findFirst` finds a row. */
  predicate BlackoutHit(bs: seq<Blackout>, req: Request)
    ensures bs == [] ==> !BlackoutHit(bs, req)
    ensures (exists b :: b in bs && b.scope == ALL && Overlaps(b.startsAt, b.endsAt, req.start, req.end)) ==>
              BlackoutHit(bs, req)
    ensures (forall b :: b in bs ==> b.endsAt <= req.start || req.end <= b.startsAt) ==> !BlackoutHit(bs, req)
  {
    exists b :: b in bs && Blocks(b, req)
  }

  /** A CONFIRMED row on a requested computer that overlaps the window. */
  predicate Collides(r: Reservation, req: Request)
    ensures r.status != CONFIRMED ==> !Collides(r, req)
    ensures r.endsAt <= req.start || req.end <= r.startsAt ==> !Collides(r, req)
  {
    r.computerId in req.ids && r.status == CONFIRMED && Overlaps(r.startsAt, r.endsAt, req.start, req.end)
  }

  /** The rows the conflict guard finds. */
  function Conflicts(rs: seq<Reservation>, req: Request): (r: seq<Reservation>)
    ensures forall x :: x in r <==> x in rs && Collides(x, req)
  {
    if rs == [] then []
    else
      var x := rs[|rs| - 1];
      Conflicts(rs[..|rs| - 1], req) + (if Collides(x, req) then [x] else [])
  }

  /** `c.computer?.label ?? String(c.computerId)`. */
  function LabelOf(cs: seq<Computer>, id: int): (s: string)
    ensures (exists c :: c in cs && c.id == id) ==> exists c :: c in cs && c.id == id && s == c.pcLabel
    ensures (forall c :: c in cs ==> c.id != id) ==> s == IntToString(id)
  {
    if cs == [] then IntToString(id)
    else if cs[0].id == id then cs[0].pcLabel
    else LabelOf(cs[1..], id)
  }

  function Labels(cs: seq<Computer>, rs: seq<Reservation>): (r: seq<string>)
    ensures |r| == |rs| && forall i :: 0 <= i < |rs| ==> r[i] == LabelOf(cs, rs[i].computerId)
  {
    seq(|rs|, i requires 0 <= i < |rs| => LabelOf(cs, rs[i].computerId))
  }

  /** `Array.from(new Set(xs))`: each value once, in order of first occurrence. */
  function Dedupe(xs: seq<string>): (r: seq<string>)
    ensures Distinct(r)
    ensures forall x :: x in r <==> x in xs
    ensures |r| <= |xs|
  {
    if xs == [] then []
    else
      var d := Dedupe(xs[..|xs| - 1]);
      var x := xs[|xs| - 1];
      if x in d then d else d + [x]
  }

  /** "Already reserved for: " and the conflicting computers' labels. */
  function ConflictMessage(cs: seq<Computer>, conflicts: seq<Reservation>): (m: string)
    ensures CONFLICT_PREFIX <= m
    ensures conflicts == [] ==> m == CONFLICT_PREFIX
  {
    CONFLICT_PREFIX + Join(Dedupe(Labels(cs, conflicts)), ", ")
  }

  /* ---------- insertion ---------- */

  /** One CONFIRMED row per requested computer, in request order. */
  function NewRows(req: Request): (rows: seq<Reservation>)
    ensures |rows| == |req.ids|
    ensures forall i :: 0 <= i < |rows| ==>
              rows[i] == Reservation(req.ids[i], req.teamId, req.start, req.end, CONFIRMED, req.userId)
  {
    seq(|req.ids|, i requires 0 <= i < |req.ids| =>
      Reservation(req.ids[i], req.teamId, req.start, req.end, CONFIRMED, req.userId))
  }

  /** POST /api/reservations. Validation failures answer 400 (401/403 for the
      session); inside the transaction the blackout guard runs first, then
      the conflict guard, and either failure answers 409 and writes nothing;
      otherwise one row per requested computer is appended. */
  method Post(db: Database, session: Option<Session>, body: Body) returns (result: PostResult)
    modifies db`reservations
    ensures match Validate(db.users, db.computers, db.teams, session, body)
      case Reject(status, error) =>
        result == Failed(status, error) && db.reservations == old(db.reservations)
      case Accept(req) =>
        if BlackoutHit(db.blackouts, req) then
          result == Failed(409, BLACKOUT_MESSAGE) && db.reservations == old(db.reservations)
        else if Conflicts(old(db.reservations), req) != [] then
          && result == Failed(409, ConflictMessage(db.computers, Conflicts(old(db.reservations), req)))
          && db.reservations == old(db.reservations)
        else
          result == Created(NewRows(req)) && db.reservations == old(db.reservations) + NewRows(req)
    ensures db.Valid() && NoDoubleBooking(old(db.reservations)) ==> NoDoubleBooking(db.reservations)
  {
    var v := Validate(db.users, db.computers, db.teams, session, body);
    if v.Reject? {
      return Failed(v.status, v.error);
    }
    var req := v.req;
    if BlackoutHit(db.blackouts, req) {
      return Failed(409, BLACKOUT_MESSAGE);
    }
    var conflicts := Conflicts(db.reservations, req);
    if conflicts != [] {
      return Failed(409, ConflictMessage(db.computers, conflicts));
    }
    var rows := InsertRows(db, req);
    if db.Valid() && NoDoubleBooking(old(db.reservations)) {
      AcceptedRequest(db.users, db.computers, db.teams, session, body, req);
      AppendKeepsNoDoubleBooking(old(db.reservations), req);
    }
    return Created(rows);
  }

  /** The transaction's insert loop: one `reservation.create` per requested
      computer, in request order. */
  method InsertRows(db: Database, req: Request) returns (rows: seq<Reservation>)
    modifies db`reservations
    ensures rows == NewRows(req)
    ensures db.reservations == old(db.reservations) + rows
  {
    rows := [];
    var k := 0;
    while k < |req.ids|
      invariant 0 <= k <= |req.ids|
      invariant rows == NewRows(req)[..k]
      invariant db.reservations == old(db.reservations) + rows
    {
      var row := Reservation(req.ids[k], req.teamId, req.start, req.end, CONFIRMED, req.userId);
      db.reservations := db.reservations + [row];
      rows := rows + [row];
      k := k + 1;
    }
  }

  /* ---------- GET ---------- */

  /** The query string of GET: `computerId` (after `Number`) and the window,
      each absent when missing or empty. */
  datatype ListQuery = ListQuery(computerId: Option<int>, start: Option<int>, end: Option<int>)

  /** The `where` clause GET builds: the computer when given, and the overlap
      window only when both ends are given. */
  predicate Matches(q: ListQuery, r: Reservation)
    ensures q.computerId.None? && (q.start.None? || q.end.None?) ==> Matches(q, r)
    ensures q.computerId.Some? && r.computerId != q.computerId.value ==> !Matches(q, r)
    ensures q.start.Some? && q.end.Some? && (r.endsAt <= q.start.value || q.end.value <= r.startsAt) ==>
              !Matches(q, r)
  {
    && (q.computerId.Some? ==> r.computerId == q.computerId.value)
    && (q.start.Some? && q.end.Some? ==> Overlaps(r.startsAt, r.endsAt, q.start.value, q.end.value))
  }

  predicate SortedByStart(rs: seq<Reservation>) {
    forall i, j :: 0 <= i < j < |rs| ==> rs[i].startsAt <= rs[j].startsAt
  }

  function Select(rs: seq<Reservation>, q: ListQuery): (r: seq<Reservation>)
    ensures forall x :: x in r <==> x in rs && Matches(q, x)
    ensures forall x :: multiset(r)[x] == if Matches(q, x) then multiset(rs)[x] else 0
  {
    if rs == [] then []
    else
      var init, last := rs[..|rs| - 1], rs[|rs| - 1];
      assert rs == init + [last];
      Select(init, q) + (if Matches(q, last) then [last] else [])
  }

  /** One insertion step of the sort by start time. This is the same
      insertion sort as ReservationCalendar.Insert and SortSeq, restated for
      rows ordered by one field. The calendar's sort orders whole numbers,
      and its proofs use that the order is total on the values themselves.
      Here rows that share a start time stay distinct, so the order is only
      a preorder on rows. */
  function InsertByStart(x: Reservation, rs: seq<Reservation>): (r: seq<Reservation>)
    requires SortedByStart(rs)
    ensures SortedByStart(r)
    ensures forall y :: y in r ==> y == x || y in rs
    ensures multiset(r) == multiset(rs) + multiset{x}
  {
    if rs == [] || x.startsAt <= rs[0].startsAt then [x] + rs
    else
      var tail := InsertByStart(x, rs[1..]);
      assert rs == [rs[0]] + rs[1..];
      InsertByStartHead(x, rs, tail);
      [rs[0]] + tail
  }

  lemma InsertByStartHead(x: Reservation, rs: seq<Reservation>, tail: seq<Reservation>)
    requires SortedByStart(rs) && rs != [] && rs[0].startsAt < x.startsAt && SortedByStart(tail)
    requires forall y :: y in tail ==> y == x || y in rs[1..]
    ensures SortedByStart([rs[0]] + tail)
  {
    var r := [rs[0]] + tail;
    forall i, j | 0 <= i < j < |r| ensures r[i].startsAt <= r[j].startsAt {
      if i == 0 {
        assert r[j] == tail[j - 1] && tail[j - 1] in tail;
        if r[j] != x {
          var k :| 0 <= k < |rs[1..]| && rs[1..][k] == r[j];
          assert rs[k + 1] == r[j];
        }
      } else {
        assert r[i] == tail[i - 1] && r[j] == tail[j - 1];
      }
    }
  }

  /** `orderBy: { startsAt: 'asc' }`. */
  function SortByStart(rs: seq<Reservation>): (r: seq<Reservation>)
    ensures SortedByStart(r)
    ensures multiset(r) == multiset(rs)
  {
    if rs == [] then []
    else
      assert rs == [rs[0]] + rs[1..];
      InsertByStart(rs[0], SortByStart(rs[1..]))
  }

  /** GET /api/reservations: exactly the rows matching the query, each as
      often as it is stored, in ascending start order. */
  function List(rs: seq<Reservation>, q: ListQuery): (r: seq<Reservation>)
    ensures SortedByStart(r)
    ensures multiset(r) == multiset(Select(rs, q))
    ensures forall x :: x in r <==> x in rs && Matches(q, x)
    ensures forall x :: multiset(r)[x] == if Matches(q, x) then multiset(rs)[x] else 0
  {
    var r := SortByStart(Select(rs, q));
    assert forall x :: x in r <==> x in multiset(r);
    r
  }

  /* ---------- what validation and the guards guarantee ---------- */

  lemma FiniteSetSnoc(xs: seq<RawId>, x: RawId)
    ensures FiniteSet(xs + [x]) == FiniteSet(xs) + (if x.Finite? then {x.n} else {})
  {
    var t := xs + [x];
    forall v | v in FiniteSet(t) ensures v in FiniteSet(xs) + (if x.Finite? then {x.n} else {}) {
      var y :| y in t && y.Finite? && y.n == v;
      if y != x {
        assert y in xs;
      }
    }
    forall v | v in FiniteSet(xs) ensures v in FiniteSet(t) {
      var y :| y in xs && y.Finite? && y.n == v;
      assert y in t;
    }
    if x.Finite? {
      assert x in t;
    }
  }

  /** There are at most as many distinct finite ids as entries, and exactly
      as many precisely when every entry is finite and none repeats. */
  lemma {:induction false} FiniteSetSize(xs: seq<RawId>)
    ensures |FiniteSet(xs)| <= |xs|
    ensures |FiniteSet(xs)| == |xs| <==> (forall x :: x in xs ==> x.Finite?) && Distinct(xs)
  {
    if xs != [] {
      var init, last := xs[..|xs| - 1], xs[|xs| - 1];
      assert xs == init + [last];
      FiniteSetSnoc(init, last);
      FiniteSetSize(init);
      if (forall x :: x in xs ==> x.Finite?) && Distinct(xs) {
        assert Distinct(init) by {
          forall i, j | 0 <= i < j < |init| ensures init[i] != init[j] {
            assert init[i] == xs[i] && init[j] == xs[j];
          }
        }
      }
      if |FiniteSet(xs)| == |xs| {
        if last.NonFinite? || last.n in FiniteSet(init) {
          assert false;
        }
        forall i, j | 0 <= i < j < |xs| ensures xs[i] != xs[j] {
          if j < |init| {
            assert xs[i] == init[i] && xs[j] == init[j];
          } else {
            assert xs[i] in init;
          }
        }
      }
    }
  }

  lemma SubsetSize(a: set<int>, b: set<int>)
    requires a <= b
    ensures |a| <= |b|
    ensures |a| == |b| ==> a == b
  {
    assert b == a + (b - a);
    assert a * (b - a) == {};
    if |a| == |b| {
      assert |b - a| == 0;
    }
  }

  lemma IdsOfSnoc(cs: seq<Computer>, c: Computer)
    ensures IdsOf(cs + [c]) == IdsOf(cs) + {c.id}
  {
    var t := cs + [c];
    forall v | v in IdsOf(t) ensures v in IdsOf(cs) + {c.id} {
      var d :| d in t && d.id == v;
      if d != c {
        assert d in cs;
      }
    }
    forall v | v in IdsOf(cs) ensures v in IdsOf(t) {
      var d :| d in cs && d.id == v;
      assert d in t;
    }
    assert c in t;
  }

  /** With unique computer ids, the active computers found for a request
      carry as many distinct ids as there are of them, all requested. */
  lemma {:induction false} ActiveMatchesSize(cs: seq<Computer>, ids: seq<RawId>)
    requires UniqueComputerIds(cs)
    ensures |IdsOf(ActiveMatches(cs, ids))| == |ActiveMatches(cs, ids)|
    ensures IdsOf(ActiveMatches(cs, ids)) <= FiniteSet(ids)
  {
    var am := ActiveMatches(cs, ids);
    forall v | v in IdsOf(am) ensures v in FiniteSet(ids) {
      var c :| c in am && c.id == v;
      assert Finite(c.id) in ids;
    }
    if cs != [] {
      var init, c := cs[..|cs| - 1], cs[|cs| - 1];
      assert cs == init + [c];
      ActiveMatchesSize(init, ids);
      if c.isActive && Finite(c.id) in ids {
        var prev := ActiveMatches(init, ids);
        assert am == prev + [c];
        IdsOfSnoc(prev, c);
        assert c.id !in IdsOf(prev);
        assert |IdsOf(am)| == |IdsOf(prev)| + 1;
      } else {
        assert am == ActiveMatches(init, ids);
      }
    }
  }

  /** What a request must satisfy to pass validation. */
  predicate Admissible(users: seq<User>, computers: seq<Computer>, teams: seq<Team>,
                       session: Option<Session>, body: Body)
  {
    var ids := NormalizeIds(body);
    && session.Some?
    && (exists u :: u in users && u.id == session.value.userId)
    && session.value.role == ADMIN
    && !InvalidPayload(body, ids)
    && (exists t :: t in teams && t.id == body.teamId.value)
    && ComputersAvailable(computers, ids)
  }

  /** The ids are distinct and each names an active computer. */
  predicate ComputersAvailable(computers: seq<Computer>, ids: seq<RawId>) {
    && Distinct(ids)
    && (forall x :: x in ids ==> x.Finite? && exists c :: c in computers && c.id == x.n && c.isActive)
  }

  /** Validation accepts a request exactly when the caller is a known ADMIN,
      the payload is complete with start < end, the team exists, and the ids
      name distinct, existing, active computers. So a request repeating an
      id is refused even when every id it names is fine. */
  lemma ValidateAcceptsExactly(users: seq<User>, computers: seq<Computer>, teams: seq<Team>,
                               session: Option<Session>, body: Body)
    requires UniqueComputerIds(computers)
    ensures Validate(users, computers, teams, session, body).Accept?
            <==> Admissible(users, computers, teams, session, body)
  {
    var ids := NormalizeIds(body);
    if && session.Some? && (exists u :: u in users && u.id == session.value.userId)
       && session.value.role == ADMIN && !InvalidPayload(body, ids)
       && (exists t :: t in teams && t.id == body.teamId.value)
    {
      CheckComputersAcceptsExactly(computers, ids, body.teamId.value, body.startsAt.value,
                                   body.endsAt.value, session.value.userId);
    }
  }

  /** The computer check passes exactly when the ids are distinct and each
      names an active computer. */
  lemma CheckComputersAcceptsExactly(computers: seq<Computer>, ids: seq<RawId>, teamId: string,
                                     start: int, end: int, userId: int)
    requires UniqueComputerIds(computers)
    ensures CheckComputers(computers, ids, teamId, start, end, userId).Accept?
            <==> ComputersAvailable(computers, ids)
  {
    var comps := ActiveMatches(computers, ids);
    ActiveMatchesSize(computers, ids);
    FiniteSetSize(ids);
    SubsetSize(IdsOf(comps), FiniteSet(ids));
    if |comps| == |ids| {
      assert IdsOf(comps) == FiniteSet(ids);
      FoundAllAvailable(computers, ids);
      assert ComputersAvailable(computers, ids);
    }
    if ComputersAvailable(computers, ids) {
      AvailableAllFound(computers, ids);
      SubsetSize(FiniteSet(ids), IdsOf(comps));
      assert |comps| == |ids|;
    }
  }

  lemma FoundAllAvailable(computers: seq<Computer>, ids: seq<RawId>)
    requires IdsOf(ActiveMatches(computers, ids)) == FiniteSet(ids)
    ensures forall x :: x in ids && x.Finite? ==> exists c :: c in computers && c.id == x.n && c.isActive
  {
    var comps := ActiveMatches(computers, ids);
    forall x | x in ids && x.Finite? ensures exists c :: c in computers && c.id == x.n && c.isActive {
      assert x.n in FiniteSet(ids);
      var c :| c in comps && c.id == x.n;
    }
  }

  lemma AvailableAllFound(computers: seq<Computer>, ids: seq<RawId>)
    requires ComputersAvailable(computers, ids)
    ensures FiniteSet(ids) <= IdsOf(ActiveMatches(computers, ids))
  {
    var comps := ActiveMatches(computers, ids);
    forall v | v in FiniteSet(ids) ensures v in IdsOf(comps) {
      var x :| x in ids && x.Finite? && x.n == v;
      var c :| c in computers && c.id == x.n && c.isActive;
      assert c in comps;
    }
  }

  /** What an accepted request carries: the caller's id, the team id, the
      window and the requested ids, which are distinct active computers. */
  lemma AcceptedRequest(users: seq<User>, computers: seq<Computer>, teams: seq<Team>,
                        session: Option<Session>, body: Body, req: Request)
    requires UniqueComputerIds(computers)
    requires Validate(users, computers, teams, session, body) == Accept(req)
    ensures session.Some? && session.value.role == ADMIN && req.userId == session.value.userId
    ensures body.teamId == Some(req.teamId) && req.teamId != ""
    ensures exists t :: t in teams && t.id == req.teamId
    ensures body.startsAt == Some(req.start) && body.endsAt == Some(req.end) && req.start < req.end
    ensures |req.ids| == |NormalizeIds(body)| > 0
    ensures forall i :: 0 <= i < |req.ids| ==> NormalizeIds(body)[i] == Finite(req.ids[i])
    ensures Distinct(req.ids)
    ensures forall id :: id in req.ids ==> exists c :: c in computers && c.id == id && c.isActive
  {
    ValidateAcceptsExactly(users, computers, teams, session, body);
    var ids := NormalizeIds(body);
    forall id | id in req.ids ensures exists c :: c in computers && c.id == id && c.isActive {
      var k :| 0 <= k < |req.ids| && req.ids[k] == id;
      assert ids[k] in ids;
    }
    forall i, j | 0 <= i < j < |req.ids| ensures req.ids[i] != req.ids[j] {
      assert ids[i] != ids[j];
    }
  }

  /** Appending the rows of a request whose ids are distinct and which
      collides with no CONFIRMED row keeps the table free of double
      bookings. */
  lemma AppendKeepsNoDoubleBooking(rs: seq<Reservation>, req: Request)
    requires NoDoubleBooking(rs)
    requires Distinct(req.ids)
    requires Conflicts(rs, req) == []
    ensures NoDoubleBooking(rs + NewRows(req))
  {
    var rows := NewRows(req);
    var t := rs + rows;
    forall i, j | 0 <= i < |t| && 0 <= j < |t| && i != j ensures !Clash(t[i], t[j]) {
      if i < |rs| && j < |rs| {
        assert t[i] == rs[i] && t[j] == rs[j];
      } else if i < |rs| {
        assert t[i] in rs && !Collides(t[i], req);
        assert t[j] == rows[j - |rs|];
      } else if j < |rs| {
        assert t[j] in rs && !Collides(t[j], req);
        assert t[i] == rows[i - |rs|];
      } else {
        assert t[i] == rows[i - |rs|] && t[j] == rows[j - |rs|];
        assert req.ids[i - |rs|] != req.ids[j - |rs|];
      }
    }
  }

  /** The store invariant survives every POST: on success the new rows clash
      neither with each other nor with any existing CONFIRMED row; on any
      failure nothing is written. */
  lemma PostPreservesNoDoubleBooking(users: seq<User>, computers: seq<Computer>, teams: seq<Team>,
                                     blackouts: seq<Blackout>, rs: seq<Reservation>,
                                     session: Option<Session>, body: Body)
    requires UniqueComputerIds(computers)
    requires NoDoubleBooking(rs)
    requires Validate(users, computers, teams, session, body).Accept?
    requires Conflicts(rs, Validate(users, computers, teams, session, body).req) == []
    ensures NoDoubleBooking(rs + NewRows(Validate(users, computers, teams, session, body).req))
  {
    var req := Validate(users, computers, teams, session, body).req;
    AcceptedRequest(users, computers, teams, session, body, req);
    AppendKeepsNoDoubleBooking(rs, req);
  }

  /** A request naming one active computer twice, and otherwise fine, is
      refused with 400: one computer is found for two ids. Every id it names
      is then among the found ones, so the message lists no id at all. */
  lemma DuplicateIdRefusedWithEmptyList(users: seq<User>, computers: seq<Computer>, teams: seq<Team>,
                                        session: Option<Session>, body: Body, c: Computer)
    requires UniqueComputerIds(computers) && c in computers && c.isActive
    requires session.Some? && session.value.role == ADMIN
    requires exists u :: u in users && u.id == session.value.userId
    requires body.teamId.Some? && body.teamId.value != ""
    requires exists t :: t in teams && t.id == body.teamId.value
    requires body.startsAt.Some? && body.endsAt.Some? && body.startsAt.value < body.endsAt.value
    requires body.computerIds == Some([Finite(c.id), Finite(c.id)])
    ensures Validate(users, computers, teams, session, body) == Reject(400, BAD_COMPUTERS)
  {
    var x := Finite(c.id);
    KeepFiniteTwice(x);
    var ids := NormalizeIds(body);
    assert ids == [x, x];
    ValidateReachesComputers(users, computers, teams, session, body);
    TwiceFindsOne(computers, c, body.teamId.value, body.startsAt.value, body.endsAt.value,
                  session.value.userId);
  }

  /** Past the session, payload and team checks, validation is the check on
      the computers. */
  lemma ValidateReachesComputers(users: seq<User>, computers: seq<Computer>, teams: seq<Team>,
                                 session: Option<Session>, body: Body)
    requires session.Some? && session.value.role == ADMIN
    requires exists u :: u in users && u.id == session.value.userId
    requires !InvalidPayload(body, NormalizeIds(body))
    requires exists t :: t in teams && t.id == body.teamId.value
    ensures Validate(users, computers, teams, session, body)
            == CheckComputers(computers, NormalizeIds(body), body.teamId.value, body.startsAt.value,
                              body.endsAt.value, session.value.userId)
  {
  }

  lemma TwiceFindsOne(computers: seq<Computer>, c: Computer, teamId: string, start: int, end: int, userId: int)
    requires UniqueComputerIds(computers) && c in computers && c.isActive
    ensures CheckComputers(computers, [Finite(c.id), Finite(c.id)], teamId, start, end, userId)
            == Reject(400, BAD_COMPUTERS)
  {
    var ids := [Finite(c.id), Finite(c.id)];
    var comps := ActiveMatches(computers, ids);
    ActiveMatchesSize(computers, ids);
    assert c in comps;
    assert FiniteSet(ids) == {c.id};
    SubsetSize(IdsOf(comps), {c.id});
    assert c.id in IdsOf(comps);
    assert |comps| == 1 != |ids|;
    MissingIdsTwice(Finite(c.id), IdsOf(comps));
    assert Join([], ", ") == [];
    assert BAD_COMPUTERS + [] == BAD_COMPUTERS;
  }

  lemma KeepFiniteTwice(x: RawId)
    requires x.Finite?
    ensures KeepFinite([x, x]) == [x, x]
  {
    assert [x, x][..1] == [x] && [x][..0] == [];
  }

  lemma MissingIdsTwice(x: RawId, found: set<int>)
    requires x.Finite? && x.n in found
    ensures MissingIds([x, x], found) == []
  {
    assert [x, x][..1] == [x] && [x][..0] == [];
    assert MissingIds([x], found) == MissingIds([], found);
  }

  /** A booking that ends exactly when the requested window starts, or
      starts exactly when it ends, is not a conflict. */
  lemma TouchingRowsDoNotConflict(rs: seq<Reservation>, req: Request, r: Reservation)
    requires r in rs
    requires r.endsAt == req.start || r.startsAt == req.end
    ensures r !in Conflicts(rs, req)
  {
  }

  /** A blackout over all computers blocks any request it overlaps; one
      scoped to a computer blocks only requests naming that computer. */
  lemma BlackoutScope(bs: seq<Blackout>, req: Request, b: Blackout)
    requires b in bs && Overlaps(b.startsAt, b.endsAt, req.start, req.end)
    ensures b.scope == ALL ==> BlackoutHit(bs, req)
    ensures b.scope == COMPUTER && b.computerId.Some? && b.computerId.value in req.ids ==> BlackoutHit(bs, req)
    ensures (forall x :: x in bs ==> x.scope == COMPUTER && x.computerId.Some? && x.computerId.value !in req.ids)
            ==> !BlackoutHit(bs, req)
  {
  }
}
