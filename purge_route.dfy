// GET (and POST) /api/admin/purge-reservation: a cron job's request,
// authorised by a shared secret, that counts or deletes every reservation
// ending before the start of the current UTC month.
module PurgeRoute {
  import opened Db
  import opened Utc

  /** The parts of the request the route reads: the `secret` and `dryRun`
      query parameters and the `x-cron-secret` header (None when absent). */
  datatype Request = Request(
    querySecret: Option<string>,
    headerSecret: Option<string>,
    dryRun: Option<string>)

  datatype Response =
    | Unauthorized
    | DryRun(cutoff: int, wouldDelete: nat)
    | Purged(cutoff: int, deleted: nat)

  /** `(qSecret ?? hSecret) !== process.env.CRON_SECRET` fails. The query
      parameter wins whenever it is present, even when empty. An absent
      secret is `null` and an unset variable `undefined`, which are never
      equal, so without CRON_SECRET nothing is authorised. */
  predicate Authorized(req: Request, cronSecret: Option<string>)
    ensures Authorized(req, cronSecret) ==> req.querySecret.Some? || req.headerSecret.Some?
    ensures Authorized(req, cronSecret) ==> req.querySecret.None? || req.querySecret == cronSecret
  {
    var presented := if req.querySecret.Some? then req.querySecret else req.headerSecret;
    cronSecret.Some? && presented == cronSecret
  }

  /** `url.searchParams.get('dryRun') === '1'`. */
  predicate IsDryRun(req: Request)
    ensures req.dryRun.None? ==> !IsDryRun(req)
    ensures IsDryRun(req) ==> req.dryRun.value == "1"
  {
    req.dryRun == Some("1")
  }

  /** The secret check: with CRON_SECRET set to `s`, a request passes iff
      its query secret is `s`, or it has no query secret and its header
      secret is `s`. */
  lemma AuthorizedIff(req: Request, s: string)
    ensures Authorized(req, Some(s)) <==>
              req.querySecret == Some(s) || (req.querySecret.None? && req.headerSecret == Some(s))
  {
  }

  /** Without CRON_SECRET every request is refused, including one that
      presents no secret at all. */
  lemma UnsetSecretRefusesAll(req: Request)
    ensures !Authorized(req, None)
  {
  }

  /** A wrong query secret is not rescued by a right header secret. */
  lemma QuerySecretShadowsHeader(q: string, s: string, dry: Option<string>)
    requires q != s
    ensures !Authorized(Request(Some(q), Some(s), dry), Some(s))
  {
  }

  /** The handler. The clock is passed in as the UTC year and month it
      reads; CRON_SECRET as `cronSecret`. */
  method Handle(db: Database, req: Request, cronSecret: Option<string>, year: int, month: int)
    returns (resp: Response)
    requires 0 <= month < 12
    modifies db`reservations
    ensures !Authorized(req, cronSecret) ==> resp == Unauthorized && db.reservations == old(db.reservations)
    ensures Authorized(req, cronSecret) && IsDryRun(req) ==>
              && resp == DryRun(StartOfCurrentMonthUtc(year, month), |Expired(old(db.reservations), StartOfCurrentMonthUtc(year, month))|)
              && db.reservations == old(db.reservations)
    ensures Authorized(req, cronSecret) && !IsDryRun(req) ==>
              && resp == Purged(StartOfCurrentMonthUtc(year, month), |Expired(old(db.reservations), StartOfCurrentMonthUtc(year, month))|)
              && db.reservations == Surviving(old(db.reservations), StartOfCurrentMonthUtc(year, month))
  {
    if !Authorized(req, cronSecret) {
      return Unauthorized;
    }
    var cutoff := StartOfCurrentMonthUtc(year, month);
    if IsDryRun(req) {
      PurgePartition(db.reservations, cutoff);
      var wouldDelete := db.CountEndingBefore(cutoff);
      return DryRun(cutoff, wouldDelete);
    }
    var deleted := db.DeleteEndingBefore(cutoff);
    return Purged(cutoff, deleted);
  }

  /** What a purge run in month (year, month) keeps: a row whose end falls
      in some month survives iff that month is the current one or later.
      Years 0 to 99 are excluded, which Date.UTC would move by 1900 years. */
  lemma PurgeKeepsCurrentMonth(rs: seq<Reservation>, r: Reservation, year: int, month: int, ey: int, em: int)
    requires 0 <= month < 12 && 0 <= em < 12
    requires !(0 <= year <= 99)
    requires r in rs && InMonth(r.endsAt, ey, em)
    ensures r in Surviving(rs, StartOfCurrentMonthUtc(year, month)) <==> MonthIndex(ey, em) >= MonthIndex(year, month)
    ensures r in Expired(rs, StartOfCurrentMonthUtc(year, month)) <==> MonthIndex(ey, em) < MonthIndex(year, month)
  {
    CutoffSeparatesMonths(year, month, r.endsAt, ey, em);
  }
}
