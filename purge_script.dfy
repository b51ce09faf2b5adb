// The command-line purge: always reports how many reservations end before
// the start of the current UTC month, and deletes them only when the
// environment variable DRY_RUN is exactly "0".
module PurgeScript {
  import opened Db
  import opened Utc

  /** What the script logs: the cutoff, the dry-run count, and the number
      deleted when it deleted. */
  datatype Report = Report(cutoff: int, wouldDelete: nat, deleted: Option<nat>)

  /** `process.env.DRY_RUN === '0'`. */
  predicate DeletesFor(dryRunEnv: Option<string>)
    ensures dryRunEnv.None? ==> !DeletesFor(dryRunEnv)
    ensures DeletesFor(dryRunEnv) ==> dryRunEnv.value == "0"
  {
    dryRunEnv == Some("0")
  }

  /** main(). The clock is passed in as its UTC year and month. */
  method Run(db: Database, dryRunEnv: Option<string>, year: int, month: int) returns (report: Report)
    requires 0 <= month < 12
    modifies db`reservations
    ensures report.cutoff == StartOfCurrentMonthUtc(year, month)
    ensures report.wouldDelete == |Expired(old(db.reservations), report.cutoff)|
    ensures report.deleted.Some? <==> DeletesFor(dryRunEnv)
    ensures DeletesFor(dryRunEnv) ==>
              && report.deleted == Some(report.wouldDelete)
              && db.reservations == Surviving(old(db.reservations), report.cutoff)
    ensures !DeletesFor(dryRunEnv) ==> db.reservations == old(db.reservations)
  {
    var cutoff := StartOfCurrentMonthUtc(year, month);
    PurgePartition(db.reservations, cutoff);
    var count := db.CountEndingBefore(cutoff);
    if dryRunEnv == Some("0") {
      var deleted := db.DeleteEndingBefore(cutoff);
      report := Report(cutoff, count, Some(deleted));
    } else {
      report := Report(cutoff, count, None);
    }
  }
}
