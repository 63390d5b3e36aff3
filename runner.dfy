/**
 * The data manager of the scraping workflow: the recent-gap finder that
 * picks days to re-scrape, and saving the master table with a rotating
 * set of backups.
 */
module Runner {
  import opened Basics
  import opened Calendar
  import opened Records
  import opened Backups

  /** How many backups save_master_data keeps. */
  const BackupsKept := 5

  /**
   * get_missing_dates(df, days_back): the daily timestamps from
   * now - days_back days to now, minus the parsed dates of the table, as
   * days in ascending order. Every window timestamp carries now's time of
   * day while a parsed date is midnight, so a window day is recognised as
   * present only when now is exactly midnight.
   */
  function MissingRecentDates(rows: seq<Row>, now: Instant, daysBack: int): (r: seq<Day>)
    ensures rows == [] ==> r == []
    ensures StrictlyIncreasing(r)
    ensures |r| <= if daysBack >= 0 then daysBack + 1 else 0
    ensures forall d :: d in r ==> now.day - daysBack <= d <= now.day
    ensures rows != [] ==> forall d :: d in r <==>
      now.day - daysBack <= d <= now.day && !(now.micros == 0 && d in DateSet(rows))
  {
    if rows == [] then []
    else
      var start := DaysBefore(now, daysBack);
      MidnightsMembers(rows);
      RangeMinus(start.day, now.day, now.micros, Midnights(rows))
  }

  /**
   * Off midnight the set difference removes nothing: every one of the
   * days_back + 1 window days is reported missing, whatever the table holds.
   */
  lemma MissingRecentDatesOffMidnight(rows: seq<Row>, now: Instant, daysBack: nat)
    requires rows != [] && now.micros != 0
    ensures |MissingRecentDates(rows, now, daysBack)| == daysBack + 1
  {
    MidnightsMembers(rows);
    RangeMinusNothingPresent(now.day - daysBack, now.day, now.micros, Midnights(rows));
  }

  /** An ascending listing has as many entries as it lists names. */
  lemma DistinctListing(listing: seq<string>)
    requires Ascending(listing)
    ensures |Elements(listing)| == |listing|
  {
    AscendingDistinct(listing);
    DistinctCard(listing);
  }

  /**
   * Deleting every entry of the ascending listing of a directory's backups
   * but the last n deletes only backup names and leaves the n greatest.
   */
  lemma DroppingOldestKeepsGreatest(files: set<string>, listing: seq<string>, n: nat)
    requires Ascending(listing) && Elements(listing) == BackupNames(files) && |listing| > n
    ensures Elements(listing[..|listing| - n]) <= BackupNames(files)
    ensures KeepsGreatest(BackupNames(files), BackupNames(files - Elements(listing[..|listing| - n])), n)
  {
    var doomed, tail := listing[..|listing| - n], listing[|listing| - n..];
    assert listing == doomed + tail;
    AscendingDistinct(listing);
    assert Elements(doomed) !! Elements(tail) by {
      forall a, b | 0 <= a < |doomed| && 0 <= b < |tail| ensures doomed[a] != tail[b] {
        assert doomed[a] == listing[a] && tail[b] == listing[|doomed| + b];
      }
    }
    assert BackupNames(files - Elements(doomed)) == Elements(tail) by {
      forall x ensures x in BackupNames(files - Elements(doomed)) <==> x in Elements(tail) {
        assert x in Elements(listing) <==> x in Elements(doomed) || x in Elements(tail);
      }
    }
    AscendingSuffixKeepsGreatest(listing, n);
  }

  /** The files GitHubActionsDataManager saves to: the master table and the backup directory. */
  class DataManager {
    /** The rows of the master CSV file, or None while the file does not exist. */
    var master: Option<seq<Row>>
    /** The backup directory: each file name with the rows the file holds. */
    var backups: map<string, seq<Row>>

    constructor (master: Option<seq<Row>>, backups: map<string, seq<Row>>)
      ensures this.master == master && this.backups == backups
    {
      this.master := master;
      this.backups := backups;
    }

    /**
     * The retention step of save_master_data: list the backup_*.csv names in
     * ascending order and, when there are more than five, delete all but
     * the last five. Other files of the directory are left alone.
     */
    method PruneBackups()
      modifies this`backups
      ensures backups.Keys <= old(backups).Keys
      ensures forall n :: n in backups ==> backups[n] == old(backups)[n]
      ensures forall n :: n in old(backups) && !IsBackupName(n) ==> n in backups
      ensures KeepsGreatest(BackupNames(old(backups).Keys), BackupNames(backups.Keys), BackupsKept)
      ensures |BackupNames(old(backups).Keys)| <= BackupsKept ==> backups == old(backups)
    {
      var listing := ListBackups(backups.Keys);
      assert Elements(listing) == BackupNames(backups.Keys);
      DistinctListing(listing);
      if |listing| > BackupsKept {
        var doomed := listing[..|listing| - BackupsKept];
        for i := 0 to |doomed|
          invariant backups == old(backups) - Elements(doomed[..i])
        {
          assert Elements(doomed[..i + 1]) == Elements(doomed[..i]) + {doomed[i]} by {
            assert doomed[..i + 1] == doomed[..i] + [doomed[i]];
          }
          backups := backups - {doomed[i]};
        }
        assert doomed[..|doomed|] == doomed;
        DroppingOldestKeepsGreatest(old(backups).Keys, listing, BackupsKept);
      }
    }

    /**
     * save_master_data: when the master file exists, copy it to a backup
     * named after the current time stamp and prune the backups; then write
     * the new master table.
     */
    method SaveMasterData(df: seq<Row>, stamp: string)
      modifies this
      ensures master == Some(df)
      ensures old(master).None? ==> backups == old(backups)
      ensures old(master).Some? ==>
        var added := old(backups)[BackupFileName(stamp) := old(master).value];
        && backups.Keys <= added.Keys
        && (forall n :: n in backups ==> backups[n] == added[n])
        && (forall n :: n in added && !IsBackupName(n) ==> n in backups)
        && KeepsGreatest(BackupNames(added.Keys), BackupNames(backups.Keys), BackupsKept)
        && ((forall n :: n in BackupNames(old(backups).Keys) && n != BackupFileName(stamp) ==>
               LexLess(n, BackupFileName(stamp))) ==> BackupFileName(stamp) in backups)
    {
      if master.Some? {
        var name := BackupFileName(stamp);
        backups := backups[name := master.value];
        ghost var added := backups;
        PruneBackups();
        if forall n :: n in BackupNames(old(backups).Keys) && n != name ==> LexLess(n, name) {
          NewestIsKept(BackupNames(added.Keys), BackupNames(backups.Keys), BackupsKept, name);
        }
      }
      master := Some(df);
    }
  }
}
