/**
 * The dedup store (bot/db_manager.py): one SQLite table `processed_tweets`
 * keyed on the tweet id, holding when the row was written and for which
 * account. The table is a map from id to row; the file on disk either has
 * the table or not. Every store call takes `ok`, whether SQLite carried the
 * statement out; a call that fails is logged and swallowed by the source, so
 * it changes nothing. Clocks are integer seconds passed in by the caller.
 */
module DbManager {
  import opened Wrappers

  /** What `processed_tweets` holds for one id besides the key. */
  datatype Row = Row(processedAt: int, account: string)

  /** Seconds in the day unit of `timedelta(days=...)`. */
  const SecondsPerDay: int := 86400

  /** The default retention of `cleanup_old_entries`, in days. */
  const DefaultRetentionDays: int := 30

  /**
   * `INSERT INTO processed_tweets (tweet_id, account)`: the id gets a new row
   * when it has none; when it has one the primary key refuses the insert and
   * the original row stays.
   */
  function Inserted(rows: map<string, Row>, id: string, row: Row): (r: map<string, Row>)
    ensures id in r
    ensures id in rows ==> r == rows
    ensures id !in rows ==> r[id] == row
    ensures r.Keys == rows.Keys + {id}
    ensures forall k :: k in rows ==> k in r && r[k] == rows[k]
  {
    if id in rows then rows else rows[id := row]
  }

  /** `DELETE FROM processed_tweets WHERE processed_at < cutoff`. */
  function Kept(rows: map<string, Row>, cutoff: int): (r: map<string, Row>)
    ensures forall k :: k in r <==> k in rows && rows[k].processedAt >= cutoff
    ensures forall k :: k in r ==> r[k] == rows[k]
  {
    map k | k in rows && rows[k].processedAt >= cutoff :: rows[k]
  }

  /** Deleting old rows twice with the same cutoff deletes nothing the second time. */
  lemma KeptIdempotent(rows: map<string, Row>, cutoff: int)
    ensures Kept(Kept(rows, cutoff), cutoff) == Kept(rows, cutoff)
  {
    var once := Kept(rows, cutoff);
    assert Kept(once, cutoff).Keys == once.Keys;
  }

  /**
   * A row written at `now` survives a clean-up run at `later` with `days` of
   * retention as long as no more than `days` whole days have passed.
   */
  lemma FreshRowSurvives(rows: map<string, Row>, id: string, account: string, now: int, later: int, days: int)
    requires later - now <= days * SecondsPerDay
    ensures var marked := Inserted(rows, id, Row(now, account));
            id !in rows ==> id in Kept(marked, later - days * SecondsPerDay)
  {
  }

  /**
   * With the default retention, a stored row survives the clean-up exactly
   * when it was written no more than thirty days before it.
   */
  lemma DefaultRetentionKeeps(rows: map<string, Row>, id: string, now: int)
    requires id in rows
    ensures id in Kept(rows, now - DefaultRetentionDays * SecondsPerDay)
            <==> now - rows[id].processedAt <= 30 * 86400
  {
  }

  class DBManager {
    /** Whether `processed_tweets` exists in the database file. */
    var tableExists: bool
    /** The rows of `processed_tweets`, by tweet id. */
    var rows: map<string, Row>

    /** A database without the table holds no rows. */
    predicate Valid()
      reads this
    {
      !tableExists ==> rows == map[]
    }

    /**
     * `DBManager(db_path)`: opens the file, which already holds the table
     * with `stored` rows or has no table, and runs `setup_database`.
     */
    constructor(stored: Option<map<string, Row>>, ok: bool)
      ensures Valid()
      ensures tableExists == (stored.Some? || ok)
      ensures rows == if stored.Some? then stored.value else map[]
    {
      tableExists := stored.Some?;
      rows := if stored.Some? then stored.value else map[];
      new;
      SetupDatabase(ok);
    }

    /**
     * `setup_database`: `CREATE TABLE IF NOT EXISTS`, so an existing table
     * keeps every row; a failing call leaves the file as it was.
     */
    method SetupDatabase(ok: bool)
      requires Valid()
      modifies this
      ensures Valid()
      ensures tableExists == (old(tableExists) || ok)
      ensures rows == old(rows)
    {
      if ok && !tableExists {
        tableExists := true;
        rows := map[];
      }
    }

    /**
     * `is_tweet_processed`: true exactly when the query runs and finds a row
     * for the id; a failing query (no table, store error) answers false.
     * The table is only read.
     */
    method IsTweetProcessed(id: string, ok: bool) returns (b: bool)
      ensures b <==> ok && tableExists && id in rows
    {
      b := ok && tableExists && id in rows;
    }

    /**
     * `mark_tweet_processed`: inserts a row stamped `now` when the id has
     * none; a duplicate id keeps its original row and raises nothing.
     */
    method MarkTweetProcessed(id: string, account: string, now: int, ok: bool)
      requires Valid()
      modifies this
      ensures Valid()
      ensures tableExists == old(tableExists)
      ensures rows == if ok && tableExists then Inserted(old(rows), id, Row(now, account)) else old(rows)
      ensures ok && tableExists ==> id in rows
    {
      if ok && tableExists {
        rows := Inserted(rows, id, Row(now, account));
      }
    }

    /**
     * `cleanup_old_entries(days)`: deletes exactly the rows written before
     * `now - days`; every other row is left as it was.
     */
    method CleanupOldEntries(days: int, now: int, ok: bool)
      requires Valid()
      modifies this
      ensures Valid()
      ensures tableExists == old(tableExists)
      ensures rows == if ok && tableExists then Kept(old(rows), now - days * SecondsPerDay) else old(rows)
    {
      if ok && tableExists {
        rows := Kept(rows, now - days * SecondsPerDay);
      }
    }
  }

  /**
   * Marking an id and then asking for it: the answer is yes whenever both
   * store calls go through, and the row of an id that was already there is
   * the original one.
   */
  method MarkThenCheck(db: DBManager, id: string, account: string, now: int) returns (seen: bool)
    requires db.Valid() && db.tableExists
    modifies db
    ensures seen
    ensures old(id in db.rows) ==> db.rows == old(db.rows)
  {
    db.MarkTweetProcessed(id, account, now, true);
    seen := db.IsTweetProcessed(id, true);
  }
}
