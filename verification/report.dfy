/**
 * The per-customer part of the analyzer's report: table usage with short
 * sessions discarded, total appearance time, and the "Still inside" /
 * "Left" status. Durations and thresholds are in ticks; with `fps` ticks per
 * second the 3-second minimum session is 3 * fps ticks and the 2-second
 * status window is 2 * fps ticks.
 */
module Report {
  import opened Options
  import opened Sessions

  /** Sessions shorter than this many seconds are discarded as noise. */
  const MinDurationSeconds: nat := 3

  /** A customer last seen within this many seconds of the end is still inside. */
  const StillInsideSeconds: nat := 2

  function MinTicks(fps: nat): nat {
    MinDurationSeconds * fps
  }

  function Duration(s: Session): int {
    s.end - s.start
  }

  /** The session is long enough to be reported. */
  predicate Counts(s: Session, minTicks: int) {
    Duration(s) >= minTicks
  }

  /**
   * Reference definition of a customer's usage of one table: the sum of
   * the durations of that table's sessions that are long enough.
   */
  function TableUsage(sessions: seq<Session>, table: string, minTicks: int): int
    decreases |sessions|
  {
    if |sessions| == 0 then 0
    else
      var s := Last(sessions);
      TableUsage(sessions[..|sessions| - 1], table, minTicks) + (if s.table == table && Counts(s, minTicks) then Duration(s) else 0)
  }

  /** The usage dictionary as the report loop accumulates it, one session at a time. */
  function UsageSummary(sessions: seq<Session>, minTicks: int): (r: map<string, int>)
    ensures forall table :: table in r ==> UsedTable(sessions, table, minTicks)
    decreases |sessions|
  {
    if |sessions| == 0 then map[]
    else
      var prefix := sessions[..|sessions| - 1];
      assert forall j :: 0 <= j < |prefix| ==> prefix[j] == sessions[j];
      var m := UsageSummary(prefix, minTicks);
      var s := Last(sessions);
      if Counts(s, minTicks) then m[s.table := (if s.table in m then m[s.table] else 0) + Duration(s)]
      else m
  }

  /** Some long-enough session of the customer is at this table. */
  predicate UsedTable(sessions: seq<Session>, table: string, minTicks: int) {
    exists j :: 0 <= j < |sessions| && sessions[j].table == table && Counts(sessions[j], minTicks)
  }

  /**
   * The usage dictionary has a key exactly for the tables with a long-enough
   * session, and its value for a table (0 when absent) is that table's usage.
   */
  lemma {:induction false} UsageSummaryMeaning(sessions: seq<Session>, minTicks: int, table: string)
    ensures table in UsageSummary(sessions, minTicks) <==> UsedTable(sessions, table, minTicks)
    ensures var m := UsageSummary(sessions, minTicks);
      (if table in m then m[table] else 0) == TableUsage(sessions, table, minTicks)
    decreases |sessions|
  {
    if |sessions| > 0 {
      var prefix := sessions[..|sessions| - 1];
      UsageSummaryMeaning(prefix, minTicks, table);
      if UsedTable(prefix, table, minTicks) {
        var j :| 0 <= j < |prefix| && prefix[j].table == table && Counts(prefix[j], minTicks);
        assert sessions[j] == prefix[j];
      }
    }
  }

  /** A customer none of whose sessions is long enough has no reported table usage. */
  lemma ShortSessionsNoUsage(sessions: seq<Session>, minTicks: int)
    requires forall j :: 0 <= j < |sessions| ==> Duration(sessions[j]) < minTicks
    ensures UsageSummary(sessions, minTicks) == map[]
  {
    forall table ensures table !in UsageSummary(sessions, minTicks) {
      UsageSummaryMeaning(sessions, minTicks, table);
    }
  }

  /**
   * The usage loop of the report: for each session long enough, add its
   * duration to its table's entry.
   */
  method SummarizeUsage(sessions: seq<Session>, minTicks: int) returns (usage: map<string, int>)
    ensures usage == UsageSummary(sessions, minTicks)
    ensures forall table :: table in usage <==> UsedTable(sessions, table, minTicks)
    ensures forall table :: table in usage ==> usage[table] == TableUsage(sessions, table, minTicks)
  {
    usage := map[];
    for i := 0 to |sessions|
      invariant usage == UsageSummary(sessions[..i], minTicks)
    {
      assert sessions[..i + 1][..i] == sessions[..i];
      var session := sessions[i];
      var duration := session.end - session.start;
      if duration >= minTicks {
        var table := session.table;
        usage := usage[table := (if table in usage then usage[table] else 0) + duration];
      }
    }
    assert sessions[..|sessions|] == sessions;
    forall table ensures (table in usage <==> UsedTable(sessions, table, minTicks))
      && (table in usage ==> usage[table] == TableUsage(sessions, table, minTicks))
    {
      UsageSummaryMeaning(sessions, minTicks, table);
    }
  }

  // ---------------------------------------------------------------------
  // Status

  datatype Status = StillInside | Left

  function Abs(x: int): nat {
    if x < 0 then -x else x
  }

  function CustomerStatus(lastSeen: int, totalVideo: int, fps: nat): (r: Status)
    ensures r == StillInside <==>
      totalVideo - StillInsideSeconds * fps < lastSeen < totalVideo + StillInsideSeconds * fps
  {
    if Abs(lastSeen - totalVideo) < StillInsideSeconds * fps then StillInside else Left
  }

  function RealAbs(x: real): real {
    if x < 0.0 then -x else x
  }

  /**
   * In seconds: the status is "Still inside" exactly when the last sighting
   * is less than 2.0 seconds from the end of the video.
   */
  lemma StatusInSeconds(lastSeen: int, totalVideo: int, fps: nat)
    requires fps > 0
    ensures CustomerStatus(lastSeen, totalVideo, fps) == StillInside <==>
      RealAbs(lastSeen as real / fps as real - totalVideo as real / fps as real) < 2.0
  {
    var f := fps as real;
    var diff := (lastSeen - totalVideo) as real;
    assert lastSeen as real / f - totalVideo as real / f == diff / f;
    if diff < 0.0 {
      assert RealAbs(diff / f) == (-diff) / f;
      DivBelow(-diff, f, 2.0);
    } else {
      DivBelow(diff, f, 2.0);
    }
  }

  lemma DivBelow(x: real, f: real, bound: real)
    requires f > 0.0
    ensures x / f < bound <==> x < bound * f
  {
    var q := x / f;
    assert x == q * f;
    assert x - bound * f == (q - bound) * f;
  }

  /** In seconds: a session is kept exactly when it lasts at least 3.0 seconds. */
  lemma CountsInSeconds(s: Session, fps: nat)
    requires fps > 0
    ensures Counts(s, MinTicks(fps)) <==> s.end as real / fps as real - s.start as real / fps as real >= 3.0
  {
    var f := fps as real;
    assert s.end as real / f - s.start as real / f == Duration(s) as real / f;
    DivBelow(Duration(s) as real, f, 3.0);
  }

  // ---------------------------------------------------------------------
  // One customer's entry

  datatype CustomerReport = CustomerReport(
    id: int,
    firstSeen: int,
    lastSeen: int,
    appearance: int,
    usage: map<string, int>,
    status: Status)

  /**
   * The entry written for one customer: first and last sighting, total
   * appearance time (last minus first sighting, not the sum of sessions),
   * the usage dictionary and the status.
   */
  function Summarize(id: int, c: Customer, totalVideo: int, fps: nat): (r: CustomerReport)
    ensures r.id == id && r.firstSeen == c.firstSeen && r.lastSeen == c.lastSeen
    ensures r.appearance == r.lastSeen - r.firstSeen
    ensures forall table :: table in r.usage ==> UsedTable(c.sessions, table, MinTicks(fps))
    ensures r.status == StillInside <==> Abs(c.lastSeen - totalVideo) < StillInsideSeconds * fps
  {
    CustomerReport(id, c.firstSeen, c.lastSeen, c.lastSeen - c.firstSeen,
      UsageSummary(c.sessions, MinTicks(fps)), CustomerStatus(c.lastSeen, totalVideo, fps))
  }

  /** A table's usage within the first k sessions spans at most from the first start to the k-th end. */
  lemma {:induction false} UsageWithinSpan(c: Customer, table: string, minTicks: nat, k: nat)
    requires CustomerChronological(c) && 0 < k <= |c.sessions|
    ensures 0 <= TableUsage(c.sessions[..k], table, minTicks) <= c.sessions[k - 1].end - c.sessions[0].start
    decreases k
  {
    var prefix := c.sessions[..k];
    assert prefix[..k - 1] == c.sessions[..k - 1];
    if k > 1 {
      UsageWithinSpan(c, table, minTicks, k - 1);
      assert c.sessions[k - 2].end <= c.sessions[k - 1].start;
    } else {
      assert TableUsage(prefix[..0], table, minTicks) == 0;
    }
  }

  /**
   * Reported usage of any table is between 0 and the customer's total
   * appearance time, because sessions do not overlap and lie between the
   * first and last sighting.
   */
  lemma UsageWithinAppearance(id: int, c: Customer, totalVideo: int, fps: nat, table: string)
    requires CustomerChronological(c)
    ensures var r := Summarize(id, c, totalVideo, fps);
      table in r.usage ==> 0 <= r.usage[table] <= r.appearance
  {
    var sessions := c.sessions;
    UsageSummaryMeaning(sessions, MinTicks(fps), table);
    if |sessions| > 0 {
      UsageWithinSpan(c, table, MinTicks(fps), |sessions|);
      assert sessions[..|sessions|] == sessions;
    }
  }

  // ---------------------------------------------------------------------
  // All customers

  /** The report entries in the order customers were first registered. */
  function Reports(arrival: seq<int>, customers: map<int, Customer>, totalVideo: int, fps: nat): (r: seq<CustomerReport>)
    requires forall k :: 0 <= k < |arrival| ==> arrival[k] in customers
    ensures |r| == |arrival|
    ensures forall k :: 0 <= k < |r| ==>
      r[k].id == arrival[k] && r[k].firstSeen == customers[arrival[k]].firstSeen && r[k].lastSeen == customers[arrival[k]].lastSeen
  {
    seq(|arrival|, k requires 0 <= k < |arrival| => Summarize(arrival[k], customers[arrival[k]], totalVideo, fps))
  }

  /** The usage of one table summed over the given customers. */
  function TotalTableUsage(ids: seq<int>, customers: map<int, Customer>, table: string, minTicks: int): int
    requires forall k :: 0 <= k < |ids| ==> ids[k] in customers
    decreases |ids|
  {
    if |ids| == 0 then 0
    else TotalTableUsage(ids[..|ids| - 1], customers, table, minTicks)
         + TableUsage(customers[ids[|ids| - 1]].sessions, table, minTicks)
  }

  lemma TotalTableUsageAppend(ids: seq<int>, customers: map<int, Customer>, table: string, minTicks: int, i: nat)
    requires forall k :: 0 <= k < |ids| ==> ids[k] in customers
    requires i < |ids|
    ensures TotalTableUsage(ids[..i + 1], customers, table, minTicks)
      == TotalTableUsage(ids[..i], customers, table, minTicks) + TableUsage(customers[ids[i]].sessions, table, minTicks)
  {
    assert ids[..i + 1][..i] == ids[..i];
  }

  /** The table statistics after adding one customer's usage dictionary. */
  function AddUsage(stats: map<string, int>, usage: map<string, int>): (r: map<string, int>)
    ensures r.Keys == stats.Keys
  {
    map table | table in stats :: stats[table] + (if table in usage then usage[table] else 0)
  }

  // ---------------------------------------------------------------------
  // The table statistics section of the written report

  /** Why the statistics section cannot be produced. */
  datatype ReportError =
    | UnboundCustomerData  // the section reads the customer loop's variable, unbound when there were no customers

  /**
   * Adding each long-enough session's duration to its table's statistic, one
   * session at a time. Every such table must already be a key: the source
   * increments the entry in place.
   */
  function AddSessions(stats: map<string, int>, sessions: seq<Session>, minTicks: int): (r: map<string, int>)
    requires forall j :: 0 <= j < |sessions| && Counts(sessions[j], minTicks) ==> sessions[j].table in stats
    ensures r.Keys == stats.Keys
    decreases |sessions|
  {
    if |sessions| == 0 then stats
    else
      var m := AddSessions(stats, sessions[..|sessions| - 1], minTicks);
      var s := Last(sessions);
      if Counts(s, minTicks) then m[s.table := m[s.table] + Duration(s)] else m
  }

  lemma {:induction false} AddSessionsAdds(stats: map<string, int>, sessions: seq<Session>, minTicks: int, table: string)
    requires forall j :: 0 <= j < |sessions| && Counts(sessions[j], minTicks) ==> sessions[j].table in stats
    requires table in stats
    ensures AddSessions(stats, sessions, minTicks)[table] == stats[table] + TableUsage(sessions, table, minTicks)
    decreases |sessions|
  {
    if |sessions| > 0 {
      AddSessionsAdds(stats, sessions[..|sessions| - 1], minTicks, table);
    }
  }

  /** Every session is at a table that has a statistic. */
  predicate SessionTablesIn(sessions: seq<Session>, stats: map<string, int>) {
    forall j :: 0 <= j < |sessions| ==> sessions[j].table in stats
  }

  /** The statistics after the customer loop: each table grows by every customer's usage of it. */
  function StatsAfterCustomers(stats: map<string, int>, ids: seq<int>, customers: map<int, Customer>, minTicks: int): (r: map<string, int>)
    requires forall k :: 0 <= k < |ids| ==> ids[k] in customers
    ensures r.Keys == stats.Keys
  {
    map table | table in stats :: stats[table] + TotalTableUsage(ids, customers, table, minTicks)
  }

  /**
   * The statistics as the source leaves them: after the customer loop, a
   * second loop walks the sessions of the customer bound last by that loop
   * and adds the long-enough ones again; with no customers the variable is
   * unbound and the report fails.
   */
  function StatsAsWritten(stats: map<string, int>, ids: seq<int>, customers: map<int, Customer>, minTicks: int): (r: Result<map<string, int>, ReportError>)
    requires forall k :: 0 <= k < |ids| ==> ids[k] in customers
    requires forall id :: id in customers ==> SessionTablesIn(customers[id].sessions, stats)
    ensures |ids| == 0 ==> r == Failure(UnboundCustomerData)
    ensures r.Success? ==> r.value.Keys == stats.Keys
  {
    if |ids| == 0 then Failure(UnboundCustomerData)
    else
      var id := ids[|ids| - 1];
      assert id in customers;
      var last := customers[id].sessions;
      assert SessionTablesIn(last, stats);
      Success(AddSessions(StatsAfterCustomers(stats, ids, customers, minTicks), last, minTicks))
  }

  /**
   * As written, the statistics fail for an empty run, and otherwise count
   * the last customer's usage of every table twice: they exceed the
   * intended totals by exactly that usage.
   */
  lemma StatsAsWrittenDoubleCounts(stats: map<string, int>, ids: seq<int>, customers: map<int, Customer>, minTicks: int, table: string)
    requires forall k :: 0 <= k < |ids| ==> ids[k] in customers
    requires forall id :: id in customers ==> SessionTablesIn(customers[id].sessions, stats)
    requires table in stats
    ensures |ids| == 0 <==> StatsAsWritten(stats, ids, customers, minTicks).Failure?
    ensures |ids| > 0 ==>
      StatsAsWritten(stats, ids, customers, minTicks).value[table]
        == StatsAfterCustomers(stats, ids, customers, minTicks)[table]
           + TableUsage(customers[ids[|ids| - 1]].sessions, table, minTicks)
  {
    if |ids| > 0 {
      var id := ids[|ids| - 1];
      assert id in customers;
      var last := customers[id].sessions;
      assert SessionTablesIn(last, stats);
      AddSessionsAdds(StatsAfterCustomers(stats, ids, customers, minTicks), last, minTicks, table);
    }
  }

  /** One customer with one 30-tick visit to Table-1: the statistic reads 60 instead of 30. */
  lemma StatsAsWrittenExample()
    ensures var customers := map[7 := Customer(10, 40, [Session("Table-1", 10, 40)])];
      && StatsAfterCustomers(map["Table-1" := 0], [7], customers, 3)["Table-1"] == 30
      && StatsAsWritten(map["Table-1" := 0], [7], customers, 3) == Success(map["Table-1" := 60])
  {
    var sessions := [Session("Table-1", 10, 40)];
    var customers := map[7 := Customer(10, 40, sessions)];
    assert sessions[..0] == [];
    assert [7][..0] == [];
    assert TableUsage(sessions, "Table-1", 3) == 30;
    assert TotalTableUsage([7], customers, "Table-1", 3) == 30;
    var after := StatsAfterCustomers(map["Table-1" := 0], [7], customers, 3);
    assert after == map["Table-1" := 30];
    assert AddSessions(after, sessions[..0], 3) == after;
    assert AddSessions(after, sessions, 3) == map["Table-1" := 60];
  }
}
