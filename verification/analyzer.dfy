/**
 * The analyzer object: the table zones, the customer records, the current
 * table of each id and the per-table statistics, updated in place frame by
 * frame and once more when the report is generated.
 */
module Analyzer {
  import opened Options
  import opened Geometry
  import opened Zones
  import opened Sessions
  import opened Report

  class CafeAnalyzer {
    /** Ticks (frames) per second of the video. */
    const fps: nat
    /** The table zones, in configuration order. */
    const rois: seq<Roi>
    var customers: map<int, Customer>
    /** Customer ids in order of first registration (the customer dictionary's order). */
    var arrival: seq<int>
    var currentLocations: map<int, string>
    var tableStats: map<string, int>

    ghost function State(): Occupancy
      reads this
    {
      Occupancy(customers, arrival, currentLocations)
    }

    ghost predicate Valid()
      reads this
    {
      && fps > 0
      && Consistent(rois, State())
      && tableStats.Keys == RoiNames(rois)
    }

    /** No customer, no current table, and a zero statistic for every configured table. */
    constructor (rois: seq<Roi>, fps: nat)
      requires fps > 0
      ensures Valid()
      ensures this.rois == rois && this.fps == fps
      ensures State() == Empty
      ensures tableStats == map name | name in RoiNames(rois) :: 0
    {
      this.fps := fps;
      this.rois := rois;
      customers := map[];
      arrival := [];
      currentLocations := map[];
      tableStats := map name | name in RoiNames(rois) :: 0;
    }

    /**
     * Processes one frame's detections, in order, at time frameTime: the new
     * state is `Frame` of the old one, the statistics are untouched, and
     * when frameTime is no earlier than any recorded time the time invariant
     * is kept.
     */
    method Update(detections: seq<Detection>, frameTime: int)
      requires Valid()
      modifies this
      ensures Valid()
      ensures State() == Frame(rois, old(State()), detections, frameTime)
      ensures tableStats == old(tableStats)
      ensures old(Chronological(State()) && NotAfter(State(), frameTime)) ==>
        Chronological(State()) && NotAfter(State(), frameTime)
    {
      ghost var start := State();
      for i := 0 to |detections|
        invariant Valid()
        invariant State() == Frame(rois, start, detections[..i], frameTime)
        invariant tableStats == old(tableStats)
      {
        Track(detections[i], frameTime);
        assert detections[..i + 1][..i] == detections[..i];
      }
      assert detections[..|detections|] == detections;
      if Chronological(start) && NotAfter(start, frameTime) {
        FramePreservesChronological(rois, start, detections, frameTime);
      }
    }

    /** The body of the update loop for one detection: the new state is `Step` of the old one. */
    method Track(det: Detection, frameTime: int)
      requires Valid()
      modifies this
      ensures Valid()
      ensures State() == Step(rois, old(State()), det, frameTime)
      ensures tableStats == old(tableStats)
    {
      ghost var before := State();
      RegisterCustomer(det.id, frameTime);
      var currentTable := CheckRoi(rois, det.footPoint);
      LocateCustomer(det.id, currentTable, frameTime);
      StepPreservesConsistent(rois, before, det, frameTime);
    }

    /** Registers the id on first sight with first_seen = last_seen = frameTime, else refreshes last_seen. */
    method RegisterCustomer(id: int, frameTime: int)
      modifies this`customers, this`arrival
      ensures State() == Register(old(State()), id, frameTime)
    {
      if id !in customers {
        customers := customers[id := Customer(frameTime, frameTime, [])];
        arrival := arrival + [id];
      } else {
        customers := customers[id := customers[id].(lastSeen := frameTime)];
      }
    }

    /**
     * Opens, extends or leaves a table session for a registered id, given
     * the zone lookup's answer for its foot point.
     */
    method LocateCustomer(id: int, currentTable: Option<string>, frameTime: int)
      requires id in customers
      modifies this`customers, this`currentLocations
      ensures State() == Locate(old(State()), id, Seated(currentTable), frameTime)
    {
      if currentTable.Some? && currentTable.value != "" {
        var name := currentTable.value;
        if id !in currentLocations || currentLocations[id] != name {
          currentLocations := currentLocations[id := name];
          var c := customers[id];
          customers := customers[id := c.(sessions := c.sessions + [Session(name, frameTime, frameTime)])];
        } else {
          var c := customers[id];
          if |c.sessions| > 0 {
            var n := |c.sessions|;
            customers := customers[id := c.(sessions := c.sessions[..n - 1] + [c.sessions[n - 1].(end := frameTime)])];
          }
        }
      } else {
        if id in currentLocations {
          currentLocations := currentLocations - {id};
        }
      }
    }

    /**
     * Adds one customer's usage dictionary into the table statistics. Every
     * table in it must already have a statistic (the source increments the
     * entry in place).
     */
    method AccumulateStats(usage: map<string, int>)
      requires usage.Keys <= tableStats.Keys
      modifies this`tableStats
      ensures tableStats == AddUsage(old(tableStats), usage)
    {
      var pending := usage.Keys;
      while pending != {}
        invariant pending <= usage.Keys
        invariant tableStats.Keys == old(tableStats).Keys
        invariant forall t :: t in tableStats ==>
          tableStats[t] == old(tableStats)[t] + (if t in usage && t !in pending then usage[t] else 0)
        decreases pending
      {
        var t :| t in pending;
        tableStats := tableStats[t := tableStats[t] + usage[t]];
        pending := pending - {t};
      }
    }

    /**
     * The customer part of the report: one entry per customer in
     * registration order, and every table's statistic grown by the usage of
     * that table summed over all customers. Customer state is untouched.
     */
    method GenerateReport(totalVideoDuration: int) returns (reports: seq<CustomerReport>)
      requires Valid()
      modifies this`tableStats
      ensures Valid()
      ensures reports == Reports(arrival, customers, totalVideoDuration, fps)
      ensures forall t :: t in tableStats ==>
        tableStats[t] == old(tableStats)[t] + TotalTableUsage(arrival, customers, t, MinTicks(fps))
    {
      reports := [];
      for i := 0 to |arrival|
        invariant Valid()
        invariant |reports| == i
        invariant forall k :: 0 <= k < i ==> reports[k] == Summarize(arrival[k], customers[arrival[k]], totalVideoDuration, fps)
        invariant forall t :: t in tableStats ==>
          tableStats[t] == old(tableStats)[t] + TotalTableUsage(arrival[..i], customers, t, MinTicks(fps))
      {
        ghost var previous := tableStats;
        var entry := ReportCustomer(arrival[i], totalVideoDuration);
        forall t | t in tableStats
          ensures tableStats[t] == old(tableStats)[t] + TotalTableUsage(arrival[..i + 1], customers, t, MinTicks(fps))
        {
          TotalTableUsageAppend(arrival, customers, t, MinTicks(fps), i);
        }
        reports := reports + [entry];
      }
      assert arrival[..|arrival|] == arrival;
    }

    /**
     * One customer's entry: its summary, with every table's statistic grown
     * by that customer's usage of the table.
     */
    method ReportCustomer(id: int, totalVideoDuration: int) returns (entry: CustomerReport)
      requires Valid() && id in customers
      modifies this`tableStats
      ensures Valid()
      ensures entry == Summarize(id, customers[id], totalVideoDuration, fps)
      ensures forall t :: t in tableStats ==>
        tableStats[t] == old(tableStats)[t] + TableUsage(customers[id].sessions, t, MinTicks(fps))
    {
      var data := customers[id];
      var minTicks := MinTicks(fps);
      var usage := SummarizeUsage(data.sessions, minTicks);
      assert usage.Keys <= tableStats.Keys by {
        forall t | t in usage ensures t in tableStats {
          var j :| 0 <= j < |data.sessions| && data.sessions[j].table == t && Counts(data.sessions[j], minTicks);
          assert TablesKnown(rois, data);
        }
      }
      AccumulateStats(usage);
      forall t | t in tableStats
        ensures tableStats[t] == old(tableStats)[t] + TableUsage(data.sessions, t, minTicks)
      {
        UsageSummaryMeaning(data.sessions, minTicks, t);
      }
      var status := CustomerStatus(data.lastSeen, totalVideoDuration, fps);
      entry := CustomerReport(id, data.firstSeen, data.lastSeen, data.lastSeen - data.firstSeen, usage, status);
    }
  }
}
