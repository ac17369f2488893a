/**
 * Worked runs of the model on a concrete floor plan with two square tables,
 * at one tick per second.
 */
module Scenarios {
  import opened Options
  import opened Geometry
  import opened Zones
  import opened Sessions
  import opened Report

  function Floor(): seq<Roi> {
    [Roi("Table-1", Rectangle(0, 0, 100, 100)), Roi("Table-2", Rectangle(200, 0, 300, 100))]
  }

  lemma FloorLookup(p: Point)
    ensures 0 <= p.x <= 100 && 0 <= p.y <= 100 ==> CheckRoi(Floor(), p) == Some("Table-1")
    ensures 200 <= p.x <= 300 && 0 <= p.y <= 100 ==> CheckRoi(Floor(), p) == Some("Table-2")
    ensures 100 < p.x < 200 ==> CheckRoi(Floor(), p) == None
  {
    RectangleContains(0, 0, 100, 100, p);
    RectangleContains(200, 0, 300, 100, p);
    assert Floor()[1..][1..] == [];
  }

  predicate AtTable1(p: Point) {
    0 <= p.x <= 100 && 0 <= p.y <= 100
  }

  predicate AtTable2(p: Point) {
    200 <= p.x <= 300 && 0 <= p.y <= 100
  }

  predicate InAisle(p: Point) {
    100 < p.x < 200
  }

  // The runs below hold on any floor plan whose lookup places the points as
  // stated; `FloorLookup` shows that the two-table plan above is one.

  /**
   * Customer 7 sits at Table-1 from t = 10 to t = 40: one session
   * (Table-1, 10, 40), reported as 30 seconds of use.
   */
  lemma StayAtOneTable(rois: seq<Roi>, p1: Point, p2: Point)
    requires CheckRoi(rois, p1) == Some("Table-1") && CheckRoi(rois, p2) == Some("Table-1")
    ensures var s1 := Step(rois, Empty, Detection(7, p1), 10);
      var s2 := Step(rois, s1, Detection(7, p2), 40);
      && s2.customers[7] == Customer(10, 40, [Session("Table-1", 10, 40)])
      && Summarize(7, s2.customers[7], 40, 1).usage == map["Table-1" := 30]
  {
    var sessions := [Session("Table-1", 10, 40)];
    assert sessions[..0] == [];
    assert [Session("Table-1", 10, 10)][..0] == [];
  }

  /** Customer 3 at Table-1 at t = 90. */
  function AtFirstTable(rois: seq<Roi>, p1: Point): Occupancy {
    Step(rois, Empty, Detection(3, p1), 90)
  }

  lemma AtFirstTableState(rois: seq<Roi>, p1: Point)
    requires CheckRoi(rois, p1) == Some("Table-1")
    ensures AtFirstTable(rois, p1).customers[3].sessions == [Session("Table-1", 90, 90)]
    ensures AtFirstTable(rois, p1).current == map[3 := "Table-1"]
  {
    StepOpensSession(rois, Empty, Detection(3, p1), 90, "Table-1");
  }

  /**
   * Customer 3 then moves to Table-2 at t = 100: the first session stops
   * advancing and a second one starts at 100.
   */
  lemma CrossToAnotherTable(rois: seq<Roi>, p1: Point, p2: Point)
    requires CheckRoi(rois, p1) == Some("Table-1") && CheckRoi(rois, p2) == Some("Table-2")
    ensures var s2 := Step(rois, AtFirstTable(rois, p1), Detection(3, p2), 100);
      && s2.customers[3].sessions == [Session("Table-1", 90, 90), Session("Table-2", 100, 100)]
      && s2.current == map[3 := "Table-2"]
  {
    AtFirstTableState(rois, p1);
    MoveToSecondTable(rois, AtFirstTable(rois, p1), p2);
  }

  /** From one session at Table-1, a sighting at Table-2 opens a second session there. */
  lemma MoveToSecondTable(rois: seq<Roi>, s1: Occupancy, p2: Point)
    requires CheckRoi(rois, p2) == Some("Table-2")
    requires 3 in s1.customers && s1.customers[3].sessions == [Session("Table-1", 90, 90)]
    requires s1.current == map[3 := "Table-1"]
    ensures var s2 := Step(rois, s1, Detection(3, p2), 100);
      && s2.customers[3].sessions == [Session("Table-1", 90, 90), Session("Table-2", 100, 100)]
      && s2.current == map[3 := "Table-2"]
  {
    assert "Table-1"[6] != "Table-2"[6];
    StepOpensSession(rois, s1, Detection(3, p2), 100, "Table-2");
    assert map[3 := "Table-1"][3 := "Table-2"] == map[3 := "Table-2"];
  }

  /**
   * Customer 5 stays 2 seconds at Table-1, walks the aisle, and comes back
   * for 2 more (the record `BackAtTableState` derives): two short sessions,
   * and no reported usage although the customer was present for 7 seconds.
   */
  lemma ShortVisitsNotReported(c: Customer)
    requires c == Customer(0, 7, [Session("Table-1", 0, 2), Session("Table-1", 5, 7)])
    ensures Summarize(5, c, 7, 1).usage == map[]
    ensures Summarize(5, c, 7, 1).appearance == 7
  {
    ShortSessionsNoUsage(c.sessions, MinTicks(1));
  }

  /** Customer 5 at Table-1 at t = 0 and t = 2. */
  function SeatedTwice(rois: seq<Roi>, seat: Point): Occupancy {
    var s1 := Step(rois, Empty, Detection(5, seat), 0);
    Step(rois, s1, Detection(5, seat), 2)
  }

  lemma SeatedTwiceState(rois: seq<Roi>, seat: Point)
    requires CheckRoi(rois, seat) == Some("Table-1")
    ensures SeatedTwice(rois, seat).customers[5] == Customer(0, 2, [Session("Table-1", 0, 2)])
    ensures SeatedTwice(rois, seat).current[5] == "Table-1"
  {
    var s1 := Step(rois, Empty, Detection(5, seat), 0);
    assert s1.customers[5] == Customer(0, 0, [Session("Table-1", 0, 0)]) && s1.current[5] == "Table-1";
    assert [Session("Table-1", 0, 0)][..0] == [];
  }

  /** Then in the aisle at t = 3. */
  function AfterAisle(rois: seq<Roi>, seat: Point, aisle: Point): Occupancy {
    Step(rois, SeatedTwice(rois, seat), Detection(5, aisle), 3)
  }

  lemma AfterAisleState(rois: seq<Roi>, seat: Point, aisle: Point)
    requires CheckRoi(rois, seat) == Some("Table-1") && CheckRoi(rois, aisle) == None
    ensures AfterAisle(rois, seat, aisle).customers[5] == Customer(0, 3, [Session("Table-1", 0, 2)])
    ensures 5 !in AfterAisle(rois, seat, aisle).current
  {
    SeatedTwiceState(rois, seat);
  }

  /** Then back at Table-1 at t = 5 and t = 7. */
  function BackAtTable(rois: seq<Roi>, seat: Point, aisle: Point): Occupancy {
    var s4 := Step(rois, AfterAisle(rois, seat, aisle), Detection(5, seat), 5);
    Step(rois, s4, Detection(5, seat), 7)
  }

  lemma BackAtTableState(rois: seq<Roi>, seat: Point, aisle: Point)
    requires CheckRoi(rois, seat) == Some("Table-1") && CheckRoi(rois, aisle) == None
    ensures BackAtTable(rois, seat, aisle).customers[5] == Customer(0, 7, [Session("Table-1", 0, 2), Session("Table-1", 5, 7)])
  {
    var s3 := AfterAisle(rois, seat, aisle);
    AfterAisleState(rois, seat, aisle);
    ReturnToTable(rois, s3, seat);
    StayAtReturnedTable(rois, Step(rois, s3, Detection(5, seat), 5), seat);
  }

  /** From any state where customer 5 has left Table-1, a sighting there at t = 5 opens a second session. */
  lemma ReturnToTable(rois: seq<Roi>, s3: Occupancy, seat: Point)
    requires CheckRoi(rois, seat) == Some("Table-1")
    requires 5 in s3.customers && s3.customers[5] == Customer(0, 3, [Session("Table-1", 0, 2)])
    requires 5 !in s3.current
    ensures var s4 := Step(rois, s3, Detection(5, seat), 5);
      && s4.customers[5] == Customer(0, 5, [Session("Table-1", 0, 2), Session("Table-1", 5, 5)])
      && s4.current[5] == "Table-1"
  {
    StepRegisters(rois, s3, Detection(5, seat), 5);
    StepOpensSession(rois, s3, Detection(5, seat), 5, "Table-1");
  }

  /** A further sighting at the same table at t = 7 only moves the second session's end. */
  lemma StayAtReturnedTable(rois: seq<Roi>, s4: Occupancy, seat: Point)
    requires CheckRoi(rois, seat) == Some("Table-1")
    requires 5 in s4.customers && s4.customers[5] == Customer(0, 5, [Session("Table-1", 0, 2), Session("Table-1", 5, 5)])
    requires 5 in s4.current && s4.current[5] == "Table-1"
    ensures Step(rois, s4, Detection(5, seat), 7).customers[5] == Customer(0, 7, [Session("Table-1", 0, 2), Session("Table-1", 5, 7)])
  {
    StepRegisters(rois, s4, Detection(5, seat), 7);
    StepExtendsSession(rois, s4, Detection(5, seat), 7);
    assert s4.customers[5].sessions[..1] == [Session("Table-1", 0, 2)];
  }
}
