/**
 * The per-frame occupancy state machine of the analyzer, as pure functions
 * on a value of the whole state. `Step` handles one detection, `Frame` one
 * frame's list of detections in order; the analyzer class performs the same
 * changes in place and is proved equal to `Frame`.
 *
 * Times are integer ticks (frame indices).
 */
module Sessions {
  import opened Options
  import opened Geometry
  import opened Zones

  /** One visit to a table; `end` is moved forward while the customer stays. */
  datatype Session = Session(table: string, start: int, end: int)

  /** The record kept for a tracker id from its first detection on. */
  datatype Customer = Customer(firstSeen: int, lastSeen: int, sessions: seq<Session>)

  /** One tracked person in a frame: the tracker id and the bottom-centre foot point. */
  datatype Detection = Detection(id: int, footPoint: Point)

  /**
   * The analyzer's mutable state: the customer records, the order in which
   * ids were first registered (the insertion order of the customer
   * dictionary) and the table each id is currently attributed to.
   */
  datatype Occupancy = Occupancy(customers: map<int, Customer>, arrival: seq<int>, current: map<int, string>)

  const Empty := Occupancy(map[], [], map[])

  function Last(sessions: seq<Session>): Session
    requires |sessions| > 0
  {
    sessions[|sessions| - 1]
  }

  /**
   * The table the update loop acts on: the lookup result when it is a
   * non-empty name. Python's truth test on the result treats both None and
   * an empty table name as "not at a table".
   */
  function Seated(found: Option<string>): Option<string> {
    if found.Some? && found.value != "" then found else None
  }

  /** Step 1: register an id on first sight, otherwise refresh its last-seen time. */
  function Register(s: Occupancy, id: int, t: int): (r: Occupancy)
    ensures id in r.customers
  {
    if id !in s.customers then
      s.(customers := s.customers[id := Customer(t, t, [])], arrival := s.arrival + [id])
    else
      s.(customers := s.customers[id := s.customers[id].(lastSeen := t)])
  }

  /**
   * Step 2: open a session on a table change, extend the last session while
   * the table stays the same, and forget the current table when off-table.
   */
  function Locate(s: Occupancy, id: int, table: Option<string>, t: int): (r: Occupancy)
    requires id in s.customers
    ensures r.customers.Keys == s.customers.Keys && r.arrival == s.arrival
    ensures table.Some? ==> id in r.current && r.current[id] == table.value
    ensures table.None? ==> id !in r.current
    ensures r.customers[id].firstSeen == s.customers[id].firstSeen && r.customers[id].lastSeen == s.customers[id].lastSeen
  {
    var c := s.customers[id];
    match table
    case Some(name) =>
      if id !in s.current || s.current[id] != name then
        s.(current := s.current[id := name],
           customers := s.customers[id := c.(sessions := c.sessions + [Session(name, t, t)])])
      else if |c.sessions| > 0 then
        s.(customers := s.customers[id := c.(sessions := c.sessions[..|c.sessions| - 1] + [Last(c.sessions).(end := t)])])
      else
        s
    case None =>
      s.(current := s.current - {id})
  }

  /** The whole treatment of one detection at time t. */
  function Step(rois: seq<Roi>, s: Occupancy, d: Detection, t: int): (r: Occupancy)
    ensures r.customers.Keys == s.customers.Keys + {d.id} && r.customers[d.id].lastSeen == t
    ensures d.id in s.customers ==> r.customers[d.id].firstSeen == s.customers[d.id].firstSeen
    ensures var table := Seated(CheckRoi(rois, d.footPoint));
      && (table.Some? ==> d.id in r.current && r.current[d.id] == table.value)
      && (table.None? ==> d.id !in r.current)
  {
    Locate(Register(s, d.id, t), d.id, Seated(CheckRoi(rois, d.footPoint)), t)
  }

  /** The detections of one frame, processed in list order, all at time t. */
  function Frame(rois: seq<Roi>, s: Occupancy, dets: seq<Detection>, t: int): (r: Occupancy)
    ensures r.customers.Keys == s.customers.Keys + DetectedIds(dets)
    ensures forall k :: 0 <= k < |dets| ==> r.customers[dets[k].id].lastSeen == t
    ensures forall id :: id in s.customers ==> r.customers[id].firstSeen == s.customers[id].firstSeen
    decreases |dets|
  {
    if |dets| == 0 then s
    else
      var prefix := dets[..|dets| - 1];
      DetectedIdsAppend(dets);
      StepFramesOthers(rois, Frame(rois, s, prefix, t), dets[|dets| - 1], t);
      Step(rois, Frame(rois, s, prefix, t), dets[|dets| - 1], t)
  }

  /** The ids of a frame's detections. */
  function DetectedIds(dets: seq<Detection>): set<int> {
    set k | 0 <= k < |dets| :: dets[k].id
  }

  lemma DetectedIdsAppend(dets: seq<Detection>)
    requires |dets| > 0
    ensures DetectedIds(dets) == DetectedIds(dets[..|dets| - 1]) + {dets[|dets| - 1].id}
    ensures forall k :: 0 <= k < |dets| - 1 ==> dets[..|dets| - 1][k] == dets[k]
  {
    var prefix := dets[..|dets| - 1];
    assert forall k :: 0 <= k < |prefix| ==> prefix[k] == dets[k];
  }

  // ---------------------------------------------------------------------
  // Invariants

  /** Every session of the customer names a configured, non-empty table. */
  ghost predicate TablesKnown(rois: seq<Roi>, c: Customer) {
    forall j :: 0 <= j < |c.sessions| ==> c.sessions[j].table in RoiNames(rois) && c.sessions[j].table != ""
  }

  /** The current table of an id is the table of that id's last session. */
  ghost predicate CurrentAgrees(s: Occupancy, id: int)
    requires id in s.current
  {
    id in s.customers && |s.customers[id].sessions| > 0 && Last(s.customers[id].sessions).table == s.current[id]
  }

  ghost predicate ArrivalExact(s: Occupancy) {
    && (forall k :: 0 <= k < |s.arrival| ==> s.arrival[k] in s.customers)
    && (forall id :: id in s.customers ==> id in s.arrival)
    && (forall i, j :: 0 <= i < j < |s.arrival| ==> s.arrival[i] != s.arrival[j])
  }

  /** The structural invariant kept by every update, whatever the times. */
  ghost predicate Consistent(rois: seq<Roi>, s: Occupancy) {
    && (forall id :: id in s.current ==> CurrentAgrees(s, id))
    && (forall id :: id in s.customers ==> TablesKnown(rois, s.customers[id]))
    && ArrivalExact(s)
  }

  /**
   * The time invariant of one customer: sessions lie within
   * [firstSeen, lastSeen], each has start <= end, and each ends no later
   * than the next one starts.
   */
  ghost predicate CustomerChronological(c: Customer) {
    && c.firstSeen <= c.lastSeen
    && (forall j :: 0 <= j < |c.sessions| ==>
          c.firstSeen <= c.sessions[j].start <= c.sessions[j].end <= c.lastSeen)
    && (forall j :: 0 <= j < |c.sessions| - 1 ==> c.sessions[j].end <= c.sessions[j + 1].start)
  }

  ghost predicate Chronological(s: Occupancy) {
    forall id :: id in s.customers ==> CustomerChronological(s.customers[id])
  }

  /** No recorded time is later than t: frames arrive in non-decreasing time. */
  ghost predicate NotAfter(s: Occupancy, t: int) {
    forall id :: id in s.customers ==> s.customers[id].lastSeen <= t
  }

  /**
   * `b` is `a` after appends and after moving the end of `a`'s last session:
   * every earlier session is unchanged, the last keeps its table and start.
   */
  ghost predicate SessionsGrow(a: seq<Session>, b: seq<Session>) {
    && |a| <= |b|
    && (forall j :: 0 <= j < |a| - 1 ==> b[j] == a[j])
    && (|a| > 0 ==> b[|a| - 1].table == Last(a).table && b[|a| - 1].start == Last(a).start)
  }

  // ---------------------------------------------------------------------
  // One detection

  /**
   * Registration: a new id gets first_seen = last_seen = t and is appended
   * to the arrival order; a known id keeps its first_seen and only its
   * last_seen becomes t.
   */
  lemma StepRegisters(rois: seq<Roi>, s: Occupancy, d: Detection, t: int)
    ensures var r := Step(rois, s, d, t);
      && d.id in r.customers
      && r.customers[d.id].lastSeen == t
      && (d.id !in s.customers ==> r.customers[d.id].firstSeen == t && r.arrival == s.arrival + [d.id])
      && (d.id in s.customers ==> r.customers[d.id].firstSeen == s.customers[d.id].firstSeen && r.arrival == s.arrival)
  {
  }

  /**
   * Table change: at a table T other than the current one (or with no
   * current one) the current table becomes T and exactly one session
   * (T, t, t) is appended to the earlier, unchanged, sessions.
   */
  lemma StepOpensSession(rois: seq<Roi>, s: Occupancy, d: Detection, t: int, name: string)
    requires CheckRoi(rois, d.footPoint) == Some(name) && name != ""
    requires d.id !in s.current || s.current[d.id] != name
    ensures var r := Step(rois, s, d, t);
      var before := if d.id in s.customers then s.customers[d.id].sessions else [];
      && r.current == s.current[d.id := name]
      && r.customers[d.id].sessions == before + [Session(name, t, t)]
  {
  }

  /**
   * Same table: the session count is unchanged, every session but the last
   * is unchanged, and the last one only has its end set to t.
   */
  lemma StepExtendsSession(rois: seq<Roi>, s: Occupancy, d: Detection, t: int)
    requires d.id in s.customers && |s.customers[d.id].sessions| > 0
    requires d.id in s.current && CheckRoi(rois, d.footPoint) == Some(s.current[d.id]) != Some("")
    ensures var r := Step(rois, s, d, t);
      var before := s.customers[d.id].sessions;
      && r.current == s.current
      && |r.customers[d.id].sessions| == |before| > 0
      && r.customers[d.id].sessions[..|before| - 1] == before[..|before| - 1]
      && Last(r.customers[d.id].sessions) == Last(before).(end := t)
  {
  }

  /** Off-table: the id loses its current table and its sessions are untouched. */
  lemma StepLeavesTable(rois: seq<Roi>, s: Occupancy, d: Detection, t: int)
    requires CheckRoi(rois, d.footPoint).None? || CheckRoi(rois, d.footPoint) == Some("")
    ensures var r := Step(rois, s, d, t);
      && r.current == s.current - {d.id}
      && r.customers[d.id].sessions == (if d.id in s.customers then s.customers[d.id].sessions else [])
  {
  }

  /** A detection touches only its own id's record and current table. */
  lemma StepFramesOthers(rois: seq<Roi>, s: Occupancy, d: Detection, t: int)
    ensures var r := Step(rois, s, d, t);
      forall other :: other != d.id ==>
        && (other in r.customers <==> other in s.customers)
        && (other in s.customers ==> r.customers[other] == s.customers[other])
        && (other in r.current <==> other in s.current)
        && (other in s.current ==> r.current[other] == s.current[other])
  {
  }

  /**
   * Leaving the table and coming back to it opens a fresh session instead
   * of extending the old one.
   */
  lemma ReturnOpensNewSession(rois: seq<Roi>, s: Occupancy, away: Detection, back: Detection, t1: int, t2: int, name: string)
    requires away.id == back.id
    requires CheckRoi(rois, away.footPoint).None? || CheckRoi(rois, away.footPoint) == Some("")
    requires CheckRoi(rois, back.footPoint) == Some(name) && name != ""
    ensures var mid := Step(rois, s, away, t1);
      Step(rois, mid, back, t2).customers[back.id].sessions == mid.customers[back.id].sessions + [Session(name, t2, t2)]
  {
    var mid := Step(rois, s, away, t1);
    StepLeavesTable(rois, s, away, t1);
    StepOpensSession(rois, mid, back, t2, name);
  }

  lemma RegisterPreservesConsistent(rois: seq<Roi>, s: Occupancy, id: int, t: int)
    requires Consistent(rois, s)
    ensures Consistent(rois, Register(s, id, t))
  {
    var r := Register(s, id, t);
    forall k | k in r.current ensures CurrentAgrees(r, k) {
      assert CurrentAgrees(s, k);
    }
    if id !in s.customers {
      forall k | k in r.customers ensures k in r.arrival {
        assert k in r.arrival <==> k in s.arrival || k == id;
      }
    }
  }

  lemma LocatePreservesConsistent(rois: seq<Roi>, s: Occupancy, id: int, table: Option<string>, t: int)
    requires Consistent(rois, s) && id in s.customers
    requires table.Some? ==> table.value in RoiNames(rois) && table.value != ""
    ensures Consistent(rois, Locate(s, id, table, t))
  {
    var r := Locate(s, id, table, t);
    var c := s.customers[id];
    if table.Some? {
      var n := r.customers[id].sessions;
      assert forall j :: 0 <= j < |n| ==> n[j].table == table.value || n[j].table == c.sessions[j].table;
      assert TablesKnown(rois, r.customers[id]);
    }
    forall k | k in r.current ensures CurrentAgrees(r, k) {
      if k != id { assert CurrentAgrees(s, k); }
    }
  }

  /** Every update keeps the structural invariant. */
  lemma StepPreservesConsistent(rois: seq<Roi>, s: Occupancy, d: Detection, t: int)
    requires Consistent(rois, s)
    ensures Consistent(rois, Step(rois, s, d, t))
  {
    CheckRoiNamesTable(rois, d.footPoint);
    RegisterPreservesConsistent(rois, s, d.id, t);
    LocatePreservesConsistent(rois, Register(s, d.id, t), d.id, Seated(CheckRoi(rois, d.footPoint)), t);
  }

  /** A later sighting keeps a customer's time invariant. */
  lemma SightingKeepsChronological(c: Customer, t: int)
    requires CustomerChronological(c) && c.lastSeen <= t
    ensures CustomerChronological(c.(lastSeen := t))
  {
  }

  /** Opening a session at the time of the last sighting keeps a customer's time invariant. */
  lemma OpenKeepsChronological(c: Customer, name: string, t: int)
    requires CustomerChronological(c) && c.lastSeen == t
    ensures CustomerChronological(c.(sessions := c.sessions + [Session(name, t, t)]))
  {
    var n := c.sessions + [Session(name, t, t)];
    assert forall j :: 0 <= j < |n| - 1 ==> n[j] == c.sessions[j];
  }

  /** Moving the last session's end to the time of the last sighting keeps a customer's time invariant. */
  lemma ExtendKeepsChronological(c: Customer, t: int)
    requires CustomerChronological(c) && c.lastSeen == t && |c.sessions| > 0
    ensures CustomerChronological(c.(sessions := c.sessions[..|c.sessions| - 1] + [Last(c.sessions).(end := t)]))
  {
    var n := c.sessions[..|c.sessions| - 1] + [Last(c.sessions).(end := t)];
    assert forall j :: 0 <= j < |n| - 1 ==> n[j] == c.sessions[j];
  }

  /** With non-decreasing time, every update keeps the time invariant. */
  lemma StepPreservesChronological(rois: seq<Roi>, s: Occupancy, d: Detection, t: int)
    requires Chronological(s) && NotAfter(s, t)
    ensures Chronological(Step(rois, s, d, t)) && NotAfter(Step(rois, s, d, t), t)
  {
    var r := Register(s, d.id, t);
    var c := r.customers[d.id];
    if d.id in s.customers {
      SightingKeepsChronological(s.customers[d.id], t);
    }
    assert CustomerChronological(c) && c.lastSeen == t;
    var u := Step(rois, s, d, t);
    var found := Seated(CheckRoi(rois, d.footPoint));
    if found.Some? && (d.id !in r.current || r.current[d.id] != found.value) {
      assert u.customers[d.id] == c.(sessions := c.sessions + [Session(found.value, t, t)]);
      OpenKeepsChronological(c, found.value, t);
    } else if found.Some? && |c.sessions| > 0 {
      assert u.customers[d.id] == c.(sessions := c.sessions[..|c.sessions| - 1] + [Last(c.sessions).(end := t)]);
      ExtendKeepsChronological(c, t);
    } else {
      assert u.customers[d.id] == c;
    }
    StepFramesOthers(rois, s, d, t);
    forall id | id in u.customers
      ensures CustomerChronological(u.customers[id]) && u.customers[id].lastSeen <= t
    {
      if id != d.id {
        assert u.customers[id] == s.customers[id];
      }
    }
  }

  /** One detection only appends to, or moves the end of the last of, an id's sessions. */
  lemma StepSessionsGrow(rois: seq<Roi>, s: Occupancy, d: Detection, t: int, id: int)
    requires id in s.customers
    ensures var r := Step(rois, s, d, t);
      id in r.customers && SessionsGrow(s.customers[id].sessions, r.customers[id].sessions)
      && r.customers[id].firstSeen == s.customers[id].firstSeen
  {
    var a := s.customers[id].sessions;
    var r := Step(rois, s, d, t);
    var b := r.customers[id].sessions;
    if id == d.id && |b| == |a| && |a| > 0 && b != a {
      assert b == a[..|a| - 1] + [Last(a).(end := t)];
    }
  }

  // ---------------------------------------------------------------------
  // One frame

  lemma SessionsGrowTransitive(a: seq<Session>, b: seq<Session>, c: seq<Session>)
    requires SessionsGrow(a, b) && SessionsGrow(b, c)
    ensures SessionsGrow(a, c)
  {
    if |a| > 0 && |a| < |b| {
      assert c[|a| - 1] == b[|a| - 1];
    }
  }

  /** A frame keeps the structural invariant. */
  lemma {:induction false} FramePreservesConsistent(rois: seq<Roi>, s: Occupancy, dets: seq<Detection>, t: int)
    requires Consistent(rois, s)
    ensures Consistent(rois, Frame(rois, s, dets, t))
    decreases |dets|
  {
    if |dets| > 0 {
      FramePreservesConsistent(rois, s, dets[..|dets| - 1], t);
      StepPreservesConsistent(rois, Frame(rois, s, dets[..|dets| - 1], t), dets[|dets| - 1], t);
    }
  }

  /** A frame at a time no earlier than any recorded time keeps the time invariant. */
  lemma {:induction false} FramePreservesChronological(rois: seq<Roi>, s: Occupancy, dets: seq<Detection>, t: int)
    requires Chronological(s) && NotAfter(s, t)
    ensures Chronological(Frame(rois, s, dets, t)) && NotAfter(Frame(rois, s, dets, t), t)
    decreases |dets|
  {
    if |dets| > 0 {
      var prefix := dets[..|dets| - 1];
      FramePreservesChronological(rois, s, prefix, t);
      StepPreservesChronological(rois, Frame(rois, s, prefix, t), dets[|dets| - 1], t);
    }
  }

  /**
   * Sessions are append-only across a frame: earlier sessions stay as they
   * were, and first_seen never changes once set.
   */
  lemma {:induction false} FrameSessionsGrow(rois: seq<Roi>, s: Occupancy, dets: seq<Detection>, t: int, id: int)
    requires id in s.customers
    ensures var r := Frame(rois, s, dets, t);
      id in r.customers && SessionsGrow(s.customers[id].sessions, r.customers[id].sessions)
      && r.customers[id].firstSeen == s.customers[id].firstSeen
    decreases |dets|
  {
    if |dets| == 0 {
      var a := s.customers[id].sessions;
      assert SessionsGrow(a, a);
    } else {
      var prefix := dets[..|dets| - 1];
      var mid := Frame(rois, s, prefix, t);
      FrameSessionsGrow(rois, s, prefix, t, id);
      StepSessionsGrow(rois, mid, dets[|dets| - 1], t, id);
      SessionsGrowTransitive(s.customers[id].sessions, mid.customers[id].sessions,
        Frame(rois, s, dets, t).customers[id].sessions);
    }
  }

  /** An id with no detection in the frame keeps its record and its current table. */
  lemma {:induction false} FrameLeavesAbsentIds(rois: seq<Roi>, s: Occupancy, dets: seq<Detection>, t: int, id: int)
    requires forall k :: 0 <= k < |dets| ==> dets[k].id != id
    ensures var r := Frame(rois, s, dets, t);
      && (id in r.customers <==> id in s.customers)
      && (id in s.customers ==> r.customers[id] == s.customers[id])
      && (id in r.current <==> id in s.current)
      && (id in s.current ==> r.current[id] == s.current[id])
    decreases |dets|
  {
    if |dets| > 0 {
      var prefix := dets[..|dets| - 1];
      FrameLeavesAbsentIds(rois, s, prefix, t, id);
      StepFramesOthers(rois, Frame(rois, s, prefix, t), dets[|dets| - 1], t);
    }
  }

  /** Within one customer's history, any earlier session ends before any later one starts. */
  lemma {:induction false} SessionsOrdered(c: Customer, i: nat, j: nat)
    requires CustomerChronological(c)
    requires i < j < |c.sessions|
    ensures c.sessions[i].start <= c.sessions[i].end <= c.sessions[j].start <= c.sessions[j].end
    decreases j - i
  {
    if i + 1 < j {
      SessionsOrdered(c, i + 1, j);
    }
  }
}
