/**
 * The normalisation that `handle_excel` applies to the typed rows of an
 * export: fill empty regions, drop never-answered and unfinished tickets,
 * and turn the first-answer time into seconds of the day.
 */
module DataHandler {
  import opened Wrappers
  import opened Calendar
  import opened Tickets
  import opened Seqs

  /**
   * The conversion step fails on a surviving row whose first-answer cell is
   * empty: the empty cell has no hour, so the whole import aborts there.
   */
  datatype ImportError = FirstAnswerNotATime(id: int)

  // ---------------------------------------------------------------------
  // The per-cell conversion

  /** Whole seconds since midnight; the microseconds of the time are discarded. */
  function SecondsOfDay(t: TimeOfDay): (r: int)
    ensures 0 <= r < SecondsPerDay
    ensures r == 0 <==> t.hour == 0 && t.minute == 0 && t.second == 0
  {
    t.hour * 3600 + t.minute * 60 + t.second
  }

  /** The seconds count gives back the hour, minute and second it was made from. */
  lemma SecondsOfDayParts(t: TimeOfDay)
    ensures SecondsOfDay(t) / 3600 == t.hour
    ensures SecondsOfDay(t) % 3600 / 60 == t.minute
    ensures SecondsOfDay(t) % 60 == t.second
  {
    var r := SecondsOfDay(t);
    var m := t.minute * 60 + t.second;
    assert 0 <= m < 3600;
    assert r == t.hour * 3600 + m;
    assert r / 3600 == t.hour && r % 3600 == m;
    assert m / 60 == t.minute;
    assert r == (t.hour * 60 + t.minute) * 60 + t.second;
  }

  // ---------------------------------------------------------------------
  // The four steps as functions on the table

  function FillRegionOf(r: Row): Row {
    if r.region.None? then r.(region := Some(Unspecified)) else r
  }

  /** Step 1: every empty region becomes `Unspecified`; regions present, even empty strings, stay. */
  function FillRegion(rows: seq<Row>): (out: seq<Row>)
    ensures |out| == |rows|
    ensures forall i :: 0 <= i < |rows| ==> out[i] == FillRegionOf(rows[i])
    ensures forall r :: r in out ==> r.region.Some?
  {
    seq(|rows|, i requires 0 <= i < |rows| => FillRegionOf(rows[i]))
  }

  /** Kept by step 2: the first answer is not exactly `time(0, 0, 0)`. */
  predicate NotMidnight(r: Row) {
    r.firstAnswer != Some(Midnight)
  }

  /** Kept by step 3: the last answer is present. */
  predicate HasLastAnswer(r: Row) {
    r.lastAnswer.Some?
  }

  /** A row that neither drop rule removes. */
  predicate Survives(r: Row) {
    NotMidnight(r) && HasLastAnswer(r)
  }

  /** Step 2: drop rows first answered at exactly 00:00:00. */
  function DropMidnight(rows: seq<Row>): seq<Row> {
    Keep(rows, NotMidnight)
  }

  /** Step 3: drop rows without a last answer. */
  function DropUnanswered(rows: seq<Row>): seq<Row> {
    Keep(rows, HasLastAnswer)
  }

  function ToTicket(r: Row): Ticket
    requires r.region.Some? && r.lastAnswer.Some? && r.firstAnswer.Some?
  {
    Ticket(r.id, r.creationDate, r.systemId, r.ticketType, r.status,
           SecondsOfDay(r.firstAnswer.value), r.lastAnswer.value, r.region.value)
  }

  /**
   * Step 4: the first-answer column becomes seconds of the day. The step is
   * applied row by row and aborts at the first row with no first answer.
   */
  function Convert(rows: seq<Row>): (r: Result<seq<Ticket>, ImportError>)
    requires forall x :: x in rows ==> x.region.Some? && x.lastAnswer.Some?
    ensures r.Ok? <==> forall x :: x in rows ==> x.firstAnswer.Some?
    ensures r.Ok? ==> |r.value| == |rows|
  {
    if rows == [] then Ok([])
    else if rows[0].firstAnswer.None? then Err(FirstAnswerNotATime(rows[0].id))
    else
      match Convert(rows[1..])
      case Err(e) => Err(e)
      case Ok(ts) => Ok([ToTicket(rows[0])] + ts)
  }

  /** A successful conversion turns each row into its ticket, position by position. */
  lemma {:induction false} ConvertAt(rows: seq<Row>)
    requires forall x :: x in rows ==> x.region.Some? && x.lastAnswer.Some?
    requires Convert(rows).Ok?
    ensures forall i :: 0 <= i < |rows| ==> rows[i].firstAnswer.Some? && Convert(rows).value[i] == ToTicket(rows[i])
  {
    if rows != [] {
      ConvertAt(rows[1..]);
      forall i | 0 <= i < |rows| ensures rows[i].firstAnswer.Some? && Convert(rows).value[i] == ToTicket(rows[i]) {
        if i > 0 { assert rows[i] == rows[1..][i - 1]; }
      }
    }
  }

  /** A failed conversion names a row that has no first answer. */
  lemma {:induction false} ConvertErrNamesRow(rows: seq<Row>)
    requires forall x :: x in rows ==> x.region.Some? && x.lastAnswer.Some?
    requires Convert(rows).Err?
    ensures exists x :: x in rows && x.firstAnswer.None? && Convert(rows).error == FirstAnswerNotATime(x.id)
  {
    if rows[0].firstAnswer.Some? {
      ConvertErrNamesRow(rows[1..]);
      var x :| x in rows[1..] && x.firstAnswer.None? && Convert(rows[1..]).error == FirstAnswerNotATime(x.id);
      assert x in rows;
    }
  }

  /** `handle_excel` after parsing: the four steps in the source's order. */
  function Normalize(rows: seq<Row>): Result<seq<Ticket>, ImportError> {
    KeepMembers(FillRegion(rows), NotMidnight);
    KeepMembers(DropMidnight(FillRegion(rows)), HasLastAnswer);
    Convert(DropUnanswered(DropMidnight(FillRegion(rows))))
  }

  // ---------------------------------------------------------------------
  // What normalisation guarantees

  /**
   * Ticket t is row r carried over: the region filled when empty, the last
   * answer unwrapped, the first answer as seconds of the day, and every other
   * field as it was.
   */
  predicate DerivedFrom(t: Ticket, r: Row) {
    && t.id == r.id
    && t.creationDate == r.creationDate
    && t.systemId == r.systemId
    && t.ticketType == r.ticketType
    && t.status == r.status
    && r.firstAnswer.Some? && t.firstAnswerSeconds == SecondsOfDay(r.firstAnswer.value)
    && r.lastAnswer == Some(t.lastAnswer)
    && t.region == (if r.region.Some? then r.region.value else Unspecified)
  }

  /** The rows that reach the conversion step. */
  function Kept(rows: seq<Row>): seq<Row> {
    DropUnanswered(DropMidnight(FillRegion(rows)))
  }

  lemma KeptMembers(rows: seq<Row>)
    ensures forall x :: x in Kept(rows) <==> exists i :: 0 <= i < |rows| && Survives(rows[i]) && x == FillRegionOf(rows[i])
  {
    KeepMembers(FillRegion(rows), NotMidnight);
    KeepMembers(DropMidnight(FillRegion(rows)), HasLastAnswer);
  }

  /** Sequencing of two partial results: the first error wins, else the outputs are joined. */
  function Chain(x: Result<seq<Ticket>, ImportError>, y: Result<seq<Ticket>, ImportError>): Result<seq<Ticket>, ImportError> {
    if x.Err? then x else if y.Err? then y else Ok(x.value + y.value)
  }

  lemma FillRegionAppend(a: seq<Row>, b: seq<Row>)
    ensures FillRegion(a + b) == FillRegion(a) + FillRegion(b)
  {
  }

  lemma {:induction false} ConvertAppend(a: seq<Row>, b: seq<Row>)
    requires forall x :: x in a + b ==> x.region.Some? && x.lastAnswer.Some?
    ensures Convert(a + b) == Chain(Convert(a), Convert(b))
  {
    assert forall x :: x in a ==> x in a + b;
    assert forall x :: x in b ==> x in a + b;
    if a == [] {
      assert a + b == b;
      match Convert(b) {
        case Err(_) =>
        case Ok(v) => assert [] + v == v;
      }
    } else {
      var ab := a + b;
      assert ab[0] == a[0] && ab[1..] == a[1..] + b;
      assert forall x :: x in a[1..] + b ==> x in ab;
      if a[0].firstAnswer.Some? {
        ConvertAppend(a[1..], b);
        match Convert(a[1..]) {
          case Err(_) =>
          case Ok(u) =>
            match Convert(b) {
              case Err(_) =>
              case Ok(v) => assert [ToTicket(a[0])] + (u + v) == ([ToTicket(a[0])] + u) + v;
            }
        }
      }
    }
  }

  /** Chaining successes is joining their outputs, in order. */
  lemma ChainOk(t: seq<Ticket>, u: seq<Ticket>, x: Result<seq<Ticket>, ImportError>)
    ensures Chain(Ok(t), Chain(Ok(u), x)) == Chain(Ok(t + u), x)
  {
    if x.Ok? {
      assert t + (u + x.value) == (t + u) + x.value;
    }
  }

  /**
   * Normalisation works row by row in the input's order: normalising a
   * concatenation normalises each part and joins the results, the first
   * failure aborting the whole.
   */
  lemma NormalizeAppend(a: seq<Row>, b: seq<Row>)
    ensures Normalize(a + b) == Chain(Normalize(a), Normalize(b))
  {
    FillRegionAppend(a, b);
    KeepAppend(FillRegion(a), FillRegion(b), NotMidnight);
    KeepAppend(DropMidnight(FillRegion(a)), DropMidnight(FillRegion(b)), HasLastAnswer);
    KeptMembers(a + b);
    KeptMembers(a);
    KeptMembers(b);
    ConvertAppend(Kept(a), Kept(b));
  }

  /** What becomes of one row on its own. */
  lemma NormalizeRow(r: Row)
    ensures !Survives(r) ==> Normalize([r]) == Ok([])
    ensures Survives(r) && r.firstAnswer.None? ==> Normalize([r]) == Err(FirstAnswerNotATime(r.id))
    ensures Survives(r) && r.firstAnswer.Some? ==>
              Normalize([r]).Ok? && |Normalize([r]).value| == 1 && DerivedFrom(Normalize([r]).value[0], r)
  {
    var f := FillRegionOf(r);
    assert FillRegion([r]) == [f];
    assert Survives(f) == Survives(r);
    KeepSingleton(f, NotMidnight);
    var kept := DropUnanswered(DropMidnight([f]));
    if NotMidnight(f) {
      KeepSingleton(f, HasLastAnswer);
    }
    assert kept == if Survives(f) then [f] else [];
    assert Normalize([r]) == Convert(kept);
    if Survives(r) && r.firstAnswer.Some? {
      assert kept[1..] == [];
      assert Convert(kept) == Ok([ToTicket(f)] + []);
    }
  }

  /** A row that survives, turned into the one ticket derived from it. */
  lemma NormalizeSingle(r: Row, t: Ticket)
    requires Survives(r) && DerivedFrom(t, r)
    ensures Normalize([r]) == Ok([t])
  {
    NormalizeRow(r);
    var out := Normalize([r]).value;
    DerivedUnique(out[0], t, r);
    assert out == [t];
  }

  /** A row determines the ticket derived from it. */
  lemma DerivedUnique(t1: Ticket, t2: Ticket, r: Row)
    requires DerivedFrom(t1, r) && DerivedFrom(t2, r)
    ensures t1 == t2
  {
    assert t1 == Ticket(t1.id, t1.creationDate, t1.systemId, t1.ticketType, t1.status,
                        t1.firstAnswerSeconds, t1.lastAnswer, t1.region);
    assert t2 == Ticket(t2.id, t2.creationDate, t2.systemId, t2.ticketType, t2.status,
                        t2.firstAnswerSeconds, t2.lastAnswer, t2.region);
  }

  /** The import succeeds exactly when every surviving row has a first answer; otherwise it names such a row. */
  lemma NormalizeOkIff(rows: seq<Row>)
    ensures Normalize(rows).Ok? <==> forall i :: 0 <= i < |rows| && Survives(rows[i]) ==> rows[i].firstAnswer.Some?
    ensures Normalize(rows).Err? ==>
              exists i :: 0 <= i < |rows| && Survives(rows[i]) && rows[i].firstAnswer.None?
                          && Normalize(rows).error == FirstAnswerNotATime(rows[i].id)
  {
    var k := Kept(rows);
    KeptMembers(rows);
    if Normalize(rows).Ok? {
      forall i | 0 <= i < |rows| && Survives(rows[i]) ensures rows[i].firstAnswer.Some? {
        assert FillRegionOf(rows[i]) in k;
      }
    } else {
      ConvertErrNamesRow(k);
      var x :| x in k && x.firstAnswer.None? && Normalize(rows).error == FirstAnswerNotATime(x.id);
      var i :| 0 <= i < |rows| && Survives(rows[i]) && x == FillRegionOf(rows[i]);
    }
  }

  /**
   * Every output ticket comes from an input row that passes both drop
   * rules, carried over field by field; hence the output is no longer than
   * the input, and an empty input gives an empty output.
   */
  lemma NormalizeSound(rows: seq<Row>, ts: seq<Ticket>)
    requires Normalize(rows) == Ok(ts)
    ensures |ts| <= |rows|
    ensures forall t :: t in ts ==> exists i :: 0 <= i < |rows| && Survives(rows[i]) && DerivedFrom(t, rows[i])
  {
    var k := Kept(rows);
    KeptMembers(rows);
    ConvertAt(k);
    forall t | t in ts ensures exists i :: 0 <= i < |rows| && Survives(rows[i]) && DerivedFrom(t, rows[i]) {
      var j :| 0 <= j < |ts| && ts[j] == t;
      assert k[j] in k;
      var i :| 0 <= i < |rows| && Survives(rows[i]) && k[j] == FillRegionOf(rows[i]);
      assert DerivedFrom(t, rows[i]);
    }
  }

  /** Every input row that passes both drop rules has its ticket in the output. */
  lemma NormalizeComplete(rows: seq<Row>, ts: seq<Ticket>)
    requires Normalize(rows) == Ok(ts)
    ensures forall i :: 0 <= i < |rows| && Survives(rows[i]) ==> exists t :: t in ts && DerivedFrom(t, rows[i])
  {
    var k := Kept(rows);
    KeptMembers(rows);
    ConvertAt(k);
    forall i | 0 <= i < |rows| && Survives(rows[i]) ensures exists t :: t in ts && DerivedFrom(t, rows[i]) {
      assert FillRegionOf(rows[i]) in k;
      var j :| 0 <= j < |k| && k[j] == FillRegionOf(rows[i]);
      assert ts[j] in ts && DerivedFrom(ts[j], rows[i]);
    }
  }

  /**
   * Three rows: answered at midnight, without a last answer, and answered at
   * 09:15:30 with no region. Only the third comes out, with 33330 seconds
   * and the region `Unspecified`.
   */
  lemma WorkedExample(created: Timestamp, closed1: Timestamp, closed3: Timestamp)
    ensures Normalize([
              Row(1, created, None, None, None, Some(Midnight), Some(closed1), None),
              Row(2, created, None, None, None, Some(TimeOfDay(9, 15, 30, 0)), None, Some("RU")),
              Row(3, created, None, None, None, Some(TimeOfDay(9, 15, 30, 0)), Some(closed3), None)])
            == Ok([Ticket(3, created, None, None, None, 33330, closed3, Unspecified)])
  {
    var r1 := Row(1, created, None, None, None, Some(Midnight), Some(closed1), None);
    var r2 := Row(2, created, None, None, None, Some(TimeOfDay(9, 15, 30, 0)), None, Some("RU"));
    var r3 := Row(3, created, None, None, None, Some(TimeOfDay(9, 15, 30, 0)), Some(closed3), None);
    var t3 := Ticket(3, created, None, None, None, 33330, closed3, Unspecified);
    ExampleDroppedRows(created, closed1);
    assert Normalize([r3]) == Ok([t3]) by {
      assert Survives(r3) && DerivedFrom(t3, r3);
      NormalizeSingle(r3, t3);
    }
    var firstTwo := [r1] + [r2];
    assert Normalize(firstTwo) == Ok([]) by {
      NormalizeAppend([r1], [r2]);
    }
    assert Normalize(firstTwo + [r3]) == Ok([t3]) by {
      NormalizeAppend(firstTwo, [r3]);
      assert [] + [t3] == [t3];
    }
    assert firstTwo + [r3] == [r1, r2, r3];
  }

  /** The two rows of the worked example that the drop rules remove. */
  lemma ExampleDroppedRows(created: Timestamp, closed1: Timestamp)
    ensures Normalize([Row(1, created, None, None, None, Some(Midnight), Some(closed1), None)]) == Ok([])
    ensures Normalize([Row(2, created, None, None, None, Some(TimeOfDay(9, 15, 30, 0)), None, Some("RU"))]) == Ok([])
  {
    NormalizeRow(Row(1, created, None, None, None, Some(Midnight), Some(closed1), None));
    NormalizeRow(Row(2, created, None, None, None, Some(TimeOfDay(9, 15, 30, 0)), None, Some("RU")));
  }

  /**
   * The midnight rule compares the whole time, microseconds included: a
   * first answer at 00:00:00.5 is kept and stored as 0 seconds.
   */
  lemma SubSecondMidnightKept(id: int, created: Timestamp, closed: Timestamp, region: string)
    ensures Normalize([Row(id, created, None, None, None, Some(TimeOfDay(0, 0, 0, 500000)), Some(closed), Some(region))])
            == Ok([Ticket(id, created, None, None, None, 0, closed, region)])
  {
    var r := Row(id, created, None, None, None, Some(TimeOfDay(0, 0, 0, 500000)), Some(closed), Some(region));
    var t := Ticket(id, created, None, None, None, 0, closed, region);
    assert Survives(r) && DerivedFrom(t, r);
    NormalizeSingle(r, t);
  }

  // ---------------------------------------------------------------------
  // The imperative procedure, proved against Normalize

  /** Filtering one more element of a prefix. */
  lemma KeepPrefixStep(s: seq<Row>, i: int, keep: Row -> bool)
    requires 0 <= i < |s|
    ensures Keep(s[..i + 1], keep) == if keep(s[i]) then Keep(s[..i], keep) + [s[i]] else Keep(s[..i], keep)
  {
    assert s[..i + 1] == s[..i] + [s[i]];
    KeepSnoc(s[..i], s[i], keep);
  }

  /**
   * `drop(..., inplace=True)`: removes, in place, the rows among the first n
   * that fail `keep`, moving the survivors to the front in their order.
   */
  method DropInPlace(a: array<Row>, n: nat, keep: Row -> bool) returns (m: nat)
    requires n <= a.Length
    modifies a
    ensures m <= n
    ensures a[..m] == Keep(old(a[..n]), keep)
  {
    ghost var s := a[..n];
    m := 0;
    var i := 0;
    while i < n
      invariant m <= i <= n
      invariant a[..m] == Keep(s[..i], keep)
      invariant forall k :: i <= k < n ==> a[k] == s[k]
    {
      KeepPrefixStep(s, i, keep);
      var x := a[i];
      if keep(x) {
        ghost var kept := a[..m];
        a[m] := x;
        assert a[..m + 1] == kept + [x];
        m := m + 1;
      }
      i := i + 1;
    }
    assert s[..n] == s;
  }

  /** `data.loc[data.region.isna(), "region"] = "Не указано"`, in place. */
  method FillRegionInPlace(a: array<Row>)
    modifies a
    ensures a[..] == FillRegion(old(a[..]))
  {
    ghost var s := a[..];
    for i := 0 to a.Length
      invariant forall k :: 0 <= k < i ==> a[k] == FillRegionOf(s[k])
      invariant forall k :: i <= k < a.Length ==> a[k] == s[k]
    {
      if a[i].region.None? {
        a[i] := a[i].(region := Some(Unspecified));
      }
    }
  }

  /** The column overwrite with the seconds-of-day lambda, row by row. */
  method ConvertColumn(rows: seq<Row>) returns (result: Result<seq<Ticket>, ImportError>)
    requires forall x :: x in rows ==> x.region.Some? && x.lastAnswer.Some?
    ensures result == Convert(rows)
  {
    var tickets: seq<Ticket> := [];
    assert rows[0..] == rows;
    ChainEmpty(Convert(rows));
    for i := 0 to |rows|
      invariant forall x :: x in rows[i..] ==> x in rows
      invariant Convert(rows) == Chain(Ok(tickets), Convert(rows[i..]))
    {
      ConvertStep(rows, i);
      if rows[i].firstAnswer.None? {
        return Err(FirstAnswerNotATime(rows[i].id));
      }
      ChainOk(tickets, [ToTicket(rows[i])], Convert(rows[i + 1..]));
      tickets := tickets + [ToTicket(rows[i])];
    }
    assert rows[|rows|..] == [];
    assert tickets + [] == tickets;
    result := Ok(tickets);
  }

  lemma ChainEmpty(x: Result<seq<Ticket>, ImportError>)
    ensures Chain(Ok([]), x) == x
  {
    if x.Ok? {
      assert [] + x.value == x.value;
    }
  }

  /** One step of the conversion over a suffix of the rows. */
  lemma ConvertStep(rows: seq<Row>, i: int)
    requires forall x :: x in rows ==> x.region.Some? && x.lastAnswer.Some?
    requires 0 <= i < |rows|
    ensures forall x :: x in rows[i + 1..] ==> x in rows
    ensures rows[i].firstAnswer.None? ==> Convert(rows[i..]) == Err(FirstAnswerNotATime(rows[i].id))
    ensures rows[i].firstAnswer.Some? ==> Convert(rows[i..]) == Chain(Ok([ToTicket(rows[i])]), Convert(rows[i + 1..]))
  {
    var rest := rows[i..];
    assert rest[0] == rows[i] && rest[1..] == rows[i + 1..];
    assert forall x :: x in rows[i + 1..] ==> x in rest;
    assert forall x :: x in rest ==> x in rows;
  }

  /** `handle_excel` on already parsed rows. */
  method HandleExcel(rows: seq<Row>) returns (result: Result<seq<Ticket>, ImportError>)
    ensures result == Normalize(rows)
  {
    var data := new Row[|rows|](i requires 0 <= i < |rows| => rows[i]);
    assert data[..] == rows;
    FillRegionInPlace(data);
    ghost var filled := data[..];
    assert data[..data.Length] == filled;
    var n := DropInPlace(data, data.Length, NotMidnight);
    ghost var answered := data[..n];
    n := DropInPlace(data, n, HasLastAnswer);
    var kept := data[..n];
    assert kept == DropUnanswered(DropMidnight(FillRegion(rows)));
    KeepMembers(filled, NotMidnight);
    KeepMembers(answered, HasLastAnswer);
    result := ConvertColumn(kept);
  }
}
