/**
 * The report view: the query that `default_view` builds from the sidebar's
 * choices, which stored tickets it matches, and the figures computed over
 * the matches (their count and each one's resolution time in whole days).
 */
module Query {
  import opened Wrappers
  import opened Calendar
  import opened Tickets
  import opened Seqs

  /** The first entry of each selector, meaning "no restriction". */
  const RegionAll: string := "РФ"
  const SystemAll: string := "Все системы"
  const TypeAll: string := "Все заявки"
  const StatusAll: string := "Все статусы"

  /**
   * A selector value or a stored text cell: `None` is the NaN that pandas
   * uses for an empty cell. It is written to the store as a NaN, the
   * `distinct` lists offer it as a choice, and `$eq` with NaN matches NaN.
   */
  type Cell = Option<string>

  /** A document-store condition on one field: `{"$eq": v}` or `{"$exists": True}`. */
  datatype FieldFilter = Equals(value: Cell) | Exists

  /** The selected value as a condition, unless it is the field's sentinel. */
  function FieldFilterFor(selected: Cell, sentinel: string): (f: FieldFilter)
    ensures f == Exists <==> selected == Some(sentinel)
    ensures f != Exists ==> f == Equals(selected)
  {
    if selected == Some(sentinel) then Exists else Equals(selected)
  }

  /**
   * Whether a stored field satisfies a condition. Every document the import
   * writes carries every column, so `$exists` always holds; `$eq` compares
   * the cell, a NaN cell matching only the NaN selector.
   */
  predicate FieldMatches(f: FieldFilter, v: Cell) {
    match f
    case Exists => true
    case Equals(x) => v == x
  }

  datatype Query = Query(
    createdFrom: Timestamp,
    createdUntil: Timestamp,
    region: FieldFilter,
    system: FieldFilter,
    ticketType: FieldFilter,
    status: FieldFilter)

  /**
   * The query of `default_view` for the chosen period and selector values.
   * Regions are always filled by the import, so the region list holds only
   * strings; the other three lists may hold the NaN entry.
   */
  function DefaultView(startDate: Timestamp, endDate: Timestamp, region: string, system: Cell,
                       queryType: Cell, status: Cell): Query
  {
    Query(startDate, endDate + SecondsPerDay,
          FieldFilterFor(Some(region), RegionAll), FieldFilterFor(system, SystemAll),
          FieldFilterFor(queryType, TypeAll), FieldFilterFor(status, StatusAll))
  }

  /** `$gte` and `$lte` on the creation date, and the four field conditions. */
  predicate Matches(q: Query, t: Ticket) {
    && q.createdFrom <= t.creationDate <= q.createdUntil
    && FieldMatches(q.region, Some(t.region))
    && FieldMatches(q.system, t.systemId)
    && FieldMatches(q.ticketType, t.ticketType)
    && FieldMatches(q.status, t.status)
  }

  /** `find(query)`: the matching documents, in store order. */
  function Find(q: Query, store: seq<Ticket>): seq<Ticket> {
    Keep(store, t => Matches(q, t))
  }

  // ---------------------------------------------------------------------
  // The query's meaning

  /**
   * A ticket is in the view exactly when it was created between the start
   * and one day after the end, both inclusive, and each selector is either
   * its sentinel or equal to the ticket's field.
   */
  lemma DefaultViewMatches(startDate: Timestamp, endDate: Timestamp, region: string, system: Cell,
                           queryType: Cell, status: Cell, t: Ticket)
    ensures Matches(DefaultView(startDate, endDate, region, system, queryType, status), t) <==>
              && startDate <= t.creationDate <= endDate + SecondsPerDay
              && (region == RegionAll || t.region == region)
              && (system == Some(SystemAll) || t.systemId == system)
              && (queryType == Some(TypeAll) || t.ticketType == queryType)
              && (status == Some(StatusAll) || t.status == status)
  {
  }

  /** With the region sentinel selected, a ticket's region never decides whether it is shown. */
  lemma RegionSentinelIgnoresRegion(startDate: Timestamp, endDate: Timestamp, system: Cell,
                                    queryType: Cell, status: Cell, t: Ticket, otherRegion: string)
    ensures Matches(DefaultView(startDate, endDate, RegionAll, system, queryType, status), t) <==>
            Matches(DefaultView(startDate, endDate, RegionAll, system, queryType, status), t.(region := otherRegion))
  {
  }

  /** The view holds exactly the matching stored tickets, in store order. */
  lemma FindMembers(q: Query, store: seq<Ticket>)
    ensures |Find(q, store)| <= |store|
    ensures forall t :: t in Find(q, store) <==> t in store && Matches(q, t)
  {
    KeepMembers(store, t => Matches(q, t));
  }

  /** Finding over two parts of the store finds over each, in order. */
  lemma FindAppend(q: Query, a: seq<Ticket>, b: seq<Ticket>)
    ensures Find(q, a + b) == Find(q, a) + Find(q, b)
  {
    KeepAppend(a, b, t => Matches(q, t));
  }

  /** With every sentinel selected, the view is the tickets created in the period, in store order. */
  lemma AllSentinelsFindPeriod(startDate: Timestamp, endDate: Timestamp, store: seq<Ticket>)
    ensures Find(DefaultView(startDate, endDate, RegionAll, Some(SystemAll), Some(TypeAll), Some(StatusAll)), store)
            == Keep(store, (t: Ticket) => startDate <= t.creationDate <= endDate + SecondsPerDay)
  {
    var q := DefaultView(startDate, endDate, RegionAll, Some(SystemAll), Some(TypeAll), Some(StatusAll));
    KeepSame(store, t => Matches(q, t), (t: Ticket) => startDate <= t.creationDate <= endDate + SecondsPerDay);
  }

  /** The NaN selector lists exactly the tickets of the period whose cell is empty. */
  lemma MissingSystemSelectable(startDate: Timestamp, endDate: Timestamp, t: Ticket)
    ensures Matches(DefaultView(startDate, endDate, RegionAll, None, Some(TypeAll), Some(StatusAll)), t) <==>
            startDate <= t.creationDate <= endDate + SecondsPerDay && t.systemId.None?
  {
  }

  /**
   * In calendar terms, with both bounds from `to_datetime`: a ticket created
   * `secs` seconds into day d is in the period exactly when d lies between
   * the start and end dates, or is not before the start date and it was
   * created at the very midnight that follows the end date.
   */
  lemma CreationWindowByDate(startDay: Date, endDay: Date, d: Date, secs: int)
    requires 0 <= secs < SecondsPerDay
    ensures (ToDateTime(startDay) <= ToDateTime(d) + secs <= ToDateTime(endDay) + SecondsPerDay) <==>
            !DateBefore(d, startDay) && (!DateBefore(endDay, d) || (DayNumber(d) == DayNumber(endDay) + 1 && secs == 0))
  {
    var s, e, n := DayNumber(startDay), DayNumber(endDay), DayNumber(d);
    assert ToDateTime(startDay) == s * SecondsPerDay;
    assert ToDateTime(endDay) == e * SecondsPerDay;
    assert ToDateTime(d) == n * SecondsPerDay;
    assert s * SecondsPerDay <= n * SecondsPerDay + secs <==> s <= n;
    assert n * SecondsPerDay + secs <= e * SecondsPerDay + SecondsPerDay <==> n <= e || (n == e + 1 && secs == 0);
    ToDateTimeOrder(d, startDay);
    ToDateTimeOrder(endDay, d);
    assert DateBefore(d, startDay) <==> n < s;
    assert DateBefore(endDay, d) <==> e < n;
  }

  // ---------------------------------------------------------------------
  // Resolution time and the figures shown

  /** `(last_answer_date - creation_date).days`: whole days, rounded down. */
  function ResolutionDays(t: Ticket): (d: int)
    ensures d * SecondsPerDay <= t.lastAnswer - t.creationDate < d * SecondsPerDay + SecondsPerDay
  {
    (t.lastAnswer - t.creationDate) / SecondsPerDay
  }

  /** Created 2024-01-01 10:00, answered 2024-01-03 09:00: one whole day; answered a second early: minus one. */
  lemma ResolutionDaysExamples(t: Ticket)
    requires t.creationDate == ToDateTime(CivilDate(2024, 1, 1)) + 10 * 3600
    ensures t.lastAnswer == ToDateTime(CivilDate(2024, 1, 3)) + 9 * 3600 ==> ResolutionDays(t) == 1
    ensures t.lastAnswer == ToDateTime(CivilDate(2024, 1, 3)) ==> ResolutionDays(t) == 1
    ensures t.lastAnswer == t.creationDate - 1 ==> ResolutionDays(t) == -1
  {
  }

  /** What the view shows: the number of matches and each one's resolution time. */
  datatype Summary = Summary(count: nat, resolutionDays: seq<int>)

  function Summarize(found: seq<Ticket>): (r: Summary)
    ensures r.count == |found| && |r.resolutionDays| == |found|
    ensures forall k :: 0 <= k < |found| ==> r.resolutionDays[k] == ResolutionDays(found[k])
  {
    Summary(|found|, seq(|found|, k requires 0 <= k < |found| => ResolutionDays(found[k])))
  }

  /** An empty query result has no `last_answer_date` column to read. */
  datatype ViewError = ColumnMissing(name: string)

  /**
   * `default_view` as written: the resolution column is computed before the
   * count is looked at, and an empty result has no columns at all.
   */
  function DefaultViewAsWritten(q: Query, store: seq<Ticket>): Result<Summary, ViewError> {
    var found := Find(q, store);
    if found == [] then Err(ColumnMissing("last_answer_date")) else Ok(Summarize(found))
  }

  /** The view as intended: a count of zero is reported when nothing matches. */
  function DefaultViewSummary(q: Query, store: seq<Ticket>): Summary {
    Summarize(Find(q, store))
  }

  /** As written, the view fails exactly when nothing matches: on an empty store, always. */
  lemma EmptyResultFailsAsWritten(q: Query, store: seq<Ticket>)
    ensures DefaultViewAsWritten(q, store).Err? <==> forall t :: t in store ==> !Matches(q, t)
    ensures DefaultViewAsWritten(q, []) == Err(ColumnMissing("last_answer_date"))
  {
    FindMembers(q, store);
    if Find(q, store) != [] {
      assert Find(q, store)[0] in Find(q, store);
    }
  }

  /**
   * The corrected view never fails; it reports zero exactly when nothing
   * matches, and otherwise agrees with the view as written.
   */
  lemma SummaryCountsMatches(q: Query, store: seq<Ticket>)
    ensures DefaultViewSummary(q, store).count <= |store|
    ensures DefaultViewSummary(q, store).count == 0 <==> forall t :: t in store ==> !Matches(q, t)
    ensures DefaultViewSummary(q, store).count != 0 ==> DefaultViewAsWritten(q, store) == Ok(DefaultViewSummary(q, store))
  {
    FindMembers(q, store);
    if Find(q, store) != [] {
      assert Find(q, store)[0] in Find(q, store);
    }
  }
}
