# Kayako ticket statistics: a verified model

The system is a small statistics dashboard for tickets exported from the
Kayako help desk. An operator uploads an Excel export. `handle_excel`
normalises its rows:

- a missing region becomes "Не указано";
- rows whose first answer is exactly 00:00:00 are dropped;
- rows without a last answer are dropped;
- the first-answer time of day becomes a number of seconds.

The upload handler then writes each row into a document store, keyed by
ticket id: it inserts the row when the id is new and replaces the stored
document otherwise.

For a report, `default_view` turns the sidebar's choices into a query.
Each of the four selectors (region, system, request type, status) has a
sentinel first entry meaning "all". The creation date must lie between the
start date and one day past the end date. Over the matching documents the
view shows their count and each one's resolution time in whole days.

The Dafny modules follow that structure:

- `Wrappers`: `Option` and `Result`.
- `Calendar`: proleptic Gregorian dates, and `to_datetime` as seconds
  since 0001-01-01 00:00. Its order agrees with the calendar order.
- `Tickets`: a spreadsheet row as read, and a stored ticket after
  normalisation.
- `Seqs`: `Keep`, an order-preserving filter, with its lemmas.
- `DataHandler`: the normalisation.
  - Specified by the function `Normalize`.
  - Implemented by the method `HandleExcel`, which fills the region column
    and compacts an array in place, as the data frame is changed in place.
- `Store`: the keyed collection.
  - `Sync` specifies the upsert loop.
  - `Collection` is a class whose `records` field is the collection. Its
    `Import` method runs the loop of the upload handler.
- `Query`: the report query, its matches, and the figures shown.

On inputs, errors and the store:

- A first answer that is not a time of day (an empty cell) on a row that
  survives the drop rules makes the import fail. In the source, reading
  `.hour` of a missing value raises. The model returns `Err` naming the
  ticket.
- The store is modelled the way the upload handler uses it:
  - `find_one` and `replace_one` act on the first document with the id;
  - `replace_one` without upsert changes nothing when there is no match;
  - every stored document carries every column, so `$exists` always holds;
  - an empty text cell is pandas' NaN. It is stored as a NaN, the selector
    lists offer it, and `$eq` with NaN matches NaN. The model writes it as
    `None` for the system, type and status selectors; regions are always
    filled, so the region selector is a string.

## Model

| member | source | states |
|---|---|---|
| Calendar.DayNumber | kayako_statistics.py:33-34 | the day number of a date lies within the numbering of its own year |
| Calendar.ToDateTime | kayako_statistics.py:33-34 | `to_datetime` gives midnight of the date: a whole number of days, within the date's year |
| Calendar.DaysBeforeYearMonotone | kayako_statistics.py:33-34 | later years start at later day numbers |
| Calendar.DayNumberMonotone | kayako_statistics.py:33-34 | a calendar-earlier date has a smaller day number |
| Calendar.ToDateTimeOrder | kayako_statistics.py:33-34 | midnights compare as the dates compare in the calendar, and are equal iff the dates are |
| Calendar.NextDay | kayako_statistics.py:88 | the day after a date is a later date |
| Calendar.NextDayNumber | kayako_statistics.py:88 | the next day is numbered one past the date, and is the only date so numbered, so one day after the end date's midnight is the next day's midnight |
| Seqs.KeepMembers | data_handler.py:35-36 | a row filter keeps exactly the rows that pass it |
| Seqs.KeepAppend | data_handler.py:35-36 | filtering a concatenation filters each part, in order |
| Seqs.KeepSame | kayako_statistics.py:87-94 | two tests that agree on every element select the same elements |
| DataHandler.SecondsOfDay | data_handler.py:37-39 | the seconds of a time of day lie in [0, 86400), and are 0 exactly at 00:00:00 (sub-second part ignored) |
| DataHandler.SecondsOfDayParts | data_handler.py:37-39 | the hour, minute and second can be read back from the seconds, so the conversion loses nothing but the sub-second part |
| DataHandler.NotMidnight | data_handler.py:35 | the row is kept by the midnight rule iff its first answer is not exactly `time(0, 0, 0)`; specified by `DataHandler.NormalizeRow` and `DataHandler.SubSecondMidnightKept` |
| DataHandler.HasLastAnswer | data_handler.py:36 | the row is kept by the last-answer rule iff it has a last answer; specified by `DataHandler.NormalizeRow` |
| DataHandler.Survives | data_handler.py:35-36 | the row passes both drop rules; specified by `DataHandler.KeptMembers` |
| DataHandler.DropMidnight | data_handler.py:35 | keeps, in order, exactly the rows that pass the midnight rule; specified by `Seqs.KeepMembers` and `Seqs.KeepAppend` |
| DataHandler.DropUnanswered | data_handler.py:36 | keeps, in order, exactly the rows that have a last answer; specified by `Seqs.KeepMembers` and `Seqs.KeepAppend` |
| DataHandler.Normalize | data_handler.py:34-39 | the whole of `handle_excel` after reading; specified row by row by `DataHandler.NormalizeAppend` with `DataHandler.NormalizeRow`, and as a whole by `DataHandler.NormalizeOkIff`, `DataHandler.NormalizeSound` and `DataHandler.NormalizeComplete` |
| DataHandler.FillRegion | data_handler.py:34 | the same rows in the same order, each with a missing region replaced by "Не указано", and then every region is filled |
| DataHandler.Convert | data_handler.py:37-39 | the conversion succeeds iff every row has a first-answer time, and then keeps the row count |
| DataHandler.ConvertAt | data_handler.py:37-39 | on success, row i becomes ticket i |
| DataHandler.ConvertErrNamesRow | data_handler.py:37-39 | on failure, the error names a row that has no first-answer time |
| DataHandler.KeptMembers | data_handler.py:34-36 | after the region fill and both drops, the rows left are exactly the region-filled rows that survive both drop rules |
| DataHandler.FillRegionAppend | data_handler.py:34 | the region fill works row by row |
| DataHandler.ConvertAppend | data_handler.py:37-39 | the conversion works row by row, and the first failing row decides the error |
| DataHandler.NormalizeAppend | data_handler.py:34-39 | normalising a concatenation normalises each part; the first failure wins |
| DataHandler.NormalizeRow | data_handler.py:34-39 | a single row is dropped, makes the import fail, or becomes its ticket, according to the drop rules and its first answer |
| DataHandler.NormalizeSingle | data_handler.py:34-39 | a surviving row with its derived ticket normalises to exactly that ticket |
| DataHandler.DerivedUnique | data_handler.py:34-39 | a row determines its ticket completely |
| DataHandler.NormalizeOkIff | data_handler.py:34-39 | normalisation succeeds iff every surviving row has a first-answer time; otherwise the error names such a row |
| DataHandler.NormalizeSound | data_handler.py:34-39 | no more tickets than rows; each ticket is derived from a row that survives both drop rules |
| DataHandler.NormalizeComplete | data_handler.py:34-39 | every surviving row gives a ticket in the result |
| DataHandler.WorkedExample | data_handler.py:34-39 | three rows: one dropped at 00:00:00, one dropped for no last answer, one kept with 9:15:30 as 33330 seconds and region "Не указано" |
| DataHandler.SubSecondMidnightKept | data_handler.py:35-39 | a first answer of half a second past midnight is not dropped, and is stored as 0 seconds |
| DataHandler.DropInPlace | data_handler.py:35-36 | compacting an array in place leaves, in its prefix, exactly the rows the filter keeps, in order |
| DataHandler.FillRegionInPlace | data_handler.py:34 | filling the region column in place gives the region-filled rows |
| DataHandler.ConvertColumn | data_handler.py:37-39 | the loop over the column gives the conversion's result, including its first error |
| DataHandler.HandleExcel | data_handler.py:34-40 | the in-place pipeline returns what `Normalize` specifies |
| Store.IdsAppend | kayako_statistics.py:69-71 | the ids of a concatenation are the concatenated ids |
| Store.FirstIndex | kayako_statistics.py:69-71 | the position of the first document with the id |
| Store.FirstIndexUnique | kayako_statistics.py:69-71 | the first position with an id is unique |
| Store.FindFirst | kayako_statistics.py:69 | `find_one` finds a document iff one has the id, and then the first one |
| Store.ReplaceFirst | kayako_statistics.py:71 | `replace_one` replaces the first document with the id and nothing else, and changes nothing without one |
| Store.Upsert | kayako_statistics.py:69-71 | one pass of the loop body; specified by `Store.UpsertShape` |
| Store.Sync | kayako_statistics.py:68-71 | the loop over the whole batch; specified by `Store.SyncShape`, `Store.SyncLastWriteWins`, `Store.SyncLeavesOtherIds`, `Store.SyncKeepsIdsUnique`, `Store.SyncIdempotent` and `Store.SyncAppend` |
| Store.LastWith | kayako_statistics.py:68-71 | the last row of the batch with the id |
| Store.UpsertShape | kayako_statistics.py:69-71 | one step inserts at the end for a new id and replaces the first document otherwise |
| Store.IdsAfterStep | kayako_statistics.py:68-71 | the ids after one more row grow by its id iff it is new |
| Store.LastWithStep | kayako_statistics.py:68-71 | the last row with an id in a longer batch |
| Store.UpsertExisting | kayako_statistics.py:69-71 | replacing a known id keeps the ids, the latest-write property and the untouched documents |
| Store.UpsertNew | kayako_statistics.py:69-71 | inserting a new id appends it and keeps the latest-write property and the untouched documents |
| Store.SyncShape | kayako_statistics.py:66-71 | after the loop: the ids are as `IdsAfter` predicts, each batch id holds its latest row, and the other documents are untouched |
| Store.IdsAfterParts | kayako_statistics.py:66-71 | the ids after the loop start with the old ids; the rest are new batch ids; they are exactly the old ids and the batch ids |
| Store.IdsAfterKnown | kayako_statistics.py:66-71 | a batch of known ids adds no ids |
| Store.IdsAfterNoDuplicates | kayako_statistics.py:66-71 | the loop adds no duplicate ids |
| Store.IdsAfterSize | kayako_statistics.py:66-71 | the store grows by the number of distinct new ids |
| Store.SyncLastWriteWins | kayako_statistics.py:66-71 | after the import, a lookup of a batch id finds the last row of the batch with it |
| Store.SyncLeavesOtherIds | kayako_statistics.py:66-71 | the store only grows; documents whose id is not in the batch are unchanged; appended documents carry batch ids; lookups of other ids are unchanged |
| Store.SyncKeepsIdsUnique | kayako_statistics.py:66-71 | a store without duplicate ids keeps none, grows by the distinct new ids, and holds the latest row for each batch id |
| Store.SyncIdempotent | kayako_statistics.py:66-71 | uploading the same file twice leaves the store as after one upload |
| Store.SyncAppend | kayako_statistics.py:66-71 | importing two batches in turn is importing their concatenation |
| Store.ReimportReplaces | kayako_statistics.py:66-71 | two rows with one id leave exactly one document with it, the later row, and add one document at most |
| Store.Collection.constructor | kayako_statistics.py:8-9 | stands for a fresh database: the new collection is empty; the source opens an existing collection, and `Store.Collection.Import`'s contract holds for any starting records |
| Store.Collection.FindOne | kayako_statistics.py:69 | the lookup returns the first document with the id |
| Store.Collection.InsertOne | kayako_statistics.py:70 | the document is appended and nothing else changes |
| Store.Collection.ReplaceOne | kayako_statistics.py:71 | the collection becomes `ReplaceFirst` of its old records |
| Store.Collection.Import | kayako_statistics.py:66-71 | the loop leaves the collection as `Sync` of its old records and the batch |
| Query.FieldFilterFor | kayako_statistics.py:75-86 | a selector becomes `$exists` iff it is its sentinel, and `$eq` of the selected value otherwise |
| Query.DefaultView | kayako_statistics.py:74-93 | the query built from the period and the four selectors; specified by `Query.DefaultViewMatches` |
| Query.Matches | kayako_statistics.py:87-93 | whether a stored ticket satisfies every condition of the query; specified by `Query.DefaultViewMatches` |
| Query.Find | kayako_statistics.py:94 | the documents the query finds; specified by `Query.FindMembers` and `Query.FindAppend` |
| Query.DefaultViewMatches | kayako_statistics.py:74-94 | a ticket is found iff created in [start, end + 1 day] and each selector is its sentinel or equals the ticket's field, a NaN selector matching an empty cell |
| Query.MissingSystemSelectable | kayako_statistics.py:51-56 | choosing the NaN entry of the system list finds exactly the tickets of the period that have no system |
| Query.RegionSentinelIgnoresRegion | kayako_statistics.py:79-80 | with "РФ" selected, changing a ticket's region never changes whether it is found |
| Query.FindMembers | kayako_statistics.py:94 | the result holds exactly the matching stored tickets, and no more than the store |
| Query.FindAppend | kayako_statistics.py:94 | the result keeps store order |
| Query.AllSentinelsFindPeriod | kayako_statistics.py:79-94 | with every sentinel selected, the view is exactly the tickets created in the period, in store order, for any store |
| Query.CreationWindowByDate | kayako_statistics.py:41-43 | for date bounds, a ticket is in the window iff its day is on or after the start day and either not after the end day or it was created at the midnight that starts the day numbered one past the end day, which `Calendar.NextDayNumber` shows is the next day |
| Query.ResolutionDays | kayako_statistics.py:96-98 | the resolution time is the whole number of days, rounded down, between creation and last answer |
| Query.ResolutionDaysExamples | kayako_statistics.py:96-98 | 2024-01-01 10:00 to 2024-01-03 09:00 gives 1; to 2024-01-03 00:00 gives 1; one second before creation gives -1 |
| Query.Summarize | kayako_statistics.py:96-100 | the count is the number of matches, with one resolution time per match, in order |
| Query.DefaultViewAsWritten | kayako_statistics.py:94-102 | the view as written: it fails when nothing matches; specified by `Query.EmptyResultFailsAsWritten` |
| Query.DefaultViewSummary | kayako_statistics.py:94-102 | the view as intended: it reports a count of zero when nothing matches; specified by `Query.SummaryCountsMatches` |
| Query.EmptyResultFailsAsWritten | kayako_statistics.py:94-99 | as written, the view fails exactly when nothing matches, always on an empty store |
| Query.SummaryCountsMatches | kayako_statistics.py:99-102 | the corrected view reports at most the store's size, zero exactly when nothing matches, and otherwise agrees with the view as written |

## Left out

- Reading the workbook (`pd.read_excel`), its column names and its dtype map are left out. The model starts from the parsed rows: the `Row` datatype holds typed cells, and an empty cell is `None`.
- The Streamlit page, sidebar widgets, charts and pie charts, and the `distinct` lists are left out. They are user interface; the selector values and the upload button become parameters.
- The mean and median of the resolution times are floating point and are left out. The model does produce the resolution times themselves.
- The MongoDB connection, the document `_id`, `to_dataframe` and `insert_one`'s `_id` side effect are not modelled. The store is a sequence of tickets in insertion order.
- The `__main__` block of `data_handler.py` prints to the console and is left out.
- Timestamps are whole seconds. The microseconds of creation and last-answer times are not modelled. They matter at the exact `$lte` bound and in the floor of `resolution_time`.
- Query.ResolutionDays: floors the whole-second difference, so it can differ by one from the source's `.dt.days`. When the sub-second parts make the true difference fall just short of a number of whole days, the source rounds down one day further. Example: created at 10:00:00.5 and last answered at 10:00:00 the next day gives 0 in the source and 1 in the model.
- A missing creation date is not modelled: every row has one.
- `to_datetime` near year 9999 is not modelled. Adding a day to 9999-12-31 overflows in Python; the model's integers do not.
- An empty-string region is kept as is. Only a missing region is filled, as in the code, so a blank region is not treated as missing.
- A first answer of 00:00:00.5 keeps its row and becomes 0 seconds. The drop rule compares with exact midnight, so a stored 0 seconds is possible.
- The `$lte end + 1 day` bound includes the first second of the day after the end date. The code is followed; `Query.CreationWindowByDate` states the effect.

## Findings

| source | as written | input that shows it | evidently intended | confidence | as-written member | corrected member |
|---|---|---|---|---|---|---|
| kayako_statistics.py:94-100 | `resolution_time` is computed from `df["last_answer_date"]` before the count is read; an empty query result gives a frame without columns, so this raises before "0" can be shown and the `count != 0` branch is never needed (`Query.EmptyResultFailsAsWritten` states that this happens exactly when nothing matches) | an empty store, or any query that matches no ticket | show a count of 0 when nothing matches (`Query.SummaryCountsMatches` states that the corrected view does so and otherwise agrees with the view as written) | not executed | Query.DefaultViewAsWritten | Query.DefaultViewSummary |
