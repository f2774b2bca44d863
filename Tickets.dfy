/** The ticket records that flow from an export into the record store. */
module Tickets {
  import opened Wrappers
  import opened Calendar

  /**
   * One row of an export as the spreadsheet reader types it, in the fixed
   * column order id, creation_date, system_id, type, status,
   * first_answer_date, last_answer_date, region. `None` is an empty cell.
   */
  datatype Row = Row(
    id: int,
    creationDate: Timestamp,
    systemId: Option<string>,
    ticketType: Option<string>,
    status: Option<string>,
    firstAnswer: Option<TimeOfDay>,
    lastAnswer: Option<Timestamp>,
    region: Option<string>)

  /**
   * A normalised ticket: the document written to the store. Its region is
   * always filled, its last answer always present, and its first answer is
   * the number of seconds into the day.
   */
  datatype Ticket = Ticket(
    id: int,
    creationDate: Timestamp,
    systemId: Option<string>,
    ticketType: Option<string>,
    status: Option<string>,
    firstAnswerSeconds: int,
    lastAnswer: Timestamp,
    region: string)

  /** The value written into an empty region cell. */
  const Unspecified: string := "Не указано"
}
