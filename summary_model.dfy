/** The one persisted entity: a stored summary of a web page. */
module SummaryModel {
  import opened Wrappers

  /**
   A row of the `summaries` table. `id` is the auto-incremented primary key
   and `createdAt` the insertion timestamp, both assigned by the store;
   `content` is the optional scraped text. Timestamps are ticks of a clock
   that never runs backwards.
   */
  datatype Summary = Summary(
    id: nat,
    url: string,
    content: Option<string>,
    summary: string,
    model: string,
    createdAt: nat)
}
