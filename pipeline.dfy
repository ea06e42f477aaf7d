/** The hand-off from the harvest to the writer: what one run of the DAG's
    `fetch_book_data` and `insert_book_data` tasks does to the table. */
module Pipeline {
  import opened Wrappers
  import opened Books
  import opened Session
  import opened Upsert

  /** Whatever a successful harvest hands over is written without error:
      its titles are distinct, so no statement touches a row twice. Every
      harvested record then has its row with the record's authors, price and
      rating, and the table gains exactly one row per title it lacked. */
  lemma HarvestThenUpsert(site: Site, n: int, t: Table, clientNow: Timestamp, txnNow: Timestamp)
    requires Harvest(site, n).books != []
    ensures var books := Harvest(site, n).books;
            var r := UpsertBatch(t, Some(books), clientNow, txnNow);
            && r.Success?
            && |r.value.rows| == |t.rows| + |Titles(books) - t.rows.Keys|
            && (forall i :: 0 <= i < |books| ==>
                  && books[i].title in r.value.rows
                  && r.value.rows[books[i].title].authors == books[i].author
                  && r.value.rows[books[i].title].price == books[i].price
                  && r.value.rows[books[i].title].rating == books[i].rating)
  {
    var books := Harvest(site, n).books;
    HarvestAccepts(site, n);
    DistinctNeverTouchesTwice(books, clientNow);
    UpsertBatchRows(t, books, clientNow, txnNow);
    UpsertBatchFields(t, books, clientNow, txnNow);
  }
}
