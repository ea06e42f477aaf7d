/** `insert_book_data_into_postgres`: the batch
    `INSERT INTO books ... ON CONFLICT (title) DO UPDATE` as an update of a
    table keyed by title. The database clock (`CURRENT_TIMESTAMP`, the
    transaction's start time) and the worker's clock (`datetime.now()`) are
    parameters. */
module Upsert {
  import opened Wrappers
  import opened Books

  type Timestamp = int

  /** One row of `books`, without its key. */
  datatype Row = Row(id: int, authors: string, price: string, rating: string,
                     createdAt: Timestamp, updatedAt: Timestamp)

  /** The `books` table: rows keyed by their unique title, and the next value
      of the SERIAL sequence that numbers them. */
  datatype Table = Table(rows: map<string, Row>, nextId: int)

  /** Every id was drawn from the sequence and no two rows share one. */
  predicate Valid(t: Table)
  {
    && (forall k :: k in t.rows ==> t.rows[k].id < t.nextId)
    && (forall k, k' :: k in t.rows && k' in t.rows && k != k' ==> t.rows[k].id != t.rows[k'].id)
  }

  /** One tuple of `values`: the record's fields and the worker's time. */
  datatype Value = Value(title: string, authors: string, price: string, rating: string, createdAt: Timestamp)

  /** The `values` list built from the records, in order, all stamped with
      the same `current_time`. */
  function Values(batch: seq<Book>, now: Timestamp): (vs: seq<Value>)
    ensures |vs| == |batch|
    ensures forall i :: 0 <= i < |batch| ==>
              vs[i] == Value(batch[i].title, batch[i].author, batch[i].price, batch[i].rating, now)
  {
    seq(|batch|, i requires 0 <= i < |batch| =>
      Value(batch[i].title, batch[i].author, batch[i].price, batch[i].rating, now))
  }

  /** The titles of a list of tuples. */
  function ValueTitles(vs: seq<Value>): set<string>
  {
    set i | 0 <= i < |vs| :: vs[i].title
  }

  /** `execute_values` sends the tuples in statements of this many rows. */
  const PageSize := 100

  /** Two tuples of one statement carry the same title: PostgreSQL refuses an
      `ON CONFLICT DO UPDATE` that would touch the same row a second time. */
  predicate TouchesRowTwice(vs: seq<Value>)
  {
    exists i, j :: 0 <= i < j < |vs| && i / PageSize == j / PageSize && vs[i].title == vs[j].title
  }

  /** One tuple inserted: every tuple draws the next id from the sequence;
      a new title gets a row with that id, `created_at` from the tuple and
      `updated_at` the database time; an existing title gets the tuple's
      authors, price and rating and the database time as `updated_at`, and
      keeps its id and `created_at`. */
  function UpsertRow(t: Table, v: Value, now: Timestamp): Table
  {
    var row :=
      if v.title in t.rows then
        t.rows[v.title].(authors := v.authors, price := v.price, rating := v.rating, updatedAt := now)
      else Row(t.nextId, v.authors, v.price, v.rating, v.createdAt, now);
    Table(t.rows[v.title := row], t.nextId + 1)
  }

  /** The tuples applied one after another. */
  function ApplyValues(t: Table, vs: seq<Value>, now: Timestamp): Table
    decreases |vs|
  {
    if vs == [] then t else ApplyValues(UpsertRow(t, vs[0], now), vs[1..], now)
  }

  datatype PersistError =
    | NoBookData            // nothing was handed over, or an empty list
    | CardinalityViolation  // a statement would update one row twice

  /** The effect of `insert_book_data_into_postgres` on the table: an error
      for a missing or empty batch, an error (and nothing written) when a
      statement would touch a row twice, otherwise the committed table. */
  function UpsertBatch(t: Table, bookData: Option<seq<Book>>, clientNow: Timestamp, txnNow: Timestamp)
    : (r: Result<Table, PersistError>)
    ensures r == Failure(NoBookData) <==> bookData.None? || bookData.value == []
    ensures r == Failure(CardinalityViolation) <==>
              bookData.Some? && bookData.value != [] && TouchesRowTwice(Values(bookData.value, clientNow))
    ensures r.Success? ==> r.value == ApplyValues(t, Values(bookData.value, clientNow), txnNow)
  {
    if bookData.None? || bookData.value == [] then Failure(NoBookData)
    else
      var values := Values(bookData.value, clientNow);
      if TouchesRowTwice(values) then Failure(CardinalityViolation)
      else Success(ApplyValues(t, values, txnNow))
  }

  // ---------------------------------------------------------------------
  // What applying the tuples does

  lemma ValueTitlesCons(vs: seq<Value>)
    requires vs != []
    ensures ValueTitles(vs) == {vs[0].title} + ValueTitles(vs[1..])
  {
  }

  /** The table's titles afterwards are the old ones and the batch's; every
      tuple drew one id from the sequence. */
  lemma {:induction false} ApplyValuesKeys(t: Table, vs: seq<Value>, now: Timestamp)
    ensures ApplyValues(t, vs, now).rows.Keys == t.rows.Keys + ValueTitles(vs)
    ensures ApplyValues(t, vs, now).nextId == t.nextId + |vs|
    decreases |vs|
  {
    if vs != [] {
      ApplyValuesKeys(UpsertRow(t, vs[0], now), vs[1..], now);
      ValueTitlesCons(vs);
    }
  }

  /** Rows whose title is not in the batch are left exactly as they were. */
  lemma {:induction false} ApplyValuesUntouched(t: Table, vs: seq<Value>, now: Timestamp)
    ensures forall k :: k in t.rows && k !in ValueTitles(vs) ==>
              k in ApplyValues(t, vs, now).rows && ApplyValues(t, vs, now).rows[k] == t.rows[k]
    decreases |vs|
  {
    if vs != [] {
      ApplyValuesUntouched(UpsertRow(t, vs[0], now), vs[1..], now);
      ValueTitlesCons(vs);
    }
  }

  /** Rows that existed keep their id and `created_at`. */
  lemma {:induction false} ApplyValuesKeepsIdentity(t: Table, vs: seq<Value>, now: Timestamp)
    ensures forall k :: k in t.rows ==>
              && k in ApplyValues(t, vs, now).rows
              && ApplyValues(t, vs, now).rows[k].id == t.rows[k].id
              && ApplyValues(t, vs, now).rows[k].createdAt == t.rows[k].createdAt
    decreases |vs|
  {
    if vs != [] {
      ApplyValuesKeepsIdentity(UpsertRow(t, vs[0], now), vs[1..], now);
    }
  }

  /** Rows created by the batch carry the batch's `created_at` and an id
      drawn from the sequence during the batch. */
  lemma {:induction false} ApplyValuesNewRows(t: Table, vs: seq<Value>, now: Timestamp, created: Timestamp)
    requires forall i :: 0 <= i < |vs| ==> vs[i].createdAt == created
    ensures var r := ApplyValues(t, vs, now);
            forall k :: k in r.rows && k !in t.rows ==>
              r.rows[k].createdAt == created && t.nextId <= r.rows[k].id < t.nextId + |vs|
    decreases |vs|
  {
    if vs != [] {
      var t' := UpsertRow(t, vs[0], now);
      ApplyValuesNewRows(t', vs[1..], now, created);
      ApplyValuesKeepsIdentity(t', vs[1..], now);
    }
  }

  /** No tuple after position i carries the title of tuple i. */
  predicate LastWithTitle(vs: seq<Value>, i: int)
    requires 0 <= i < |vs|
  {
    forall j :: i < j < |vs| ==> vs[j].title != vs[i].title
  }

  /** The row of v's title holds v's authors, price and rating, updated at `now`. */
  predicate RowHolds(t: Table, v: Value, now: Timestamp)
  {
    && v.title in t.rows
    && t.rows[v.title].authors == v.authors
    && t.rows[v.title].price == v.price
    && t.rows[v.title].rating == v.rating
    && t.rows[v.title].updatedAt == now
  }

  /** Every batch title ends with `updated_at` set to the database time and
      with the authors, price and rating of the last tuple carrying it. */
  lemma {:induction false} ApplyValuesLastWins(t: Table, vs: seq<Value>, now: Timestamp, i: int)
    requires 0 <= i < |vs| && LastWithTitle(vs, i)
    ensures RowHolds(ApplyValues(t, vs, now), vs[i], now)
    decreases |vs|
  {
    var t' := UpsertRow(t, vs[0], now);
    if i == 0 {
      ApplyValuesUntouched(t', vs[1..], now);
      assert vs[0].title !in ValueTitles(vs[1..]);
    } else {
      assert vs[i] == vs[1..][i - 1];
      assert LastWithTitle(vs[1..], i - 1) by {
        forall j | i - 1 < j < |vs[1..]| ensures vs[1..][j].title != vs[1..][i - 1].title {
          assert vs[1..][j] == vs[j + 1];
        }
      }
      ApplyValuesLastWins(t', vs[1..], now, i - 1);
    }
  }

  /** Every batch title has its `updated_at` set to the database time. */
  lemma {:induction false} ApplyValuesTouched(t: Table, vs: seq<Value>, now: Timestamp)
    ensures forall k :: k in ValueTitles(vs) ==>
              k in ApplyValues(t, vs, now).rows && ApplyValues(t, vs, now).rows[k].updatedAt == now
    decreases |vs|
  {
    if vs != [] {
      var t' := UpsertRow(t, vs[0], now);
      ApplyValuesTouched(t', vs[1..], now);
      ApplyValuesUntouched(t', vs[1..], now);
      ValueTitlesCons(vs);
    }
  }

  /** Applying the tuples keeps ids drawn from the sequence and distinct. */
  lemma {:induction false} ApplyValuesValid(t: Table, vs: seq<Value>, now: Timestamp)
    requires Valid(t)
    ensures Valid(ApplyValues(t, vs, now))
    decreases |vs|
  {
    if vs != [] {
      var t' := UpsertRow(t, vs[0], now);
      assert Valid(t');
      ApplyValuesValid(t', vs[1..], now);
    }
  }

  /** The authors, price and rating a batch leaves on its titles depend only
      on the batch, not on the table it was applied to, nor on either clock. */
  lemma {:induction false} ApplyValuesSameFields(a: Table, b: Table, vs: seq<Value>, vs': seq<Value>,
                                                 nowA: Timestamp, nowB: Timestamp)
    requires |vs| == |vs'|
    requires forall i :: 0 <= i < |vs| ==> vs[i].(createdAt := 0) == vs'[i].(createdAt := 0)
    ensures forall k :: k in ValueTitles(vs) ==>
              var ra := ApplyValues(a, vs, nowA).rows;
              var rb := ApplyValues(b, vs', nowB).rows;
              k in ra && k in rb &&
              ra[k].authors == rb[k].authors && ra[k].price == rb[k].price && ra[k].rating == rb[k].rating
    decreases |vs|
  {
    if vs != [] {
      assert vs[0].(createdAt := 0) == vs'[0].(createdAt := 0);
      var a' := UpsertRow(a, vs[0], nowA);
      var b' := UpsertRow(b, vs'[0], nowB);
      assert forall i :: 0 <= i < |vs[1..]| ==> vs[1..][i] == vs[i + 1] && vs'[1..][i] == vs'[i + 1];
      ApplyValuesSameFields(a', b', vs[1..], vs'[1..], nowA, nowB);
      ApplyValuesUntouched(a', vs[1..], nowA);
      ApplyValuesUntouched(b', vs'[1..], nowB);
      ValueTitlesCons(vs);
      ValueTitlesCons(vs');
      assert vs[0].title == vs'[0].title;
      assert ValueTitles(vs[1..]) == ValueTitles(vs'[1..]) by {
        forall k | k in ValueTitles(vs[1..]) ensures k in ValueTitles(vs'[1..]) {
          var i :| 0 <= i < |vs[1..]| && vs[1..][i].title == k;
          assert vs'[1..][i].title == vs[1..][i].(createdAt := 0).title;
        }
        forall k | k in ValueTitles(vs'[1..]) ensures k in ValueTitles(vs[1..]) {
          var i :| 0 <= i < |vs'[1..]| && vs'[1..][i].title == k;
          assert vs[1..][i].title == vs'[1..][i].(createdAt := 0).title;
        }
      }
    }
  }

  lemma ValuesTitles(batch: seq<Book>, now: Timestamp)
    ensures ValueTitles(Values(batch, now)) == Titles(batch)
  {
  }

  lemma SetUnionSize(a: set<string>, b: set<string>)
    ensures |a + b| == |a| + |b - a|
  {
  }

  // ---------------------------------------------------------------------
  // What a committed batch does to the table

  /** After a committed batch the table holds the old titles and the batch's
      titles; rows outside the batch are unchanged; the row count grows by
      exactly the number of titles that were new. */
  lemma UpsertBatchRows(t: Table, batch: seq<Book>, clientNow: Timestamp, txnNow: Timestamp)
    requires UpsertBatch(t, Some(batch), clientNow, txnNow).Success?
    ensures var r := UpsertBatch(t, Some(batch), clientNow, txnNow).value;
            && r.rows.Keys == t.rows.Keys + Titles(batch)
            && |r.rows| == |t.rows| + |Titles(batch) - t.rows.Keys|
            && (forall k :: k in t.rows && k !in Titles(batch) ==> k in r.rows && r.rows[k] == t.rows[k])
            && r.nextId == t.nextId + |batch|
  {
    var vs := Values(batch, clientNow);
    var r := ApplyValues(t, vs, txnNow);
    ValuesTitles(batch, clientNow);
    ApplyValuesKeys(t, vs, txnNow);
    ApplyValuesUntouched(t, vs, txnNow);
    SetUnionSize(t.rows.Keys, Titles(batch));
    assert |r.rows| == |r.rows.Keys|;
    assert |t.rows| == |t.rows.Keys|;
  }

  /** After a committed batch every record's title maps to a row with the
      record's authors, price and rating (the last record, should a title
      occur twice) and `updated_at` the database time; rows that existed
      keep their id and `created_at`; new rows get `created_at` the worker's
      time and a fresh id; ids stay distinct. */
  lemma UpsertBatchFields(t: Table, batch: seq<Book>, clientNow: Timestamp, txnNow: Timestamp)
    requires UpsertBatch(t, Some(batch), clientNow, txnNow).Success?
    ensures var r := UpsertBatch(t, Some(batch), clientNow, txnNow).value;
            && (forall i :: 0 <= i < |batch| && (forall j :: i < j < |batch| ==> batch[j].title != batch[i].title) ==>
                  && batch[i].title in r.rows
                  && r.rows[batch[i].title].authors == batch[i].author
                  && r.rows[batch[i].title].price == batch[i].price
                  && r.rows[batch[i].title].rating == batch[i].rating
                  && r.rows[batch[i].title].updatedAt == txnNow)
            && (forall k :: k in t.rows ==>
                  k in r.rows && r.rows[k].id == t.rows[k].id && r.rows[k].createdAt == t.rows[k].createdAt)
            && (forall k :: k in r.rows && k !in t.rows ==>
                  r.rows[k].createdAt == clientNow && r.rows[k].updatedAt == txnNow && r.rows[k].id >= t.nextId)
            && (Valid(t) ==> Valid(r))
  {
    var vs := Values(batch, clientNow);
    var r := ApplyValues(t, vs, txnNow);
    forall i | 0 <= i < |batch| && (forall j :: i < j < |batch| ==> batch[j].title != batch[i].title)
      ensures RowHolds(r, vs[i], txnNow)
    {
      ApplyValuesLastWins(t, vs, txnNow, i);
    }
    ApplyValuesKeepsIdentity(t, vs, txnNow);
    ApplyValuesNewRows(t, vs, txnNow, clientNow);
    ApplyValuesKeys(t, vs, txnNow);
    ApplyValuesTouched(t, vs, txnNow);
    if Valid(t) { ApplyValuesValid(t, vs, txnNow); }
  }

  /** Re-running the same batch commits again and changes nothing but
      `updated_at` of the batch's titles (and the sequence): the same titles,
      the same count, the same ids, `created_at`, authors, price and rating. */
  lemma UpsertBatchTwice(t: Table, batch: seq<Book>, clientNow: Timestamp, txnNow: Timestamp,
                         clientLater: Timestamp, txnLater: Timestamp)
    requires UpsertBatch(t, Some(batch), clientNow, txnNow).Success?
    ensures var once := UpsertBatch(t, Some(batch), clientNow, txnNow).value;
            var twice := UpsertBatch(once, Some(batch), clientLater, txnLater);
            && twice.Success?
            && twice.value.rows == (map k | k in once.rows ::
                 if k in Titles(batch) then once.rows[k].(updatedAt := txnLater) else once.rows[k])
            && |twice.value.rows| == |once.rows|
  {
    var vs := Values(batch, clientNow);
    var vs' := Values(batch, clientLater);
    var once := ApplyValues(t, vs, txnNow);
    assert TouchesRowTwice(vs') == TouchesRowTwice(vs) by {
      assert forall i :: 0 <= i < |vs| ==> vs[i].title == vs'[i].title;
    }
    var twice := ApplyValues(once, vs', txnLater);
    assert UpsertBatch(once, Some(batch), clientLater, txnLater) == Success(twice);
    var m := map k | k in once.rows ::
               if k in Titles(batch) then once.rows[k].(updatedAt := txnLater) else once.rows[k];
    ReapplySameRows(t, vs, vs', txnNow, txnLater);
    ValuesTitles(batch, clientNow);
    assert twice.rows == m;
    assert twice.rows.Keys == once.rows.Keys;
    assert |twice.rows| == |twice.rows.Keys| && |once.rows| == |once.rows.Keys|;
  }

  /** The core of UpsertBatchTwice, on tuple lists with the same titles and
      fields (they differ only in the worker's time). */
  lemma ReapplySameRows(t: Table, vs: seq<Value>, vs': seq<Value>, now: Timestamp, later: Timestamp)
    requires |vs| == |vs'|
    requires forall i :: 0 <= i < |vs| ==> vs[i].(createdAt := 0) == vs'[i].(createdAt := 0)
    ensures var once := ApplyValues(t, vs, now);
            ApplyValues(once, vs', later).rows == (map k | k in once.rows ::
              if k in ValueTitles(vs) then once.rows[k].(updatedAt := later) else once.rows[k])
  {
    var once := ApplyValues(t, vs, now);
    var twice := ApplyValues(once, vs', later);
    assert ValueTitles(vs') == ValueTitles(vs) by {
      forall k | k in ValueTitles(vs) ensures k in ValueTitles(vs') {
        var i :| 0 <= i < |vs| && vs[i].title == k;
        assert vs'[i].title == vs[i].(createdAt := 0).title;
      }
      forall k | k in ValueTitles(vs') ensures k in ValueTitles(vs) {
        var i :| 0 <= i < |vs'| && vs'[i].title == k;
        assert vs[i].title == vs'[i].(createdAt := 0).title;
      }
    }
    ApplyValuesKeys(t, vs, now);
    ApplyValuesKeys(once, vs', later);
    var m := map k | k in once.rows ::
               if k in ValueTitles(vs) then once.rows[k].(updatedAt := later) else once.rows[k];
    forall k | k in m ensures k in twice.rows && twice.rows[k] == m[k] {
      ReapplyRow(t, vs, vs', now, later, k);
    }
    assert twice.rows.Keys == m.Keys;
  }

  lemma ReapplyRow(t: Table, vs: seq<Value>, vs': seq<Value>, now: Timestamp, later: Timestamp, k: string)
    requires |vs| == |vs'|
    requires forall i :: 0 <= i < |vs| ==> vs[i].(createdAt := 0) == vs'[i].(createdAt := 0)
    requires ValueTitles(vs') == ValueTitles(vs)
    requires k in ApplyValues(t, vs, now).rows
    ensures var once := ApplyValues(t, vs, now);
            var twice := ApplyValues(once, vs', later);
            k in twice.rows &&
            twice.rows[k] == if k in ValueTitles(vs) then once.rows[k].(updatedAt := later) else once.rows[k]
  {
    var once := ApplyValues(t, vs, now);
    var twice := ApplyValues(once, vs', later);
    ApplyValuesKeepsIdentity(once, vs', later);
    ApplyValuesUntouched(once, vs', later);
    if k in ValueTitles(vs) {
      ApplyValuesTouched(once, vs', later);
      ApplyValuesSameFields(t, once, vs, vs', now, later);
    }
  }

  /** A batch whose titles are distinct never makes a statement touch a row
      twice, so only a missing or empty batch can make it fail. */
  lemma DistinctNeverTouchesTwice(batch: seq<Book>, now: Timestamp)
    requires DistinctTitles(batch)
    ensures !TouchesRowTwice(Values(batch, now))
  {
  }

  // ---------------------------------------------------------------------
  // The table as the writer updates it

  /** The live `books` table. */
  class BooksTable {
    var rows: map<string, Row>
    var nextId: int

    /** The table right after `CREATE TABLE IF NOT EXISTS books` on an empty
        database: no rows, and the SERIAL sequence starts at 1. */
    constructor ()
      ensures rows == map[] && nextId == 1
      ensures Valid(Snapshot())
    {
      rows := map[];
      nextId := 1;
    }

    /** The table's current contents. */
    function Snapshot(): Table
      reads this
    {
      Table(rows, nextId)
    }

    /** `insert_book_data_into_postgres`: refuses a missing or empty batch
        before touching the table; otherwise applies the tuples one after
        another to the transaction's view of the table and commits, or, when
        a statement would update a row twice, rolls back and leaves the table
        as it was. Returns the number of tuples sent. */
    method InsertBookData(bookData: Option<seq<Book>>, clientNow: Timestamp, txnNow: Timestamp)
      returns (r: Result<nat, PersistError>)
      modifies this
      ensures var expected := UpsertBatch(old(Snapshot()), bookData, clientNow, txnNow);
              && (expected.Success? ==> r == Success(|bookData.value|) && Snapshot() == expected.value)
              && (expected.Failure? ==> r == Failure(expected.error) && Snapshot() == old(Snapshot()))
      ensures Valid(old(Snapshot())) ==> Valid(Snapshot())
    {
      if bookData.None? || bookData.value == [] {
        return Failure(NoBookData);
      }
      var values := Values(bookData.value, clientNow);
      if TouchesRowTwice(values) {
        // The offending statement raises; the transaction is never committed.
        return Failure(CardinalityViolation);
      }
      ghost var start := Snapshot();
      var staged := Snapshot();
      for i := 0 to |values|
        invariant ApplyValues(staged, values[i..], txnNow) == ApplyValues(start, values, txnNow)
      {
        assert values[i..][0] == values[i] && values[i..][1..] == values[i + 1..];
        staged := UpsertRow(staged, values[i], txnNow);
      }
      // conn.commit()
      rows, nextId := staged.rows, staged.nextId;
      r := Success(|values|);
      if Valid(start) {
        ApplyValuesValid(start, values, txnNow);
      }
    }
  }
}
