/**
 * `update_csv`: the day averages of one symbol are merged into the CSV store.
 * Only dates not yet stored for that symbol are appended, after the existing
 * rows, and the file is rewritten only when something was appended.
 */
module StoreMerger {
  import opened Wrappers
  import opened Dates
  import opened Dicts

  /** One line `symbol,date,sentiment` of the store. */
  datatype Row = Row(symbol: string, date: Date, sentiment: real)

  /** What pandas raises for `.dt` on a column that does not hold datetimes. */
  const DtAccessorError := "AttributeError: Can only use .dt accessor with datetimelike values"

  /** `set(df[df['symbol'] == symbol]['date'].dt.date)`: the dates stored for `symbol`. */
  function StoredDates(rows: seq<Row>, symbol: string): (ds: set<Date>)
    ensures forall d :: d in ds <==>
              exists i :: 0 <= i < |rows| && rows[i].symbol == symbol && rows[i].date == d
  {
    set i | 0 <= i < |rows| && rows[i].symbol == symbol :: rows[i].date
  }

  /**
   * Reading the store and collecting its dates as the code is written. The
   * store is `None` when the file does not exist; the frame built for that case
   * has untyped (object) columns, so the `.dt` accessor raises.
   */
  function ExistingDatesAsWritten(store: Option<seq<Row>>, symbol: string): (r: Result<set<Date>, string>)
    ensures r.Err? <==> store.None?
    ensures r.Ok? ==> r.value == StoredDates(store.value, symbol)
  {
    match store
    case None => Err(DtAccessorError)
    case Some(rows) => Ok(StoredDates(rows, symbol))
  }

  /** As written, the first run, with no store file yet, raises before anything is merged. */
  lemma MissingStoreRaises(symbol: string)
    ensures ExistingDatesAsWritten(None, symbol) == Err(DtAccessorError)
  {
  }

  /** The rows of the store; a missing file is an empty frame. */
  function LoadedRows(store: Option<seq<Row>>): (rows: seq<Row>)
    ensures store.None? ==> rows == []
    ensures store.Some? ==> rows == store.value
  {
    store.GetOr([])
  }

  /**
   * The dates already stored for `symbol`, with a missing store read as the
   * empty frame it stands for. It agrees with the code wherever the code does
   * not raise.
   */
  function ExistingDates(store: Option<seq<Row>>, symbol: string): (ds: set<Date>)
    ensures store.None? ==> ds == {}
    ensures ExistingDatesAsWritten(store, symbol).Ok? ==> ds == ExistingDatesAsWritten(store, symbol).value
  {
    StoredDates(LoadedRows(store), symbol)
  }

  /** The rows the loop collects in `new_rows`, visiting `keys` in order. */
  function NewRows(keys: seq<Date>, entries: map<Date, real>, existing: set<Date>, symbol: string): (rows: seq<Row>)
    requires forall i :: 0 <= i < |keys| ==> keys[i] in entries
    ensures |rows| <= |keys|
    decreases |keys|
  {
    if keys == [] then []
    else
      var d := keys[|keys| - 1];
      NewRows(keys[..|keys| - 1], entries, existing, symbol) +
        (if d !in existing then [Row(symbol, d, entries[d])] else [])
  }

  /** The rows appended when `data` is merged into `store` for `symbol`. */
  function Appended(store: Option<seq<Row>>, symbol: string, data: DateDict<real>): (added: seq<Row>)
    requires data.Valid()
    ensures forall i :: 0 <= i < |added| ==>
              added[i].symbol == symbol && added[i].date in data.entries && added[i].date !in ExistingDates(store, symbol)
    ensures added == [] <==> forall d :: d in data.entries ==> d in ExistingDates(store, symbol)
  {
    var existing := ExistingDates(store, symbol);
    NewRowsShape(data.keys, data.entries, existing, symbol);
    NewRowsEmpty(data.keys, data.entries, existing, symbol);
    NewRows(data.keys, data.entries, existing, symbol)
  }

  /** The store after the merge: rewritten with the new rows after the old, or untouched. */
  function StoreAfter(store: Option<seq<Row>>, symbol: string, data: DateDict<real>): (after: Option<seq<Row>>)
    requires data.Valid()
    ensures after == store <==> Appended(store, symbol, data) == []
    ensures after.Some? ==> |LoadedRows(store)| <= |after.value| && after.value[..|LoadedRows(store)|] == LoadedRows(store)
  {
    var added := Appended(store, symbol, data);
    if added == [] then store else Some(LoadedRows(store) + added)
  }

  /**
   * `update_csv` with a missing store read as empty. `written` is what
   * `to_csv` writes, `None` when nothing is written; `count` is
   * `len(new_rows)`. The old rows stay first and unchanged, every new row is
   * for `symbol` and a date not stored for it, and nothing is written exactly
   * when every date of `sentimentData` is already stored for `symbol`.
   */
  method UpdateCsv(store: Option<seq<Row>>, symbol: string, sentimentData: DateDict<real>)
    returns (written: Option<seq<Row>>, count: nat)
    requires sentimentData.Valid()
    ensures count == |Appended(store, symbol, sentimentData)|
    ensures written == if count == 0 then None else StoreAfter(store, symbol, sentimentData)
    ensures written.Some? ==>
              && |written.value| == |LoadedRows(store)| + count
              && written.value[..|LoadedRows(store)|] == LoadedRows(store)
              && forall i :: |LoadedRows(store)| <= i < |written.value| ==>
                   written.value[i].symbol == symbol && written.value[i].date !in ExistingDates(store, symbol)
    ensures written.None? <==> forall d :: d in sentimentData.entries ==> d in ExistingDates(store, symbol)
  {
    var df := if store.Some? then store.value else [];
    var existingDates := StoredDates(df, symbol);
    var newRows := [];
    for i := 0 to |sentimentData.keys|
      invariant newRows == NewRows(sentimentData.keys[..i], sentimentData.entries, existingDates, symbol)
    {
      var date := sentimentData.keys[i];
      var sentiment := sentimentData.entries[date];
      assert sentimentData.keys[..i + 1][..i] == sentimentData.keys[..i];
      if date !in existingDates {
        newRows := newRows + [Row(symbol, date, sentiment)];
      }
    }
    assert sentimentData.keys[..|sentimentData.keys|] == sentimentData.keys;
    NewRowsEmpty(sentimentData.keys, sentimentData.entries, existingDates, symbol);
    if newRows != [] {
      written := Some(df + newRows);
      count := |newRows|;
      StoreAfterShape(store, symbol, sentimentData);
    } else {
      written := None;
      count := 0;
    }
  }

  /**
   * When something is appended, the rewritten store holds the old rows
   * first and unchanged, then only rows for `symbol` on dates it had not
   * stored.
   */
  lemma StoreAfterShape(store: Option<seq<Row>>, symbol: string, data: DateDict<real>)
    requires data.Valid()
    requires Appended(store, symbol, data) != []
    ensures var loaded, added := LoadedRows(store), Appended(store, symbol, data);
            var w := StoreAfter(store, symbol, data);
            && w == Some(loaded + added)
            && |w.value| == |loaded| + |added|
            && w.value[..|loaded|] == loaded
            && forall i :: |loaded| <= i < |w.value| ==>
                 w.value[i].symbol == symbol && w.value[i].date !in ExistingDates(store, symbol)
  {
    var loaded, added := LoadedRows(store), Appended(store, symbol, data);
    NewRowsShape(data.keys, data.entries, ExistingDates(store, symbol), symbol);
    var w := loaded + added;
    assert w[..|loaded|] == loaded;
    forall i | |loaded| <= i < |w|
      ensures w[i].symbol == symbol && w[i].date !in ExistingDates(store, symbol)
    {
      assert w[i] == added[i - |loaded|];
    }
  }

  // ---------------------------------------------------------------------
  // Properties of the merge

  /**
   * Every new row carries `symbol`, a date of the input that is not among
   * `existing`, and that date's value from the input.
   */
  lemma {:induction false} NewRowsShape(keys: seq<Date>, entries: map<Date, real>, existing: set<Date>, symbol: string)
    requires forall i :: 0 <= i < |keys| ==> keys[i] in entries
    ensures forall r :: r in NewRows(keys, entries, existing, symbol) ==>
              && r.symbol == symbol
              && r.date in keys
              && r.date !in existing
              && r.date in entries
              && r.sentiment == entries[r.date]
    decreases |keys|
  {
    if keys != [] {
      NewRowsShape(keys[..|keys| - 1], entries, existing, symbol);
      assert forall d :: d in keys[..|keys| - 1] ==> d in keys;
    }
  }

  /** Nothing is new exactly when every input date is already stored. */
  lemma {:induction false} NewRowsEmpty(keys: seq<Date>, entries: map<Date, real>, existing: set<Date>, symbol: string)
    requires forall i :: 0 <= i < |keys| ==> keys[i] in entries
    ensures NewRows(keys, entries, existing, symbol) == [] <==> forall i :: 0 <= i < |keys| ==> keys[i] in existing
    decreases |keys|
  {
    if keys != [] {
      var init := keys[..|keys| - 1];
      NewRowsEmpty(init, entries, existing, symbol);
      assert forall i :: 0 <= i < |init| ==> init[i] == keys[i];
    }
  }

  /** The number of rows in `rows` dated `d`. */
  function CountDated(rows: seq<Row>, d: Date): nat
    decreases |rows|
  {
    if rows == [] then 0
    else CountDated(rows[..|rows| - 1], d) + (if rows[|rows| - 1].date == d then 1 else 0)
  }

  lemma {:induction false} CountDatedAppend(rows: seq<Row>, more: seq<Row>, d: Date)
    ensures CountDated(rows + more, d) == CountDated(rows, d) + CountDated(more, d)
    decreases |more|
  {
    if more == [] {
      assert rows + more == rows;
    } else {
      var init := more[..|more| - 1];
      assert (rows + more)[..|rows + more| - 1] == rows + init;
      CountDatedAppend(rows, init, d);
    }
  }

  /**
   * Every input date is either already stored, and then not appended, or
   * appended exactly once.
   */
  lemma {:induction false} NewRowsOncePerDate(keys: seq<Date>, entries: map<Date, real>, existing: set<Date>, symbol: string, d: Date)
    requires forall i :: 0 <= i < |keys| ==> keys[i] in entries
    requires Distinct(keys)
    requires d in keys
    ensures CountDated(NewRows(keys, entries, existing, symbol), d) == if d in existing then 0 else 1
    decreases |keys|
  {
    var init, last := keys[..|keys| - 1], keys[|keys| - 1];
    var tail := if last !in existing then [Row(symbol, last, entries[last])] else [];
    CountDatedAppend(NewRows(init, entries, existing, symbol), tail, d);
    assert CountDated(tail, d) == if last !in existing && last == d then 1 else 0 by {
      if tail != [] {
        assert tail[..0] == [];
      }
    }
    if last == d {
      assert d !in init;
      NewRowsNotDated(init, entries, existing, symbol, d);
    } else {
      assert d in init;
      NewRowsOncePerDate(init, entries, existing, symbol, d);
    }
  }

  lemma NewRowsNotDated(keys: seq<Date>, entries: map<Date, real>, existing: set<Date>, symbol: string, d: Date)
    requires forall i :: 0 <= i < |keys| ==> keys[i] in entries
    requires d !in keys
    ensures CountDated(NewRows(keys, entries, existing, symbol), d) == 0
  {
    NewRowsShape(keys, entries, existing, symbol);
    CountDatedZero(NewRows(keys, entries, existing, symbol), d);
  }

  lemma {:induction false} CountDatedZero(rows: seq<Row>, d: Date)
    requires forall r :: r in rows ==> r.date != d
    ensures CountDated(rows, d) == 0
    decreases |rows|
  {
    if rows != [] {
      var init := rows[..|rows| - 1];
      assert forall r :: r in init ==> r in rows;
      CountDatedZero(init, d);
    }
  }

  /** No date occurs twice among `rows`. */
  ghost predicate DistinctDates(rows: seq<Row>) {
    forall i, j :: 0 <= i < j < |rows| ==> rows[i].date != rows[j].date
  }

  /** The dates of the new rows are all different, since the input's keys are. */
  lemma {:induction false} NewRowsDistinctDates(keys: seq<Date>, entries: map<Date, real>, existing: set<Date>, symbol: string)
    requires forall i :: 0 <= i < |keys| ==> keys[i] in entries
    requires Distinct(keys)
    ensures DistinctDates(NewRows(keys, entries, existing, symbol))
    decreases |keys|
  {
    if keys != [] {
      var init, last := keys[..|keys| - 1], keys[|keys| - 1];
      var rest := NewRows(init, entries, existing, symbol);
      NewRowsDistinctDates(init, entries, existing, symbol);
      NewRowsShape(init, entries, existing, symbol);
      assert last !in init;
      var rows := NewRows(keys, entries, existing, symbol);
      if last !in existing {
        assert rows == rest + [Row(symbol, last, entries[last])];
        forall i, j | 0 <= i < j < |rows|
          ensures rows[i].date != rows[j].date
        {
          assert rows[i] == rest[i];
          if j < |rest| {
            assert rows[j] == rest[j];
          } else {
            assert rest[i] in rest;
          }
        }
      } else {
        assert rows == rest;
      }
    }
  }

  /** No `(symbol, date)` pair occurs twice. */
  ghost predicate UniqueKeys(rows: seq<Row>) {
    forall i, j :: 0 <= i < j < |rows| ==> rows[i].symbol != rows[j].symbol || rows[i].date != rows[j].date
  }

  /** A merge keeps `(symbol, date)` pairs unique. */
  lemma MergeKeepsKeysUnique(store: Option<seq<Row>>, symbol: string, data: DateDict<real>)
    requires data.Valid()
    requires UniqueKeys(LoadedRows(store))
    ensures UniqueKeys(LoadedRows(StoreAfter(store, symbol, data)))
  {
    var old_ := LoadedRows(store);
    var existing := ExistingDates(store, symbol);
    var added := Appended(store, symbol, data);
    NewRowsShape(data.keys, data.entries, existing, symbol);
    NewRowsDistinctDates(data.keys, data.entries, existing, symbol);
    if added != [] {
      var rows := old_ + added;
      forall i, j | 0 <= i < j < |rows|
        ensures rows[i].symbol != rows[j].symbol || rows[i].date != rows[j].date
      {
        if j >= |old_| {
          var a := rows[j];
          assert a == added[j - |old_|];
          assert a in added;
          if i < |old_| {
            assert rows[i] == old_[i];
            if rows[i].symbol == symbol {
              assert rows[i].date in existing;
            }
          } else {
            assert rows[i] == added[i - |old_|];
          }
        } else {
          assert rows[i] == old_[i] && rows[j] == old_[j];
        }
      }
    }
  }

  /** Merging the same data a second time appends nothing and leaves the store as it is. */
  lemma MergeIdempotent(store: Option<seq<Row>>, symbol: string, data: DateDict<real>)
    requires data.Valid()
    ensures Appended(StoreAfter(store, symbol, data), symbol, data) == []
    ensures StoreAfter(StoreAfter(store, symbol, data), symbol, data) == StoreAfter(store, symbol, data)
  {
    MergeStoresEveryDate(store, symbol, data);
    NewRowsEmpty(data.keys, data.entries, ExistingDates(StoreAfter(store, symbol, data), symbol), symbol);
  }

  /** After a merge, every date of the data is stored for the symbol. */
  lemma MergeStoresEveryDate(store: Option<seq<Row>>, symbol: string, data: DateDict<real>)
    requires data.Valid()
    ensures forall i :: 0 <= i < |data.keys| ==> data.keys[i] in ExistingDates(StoreAfter(store, symbol, data), symbol)
  {
    forall i | 0 <= i < |data.keys|
      ensures data.keys[i] in ExistingDates(StoreAfter(store, symbol, data), symbol)
    {
      if data.keys[i] in ExistingDates(store, symbol) {
        StoredDateKept(store, symbol, data, data.keys[i]);
      } else {
        NewDateStored(store, symbol, data, i);
      }
    }
  }

  /** A date stored before the merge is still stored after it. */
  lemma StoredDateKept(store: Option<seq<Row>>, symbol: string, data: DateDict<real>, d: Date)
    requires data.Valid()
    requires d in ExistingDates(store, symbol)
    ensures d in ExistingDates(StoreAfter(store, symbol, data), symbol)
  {
    var k :| 0 <= k < |LoadedRows(store)| && LoadedRows(store)[k].symbol == symbol && LoadedRows(store)[k].date == d;
    if Appended(store, symbol, data) != [] {
      assert LoadedRows(StoreAfter(store, symbol, data))[k] == LoadedRows(store)[k];
    }
  }

  /** A date of the data that was not stored is stored after the merge. */
  lemma NewDateStored(store: Option<seq<Row>>, symbol: string, data: DateDict<real>, i: nat)
    requires data.Valid()
    requires i < |data.keys| && data.keys[i] !in ExistingDates(store, symbol)
    ensures data.keys[i] in ExistingDates(StoreAfter(store, symbol, data), symbol)
  {
    var existing := ExistingDates(store, symbol);
    var added := Appended(store, symbol, data);
    var d := data.keys[i];
    NewRowsOncePerDate(data.keys, data.entries, existing, symbol, d);
    var j := FindDated(added, d);
    AppendedRowStored(store, symbol, data, j);
  }

  /** Every appended row's date is stored for the symbol after the merge. */
  lemma AppendedRowStored(store: Option<seq<Row>>, symbol: string, data: DateDict<real>, j: nat)
    requires data.Valid()
    requires j < |Appended(store, symbol, data)|
    ensures Appended(store, symbol, data)[j].date in ExistingDates(StoreAfter(store, symbol, data), symbol)
  {
    var added := Appended(store, symbol, data);
    var loaded := LoadedRows(store);
    var rows := loaded + added;
    assert StoreAfter(store, symbol, data) == Some(rows);
    assert rows[|loaded| + j] == added[j];
  }

  /** A row dated `d` exists when some row is counted for `d`. */
  lemma {:induction false} FindDated(rows: seq<Row>, d: Date) returns (j: nat)
    requires CountDated(rows, d) > 0
    ensures j < |rows| && rows[j].date == d
    decreases |rows|
  {
    var init := rows[..|rows| - 1];
    if rows[|rows| - 1].date == d {
      j := |rows| - 1;
    } else {
      j := FindDated(init, d);
      assert rows[j] == init[j];
    }
  }

  /** The store after merging each `(symbol, data)` batch in turn, as `main` does per symbol. */
  ghost function MergeAll(store: Option<seq<Row>>, batches: seq<(string, DateDict<real>)>): Option<seq<Row>>
    requires forall i :: 0 <= i < |batches| ==> batches[i].1.Valid()
    decreases |batches|
  {
    if batches == [] then store
    else
      var last := batches[|batches| - 1];
      StoreAfter(MergeAll(store, batches[..|batches| - 1]), last.0, last.1)
  }

  /** After any sequence of merges into a store with unique pairs, no `(symbol, date)` pair occurs twice. */
  lemma {:induction false} UniqueAfterMerges(store: Option<seq<Row>>, batches: seq<(string, DateDict<real>)>)
    requires forall i :: 0 <= i < |batches| ==> batches[i].1.Valid()
    requires UniqueKeys(LoadedRows(store))
    ensures UniqueKeys(LoadedRows(MergeAll(store, batches)))
    decreases |batches|
  {
    if batches != [] {
      var init, last := batches[..|batches| - 1], batches[|batches| - 1];
      UniqueAfterMerges(store, init);
      MergeKeepsKeysUnique(MergeAll(store, init), last.0, last.1);
    }
  }
}
