/**
 The table `writeCsv` hands to the CSV library, before quoting: the header line
 first, then one line per row with one field per header. Headers the caller
 does not supply are inferred as the first-seen union of the rows' keys.
 */
module CsvWriter {
  import opened Wrappers
  import opened Seqs
  import opened Assoc

  /**
   A row as the writer receives it. A value of `None` is a Java `null`; `Some(s)`
   is a value whose `toString()` is `s`. A Java map holds each key once
   (`DistinctKeys`); the writer's contracts do not need it, because they speak
   of `get`, which reads the one entry of a key. Only `ProjectOwnKeys` relies on it.
   */
  type Row = AList<Option<string>>

  /** The lines passed to the CSV library, header line first. */
  type Table = seq<seq<string>>

  const RowsNullMessage: string := "Rows cannot be null"
  const NoHeadersMessage: string := "Rows empty and headers not provided."

  /** The caller supplied a non-null, non-empty header array. */
  predicate Supplied(headers: Option<seq<string>>) {
    headers.Some? && |headers.value| > 0
  }

  /** The keys of a row; a null row has none. */
  function RowKeys(row: Option<Row>): seq<string> {
    if row.None? then [] else Keys(row.value)
  }

  /** The keys of all rows, row after row, each row's keys in its own order. */
  function KeyStream(rows: seq<Option<Row>>): seq<string> {
    if |rows| == 0 then [] else KeyStream(rows[..|rows| - 1]) + RowKeys(rows[|rows| - 1])
  }

  /** A key occurs in the stream exactly when some row has it. */
  lemma {:induction false} KeyStreamMembers(rows: seq<Option<Row>>)
    ensures forall k :: k in KeyStream(rows) <==> exists i :: 0 <= i < |rows| && k in RowKeys(rows[i])
    decreases |rows|
  {
    if |rows| > 0 {
      var init := rows[..|rows| - 1];
      KeyStreamMembers(init);
      forall k | k in KeyStream(rows)
        ensures exists i :: 0 <= i < |rows| && k in RowKeys(rows[i])
      {
        if k in KeyStream(init) {
          var i :| 0 <= i < |init| && k in RowKeys(init[i]);
          assert rows[i] == init[i];
        } else {
          assert k in RowKeys(rows[|rows| - 1]);
        }
      }
      forall k, i | 0 <= i < |rows| && k in RowKeys(rows[i])
        ensures k in KeyStream(rows)
      {
        if i < |rows| - 1 {
          assert init[i] == rows[i];
        }
      }
    }
  }

  /** The text of column `header` in `row`: `""` for a null row, an absent key or a null value. */
  function Field(row: Option<Row>, header: string): string {
    if row.None? then ""
    else
      var value := Get(row.value, header);
      if value.Some? && value.value.Some? then value.value.value else ""
  }

  /**
   `LinkedHashSet.addAll`, with the set kept both as its insertion order
   (`headers`) and as a membership set (`seen`).
   */
  method AddKeys(headers: seq<string>, seen: set<string>, keys: seq<string>)
    returns (headers': seq<string>, seen': set<string>)
    requires forall k :: k in seen <==> k in headers
    ensures headers' == AddAll(headers, keys)
    ensures forall k :: k in seen' <==> k in headers'
  {
    headers', seen' := headers, seen;
    var j := 0;
    while j < |keys|
      invariant 0 <= j <= |keys|
      invariant headers' == AddAll(headers, keys[..j])
      invariant forall k :: k in seen' <==> k in headers'
    {
      assert keys[..j + 1] == keys[..j] + [keys[j]];
      AddAllSnoc(headers, keys[..j], keys[j]);
      if keys[j] !in seen' {
        headers' := headers' + [keys[j]];
        seen' := seen' + {keys[j]};
      }
      j := j + 1;
    }
    assert keys[..j] == keys;
  }

  /**
   Header inference with a `LinkedHashSet`: the first-seen union of the rows'
   keys, without repetition. `InferredHeadersUnion` and `InferredHeadersOrder`
   say which keys it holds and in which order.
   */
  method InferHeaders(rows: seq<Option<Row>>) returns (headers: seq<string>)
    ensures headers == Dedup(KeyStream(rows))
    ensures Distinct(headers)
  {
    var seen: set<string> := {};
    headers := [];
    var i := 0;
    while i < |rows|
      invariant 0 <= i <= |rows|
      invariant headers == Dedup(KeyStream(rows[..i]))
      invariant forall k :: k in seen <==> k in headers
    {
      InferStep(rows, i);
      headers, seen := AddKeys(headers, seen, RowKeys(rows[i]));
      i := i + 1;
    }
    assert rows[..i] == rows;
    DedupFacts(KeyStream(rows));
  }

  /** One more row adds its keys to the union of the rows before it. */
  lemma InferStep(rows: seq<Option<Row>>, i: nat)
    requires i < |rows|
    ensures Dedup(KeyStream(rows[..i + 1])) == AddAll(Dedup(KeyStream(rows[..i])), RowKeys(rows[i]))
  {
    assert rows[..i + 1][..i] == rows[..i];
    AddAllConcat([], KeyStream(rows[..i]), RowKeys(rows[i]));
  }

  /** The inferred headers are exactly the keys of the non-null rows. */
  lemma {:induction false} InferredHeadersUnion(rows: seq<Option<Row>>)
    ensures forall k :: k in Dedup(KeyStream(rows)) <==> exists i :: 0 <= i < |rows| && k in RowKeys(rows[i])
  {
    DedupFacts(KeyStream(rows));
    KeyStreamMembers(rows);
  }

  /**
   Of two inferred headers, the earlier one is met first when reading the rows
   in order, and each row's keys in the row's order.
   */
  lemma InferredHeadersOrder(rows: seq<Option<Row>>)
    ensures FirstSeenOrder(KeyStream(rows), Dedup(KeyStream(rows)))
  {
    DedupFacts(KeyStream(rows));
  }

  /** One output line: the row's field for each header, in header order. */
  method ProjectRow(headers: seq<string>, row: Option<Row>) returns (line: seq<string>)
    ensures |line| == |headers|
    ensures forall i :: 0 <= i < |headers| ==> line[i] == Field(row, headers[i])
  {
    line := [];
    var i := 0;
    while i < |headers|
      invariant 0 <= i <= |headers|
      invariant |line| == i
      invariant forall j :: 0 <= j < i ==> line[j] == Field(row, headers[j])
    {
      var value: Option<string> := None;
      if row.Some? {
        var found := Get(row.value, headers[i]);
        if found.Some? {
          value := found.value;
        }
      }
      line := line + [if value.None? then "" else value.value];
      i := i + 1;
    }
  }

  /**
   Projecting a row onto its own keys reads back its values in its own order:
   field `i` is the text of the row's `i`-th value, or `""` when that value is null.
   */
  lemma ProjectOwnKeys(row: Row)
    requires DistinctKeys(row)
    ensures forall i :: 0 <= i < |row| ==>
              Field(Some(row), Keys(row)[i]) == (if row[i].1.Some? then row[i].1.value else "")
  {
    forall i | 0 <= i < |row|
      ensures Get(row, Keys(row)[i]) == Some(row[i].1)
    {
      GetDistinctAt(row, i);
    }
  }

  /** The loop writing the rows: one projected line per row, in row order. */
  method ProjectRows(headers: seq<string>, rows: seq<Option<Row>>) returns (lines: seq<seq<string>>)
    ensures |lines| == |rows|
    ensures forall n :: 0 <= n < |rows| ==>
              && |lines[n]| == |headers|
              && forall j :: 0 <= j < |headers| ==> lines[n][j] == Field(rows[n], headers[j])
  {
    lines := [];
    var n := 0;
    while n < |rows|
      invariant 0 <= n <= |rows|
      invariant |lines| == n
      invariant forall m :: 0 <= m < n ==>
                  && |lines[m]| == |headers|
                  && forall j :: 0 <= j < |headers| ==> lines[m][j] == Field(rows[m], headers[j])
    {
      var line := ProjectRow(headers, rows[n]);
      lines := lines + [line];
      n := n + 1;
    }
  }

  /** The header line, then one projected line per row. */
  method Tabulate(headers: seq<string>, rows: seq<Option<Row>>) returns (table: Table)
    ensures |table| == |rows| + 1 && table[0] == headers
    ensures forall i :: 1 <= i < |table| ==>
              && |table[i]| == |headers|
              && forall j :: 0 <= j < |headers| ==> table[i][j] == Field(rows[i - 1], headers[j])
  {
    var lines := ProjectRows(headers, rows);
    table := [headers] + lines;
    assert forall i :: 1 <= i < |table| ==> table[i] == lines[i - 1];
  }

  /**
   `writeCsv` up to the CSV library: refuses a null row list, and an empty one
   when no headers are supplied; otherwise the header line (the supplied
   headers verbatim, or the inferred ones) followed by one projected line per
   row, in row order.
   */
  method WriteCsv(headers: Option<seq<string>>, rows: Option<seq<Option<Row>>>)
    returns (r: Result<Table, Error>)
    ensures rows.None? ==> r == Failure(IllegalArgument(RowsNullMessage))
    ensures rows.Some? && |rows.value| == 0 && !Supplied(headers) ==>
              r == Failure(IllegalArgument(NoHeadersMessage))
    ensures r.Success? <==> rows.Some? && (|rows.value| > 0 || Supplied(headers))
    ensures r.Success? ==> |r.value| == |rows.value| + 1
    ensures r.Success? && Supplied(headers) ==> r.value[0] == headers.value
    ensures r.Success? && !Supplied(headers) ==> r.value[0] == Dedup(KeyStream(rows.value))
    ensures r.Success? ==> forall i :: 1 <= i < |r.value| ==>
              && |r.value[i]| == |r.value[0]|
              && forall j :: 0 <= j < |r.value[0]| ==> r.value[i][j] == Field(rows.value[i - 1], r.value[0][j])
  {
    if rows.None? {
      return Failure(IllegalArgument(RowsNullMessage));
    }
    var input := rows.value;
    if |input| == 0 && !Supplied(headers) {
      return Failure(IllegalArgument(NoHeadersMessage));
    }
    var columns: seq<string>;
    if Supplied(headers) {
      columns := headers.value;
    } else {
      columns := InferHeaders(input);
    }
    var table := Tabulate(columns, input);
    return Success(table);
  }
}
