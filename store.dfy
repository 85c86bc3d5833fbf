/**
 * The wrapper around the hosted database: selects by id or by match with paging and
 * ordering, update, insert and delete, each write reported as a change event.
 *
 * The database itself is outside the program. Its behaviour is stated here as an
 * assumption about the remote: each table is a sequence of flat rows in storage
 * order; `match` keeps the rows whose properties equal the given ones; `order` is a
 * sort the remote chooses (`sortRows`); `range(from, to)` keeps the rows at positions
 * `from..to` inclusive and fails for a negative start; `single` succeeds exactly when
 * one row comes back. Writes send their payload as JSON, so `undefined` properties
 * are dropped.
 */
module Store {
  import opened Js
  import opened Json
  import opened Util

  datatype Result<T> = Ok(value: T) | Err(message: string)

  /** `SelectOptions`: every property may be left out. */
  datatype SelectOptions = SelectOptions(
    offset: Option<int>,
    limit: Option<int>,
    orderBy: Option<string>,
    orderByDesc: Option<bool>)

  datatype Order = Order(column: string, ascending: bool)

  /** The request `selectMatchesAsync` sends: table, equality filter, inclusive range, optional order. */
  datatype MatchQuery = MatchQuery(table: string, criteria: Record, from: int, to: int, order: Option<Order>)

  datatype ItemChangeEventType = Set | Delete

  datatype ItemChangeEvent = ItemChangeEvent(
    kind: ItemChangeEventType,
    table: string,
    id: string,
    value: Option<Record>,
    prevValue: Option<Record>)

  /** A row satisfies `.match(m)` when it holds every defined property of `m`. */
  predicate Matches(row: Record, m: Record)
  {
    forall k :: k in m && m[k] != Undefined ==> k in row && row[k] == m[k]
  }

  /** `.eq('id', id)`. */
  predicate HasId(row: Record, id: string)
  {
    "id" in row && row["id"] == Str(id)
  }

  /** The rows of `rows` that satisfy `keep`, in order. */
  function Filter(rows: seq<Record>, keep: Record -> bool): (r: seq<Record>)
    ensures |r| <= |rows|
    ensures forall i :: 0 <= i < |r| ==> keep(r[i]) && r[i] in rows
    ensures forall x :: x in rows && keep(x) ==> x in r
  {
    if rows == [] then []
    else if keep(rows[0]) then [rows[0]] + Filter(rows[1..], keep)
    else Filter(rows[1..], keep)
  }

  /** Position `k` holds the first row of `rows` that `keep` accepts. */
  predicate FirstKeptAt(rows: seq<Record>, keep: Record -> bool, k: int)
  {
    0 <= k < |rows| && keep(rows[k]) && forall j :: 0 <= j < k ==> !keep(rows[j])
  }

  /** Filtering keeps storage order: its first row is the first accepted row of `rows`. */
  lemma {:induction false} FilterHead(rows: seq<Record>, keep: Record -> bool)
    ensures Filter(rows, keep) != [] ==> exists k :: FirstKeptAt(rows, keep, k) && Filter(rows, keep)[0] == rows[k]
  {
    if rows != [] {
      if keep(rows[0]) {
        assert FirstKeptAt(rows, keep, 0);
      } else {
        var rest := rows[1..];
        FilterHead(rest, keep);
        if Filter(rest, keep) != [] {
          var k :| FirstKeptAt(rest, keep, k) && Filter(rest, keep)[0] == rest[k];
          forall j | 0 <= j < k + 1 ensures !keep(rows[j]) {
            if j > 0 {
              assert rows[j] == rest[j - 1];
            }
          }
          assert FirstKeptAt(rows, keep, k + 1);
        }
      }
    }
  }

  /** `.range(from, to)`: positions `from` to `to` inclusive, clipped to the rows there are. */
  function Window(rows: seq<Record>, from: int, to: int): (r: Option<seq<Record>>)
    ensures r.None? <==> from < 0
    ensures r.Some? && to < from ==> r.value == []
    ensures r.Some? && from <= to ==> |r.value| <= to - from + 1
    ensures r.Some? && from < |rows| && from <= to ==> r.value != [] && r.value[0] == rows[from]
    ensures r.Some? ==> from + |r.value| <= |rows| || r.value == []
    ensures r.Some? ==> forall i :: 0 <= i < |r.value| ==> from + i < |rows| && r.value[i] == rows[from + i]
  {
    if from < 0 then None
    else if to < from || from >= |rows| then Some([])
    else
      var end := if to + 1 < |rows| then to + 1 else |rows|;
      Some(rows[from..end])
  }

  /** `.single()`: the row when exactly one comes back. */
  function Single(rows: seq<Record>): (r: Option<Record>)
    ensures r.Some? <==> |rows| == 1
    ensures r.Some? ==> r.value == rows[0]
  {
    if |rows| == 1 then Some(rows[0]) else None
  }

  /** An updated row: the patch's properties replace the row's, the others stay. */
  function Merge(row: Record, patch: Record): (r: Record)
    ensures r.Keys == row.Keys + patch.Keys
    ensures forall k :: k in patch ==> r[k] == patch[k]
    ensures forall k :: k in row && k !in patch ==> r[k] == row[k]
  {
    map k | k in row.Keys + patch.Keys :: if k in patch then patch[k] else row[k]
  }

  function TableRows(remote: map<string, seq<Record>>, table: string): seq<Record>
  {
    if table in remote then remote[table] else []
  }

  /** What the remote answers to a match query (`r.data`), `None` when the request fails. */
  function Execute(rows: seq<Record>, q: MatchQuery, sortRows: (seq<Record>, Order) -> seq<Record>): Option<seq<Record>>
  {
    var matching := Filter(rows, row => Matches(row, q.criteria));
    var ordered := if q.order.Some? then sortRows(matching, q.order.value) else matching;
    Window(ordered, q.from, q.to)
  }

  /** A match query never yields more rows than its range holds. */
  lemma {:induction false} ExecuteWithinRange(rows: seq<Record>, q: MatchQuery, sortRows: (seq<Record>, Order) -> seq<Record>)
    ensures var r := Execute(rows, q, sortRows);
      r.Some? ==> |r.value| <= if q.to < q.from then 0 else q.to - q.from + 1
  {
    var matching := Filter(rows, row => Matches(row, q.criteria));
    var ordered := if q.order.Some? then sortRows(matching, q.order.value) else matching;
    var r := Window(ordered, q.from, q.to);
    assert r == Execute(rows, q, sortRows);
  }

  /** The number of rows `selectMatchesAsync` asks for: `limit ?? 1000`. */
  function LimitOf(options: Option<SelectOptions>): int
  {
    if options.Some? && options.value.limit.Some? then options.value.limit.value else 1000
  }

  /** The first row `selectMatchesAsync` asks for: `offset ?? 0`. */
  function OffsetOf(options: Option<SelectOptions>): int
  {
    if options.Some? && options.value.offset.Some? then options.value.offset.value else 0
  }

  class Store {
    var loaded: bool
    /** The hosted database: table name to its rows in storage order. */
    var remote: map<string, seq<Record>>
    /** Everything `onSetItem` has emitted, oldest first. */
    var events: seq<ItemChangeEvent>
    /** How the remote orders rows for `.order(column, {ascending})`. */
    const sortRows: (seq<Record>, Order) -> seq<Record>

    constructor (remote: map<string, seq<Record>>, sortRows: (seq<Record>, Order) -> seq<Record>)
      ensures !loaded && this.remote == remote && events == [] && this.sortRows == sortRows
    {
      loaded := false;
      this.remote := remote;
      events := [];
      this.sortRows := sortRows;
    }

    /** `load` only records that the store has been loaded. */
    method Load()
      modifies this`loaded
      ensures loaded
    {
      loaded := true;
    }

    /** `selectFirstAsync`: the row with the id when exactly one has it, else `undefined`. */
    method SelectFirstAsync(table: TableRef, id: string) returns (r: Option<Record>)
      modifies this`loaded
      ensures loaded && remote == old(remote) && events == old(events)
      ensures var found := Filter(TableRows(remote, GetTableName(table)), row => HasId(row, id));
        r == Single(found)
      ensures r.Some? ==> HasId(r.value, id) && r.value in TableRows(remote, GetTableName(table))
    {
      if !loaded {
        Load();
      }
      var rows := TableRows(remote, GetTableName(table));
      r := Single(Filter(rows, row => HasId(row, id)));
    }

    /**
     * `selectMatchesAsync`: asks for the rows `offset .. offset + limit - 1` (defaults 0
     * and 1000) of the matching rows, ordered only when `orderBy` is given and then
     * ascending unless `orderByDesc` is true; a failed request gives `[]`.
     */
    method SelectMatchesAsync(table: TableRef, criteria: Record, options: Option<SelectOptions>)
      returns (rows: seq<Record>, query: MatchQuery)
      modifies this`loaded
      ensures loaded && remote == old(remote) && events == old(events)
      ensures query.table == GetTableName(table) && query.criteria == criteria
      ensures query.from == OffsetOf(options) && query.to == OffsetOf(options) + LimitOf(options) - 1
      ensures query.order.Some? <==> options.Some? && options.value.orderBy.Some?
      ensures query.order.Some? ==>
        query.order.value == Order(options.value.orderBy.value, options.value.orderByDesc != Some(true))
      ensures var data := Execute(TableRows(remote, query.table), query, sortRows);
        rows == if data.Some? then data.value else []
      ensures |rows| <= if LimitOf(options) < 0 then 0 else LimitOf(options)
    {
      if !loaded {
        Load();
      }
      var limit := LimitOf(options);
      var offset := OffsetOf(options);
      query := MatchQuery(GetTableName(table), criteria, offset, offset + limit - 1, None);
      if options.Some? && options.value.orderBy.Some? {
        query := query.(order := Some(Order(options.value.orderBy.value, options.value.orderByDesc != Some(true))));
      }
      var data := Execute(TableRows(remote, query.table), query, sortRows);
      ExecuteWithinRange(TableRows(remote, query.table), query, sortRows);
      rows := if data.Some? then data.value else [];
    }

    /** `selectFirstMatchesAsync`: the first matching row in storage order, or `undefined`. */
    method SelectFirstMatchesAsync(table: TableRef, criteria: Record) returns (r: Option<Record>)
      modifies this`loaded
      ensures loaded && remote == old(remote) && events == old(events)
      ensures var all := TableRows(remote, GetTableName(table));
        (r.None? <==> forall row :: row in all ==> !Matches(row, criteria)) &&
        (r.Some? ==> Matches(r.value, criteria) && r.value in all) &&
        (r.Some? ==> exists k :: 0 <= k < |all| && all[k] == r.value && forall j :: 0 <= j < k ==> !Matches(all[j], criteria))
    {
      if !loaded {
        Load();
      }
      var ary, _ := SelectMatchesAsync(table, criteria, Some(SelectOptions(None, Some(1), None, None)));
      r := if |ary| > 0 then Some(ary[0]) else None;
      FirstMatch(TableRows(remote, GetTableName(table)), criteria);
    }

    /**
     * `updateAsync`: merges the patch into the rows with the id. When exactly one comes
     * back it is announced with a copy of the patch as `prevValue`; otherwise the call
     * fails with `Unable to update item` and announces nothing.
     */
    method UpdateAsync(table: TableRef, id: string, value: Record) returns (r: Result<Record>)
      modifies this
      ensures loaded
      ensures var name := GetTableName(table);
        var before := TableRows(old(remote), name);
        remote == (if name in old(remote) then old(remote)[name := UpdateRows(before, id, Serialise(value))] else old(remote)) &&
        match Single(Filter(before, row => HasId(row, id)))
        case None =>
          r == Err("Unable to update item") && events == old(events)
        case Some(row) =>
          r == Ok(Merge(row, Serialise(value))) &&
          events == old(events) + [ItemChangeEvent(Set, name, id, Some(r.value), Some(value))]
    {
      if !loaded {
        Load();
      }
      var prevValue := value;
      var name := GetTableName(table);
      var before := TableRows(remote, name);
      var patch := Serialise(value);
      if name in remote {
        remote := remote[name := UpdateRows(before, id, patch)];
      }
      var data := Single(Filter(before, row => HasId(row, id)));
      if data.None? {
        return Err("Unable to update item");
      }
      var updated := Merge(data.value, patch);
      events := events + [ItemChangeEvent(Set, name, id, Some(updated), Some(prevValue))];
      r := Ok(updated);
    }

    /**
     * `insertAsync`: adds the row (the remote supplies `generatedId` when it has no id).
     * The event's id is the stored row's id. A missing table, a non-string id or an id
     * already in use fails with `Unable to insert item` and announces nothing.
     */
    method InsertAsync(table: TableRef, value: Record, generatedId: string) returns (r: Result<Record>)
      modifies this
      ensures loaded
      ensures var name := GetTableName(table);
        var row := InsertedRow(value, generatedId);
        if name in old(remote) && row["id"].Str? && !IdTaken(old(remote)[name], row["id"].s) then
          r == Ok(row) &&
          remote == old(remote)[name := old(remote)[name] + [row]] &&
          events == old(events) + [ItemChangeEvent(Set, name, row["id"].s, Some(row), Some(value))]
        else
          r == Err("Unable to insert item") && remote == old(remote) && events == old(events)
    {
      if !loaded {
        Load();
      }
      var prevValue := value;
      var name := GetTableName(table);
      var row := InsertedRow(value, generatedId);
      if name !in remote || !row["id"].Str? || IdTaken(remote[name], row["id"].s) {
        return Err("Unable to insert item");
      }
      remote := remote[name := remote[name] + [row]];
      events := events + [ItemChangeEvent(Set, name, row["id"].s, Some(row), Some(prevValue))];
      r := Ok(row);
    }

    /**
     * `deleteAsync`: removes the rows with the id and always announces a delete, with the
     * removed row as `prevValue` when exactly one went, else `undefined`.
     */
    method DeleteAsync(table: TableRef, id: string) returns (r: Option<Record>)
      modifies this
      ensures loaded
      ensures var name := GetTableName(table);
        var before := TableRows(old(remote), name);
        r == Single(Filter(before, row => HasId(row, id))) &&
        remote == (if name in old(remote) then old(remote)[name := Filter(before, row => !HasId(row, id))] else old(remote)) &&
        events == old(events) + [ItemChangeEvent(Delete, name, id, None, r)]
    {
      if !loaded {
        Load();
      }
      var name := GetTableName(table);
      var before := TableRows(remote, name);
      if name in remote {
        remote := remote[name := Filter(before, row => !HasId(row, id))];
      }
      r := Single(Filter(before, row => HasId(row, id)));
      events := events + [ItemChangeEvent(Delete, name, id, None, r)];
    }
  }

  /** The rows after `.update(patch).eq('id', id)`: every row with the id merged, the rest kept. */
  function UpdateRows(rows: seq<Record>, id: string, patch: Record): (r: seq<Record>)
    ensures |r| == |rows|
    ensures forall i :: 0 <= i < |rows| ==> r[i] == if HasId(rows[i], id) then Merge(rows[i], patch) else rows[i]
  {
    seq(|rows|, i requires 0 <= i < |rows| => if HasId(rows[i], id) then Merge(rows[i], patch) else rows[i])
  }

  /** The row an insert stores: the JSON payload, with the generated id when it names none. */
  function InsertedRow(value: Record, generatedId: string): (row: Record)
    ensures "id" in row
    ensures "id" in value && value["id"] != Undefined ==> row["id"] == value["id"]
    ensures !("id" in value && value["id"] != Undefined) ==> row["id"] == Str(generatedId)
    ensures forall k :: k != "id" ==> (k in row <==> k in value && value[k] != Undefined)
    ensures forall k :: k in row && k != "id" ==> row[k] == value[k]
  {
    var body := Serialise(value);
    if "id" in body then body else body["id" := Str(generatedId)]
  }

  predicate IdTaken(rows: seq<Record>, id: string)
  {
    exists i :: 0 <= i < |rows| && HasId(rows[i], id)
  }

  /**
   * A limit-1 match from the start finds a row exactly when some row matches, and that
   * row is the first matching row in storage order.
   */
  lemma {:induction false} FirstMatch(rows: seq<Record>, criteria: Record)
    ensures var matching := Filter(rows, row => Matches(row, criteria));
      (matching == [] <==> forall row :: row in rows ==> !Matches(row, criteria)) &&
      (matching != [] ==> Matches(matching[0], criteria) && matching[0] in rows) &&
      (matching != [] ==>
         exists k :: 0 <= k < |rows| && rows[k] == matching[0] && forall j :: 0 <= j < k ==> !Matches(rows[j], criteria))
  {
    var keep := row => Matches(row, criteria);
    var matching := Filter(rows, keep);
    if matching != [] {
      assert Matches(matching[0], criteria) && matching[0] in rows;
      FilterHead(rows, keep);
      var k :| FirstKeptAt(rows, keep, k) && matching[0] == rows[k];
      assert forall j :: 0 <= j < k ==> !Matches(rows[j], criteria);
    }
  }
}
