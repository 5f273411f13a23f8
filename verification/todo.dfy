/** The CSV-backed TODO API of 1113/todo.py: an in-memory list of items
    mirrored in a CSV file, with id allocation, lookup, add, update and
    delete, and the text form of the `done` flag.

    The CSV module's quoting is not modelled: the file is its sequence of
    already-split rows, `None` while it does not exist. Each handler runs
    to completion before the next starts. */
module Todo {
  import opened Options
  import opened Text
  import opened Decimal

  /** One TODO record; `createdAt` is the ISO timestamp text. */
  datatype Item = Item(id: int, title: string, done: bool, createdAt: string)

  type Row = seq<string>

  /** The in-memory `todo_list` and the CSV file. */
  datatype Store = Store(items: seq<Item>, file: Option<seq<Row>>)

  /** A failed request: `HTTPException(status_code, detail)`. */
  datatype HttpError = HttpError(status: nat, detail: string)

  datatype Outcome<T> = Ok(value: T) | Fail(error: HttpError)

  const EmptyPayload := HttpError(400, "입력 값이 비었습니다. 유효한 Dict를 보내주세요.")
  const BlankTitle := HttpError(400, "title 필드는 비울 수 없습니다.")
  const UnknownId := HttpError(404, "해당 id의 항목을 찾을 수 없습니다.")

  const Header: Row := ["id", "title", "done", "created_at"]

  // ---------------------------------------------------------------------
  // The done flag as text

  /** `str(done)`. */
  function EncodeDone(done: bool): string {
    if done then "True" else "False"
  }

  /** ASCII lower-casing. No other character lower-cases to one of the
      letters of "true", so `s.lower() == 'true'` holds exactly when `s` is
      "true" up to ASCII case. */
  function LowerAscii(c: char): char {
    if 'A' <= c <= 'Z' then (c as int + 32) as char else c
  }

  /** `str(value).lower() == 'true'`: any text other than "true" in some
      mix of cases reads as false. */
  function DecodeDone(s: string): (b: bool)
    ensures b <==> |s| == 4 && forall k :: 0 <= k < 4 ==> s[k] == "true"[k] || s[k] == "TRUE"[k]
    ensures s == "true" || s == "True" || s == "TRUE" ==> b
  {
    |s| == 4 && LowerAscii(s[0]) == 't' && LowerAscii(s[1]) == 'r'
    && LowerAscii(s[2]) == 'u' && LowerAscii(s[3]) == 'e'
  }

  /** The flag survives being written and read back. */
  lemma DoneRoundTrip(done: bool)
    ensures DecodeDone(EncodeDone(done)) == done
  {
    if !done {
      assert |EncodeDone(done)| == 5;
    }
  }

  // ---------------------------------------------------------------------
  // Rows

  /** The row `writerow` is given for an item. */
  function EncodeRow(item: Item): (row: Row)
    ensures |row| == 4 && row[1] == item.title && row[3] == item.createdAt
    ensures row[0] == IntToString(item.id)
    ensures row[2] == (if item.done then "True" else "False")
  {
    [IntToString(item.id), item.title, EncodeDone(item.done), item.createdAt]
  }

  /** One data row read as an item by its position under the header this
      program writes; `None` where `int(row['id'])` raises or a field is
      missing. Fields beyond the fourth are ignored. */
  function DecodeRow(row: Row): (r: Option<Item>)
    ensures |row| < 4 ==> r.None?
    ensures r.Some? ==> r.value.title == row[1] && r.value.createdAt == row[3]
                        && r.value.done == DecodeDone(row[2])
                        && ParseInt(row[0]) == Some(r.value.id)
    ensures r.None? <==> |row| < 4 || ParseInt(row[0]).None?
  {
    if |row| < 4 then None
    else
      match ParseInt(row[0])
      case None => None
      case Some(id) => Some(Item(id, row[1], DecodeDone(row[2]), row[3]))
  }

  lemma RowRoundTrip(item: Item)
    ensures DecodeRow(EncodeRow(item)) == Some(item)
  {
    IntRoundTrip(item.id);
    DoneRoundTrip(item.done);
  }

  function EncodeRows(items: seq<Item>): (rows: seq<Row>)
    ensures |rows| == |items|
  {
    if items == [] then [] else [EncodeRow(items[0])] + EncodeRows(items[1..])
  }

  /** The rows written for a list are its items' rows, in list order. */
  lemma {:induction false} EncodeRowsAt(items: seq<Item>)
    ensures forall k :: 0 <= k < |items| ==> EncodeRows(items)[k] == EncodeRow(items[k])
    decreases |items|
  {
    if items != [] {
      EncodeRowsAt(items[1..]);
      assert forall k :: 0 < k < |items| ==> items[k] == items[1..][k - 1];
    }
  }

  /** The loop of `load_from_csv` over the data rows: blank rows are
      skipped (as `csv.DictReader` does) and any unreadable row makes the
      whole load fail. */
  function DecodeRows(rows: seq<Row>): (r: Option<seq<Item>>)
    ensures r.Some? ==> |r.value| <= |rows|
  {
    if rows == [] then Some([])
    else if rows[0] == [] then DecodeRows(rows[1..])
    else
      match DecodeRow(rows[0])
      case None => None
      case Some(item) =>
        match DecodeRows(rows[1..])
        case None => None
        case Some(rest) => Some([item] + rest)
  }

  /** The file reads exactly when every non-blank data row reads. */
  lemma {:induction false} DecodeRowsReadable(rows: seq<Row>)
    ensures DecodeRows(rows).Some? <==> forall k :: 0 <= k < |rows| && rows[k] != [] ==> DecodeRow(rows[k]).Some?
    decreases |rows|
  {
    if rows != [] {
      DecodeRowsReadable(rows[1..]);
      assert forall k :: 0 < k < |rows| ==> rows[k] == rows[1..][k - 1];
    }
  }

  /** Rows that are all blank read as no items. */
  lemma {:induction false} BlankRowsReadEmpty(rows: seq<Row>)
    requires forall k :: 0 <= k < |rows| ==> rows[k] == []
    ensures DecodeRows(rows) == Some([])
    decreases |rows|
  {
    if rows != [] {
      assert forall k :: 0 <= k < |rows[1..]| ==> rows[1..][k] == rows[k + 1];
      BlankRowsReadEmpty(rows[1..]);
    }
  }

  /** Reading back rows written for `items` gives `items`. */
  lemma {:induction false} DecodeEncodeRows(items: seq<Item>)
    ensures DecodeRows(EncodeRows(items)) == Some(items)
  {
    if items != [] {
      var e := EncodeRow(items[0]);
      var rest := EncodeRows(items[1..]);
      assert EncodeRows(items) == [e] + rest;
      RowRoundTrip(items[0]);
      DecodeEncodeRows(items[1..]);
      DecodeRowsCons(e, rest, items[0]);
      assert DecodeRows(EncodeRows(items)) == Some([items[0]] + items[1..]);
      assert [items[0]] + items[1..] == items;
    }
  }

  /** A readable non-blank row in front puts its item in front. */
  lemma DecodeRowsCons(e: Row, rest: seq<Row>, item: Item)
    requires e != [] && DecodeRow(e) == Some(item)
    ensures DecodeRows(rest).Some? ==> DecodeRows([e] + rest) == Some([item] + DecodeRows(rest).value)
  {
    assert ([e] + rest)[0] == e && ([e] + rest)[1..] == rest;
  }

  /** Appending the row of `item` appends `item` to what is read back. */
  lemma {:induction false} DecodeRowsAppend(rows: seq<Row>, item: Item)
    requires DecodeRows(rows).Some?
    ensures DecodeRows(rows + [EncodeRow(item)]) == Some(DecodeRows(rows).value + [item])
  {
    if rows == [] {
      RowRoundTrip(item);
      var e := EncodeRow(item);
      assert rows + [e] == [e] && e != [] && [e][1..] == [];
      assert DecodeRows([e]) == Some([item] + []);
      assert [item] + [] == [] + [item];
    } else {
      var e := EncodeRow(item);
      assert (rows + [e])[0] == rows[0];
      assert (rows + [e])[1..] == rows[1..] + [e];
      DecodeRowsAppend(rows[1..], item);
      if rows[0] != [] {
        var head := DecodeRow(rows[0]).value;
        var rest := DecodeRows(rows[1..]).value;
        assert [head] + (rest + [item]) == ([head] + rest) + [item];
      }
    }
  }

  // ---------------------------------------------------------------------
  // The CSV file

  /** `ensure_csv_initialized`: a missing file is created holding the
      header; an existing one is left alone. */
  function Initialize(file: Option<seq<Row>>): (rows: seq<Row>)
    ensures file.None? ==> rows == [Header]
    ensures file.Some? ==> rows == file.value
  {
    file.GetOr([Header])
  }

  /** `load_from_csv`: initialise, then read every row after the first as
      an item. An empty file has no header and so no items. */
  function Load(file: Option<seq<Row>>): (r: Option<seq<Item>>)
    ensures file.None? ==> r == Some([])
  {
    var rows := Initialize(file);
    if rows == [] then Some([]) else DecodeRows(rows[1..])
  }

  /** `append_to_csv`. */
  function AppendRow(file: Option<seq<Row>>, item: Item): (rows: seq<Row>)
    ensures rows == Initialize(file) + [EncodeRow(item)]
  {
    Initialize(file) + [EncodeRow(item)]
  }

  /** `write_all_to_csv`: the header, then one row per item in order. */
  function WriteAll(items: seq<Item>): (rows: seq<Row>)
    ensures |rows| == |items| + 1 && rows[0] == Header
  {
    [Header] + EncodeRows(items)
  }

  /** The file starts with the header and reads back as the memory list. */
  ghost predicate Consistent(store: Store) {
    && store.file.Some?
    && |store.file.value| >= 1
    && store.file.value[0] == Header
    && Load(store.file) == Some(store.items)
  }

  predicate DistinctIds(items: seq<Item>) {
    forall i, j :: 0 <= i < j < |items| ==> items[i].id != items[j].id
  }

  lemma WriteAllConsistent(items: seq<Item>)
    ensures Consistent(Store(items, Some(WriteAll(items))))
  {
    assert WriteAll(items)[1..] == EncodeRows(items);
    DecodeEncodeRows(items);
  }

  /** `on_startup`: the memory list is whatever the file holds, a missing
      file is created with the header, and a file that does not read back
      stops the server (`None`). */
  function Startup(file: Option<seq<Row>>): (r: Option<Store>)
    ensures file.None? ==> r == Some(Store([], Some([Header])))
    ensures r.Some? ==> r.value.file == Some(Initialize(file)) && Load(file) == Some(r.value.items)
    ensures file.Some? && |file.value| >= 1 && file.value[0] == Header && r.Some? ==> Consistent(r.value)
  {
    match Load(file)
    case None => None
    case Some(items) => Some(Store(items, Some(Initialize(file))))
  }

  // ---------------------------------------------------------------------
  // next_id and find_index_by_id

  /** `next_id`: 1 for an empty list, otherwise one more than the largest
      id, so never the id of an existing item. */
  function NextId(items: seq<Item>): (n: int)
    ensures items == [] ==> n == 1
    ensures forall k :: 0 <= k < |items| ==> items[k].id < n
    ensures items != [] ==> exists k :: 0 <= k < |items| && n == items[k].id + 1
    decreases |items|
  {
    if items == [] then 1
    else if |items| == 1 then items[0].id + 1
    else
      var m := NextId(items[1..]);
      if items[0].id + 1 > m then items[0].id + 1 else m
  }

  /** `find_index_by_id`: the first index holding `id`, or -1 exactly when
      no item has it. */
  function FindIndex(items: seq<Item>, id: int): (i: int)
    ensures -1 <= i < |items|
    ensures i == -1 <==> forall k :: 0 <= k < |items| ==> items[k].id != id
    ensures i >= 0 ==> items[i].id == id && forall k :: 0 <= k < i ==> items[k].id != id
    decreases |items|
  {
    if items == [] then -1
    else if items[0].id == id then 0
    else
      var j := FindIndex(items[1..], id);
      if j == -1 then -1 else j + 1
  }

  // ---------------------------------------------------------------------
  // Handlers

  /** The JSON body of `POST /todos/add` as far as the handler looks at
      it: `title` already passed through `str`, `done` already through
      `bool`, and how many other keys the object has. */
  datatype Payload = Payload(title: Option<string>, done: Option<bool>, otherKeys: nat)

  predicate IsEmptyPayload(p: Payload) {
    p.title.None? && p.done.None? && p.otherKeys == 0
  }

  /** `add_todo`'s answer: the new item and the list length afterwards. */
  datatype Added = Added(store: Store, item: Item, count: nat)

  /** `add_todo(payload)`, `now` standing for the UTC clock. An empty
      object or a title blank after stripping is a 400 with nothing
      changed; otherwise exactly one item is appended, with the fresh id
      and the stripped title, to the list and to the file. */
  function AddTodo(store: Store, payload: Payload, now: string): (r: Outcome<Added>)
    ensures IsEmptyPayload(payload) ==> r == Fail(EmptyPayload)
    ensures !IsEmptyPayload(payload) && Strip(payload.title.GetOr("")) == [] ==> r == Fail(BlankTitle)
    ensures r.Ok? ==>
              var a := r.value;
              && a.store.items == store.items + [a.item]
              && a.item.id == NextId(store.items)
              && (forall k :: 0 <= k < |store.items| ==> store.items[k].id < a.item.id)
              && a.item.title == Strip(payload.title.value) && a.item.title != []
              && a.item.done == payload.done.GetOr(false)
              && a.item.createdAt == now
              && a.count == |store.items| + 1
    ensures r.Ok? <==> !IsEmptyPayload(payload) && payload.title.Some? && !AllSpace(payload.title.value)
    ensures r.Ok? && DistinctIds(store.items) ==> DistinctIds(r.value.store.items)
  {
    if IsEmptyPayload(payload) then Fail(EmptyPayload)
    else
      var title := Strip(payload.title.GetOr(""));
      if title == [] then Fail(BlankTitle)
      else
        Ok(Append(store, Item(NextId(store.items), title, payload.done.GetOr(false), now)))
  }

  /** A successful add keeps the file in agreement with memory. */
  lemma AddTodoKeepsConsistent(store: Store, payload: Payload, now: string)
    requires Consistent(store)
    ensures AddTodo(store, payload, now).Ok? ==> Consistent(AddTodo(store, payload, now).value.store)
  {
    if !IsEmptyPayload(payload) && payload.title.Some? && !AllSpace(payload.title.value) {
      var item := AddTodo(store, payload, now).value.item;
      assert AddTodo(store, payload, now).value == Append(store, item);
      AddKeepsConsistent(store, item);
    }
  }

  /** Adding `item` at the end of the list and as one more row of the
      file; an id above all others keeps the ids distinct. */
  function Append(store: Store, item: Item): (a: Added)
    ensures a.store.items == store.items + [item] && a.item == item
    ensures a.store.file == Some(AppendRow(store.file, item))
    ensures a.count == |store.items| + 1
    ensures (forall k :: 0 <= k < |store.items| ==> store.items[k].id < item.id) && DistinctIds(store.items) ==>
              DistinctIds(a.store.items)
  {
    var items := store.items + [item];
    Added(Store(items, Some(AppendRow(store.file, item))), item, |items|)
  }

  lemma AddKeepsConsistent(store: Store, item: Item)
    ensures Consistent(store) ==> Consistent(Store(store.items + [item], Some(AppendRow(store.file, item))))
  {
    if Consistent(store) {
      var rows := store.file.value;
      assert (rows + [EncodeRow(item)])[1..] == rows[1..] + [EncodeRow(item)];
      DecodeRowsAppend(rows[1..], item);
    }
  }

  /** `get_single_todo(todo_id)`: the first item with that id, or 404. */
  function GetTodo(items: seq<Item>, id: int): (r: Outcome<Item>)
    ensures r.Fail? <==> forall k :: 0 <= k < |items| ==> items[k].id != id
    ensures r.Fail? ==> r.error == UnknownId
    ensures r.Ok? ==> r.value in items && r.value.id == id
    ensures r.Ok? ==> r.value == items[FindIndex(items, id)]
  {
    var i := FindIndex(items, id);
    if i == -1 then Fail(UnknownId) else Ok(items[i])
  }

  /** The body of `PUT /todos/{id}`; a `None` field is left as it is. */
  datatype Patch = Patch(title: Option<string>, done: Option<bool>)

  datatype Updated = Updated(store: Store, item: Item)

  /** `update_todo(todo_id, payload)`. An unknown id is a 404 and a title
      blank after stripping a 400, both with nothing changed. Otherwise
      only the found item is replaced: same id and creation time, each
      field the patch gives set to it, the others kept; the whole list is
      then written over the file. */
  function UpdateTodo(store: Store, id: int, patch: Patch): (r: Outcome<Updated>)
    ensures (forall k :: 0 <= k < |store.items| ==> store.items[k].id != id) ==> r == Fail(UnknownId)
    ensures FindIndex(store.items, id) >= 0 ==>
              (r.Fail? <==> patch.title.Some? && AllSpace(patch.title.value))
    ensures r.Fail? ==> r.error == UnknownId || r.error == BlankTitle
    ensures r.Ok? ==>
              var i := FindIndex(store.items, id);
              var old_ := store.items[i];
              var u := r.value;
              && 0 <= i < |store.items|
              && |u.store.items| == |store.items|
              && u.store.items[i] == u.item
              && (forall k :: 0 <= k < |store.items| && k != i ==> u.store.items[k] == store.items[k])
              && u.item.id == id && u.item.createdAt == old_.createdAt
              && u.item.title == (if patch.title.Some? then Strip(patch.title.value) else old_.title)
              && u.item.done == patch.done.GetOr(old_.done)
              && u.store.file == Some(WriteAll(u.store.items))
    ensures r.Ok? ==> Consistent(r.value.store)
    ensures r.Ok? && DistinctIds(store.items) ==> DistinctIds(r.value.store.items)
  {
    var i := FindIndex(store.items, id);
    if i == -1 then Fail(UnknownId)
    else
      var current := store.items[i];
      var newTitle := if patch.title.Some? then Strip(patch.title.value) else current.title;
      if patch.title.Some? && newTitle == [] then Fail(BlankTitle)
      else
        var item := current.(title := newTitle, done := patch.done.GetOr(current.done));
        var items := store.items[i := item];
        WriteAllConsistent(items);
        SameIdKeepsDistinct(store.items, i, item);
        Ok(Updated(Store(items, Some(WriteAll(items))), item))
  }

  lemma SameIdKeepsDistinct(items: seq<Item>, i: nat, item: Item)
    requires i < |items| && item.id == items[i].id
    ensures DistinctIds(items) ==> DistinctIds(items[i := item])
  {
  }

  datatype Deleted = Deleted(store: Store, removed: Item, count: nat)

  /** `delete_single_todo(todo_id)`. An unknown id is a 404 with nothing
      changed; otherwise the first item with that id is removed, the rest
      keep their order, the count drops by one and the file is rewritten.
      With distinct ids, what remains is exactly the items with another
      id. */
  function DeleteTodo(store: Store, id: int): (r: Outcome<Deleted>)
    ensures r.Fail? <==> forall k :: 0 <= k < |store.items| ==> store.items[k].id != id
    ensures r.Fail? ==> r.error == UnknownId
    ensures r.Ok? ==>
              && 0 <= FindIndex(store.items, id) < |store.items|
              && r.value.removed == store.items[FindIndex(store.items, id)]
              && r.value.removed.id == id
              && r.value.count == |store.items| - 1 == |r.value.store.items|
              && r.value.store.items == store.items[..FindIndex(store.items, id)] + store.items[FindIndex(store.items, id) + 1..]
              && r.value.store.file == Some(WriteAll(r.value.store.items))
  {
    var i := FindIndex(store.items, id);
    if i == -1 then Fail(UnknownId)
    else
      assert store.items[i].id == id;
      Ok(RemoveAt(store, i))
  }

  /** Deleting keeps the store consistent with its file and, when ids are
      distinct, removes exactly the items carrying `id`. */
  lemma DeleteTodoKeeps(store: Store, id: int)
    ensures var r := DeleteTodo(store, id);
            r.Ok? ==> Consistent(r.value.store)
    ensures var r := DeleteTodo(store, id);
            r.Ok? && DistinctIds(store.items) ==>
              && DistinctIds(r.value.store.items)
              && forall it :: it in r.value.store.items <==> it in store.items && it.id != id
  {
    var r := DeleteTodo(store, id);
    if r.Ok? {
      WriteAllConsistent(r.value.store.items);
      var i := FindIndex(store.items, id);
      assert r.value == RemoveAt(store, i);
    }
  }

  /** Removing the item at `i` and rewriting the file. */
  function RemoveAt(store: Store, i: nat): (d: Deleted)
    requires i < |store.items|
    ensures d.removed == store.items[i]
    ensures d.count == |store.items| - 1 == |d.store.items|
    ensures d.store.items == store.items[..i] + store.items[i + 1..]
    ensures d.store.file == Some(WriteAll(d.store.items))
    ensures DistinctIds(store.items) ==>
              && DistinctIds(d.store.items)
              && forall it :: it in d.store.items <==> it in store.items && it.id != store.items[i].id
  {
    var items := store.items[..i] + store.items[i + 1..];
    DeleteRemovesOnlyId(store.items, i);
    Deleted(Store(items, Some(WriteAll(items))), store.items[i], |items|)
  }

  lemma DeleteRemovesOnlyId(items: seq<Item>, i: nat)
    requires i < |items|
    ensures var rest := items[..i] + items[i + 1..];
            DistinctIds(items) ==>
              && DistinctIds(rest)
              && forall it :: it in rest <==> it in items && it.id != items[i].id
  {
    if DistinctIds(items) {
      RestKeepsDistinct(items, i);
      RestHoldsOtherIds(items, i);
    }
  }

  lemma RestKeepsDistinct(items: seq<Item>, i: nat)
    requires i < |items| && DistinctIds(items)
    ensures DistinctIds(items[..i] + items[i + 1..])
  {
    var rest := items[..i] + items[i + 1..];
    forall a, b | 0 <= a < b < |rest|
      ensures rest[a].id != rest[b].id
    {
      var a' := if a < i then a else a + 1;
      var b' := if b < i then b else b + 1;
      assert rest[a] == items[a'] && rest[b] == items[b'];
    }
  }

  lemma RestHoldsOtherIds(items: seq<Item>, i: nat)
    requires i < |items| && DistinctIds(items)
    ensures forall it :: it in items[..i] + items[i + 1..] <==> it in items && it.id != items[i].id
  {
    var rest := items[..i] + items[i + 1..];
    forall it
      ensures it in rest <==> it in items && it.id != items[i].id
    {
      if it in rest {
        var k :| 0 <= k < |rest| && rest[k] == it;
        var k' := if k < i then k else k + 1;
        assert rest[k] == items[k'];
      }
      if it in items && it.id != items[i].id {
        var k :| 0 <= k < |items| && items[k] == it;
        assert k != i;
        var k' := if k < i then k else k - 1;
        assert rest[k'] == it;
      }
    }
  }

  /** `retrieve_todo()`: the list and a count equal to its length. */
  datatype Listing = Listing(todos: seq<Item>, count: nat)

  function RetrieveTodo(store: Store): (r: Listing)
    ensures r.todos == store.items && r.count == |r.todos|
  {
    Listing(store.items, |store.items|)
  }

  // ---------------------------------------------------------------------
  // Properties across handlers

  /** What a listing and a lookup show after `item` was added to `before`:
      one more item, the new one last, and found again by its id. */
  ghost predicate ShowsAdded(before: seq<Item>, a: Added) {
    var l := RetrieveTodo(a.store);
    && l.count == |before| + 1 == a.count
    && l.todos != [] && l.todos[|l.todos| - 1] == a.item
    && GetTodo(a.store.items, a.item.id) == Ok(a.item)
  }

  /** A successful add is what a listing then shows. */
  lemma AddThenRetrieve(store: Store, payload: Payload, now: string, a: Added)
    requires AddTodo(store, payload, now) == Ok(a)
    ensures ShowsAdded(store.items, a)
  {
    AddTodoIsFresh(store, payload, now);
    FreshLastIsFound(store.items, a);
  }

  /** The facts about a successful add that a listing depends on. */
  lemma AddTodoIsFresh(store: Store, payload: Payload, now: string)
    requires AddTodo(store, payload, now).Ok?
    ensures FreshAppend(store.items, AddTodo(store, payload, now).value)
  {
  }

  /** `a` holds `items` with `a.item` appended, its id above all of theirs. */
  ghost predicate FreshAppend(items: seq<Item>, a: Added) {
    && a.store.items == items + [a.item] && a.count == |items| + 1
    && forall k :: 0 <= k < |items| ==> items[k].id < a.item.id
  }

  /** An item appended with an id above all others is listed last and
      found by that id. */
  lemma FreshLastIsFound(items: seq<Item>, a: Added)
    requires FreshAppend(items, a)
    ensures ShowsAdded(items, a)
  {
    var all := a.store.items;
    assert forall k :: 0 <= k < |items| ==> all[k].id != a.item.id;
    assert all[|items|] == a.item;
  }

  /** Deleting an id makes it unknown when ids are distinct. */
  lemma DeleteThenGetFails(store: Store, id: int)
    requires DistinctIds(store.items)
    requires DeleteTodo(store, id).Ok?
    ensures GetTodo(DeleteTodo(store, id).value.store.items, id) == Fail(UnknownId)
  {
    var rest := DeleteTodo(store, id).value.store.items;
    forall k | 0 <= k < |rest|
      ensures rest[k].id != id
    {
      assert rest[k] in rest;
    }
  }

  /** An id that was never allocated is unknown: a fresh id does not clash. */
  lemma NextIdIsUnknown(items: seq<Item>)
    ensures GetTodo(items, NextId(items)) == Fail(UnknownId)
  {
  }
}
