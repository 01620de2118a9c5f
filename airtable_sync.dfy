/**
 * The reconciliation half of the bot (airtableSync.js): read every row of the
 * attendance table, index the rows by their "User ID" cell, turn each status-map
 * entry into an increment of an existing row or a new row, cut the writes into
 * batches of ten and send each batch as its own request.
 *
 * The HTTP traffic is not modelled: the table's answers to the read requests are
 * the `responses` parameter, and whether each write request succeeds is the
 * `succeeds` parameter.
 */
module AirtableSync {
  import opened Wrappers
  import opened JsObject
  import JsString

  /** A cell value as the table stores and returns it. */
  datatype Value = Text(text: string) | Number(number: int)

  /** A row of the table: its record id and its cells by column name. */
  datatype Record = Record(id: string, fields: map<string, Value>)

  /** One element of a write request's `records`: with an `id` it updates that row, without one it creates a row. */
  datatype Update = Update(id: Option<string>, fields: map<string, Value>)

  /** The value the status map holds for a user. */
  datatype StatusEntry = StatusEntry(name: string, status: string)

  /** The status map, keyed by user ID, in the order its entries were made. */
  type StatusMap = Dict<StatusEntry>

  /** The answer to one read request: a page of rows and the offset of the next page, or an error. */
  datatype Response = Page(records: seq<Record>, offset: Option<string>) | Failure

  datatype HttpMethod = Patch | Post

  /** One write request as sent: its method and its `records`. */
  datatype Request = Request(verb: HttpMethod, records: seq<Update>)

  const UserIdField: string := "User ID"
  const UserNameField: string := "User Name"
  const LastUpdatedField: string := "Last Updated"

  /** The largest number of records one write request carries. */
  const BatchSize: nat := 10

  /** JavaScript truthiness of a cell value. */
  predicate Truthy(v: Value)
  {
    match v
    case Text(t) => t != ""
    case Number(n) => n != 0
  }

  // ---------------------------------------------------------------- reading the table

  /** The response names a next page, so the read loop goes on. */
  predicate HasMore(r: Response)
  {
    r.Page? && r.offset.Some? && r.offset.value != ""
  }

  /**
   * The answers to the successive read requests of one call: every answer but the
   * last names a next page, and the last one ends the loop.
   */
  ghost predicate Conversation(responses: seq<Response>)
  {
    && |responses| >= 1
    && (forall i :: 0 <= i < |responses| - 1 ==> HasMore(responses[i]))
    && !HasMore(responses[|responses| - 1])
  }

  /** The rows of all the pages, page after page. */
  function PageRecords(responses: seq<Response>): seq<Record>
  {
    if responses == [] then []
    else
      var last := responses[|responses| - 1];
      PageRecords(responses[..|responses| - 1]) + (if last.Page? then last.records else [])
  }

  /** What the read loop delivers: every row of every page, or nothing once a request fails. */
  function Fetched(responses: seq<Response>): seq<Record>
    requires |responses| >= 1
  {
    if responses[|responses| - 1].Failure? then [] else PageRecords(responses)
  }

  /** `fetchAllRecords`: follow the offsets page by page; any error yields no rows at all. */
  method FetchAllRecords(responses: seq<Response>) returns (all: seq<Record>)
    requires Conversation(responses)
    ensures all == Fetched(responses)
  {
    all := [];
    var i := 0;
    while true
      invariant 0 <= i < |responses|
      invariant all == PageRecords(responses[..i])
      decreases |responses| - i
    {
      var response := responses[i];
      if response.Failure? {
        return [];
      }
      all := all + response.records;
      assert responses[..i + 1][..i] == responses[..i];
      if !HasMore(response) {
        assert responses[..i + 1] == responses;
        return;
      }
      i := i + 1;
    }
  }

  // ---------------------------------------------------------------- indexing rows by user

  /** The property name a cell value becomes when used as an object key. */
  function KeyOf(v: Value): string
  {
    match v
    case Text(t) => t
    case Number(n) => JsString.IntToString(n)
  }

  /**
   * A number cell is indexed under its decimal text: distinct numbers get distinct
   * keys, and a number shares its key with the text cell that spells it.
   */
  lemma NumberKeys(a: int, b: int)
    ensures KeyOf(Number(a)) == KeyOf(Number(b)) <==> a == b
    ensures KeyOf(Number(a)) == KeyOf(Text(JsString.IntToString(a)))
  {
    if KeyOf(Number(a)) == KeyOf(Number(b)) {
      JsString.IntToStringInjective(a, b);
    }
  }

  /** The key under which a row is indexed, if its "User ID" cell is truthy. */
  function UserKey(r: Record): Option<string>
  {
    if UserIdField in r.fields && Truthy(r.fields[UserIdField]) then Some(KeyOf(r.fields[UserIdField])) else None
  }

  /** `recordsByUserId`: each indexed row under its key, a later row replacing an earlier one. */
  function IndexOf(records: seq<Record>): map<string, Record>
  {
    if records == [] then map[]
    else
      var index := IndexOf(records[..|records| - 1]);
      var last := records[|records| - 1];
      match UserKey(last)
      case Some(k) => index[k := last]
      case None => index
  }

  /** Row `i` is the last one indexed under key `k`. */
  ghost predicate LastWithKey(records: seq<Record>, k: string, i: int)
  {
    && 0 <= i < |records|
    && UserKey(records[i]) == Some(k)
    && forall j :: i < j < |records| ==> UserKey(records[j]) != Some(k)
  }

  /**
   * The index holds exactly the keys of the rows with a User ID, and under each key
   * the last such row.
   */
  lemma IndexLaterWins(records: seq<Record>)
    ensures forall k :: k in IndexOf(records) <==> exists i :: 0 <= i < |records| && UserKey(records[i]) == Some(k)
    ensures forall k :: k in IndexOf(records) ==> exists i :: LastWithKey(records, k, i) && IndexOf(records)[k] == records[i]
  {
    forall k ensures k in IndexOf(records) <==> exists i :: 0 <= i < |records| && UserKey(records[i]) == Some(k) {
      IndexHasKey(records, k);
    }
    forall k | k in IndexOf(records) ensures exists i :: LastWithKey(records, k, i) && IndexOf(records)[k] == records[i] {
      IndexHoldsLast(records, k);
    }
  }

  /** The last row is indexed on top of the index of the rows before it. */
  lemma IndexStep(records: seq<Record>, k: string)
    requires records != []
    ensures var init := IndexOf(records[..|records| - 1]);
      if UserKey(records[|records| - 1]) == Some(k) then k in IndexOf(records) && IndexOf(records)[k] == records[|records| - 1]
      else (k in IndexOf(records) <==> k in init) && (k in init ==> IndexOf(records)[k] == init[k])
  {
  }

  /** A key is indexed exactly when some row carries it. */
  lemma {:induction false} IndexHasKey(records: seq<Record>, k: string)
    ensures k in IndexOf(records) <==> exists i :: 0 <= i < |records| && UserKey(records[i]) == Some(k)
  {
    if records != [] {
      var n := |records| - 1;
      var init := records[..n];
      IndexHasKey(init, k);
      IndexStep(records, k);
      assert forall i :: 0 <= i < n ==> init[i] == records[i];
      assert (exists i :: 0 <= i < |records| && UserKey(records[i]) == Some(k)) <==>
        (exists i :: 0 <= i < n && UserKey(records[i]) == Some(k)) || UserKey(records[n]) == Some(k);
    }
  }

  /** An indexed key holds the last row that carries it. */
  lemma {:induction false} IndexHoldsLast(records: seq<Record>, k: string)
    ensures k in IndexOf(records) ==> exists i :: LastWithKey(records, k, i) && IndexOf(records)[k] == records[i]
  {
    if records != [] {
      var n := |records| - 1;
      var init := records[..n];
      IndexHoldsLast(init, k);
      IndexStep(records, k);
      if UserKey(records[n]) == Some(k) {
        assert LastWithKey(records, k, n);
      } else if k in IndexOf(records) {
        var i :| LastWithKey(init, k, i) && IndexOf(init)[k] == init[i];
        assert records[i] == init[i];
        assert forall j :: i < j < n ==> records[j] == init[j];
        assert LastWithKey(records, k, i);
      }
    }
  }

  /** The `for...of` loop that fills `recordsByUserId`. */
  method BuildIndex(records: seq<Record>) returns (index: map<string, Record>)
    ensures index == IndexOf(records)
  {
    index := map[];
    for i := 0 to |records|
      invariant index == IndexOf(records[..i])
    {
      var record := records[i];
      assert records[..i + 1][..i] == records[..i];
      match UserKey(record) {
        case Some(k) => index := index[k := record];
        case None =>
      }
    }
    assert records[..|records|] == records;
  }

  // ---------------------------------------------------------------- statuses and counter columns

  /** The `switch` from a status name to the column that counts it. */
  function CounterField(status: string): (f: Option<string>)
    ensures f.Some? <==> status in {"idle", "dnd", "offline", "online", "brb"}
    ensures f.Some? ==> f.value !in {UserIdField, UserNameField, LastUpdatedField}
  {
    match status
    case "idle" => Some("Idle")
    case "dnd" => Some("Do Not Disturb")
    case "offline" => Some("Offline")
    case "online" => Some("Online")
    case "brb" => Some("BRBs")
    case _ => None
  }

  /** Which status a counter column counts. */
  function CountedStatus(field: string): Option<string>
  {
    match field
    case "Idle" => Some("idle")
    case "Do Not Disturb" => Some("dnd")
    case "Offline" => Some("offline")
    case "Online" => Some("online")
    case "BRBs" => Some("brb")
    case _ => None
  }

  /** The mapping is one-to-one: every counted status has its own column, and back. */
  lemma CounterFieldInverse(status: string, field: string)
    ensures CounterField(status) == Some(field) <==> CountedStatus(field) == Some(status)
  {
  }

  /** A cell of a row, `fields[f]`, or `None` when the row has no such cell. */
  function Cell(fields: map<string, Value>, f: string): Option<Value>
  {
    if f in fields then Some(fields[f]) else None
  }

  /**
   * `(fields[f] || 0) + 1`. A missing or zero count becomes 1 and a count n becomes
   * n + 1; a non-empty text cell gets "1" appended, as JavaScript's `+` does.
   */
  function Increment(current: Option<Value>): (v: Value)
    ensures current.None? ==> v == Number(1)
    ensures current.Some? && current.value.Number? ==> v == Number(current.value.number + 1)
  {
    match current
    case None => Number(1)
    case Some(Number(n)) => Number(n + 1)
    case Some(Text(t)) => if t == "" then Number(1) else Text(t + "1")
  }

  // ---------------------------------------------------------------- building the writes

  /**
   * The write one status-map entry turns into: none for a status without a counter;
   * for a known user, the row's id with the counter one up and a new "Last Updated";
   * for an unknown user, a new row with its ID, name, a count of 1 and "Last Updated".
   */
  function UpdateFor(userId: string, entry: StatusEntry, index: map<string, Record>, now: string): (u: Option<Update>)
    ensures u.Some? <==> CounterField(entry.status).Some?
    ensures u.Some? && userId in index ==>
      var f := CounterField(entry.status).value;
      && u.value.id == Some(index[userId].id)
      && u.value.fields.Keys == {f, LastUpdatedField}
      && u.value.fields[f] == Increment(Cell(index[userId].fields, f))
      && u.value.fields[LastUpdatedField] == Text(now)
    ensures u.Some? && userId !in index ==>
      var f := CounterField(entry.status).value;
      && u.value.id == None
      && u.value.fields.Keys == {UserIdField, UserNameField, f, LastUpdatedField}
      && u.value.fields[UserIdField] == Text(userId)
      && u.value.fields[UserNameField] == Text(entry.name)
      && u.value.fields[f] == Number(1)
      && u.value.fields[LastUpdatedField] == Text(now)
  {
    match CounterField(entry.status)
    case None => None
    case Some(f) =>
      if userId in index then
        var record := index[userId];
        Some(Update(Some(record.id), map[f := Increment(Cell(record.fields, f)), LastUpdatedField := Text(now)]))
      else
        Some(Update(None, map[UserIdField := Text(userId), UserNameField := Text(entry.name), f := Number(1), LastUpdatedField := Text(now)]))
  }

  /** The writes for a whole status map, entry by entry. */
  function UpdatesOf(statusMap: StatusMap, index: map<string, Record>, now: string): seq<Update>
  {
    if statusMap == [] then []
    else
      var last := statusMap[|statusMap| - 1];
      UpdatesOf(statusMap[..|statusMap| - 1], index, now)
        + match UpdateFor(last.key, last.value, index, now) case Some(u) => [u] case None => []
  }

  /** The entries whose status has a counter column, in map order. */
  function MappedEntries(statusMap: StatusMap): (r: StatusMap)
    ensures forall e :: e in r <==> e in statusMap && CounterField(e.value.status).Some?
  {
    if statusMap == [] then []
    else
      var last := statusMap[|statusMap| - 1];
      MappedEntries(statusMap[..|statusMap| - 1]) + (if CounterField(last.value.status).Some? then [last] else [])
  }

  /**
   * One write per entry whose status has a counter and none for the others, in the
   * order of the status map.
   */
  lemma {:induction false} UpdatesFollowEntries(statusMap: StatusMap, index: map<string, Record>, now: string)
    ensures |UpdatesOf(statusMap, index, now)| == |MappedEntries(statusMap)| <= |statusMap|
    ensures forall i :: 0 <= i < |MappedEntries(statusMap)| ==>
      UpdateFor(MappedEntries(statusMap)[i].key, MappedEntries(statusMap)[i].value, index, now)
        == Some(UpdatesOf(statusMap, index, now)[i])
  {
    if statusMap != [] {
      var init := statusMap[..|statusMap| - 1];
      UpdatesFollowEntries(init, index, now);
    }
  }

  /** The `for...of` loop over `Object.entries(statusMap)` that fills `updates`. */
  method BuildUpdates(statusMap: StatusMap, index: map<string, Record>, now: string) returns (updates: seq<Update>)
    ensures updates == UpdatesOf(statusMap, index, now)
  {
    updates := [];
    for i := 0 to |statusMap|
      invariant updates == UpdatesOf(statusMap[..i], index, now)
    {
      var entry := statusMap[i];
      assert statusMap[..i + 1][..i] == statusMap[..i];
      var field := CounterField(entry.value.status);
      if field.None? {
        continue;
      }
      var f := field.value;
      if entry.key in index {
        var record := index[entry.key];
        updates := updates + [Update(Some(record.id), map[f := Increment(Cell(record.fields, f)), LastUpdatedField := Text(now)])];
      } else {
        updates := updates + [Update(None, map[UserIdField := Text(entry.key), UserNameField := Text(entry.value.name), f := Number(1), LastUpdatedField := Text(now)])];
      }
    }
    assert statusMap[..|statusMap|] == statusMap;
  }

  // ---------------------------------------------------------------- batching

  function Concat<T>(chunks: seq<seq<T>>): seq<T>
  {
    if chunks == [] then [] else chunks[0] + Concat(chunks[1..])
  }

  lemma {:induction false} ConcatAppend<T>(a: seq<seq<T>>, b: seq<seq<T>>)
    ensures Concat(a + b) == Concat(a) + Concat(b)
  {
    if a != [] {
      assert (a + b)[1..] == a[1..] + b;
      ConcatAppend(a[1..], b);
    } else {
      assert a + b == b;
    }
  }

  /** `updates.slice(i, i + 10)` for i = 0, 10, 20, ... */
  function Chunks<T>(xs: seq<T>): seq<seq<T>>
    decreases |xs|
  {
    if xs == [] then []
    else if |xs| <= BatchSize then [xs]
    else [xs[..BatchSize]] + Chunks(xs[BatchSize..])
  }

  /**
   * The batches, put back together, are the writes in their order; none is empty,
   * none holds more than ten, all but the last hold exactly ten, and there are
   * ceil(n / 10) of them.
   */
  lemma {:induction false} ChunksShape<T>(xs: seq<T>)
    ensures Concat(Chunks(xs)) == xs
    ensures forall i :: 0 <= i < |Chunks(xs)| ==> 1 <= |Chunks(xs)[i]| <= BatchSize
    ensures forall i :: 0 <= i < |Chunks(xs)| - 1 ==> |Chunks(xs)[i]| == BatchSize
    ensures |Chunks(xs)| == (|xs| + BatchSize - 1) / BatchSize
    decreases |xs|
  {
    if |xs| > BatchSize {
      var rest := xs[BatchSize..];
      ChunksShape(rest);
      assert Chunks(xs)[1..] == Chunks(rest);
      assert xs[..BatchSize] + rest == xs;
      forall i | 1 <= i < |Chunks(xs)| ensures Chunks(xs)[i] == Chunks(rest)[i - 1] {
      }
    } else if xs != [] {
      assert Concat(Chunks(xs)) == xs + Concat([]);
    }
  }

  /** The index loop (`i += 10`) that fills `chunked`. */
  method Chunk<T>(xs: seq<T>) returns (chunked: seq<seq<T>>)
    ensures chunked == Chunks(xs)
  {
    chunked := [];
    var i := 0;
    while i < |xs|
      invariant 0 <= i < |xs| + BatchSize
      invariant chunked + Chunks(xs[if i <= |xs| then i else |xs|..]) == Chunks(xs)
      decreases |xs| - i
    {
      var end := if i + BatchSize <= |xs| then i + BatchSize else |xs|;
      var rest := xs[i..];
      assert Chunks(rest) == [xs[i..end]] + Chunks(xs[end..]) by {
        if |rest| > BatchSize {
          assert rest[..BatchSize] == xs[i..end];
          assert rest[BatchSize..] == xs[end..];
        } else {
          assert rest == xs[i..end];
          assert xs[end..] == [];
        }
      }
      chunked := chunked + [xs[i..end]];
      i := i + BatchSize;
    }
  }

  // ---------------------------------------------------------------- sending

  /** The write names an existing row (a truthy `id`). */
  predicate HasId(u: Update)
  {
    u.id.Some? && u.id.value != ""
  }

  /** `batch.every((r) => r.id)`. */
  function EveryHasId(batch: seq<Update>): (b: bool)
    ensures b <==> forall i :: 0 <= i < |batch| ==> HasId(batch[i])
  {
    if batch == [] then true
    else
      assert forall i :: 1 <= i < |batch| ==> batch[i] == batch[1..][i - 1];
      HasId(batch[0]) && EveryHasId(batch[1..])
  }

  /** A batch is sent with PATCH exactly when every one of its records has an id, otherwise with POST. */
  function MethodFor(batch: seq<Update>): (m: HttpMethod)
    ensures m == Patch <==> forall i :: 0 <= i < |batch| ==> HasId(batch[i])
  {
    if EveryHasId(batch) then Patch else Post
  }

  /**
   * The sequential batch loop: every batch is sent, in order, whatever happened to
   * the ones before it; a failed request is only logged. `succeeds(i)` tells whether
   * the i-th request goes through; `failed` lists the batches that did not.
   */
  method SendBatches(chunked: seq<seq<Update>>, succeeds: nat -> bool) returns (sent: seq<Request>, failed: seq<nat>)
    ensures |sent| == |chunked|
    ensures forall i :: 0 <= i < |chunked| ==> sent[i] == Request(MethodFor(chunked[i]), chunked[i])
    ensures forall i: nat :: i in failed <==> i < |chunked| && !succeeds(i)
    ensures forall a, b :: 0 <= a < b < |failed| ==> failed[a] < failed[b]
  {
    sent, failed := [], [];
    for i := 0 to |chunked|
      invariant |sent| == i
      invariant forall j :: 0 <= j < i ==> sent[j] == Request(MethodFor(chunked[j]), chunked[j])
      invariant forall j: nat :: j in failed <==> j < i && !succeeds(j)
      invariant forall a, b :: 0 <= a < b < |failed| ==> failed[a] < failed[b]
      invariant forall a :: 0 <= a < |failed| ==> failed[a] < i
    {
      var batch := chunked[i];
      var verb := if EveryHasId(batch) then Patch else Post;
      sent := sent + [Request(verb, batch)];
      if !succeeds(i) {
        failed := failed + [i];
      }
    }
  }

  /** The records of the requests, one after another. */
  function Bodies(sent: seq<Request>): seq<seq<Update>>
  {
    seq(|sent|, i requires 0 <= i < |sent| => sent[i].records)
  }

  /**
   * `syncToAirtable`: read the table, index it, build one write per counted status,
   * and send the writes in batches. Together the requests carry exactly the writes,
   * in order, at most ten in each, each with the method its records call for.
   */
  method SyncToAirtable(statusMap: StatusMap, responses: seq<Response>, now: string, succeeds: nat -> bool)
    returns (sent: seq<Request>, failed: seq<nat>)
    requires Conversation(responses)
    ensures var updates := UpdatesOf(statusMap, IndexOf(Fetched(responses)), now);
      && Bodies(sent) == Chunks(updates)
      && Concat(Bodies(sent)) == updates
      && |sent| == (|updates| + BatchSize - 1) / BatchSize
    ensures forall i :: 0 <= i < |sent| ==> 1 <= |sent[i].records| <= BatchSize && sent[i].verb == MethodFor(sent[i].records)
    ensures forall i :: 0 <= i < |sent| - 1 ==> |sent[i].records| == BatchSize
    ensures forall i: nat :: i in failed <==> i < |sent| && !succeeds(i)
  {
    var existing := FetchAllRecords(responses);
    var index := BuildIndex(existing);
    var updates := BuildUpdates(statusMap, index, now);
    var chunked := Chunk(updates);
    sent, failed := SendBatches(chunked, succeeds);
    assert Bodies(sent) == chunked;
    ChunksShape(updates);
  }

  /**
   * When a read request fails, on the first page or a later one, every write creates
   * a row: no record carries an id and every batch goes out as POST.
   */
  lemma FetchFailureCreatesAll(statusMap: StatusMap, responses: seq<Response>, now: string)
    requires Conversation(responses) && responses[|responses| - 1].Failure?
    ensures forall u :: u in UpdatesOf(statusMap, IndexOf(Fetched(responses)), now) ==> u.id.None?
    ensures forall b :: b in Chunks(UpdatesOf(statusMap, IndexOf(Fetched(responses)), now)) ==> MethodFor(b) == Post
  {
    var updates := UpdatesOf(statusMap, map[], now);
    assert IndexOf(Fetched(responses)) == map[];
    UpdatesFollowEntries(statusMap, map[], now);
    var mapped := MappedEntries(statusMap);
    forall u | u in updates ensures u.id.None? {
      var i :| 0 <= i < |updates| && updates[i] == u;
      assert UpdateFor(mapped[i].key, mapped[i].value, map[], now) == Some(u);
    }
    ChunksShape(updates);
    forall b | b in Chunks(updates) ensures MethodFor(b) == Post {
      var k :| 0 <= k < |Chunks(updates)| && Chunks(updates)[k] == b;
      ConcatMember(Chunks(updates), k, 0);
      assert b[0] in updates;
    }
  }

  /** An element of one of the chunks is an element of their concatenation. */
  lemma {:induction false} ConcatMember<T>(chunks: seq<seq<T>>, k: nat, j: nat)
    requires k < |chunks| && j < |chunks[k]|
    ensures chunks[k][j] in Concat(chunks)
  {
    if k == 0 {
      assert Concat(chunks) == chunks[0] + Concat(chunks[1..]);
      assert Concat(chunks)[j] == chunks[0][j];
    } else {
      ConcatMember(chunks[1..], k - 1, j);
    }
  }

  // ---------------------------------------------------------------- batches that mix updates and creations

  /**
   * A batch is sent with a method that fits every one of its records: PATCH only
   * existing rows, POST only new ones.
   */
  ghost predicate MethodFitsRecords(batch: seq<Update>)
  {
    && (MethodFor(batch) == Patch ==> forall i :: 0 <= i < |batch| ==> HasId(batch[i]))
    && (MethodFor(batch) == Post ==> forall i :: 0 <= i < |batch| ==> !HasId(batch[i]))
  }

  /**
   * As written, one known and one new user in the same status map share a batch,
   * which goes out as POST although its first record names an existing row.
   */
  lemma MixedBatchIsPosted()
    ensures var statusMap := [Entry("101", StatusEntry("Asha", "online")), Entry("202", StatusEntry("Ben", "idle"))];
      var index := map["101" := Record("rec1", map[])];
      var batches := Chunks(UpdatesOf(statusMap, index, "now"));
      && |batches| == 1
      && MethodFor(batches[0]) == Post
      && HasId(batches[0][0])
      && !MethodFitsRecords(batches[0])
  {
    var statusMap := [Entry("101", StatusEntry("Asha", "online")), Entry("202", StatusEntry("Ben", "idle"))];
    var index := map["101" := Record("rec1", map[])];
    assert statusMap[..1] == [statusMap[0]];
    assert [statusMap[0]][..0] == [];
    var updates := UpdatesOf(statusMap, index, "now");
    assert |updates| == 2 && HasId(updates[0]) && !HasId(updates[1]);
  }

  /** The writes that name an existing row, in order. */
  function WithIds(updates: seq<Update>): (r: seq<Update>)
    ensures forall u :: u in r ==> u in updates && HasId(u)
  {
    if updates == [] then []
    else (if HasId(updates[0]) then [updates[0]] else []) + WithIds(updates[1..])
  }

  /** The writes that create a row, in order. */
  function WithoutIds(updates: seq<Update>): (r: seq<Update>)
    ensures forall u :: u in r ==> u in updates && !HasId(u)
  {
    if updates == [] then []
    else (if HasId(updates[0]) then [] else [updates[0]]) + WithoutIds(updates[1..])
  }

  /** Batching the updates of existing rows apart from the new rows. */
  function HomogeneousBatches(updates: seq<Update>): seq<seq<Update>>
  {
    Chunks(WithIds(updates)) + Chunks(WithoutIds(updates))
  }

  /** Splitting by kind loses no write and invents none. */
  lemma {:induction false} SplitByKind(updates: seq<Update>)
    ensures multiset(WithIds(updates) + WithoutIds(updates)) == multiset(updates)
  {
    if updates != [] {
      var u, rest := updates[0], updates[1..];
      SplitByKind(rest);
      assert updates == [u] + rest;
      assert multiset(updates) == multiset([u]) + multiset(rest);
    }
  }

  /**
   * Batched by kind, every batch is sent with the method its records call for, no
   * batch is empty or over ten, and the batches together hold exactly the writes.
   */
  lemma HomogeneousBatchesFit(updates: seq<Update>)
    ensures multiset(Concat(HomogeneousBatches(updates))) == multiset(updates)
    ensures forall i :: 0 <= i < |HomogeneousBatches(updates)| ==>
      1 <= |HomogeneousBatches(updates)[i]| <= BatchSize && MethodFitsRecords(HomogeneousBatches(updates)[i])
  {
    var a, b := Chunks(WithIds(updates)), Chunks(WithoutIds(updates));
    ChunksShape(WithIds(updates));
    ChunksShape(WithoutIds(updates));
    ConcatAppend(a, b);
    SplitByKind(updates);
    var all := HomogeneousBatches(updates);
    forall i | 0 <= i < |all| ensures 1 <= |all[i]| <= BatchSize && MethodFitsRecords(all[i]) {
      if i < |a| {
        assert all[i] == a[i];
        forall j | 0 <= j < |a[i]| ensures HasId(a[i][j]) {
          ConcatMember(a, i, j);
        }
      } else {
        var k := i - |a|;
        assert all[i] == b[k];
        forall j | 0 <= j < |b[k]| ensures !HasId(b[k][j]) {
          ConcatMember(b, k, j);
        }
      }
    }
  }

  /**
   * `syncToAirtable` with the writes batched by kind: the requests carry exactly the
   * writes, at most ten each, and every request's method fits all of its records.
   */
  method SyncToAirtableByKind(statusMap: StatusMap, responses: seq<Response>, now: string, succeeds: nat -> bool)
    returns (sent: seq<Request>, failed: seq<nat>)
    requires Conversation(responses)
    ensures multiset(Concat(Bodies(sent))) == multiset(UpdatesOf(statusMap, IndexOf(Fetched(responses)), now))
    ensures forall i :: 0 <= i < |sent| ==>
      1 <= |sent[i].records| <= BatchSize && sent[i].verb == MethodFor(sent[i].records) && MethodFitsRecords(sent[i].records)
    ensures forall i: nat :: i in failed <==> i < |sent| && !succeeds(i)
  {
    var existing := FetchAllRecords(responses);
    var index := BuildIndex(existing);
    var updates := BuildUpdates(statusMap, index, now);
    var patches := Chunk(WithIds(updates));
    var posts := Chunk(WithoutIds(updates));
    sent, failed := SendBatches(patches + posts, succeeds);
    assert Bodies(sent) == HomogeneousBatches(updates);
    HomogeneousBatchesFit(updates);
  }
}
