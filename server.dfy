/** The medicine API's request handlers. Each one reads the whole data file, changes the list in
    memory and writes the whole list back. The data file is the `file` field of a Store. */
module Server {
  import opened Records
  import opened Collection

  /** What reading the data file yields: a parsed list of records, or a failure. The failure
      covers a missing file, a read error and JSON that does not parse. */
  datatype Snapshot = Stored(records: seq<Record>) | Unreadable

  /** A parsed JSON request body. The JSON body parser accepts only arrays and objects. */
  datatype Body = List(items: seq<Record>) | Object(fields: Record)

  /** The `action` reported by the add endpoint. */
  datatype Action = Added | Updated

  /** What a handler answers. `BadRequest` is status 400, `NotFound` is 404 and the rest are 200.
      Each 200 answer carries the `count` or `data` that its JSON reply carries. */
  datatype Response =
    | Listing(count: nat, records: seq<Record>)
    | Saved(count: nat)
    | Upserted(data: Record, action: Action)
    | Changed(data: Record)
    | Removed(data: Record)
    | BadRequest
    | NotFound

  /** The fail-open read: if the file cannot be read or parsed, the list is empty. */
  function Load(snap: Snapshot): (s: seq<Record>)
    ensures snap == Unreadable ==> s == []
    ensures Stored(s) == snap || snap == Unreadable
  {
    match snap
    case Stored(records) => records
    case Unreadable => []
  }

  /** The persisted medicine list. */
  class Store {
    var file: Snapshot

    constructor (initial: Snapshot)
      ensures file == initial
    {
      file := initial;
    }

    /** The list every handler works on: the file as the fail-open read sees it. */
    function Contents(): seq<Record>
      reads this
    {
      Load(file)
    }

    /** GET /api/medicines: the whole list and its length. */
    method ListAll() returns (resp: Response)
      ensures resp.Listing? && resp.records == Load(file) && resp.count == |resp.records|
    {
      var medicines := Load(file);
      resp := Listing(|medicines|, medicines);
    }

    /** POST /api/medicines: an array body replaces the whole list verbatim; any other body is
        refused and nothing is written. The old contents are neither read nor merged. */
    method ReplaceAll(body: Body) returns (resp: Response)
      modifies this
      ensures !body.List? ==> resp == BadRequest && file == old(file)
      ensures body.List? ==> resp == Saved(|body.items|) && file == Stored(body.items)
    {
      if !body.List? {
        return BadRequest;
      }
      var medicines := body.items;
      file := Stored(medicines);
      resp := Saved(|medicines|);
    }

    /** POST /api/medicines/add: a body without a truthy `code` and `generic_name` is refused
        before the file is touched. Otherwise the first record with the same code is overwritten
        ("updated"), or the body is appended ("added"). */
    method Add(body: Body) returns (resp: Response)
      modifies this
      ensures !(body.Object? && HasRequiredFields(body.fields)) ==>
        resp == BadRequest && file == old(file)
      ensures body.Object? && HasRequiredFields(body.fields) ==>
        var rec := body.fields;
        var present := Present(old(Contents()), rec[CodeField]);
        && file == Stored(Upsert(old(Contents()), rec))
        && resp == Upserted(rec, if present then Updated else Added)
    {
      // An array has no `code` property, so it fails the same check as a missing field.
      if !body.Object? || !Truthy(body.fields, CodeField) || !Truthy(body.fields, GenericNameField) {
        return BadRequest;
      }
      // The steps mirror the handler's own in-place slot write and `push`; the ensures ties
      // their outcome to Upsert, which states what they mean.
      var newMedicine := body.fields;
      var medicines := Load(file);
      var existingIndex := FirstIndex(medicines, newMedicine[CodeField]);
      if existingIndex >= 0 {
        medicines := medicines[existingIndex := newMedicine];
        file := Stored(medicines);
        resp := Upserted(newMedicine, Updated);
      } else {
        medicines := medicines + [newMedicine];
        file := Stored(medicines);
        resp := Upserted(newMedicine, Added);
      }
    }

    /** PUT /api/medicines/:code: when no record has code `key` the answer is not-found and
        nothing is written. Otherwise the first such record becomes `{ ...body, code: key }`,
        and that new record is returned. */
    method Update(key: string, body: Record) returns (resp: Response)
      modifies this
      ensures !Present(old(Contents()), key) ==> resp == NotFound && file == old(file)
      ensures Present(old(Contents()), key) ==>
        && file == Stored(Rewrite(old(Contents()), key, body))
        && resp == Changed(WithCode(body, key))
        && HasCode(resp.data, key)
    {
      var medicines := Load(file);
      var index := FirstIndex(medicines, key);
      if index == -1 {
        return NotFound;
      }
      // The handler's own slot write; the ensures ties its outcome to Rewrite.
      medicines := medicines[index := WithCode(body, key)];
      file := Stored(medicines);
      resp := Changed(medicines[index]);
    }

    /** DELETE /api/medicines/:code: when no record has code `key` the answer is not-found and
        nothing is written. Otherwise the first such record is spliced out and returned. */
    method Delete(key: string) returns (resp: Response)
      modifies this
      ensures !Present(old(Contents()), key) ==> resp == NotFound && file == old(file)
      ensures Present(old(Contents()), key) ==>
        && file == Stored(Remove(old(Contents()), key))
        && resp == Removed(old(Contents())[FirstIndex(old(Contents()), key)])
        && HasCode(resp.data, key)
    {
      var medicines := Load(file);
      var index := FirstIndex(medicines, key);
      if index == -1 {
        return NotFound;
      }
      // The handler's own `splice(index, 1)`; the ensures ties its outcome to Remove.
      var deleted := medicines[index];
      medicines := medicines[..index] + medicines[index + 1..];
      file := Stored(medicines);
      resp := Removed(deleted);
    }
  }

  /** Adding to a store whose file does not exist yet creates a list of one record. */
  method ScenarioAddToEmpty() {
    var aspirin := map["code" := "A1", "generic_name" := "Aspirin"];
    var store := new Store(Unreadable);
    var resp := store.ListAll();
    assert resp == Listing(0, []);
    resp := store.Add(Object(aspirin));
    assert resp == Upserted(aspirin, Added);
    assert store.file == Stored([aspirin]);
  }

  /** Adding a record whose code is already stored overwrites it in place. */
  method ScenarioAddExisting() {
    var aspirin := map["code" := "A1", "generic_name" := "Aspirin"];
    var extra := map["code" := "A1", "generic_name" := "Aspirin Extra"];
    var store := new Store(Stored([aspirin]));
    assert HasCode([aspirin][0], "A1");
    var resp := store.Add(Object(extra));
    assert resp == Upserted(extra, Updated);
    assert store.file == Stored([extra]);
  }

  /** Deleting the second of two records leaves the first. */
  method ScenarioDelete(a1: Record, b2: Record)
    requires HasCode(a1, "A1") && HasCode(b2, "B2")
  {
    var store := new Store(Stored([a1, b2]));
    assert !HasCode([a1, b2][0], "B2") && HasCode([a1, b2][1], "B2");
    var resp := store.Delete("B2");
    assert resp == Removed(b2);
    assert store.file == Stored([a1]);
  }

  /** Updating or deleting an unknown code, and replacing with a non-array, change nothing. */
  method ScenarioRefused(a1: Record, body: Record)
    requires HasCode(a1, "A1")
  {
    var store := new Store(Stored([a1]));
    assert !HasCode([a1][0], "Z9");
    var resp := store.Update("Z9", body);
    assert resp == NotFound && store.file == Stored([a1]);
    resp := store.Delete("Z9");
    assert resp == NotFound && store.file == Stored([a1]);
    resp := store.ReplaceAll(Object(body));
    assert resp == BadRequest && store.file == Stored([a1]);
  }
}
