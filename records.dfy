/** Medicine records: open-ended JSON objects whose field values are modelled as strings. */
module Records {

  /** A medicine record. Any field may be absent, `code` and `generic_name` included:
      only the add endpoint validates them. */
  type Record = map<string, string>

  const CodeField: string := "code"
  const GenericNameField: string := "generic_name"

  /** JavaScript truthiness of `rec[field]` for a string-valued field:
      `undefined` (absent) and `""` are falsy, every other string is truthy. */
  predicate Truthy(rec: Record, field: string)
    ensures field !in rec ==> !Truthy(rec, field)
    ensures field in rec && rec[field] == "" ==> !Truthy(rec, field)
    ensures field in rec && rec[field] != "" ==> Truthy(rec, field)
  {
    field in rec && rec[field] != ""
  }

  /** The two fields the add endpoint insists on. */
  predicate HasRequiredFields(rec: Record)
    ensures HasRequiredFields(rec) <==>
      CodeField in rec && rec[CodeField] != "" && GenericNameField in rec && rec[GenericNameField] != ""
  {
    Truthy(rec, CodeField) && Truthy(rec, GenericNameField)
  }

  /** `m.code === key`: a record without a `code` field never matches a string key. */
  predicate HasCode(rec: Record, key: string)
    ensures CodeField !in rec ==> !HasCode(rec, key)
    ensures HasCode(rec, key) <==> CodeField in rec && rec[CodeField] == key
  {
    CodeField in rec && rec[CodeField] == key
  }

  /** The object literal `{ ...body, code: key }`: every field of `body` is copied,
      and `code` is then forced to `key` whatever `body` said. */
  function WithCode(body: Record, key: string): (r: Record)
    ensures HasCode(r, key)
    ensures r.Keys == body.Keys + {CodeField}
    ensures forall f :: f in body && f != CodeField ==> r[f] == body[f]
    ensures HasCode(body, key) ==> r == body
  {
    body[CodeField := key]
  }
}
