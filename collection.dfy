/** The in-memory transformations the mutating endpoints apply to the medicine list
    between reading the data file and writing it back, as functions on sequences. */
module Collection {
  import opened Records

  /** Some record of `s` has `code` equal to `key`. */
  predicate Present(s: seq<Record>, key: string) {
    exists j :: 0 <= j < |s| && HasCode(s[j], key)
  }

  /** No two records that carry a `code` carry the same one. Add, update-by-key and
      delete-by-key keep this; only replace-all can break it. */
  predicate UniqueCodes(s: seq<Record>) {
    forall i, j :: 0 <= i < j < |s| && CodeField in s[i] ==> !HasCode(s[j], s[i][CodeField])
  }

  /** `s.findIndex(m => m.code === key)`: the first index whose record has code `key`, or -1. */
  function FirstIndex(s: seq<Record>, key: string): (i: int)
    ensures -1 <= i < |s|
    ensures i == -1 <==> !Present(s, key)
    ensures 0 <= i ==> HasCode(s[i], key) && forall j :: 0 <= j < i ==> !HasCode(s[j], key)
  {
    if |s| == 0 then -1
    else if HasCode(s[0], key) then 0
    else
      var i := FirstIndex(s[1..], key);
      assert forall j :: 1 <= j < |s| ==> s[j] == s[1..][j - 1];
      if i == -1 then -1 else i + 1
  }

  /** The contract of FirstIndex determines it: the first matching position is the answer. */
  lemma FirstIndexIs(s: seq<Record>, key: string, i: int)
    requires 0 <= i < |s| && HasCode(s[i], key)
    requires forall j :: 0 <= j < i ==> !HasCode(s[j], key)
    ensures FirstIndex(s, key) == i
  {
    assert Present(s, key);
  }

  /** Add-or-upsert of a record whose `code` is present: overwrite the first record with that
      code, or append when there is none. */
  function Upsert(s: seq<Record>, rec: Record): (r: seq<Record>)
    requires CodeField in rec
    ensures Present(s, rec[CodeField]) ==>
      var i := FirstIndex(s, rec[CodeField]);
      |r| == |s| && r[i] == rec && forall j :: 0 <= j < |s| && j != i ==> r[j] == s[j]
    ensures !Present(s, rec[CodeField]) ==>
      |r| == |s| + 1 && r[|s|] == rec && forall j :: 0 <= j < |s| ==> r[j] == s[j]
  {
    var i := FirstIndex(s, rec[CodeField]);
    if i >= 0 then s[i := rec] else s + [rec]
  }

  /** Update-by-key: the first record with code `key` becomes `{ ...body, code: key }`;
      with no such record the list is left as it was. */
  function Rewrite(s: seq<Record>, key: string, body: Record): (r: seq<Record>)
    ensures !Present(s, key) ==> r == s
    ensures Present(s, key) ==>
      var i := FirstIndex(s, key);
      |r| == |s| && HasCode(r[i], key) && r[i] == WithCode(body, key)
      && forall j :: 0 <= j < |s| && j != i ==> r[j] == s[j]
  {
    var i := FirstIndex(s, key);
    if i == -1 then s else s[i := WithCode(body, key)]
  }

  /** Delete-by-key: `splice` out the first record with code `key`, keeping the order of the
      rest; with no such record the list is left as it was. */
  function Remove(s: seq<Record>, key: string): (r: seq<Record>)
    ensures !Present(s, key) ==> r == s
    ensures Present(s, key) ==>
      var i := FirstIndex(s, key);
      && |r| == |s| - 1
      && (forall j :: 0 <= j < i ==> r[j] == s[j])
      && (forall j :: i <= j < |r| ==> r[j] == s[j + 1])
      && multiset(r) + multiset{s[i]} == multiset(s)
  {
    var i := FirstIndex(s, key);
    if i == -1 then s
    else
      assert s == s[..i] + [s[i]] + s[i + 1..];
      s[..i] + s[i + 1..]
  }

  // ----- Properties relating the operations -----
  // The calls and asserts in these proofs spell out the argument for the reader.

  /** After an add, looking the code up finds exactly the record that was added. */
  lemma UpsertThenLookup(s: seq<Record>, rec: Record)
    requires CodeField in rec
    ensures var r := Upsert(s, rec);
      var i := FirstIndex(r, rec[CodeField]);
      0 <= i && r[i] == rec
  {
    var key := rec[CodeField];
    var r := Upsert(s, rec);
    if Present(s, key) {
      FirstIndexIs(r, key, FirstIndex(s, key));
    } else {
      FirstIndexIs(r, key, |s|);
    }
  }

  /** Adding the same record twice has the effect of adding it once. */
  lemma UpsertIdempotent(s: seq<Record>, rec: Record)
    requires CodeField in rec
    ensures Upsert(Upsert(s, rec), rec) == Upsert(s, rec)
  {
    var key := rec[CodeField];
    var r := Upsert(s, rec);
    if Present(s, key) {
      FirstIndexIs(r, key, FirstIndex(s, key));
    } else {
      FirstIndexIs(r, key, |s|);
    }
  }

  /** The add endpoint never introduces a duplicate code into a list that had none. */
  lemma UpsertKeepsCodesUnique(s: seq<Record>, rec: Record)
    requires CodeField in rec && UniqueCodes(s)
    ensures UniqueCodes(Upsert(s, rec))
  {
    var key := rec[CodeField];
    var r := Upsert(s, rec);
    if Present(s, key) {
      var k := FirstIndex(s, key);
      forall i, j | 0 <= i < j < |r| && CodeField in r[i]
        ensures !HasCode(r[j], r[i][CodeField])
      {
        if i == k {
          assert !HasCode(s[j], s[k][CodeField]);
        } else if j == k {
          assert !HasCode(s[k], s[i][CodeField]);
        }
      }
    } else {
      forall i, j | 0 <= i < j < |r| && CodeField in r[i]
        ensures !HasCode(r[j], r[i][CodeField])
      {
        if j == |s| {
          assert !HasCode(s[i], key);
        }
      }
    }
  }

  /** Adding a record whose code is new and then deleting that code gives back the original list. */
  lemma AddThenDeleteRestores(s: seq<Record>, rec: Record)
    requires CodeField in rec && !Present(s, rec[CodeField])
    ensures Remove(Upsert(s, rec), rec[CodeField]) == s
  {
    var key := rec[CodeField];
    var r := Upsert(s, rec);
    FirstIndexIs(r, key, |s|);
    assert r[..|s|] == s;
  }

  /** Adding a record whose code is already present is the same as updating that code with the
      record as body. */
  lemma UpsertOfPresentIsRewrite(s: seq<Record>, rec: Record)
    requires CodeField in rec && Present(s, rec[CodeField])
    ensures Upsert(s, rec) == Rewrite(s, rec[CodeField], rec)
  {
    var key := rec[CodeField];
    assert WithCode(rec, key) == rec;
  }

  /** Update-by-key never moves the record it updates: the key is found at the same index after. */
  lemma RewriteKeepsPosition(s: seq<Record>, key: string, body: Record)
    ensures FirstIndex(Rewrite(s, key, body), key) == FirstIndex(s, key)
  {
    if Present(s, key) {
      FirstIndexIs(Rewrite(s, key, body), key, FirstIndex(s, key));
    }
  }

  /** Updating the same key with the same body twice has the effect of doing it once. */
  lemma RewriteIdempotent(s: seq<Record>, key: string, body: Record)
    ensures Rewrite(Rewrite(s, key, body), key, body) == Rewrite(s, key, body)
  {
    RewriteKeepsPosition(s, key, body);
  }

  /** Because the code is forced to the path key, update-by-key cannot introduce a duplicate code. */
  lemma RewriteKeepsCodesUnique(s: seq<Record>, key: string, body: Record)
    requires UniqueCodes(s)
    ensures UniqueCodes(Rewrite(s, key, body))
  {
    var r := Rewrite(s, key, body);
    if Present(s, key) {
      var k := FirstIndex(s, key);
      forall i, j | 0 <= i < j < |r| && CodeField in r[i]
        ensures !HasCode(r[j], r[i][CodeField])
      {
        if i == k {
          assert !HasCode(s[j], s[k][CodeField]);
        } else if j == k {
          assert !HasCode(s[k], s[i][CodeField]);
        }
      }
    }
  }

  /** In a list without duplicate codes, delete-by-key removes every record with that code. */
  lemma RemoveDropsKey(s: seq<Record>, key: string)
    requires UniqueCodes(s)
    ensures !Present(Remove(s, key), key)
  {
    var r := Remove(s, key);
    if Present(s, key) {
      var k := FirstIndex(s, key);
      forall j | 0 <= j < |r|
        ensures !HasCode(r[j], key)
      {
        if k <= j {
          assert !HasCode(s[j + 1], s[k][CodeField]);
        }
      }
    }
  }

  /** Delete-by-key cannot introduce a duplicate code. */
  lemma RemoveKeepsCodesUnique(s: seq<Record>, key: string)
    requires UniqueCodes(s)
    ensures UniqueCodes(Remove(s, key))
  {
    var r := Remove(s, key);
    if Present(s, key) {
      var k := FirstIndex(s, key);
      forall i, j | 0 <= i < j < |r| && CodeField in r[i]
        ensures !HasCode(r[j], r[i][CodeField])
      {
        var i' := if i < k then i else i + 1;
        var j' := if j < k then j else j + 1;
        assert r[i] == s[i'] && r[j] == s[j'];
      }
    }
  }
}
