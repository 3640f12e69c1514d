/**
 Properties relating the driver's operations to each other: what a later Get
 observes, which rows an operation leaves alone, idempotence, the invariant
 that addresses stay unique, and the meaning of List.
 */
module SqlDriverProperties {
  import opened Wrappers
  import opened Strconv
  import opened Releases
  import opened StorageErrors
  import opened KeyCodec
  import opened SqlDriver

  // ---------------------------------------------------------------------
  // Keys

  /**
   A malformed key is rejected with `InvalidKey` by Get, Update and Delete,
   and by Create whenever the release encodes; no operation changes the table.
   */
  lemma InvalidKeyRejected(t: Table, key: string, rls: Release)
    requires ParseKey(key).Failure?
    ensures Get(t, key) == Failure(InvalidKey(key))
    ensures Update(t, key, rls) == Step(Failure(InvalidKey(key)), t)
    ensures Delete(t, key) == Step(Failure(InvalidKey(key)), t)
    ensures Create(t, key, rls, true) == Step(Failure(InvalidKey(key)), t)
  {
  }

  /**
   Create encodes before it checks the version: for a key with a single ".v"
   and a version Atoi rejects, a failing encoder yields the encode error,
   not `InvalidKey`.
   */
  lemma CreateEncodeErrorBeforeVersionCheck(t: Table, name: string, version: string, rls: Release)
    requires !ContainsSep(name) && !ContainsSep(version)
    requires Atoi(version).None?
    ensures ParseKey(name + ".v" + version).Failure?
    ensures Create(t, name + ".v" + version, rls, false) == Step(Failure(EncodeError), t)
  {
    SplitTwo(name, version);
  }

  // ---------------------------------------------------------------------
  // Get

  /**
   Get reads back what is stored: for the first row at the parsed address, a
   decodable body gives exactly its release and a corrupt body the decode error.
   */
  lemma GetStored(t: Table, key: string, i: int)
    requires ParseKey(key).Success?
    requires 0 <= i < |t| && t[i].key == ParseKey(key).value
    requires forall j | 0 <= j < i :: t[j].key != t[i].key
    ensures Get(t, key) ==
      if t[i].body.Valid? then Success(t[i].body.release) else Failure(DecodeError)
  {
  }

  // ---------------------------------------------------------------------
  // Lookup over table edits

  lemma {:induction false} LookupAppend(t: Table, row: Row, k: ReleaseKey)
    ensures Lookup(t + [row], k) ==
      if Lookup(t, k).Some? then Lookup(t, k)
      else if row.key == k then Some(row.body)
      else None
  {
    if |t| > 0 && t[0].key != k {
      assert (t + [row])[1..] == t[1..] + [row];
      LookupAppend(t[1..], row, k);
    }
  }

  /** Lookup sees the first row when it has the address, and the rest of the table otherwise. */
  lemma LookupCons(row: Row, t: Table, k: ReleaseKey)
    ensures Lookup([row] + t, k) == if row.key == k then Some(row.body) else Lookup(t, k)
  {
  }

  lemma {:induction false} LookupRemoveKey(t: Table, k: ReleaseKey, k': ReleaseKey)
    ensures Lookup(RemoveKey(t, k), k') == if k' == k then None else Lookup(t, k')
  {
    if |t| > 0 {
      var rest := RemoveKey(t[1..], k);
      LookupRemoveKey(t[1..], k, k');
      LookupCons(t[0], t[1..], k');
      assert [t[0]] + t[1..] == t;
      if t[0].key == k {
        assert RemoveKey(t, k) == [] + rest;
        assert [] + rest == rest;
      } else {
        assert RemoveKey(t, k) == [t[0]] + rest;
        LookupCons(t[0], rest, k');
      }
    }
  }

  lemma {:induction false} RemoveAbsentKey(t: Table, k: ReleaseKey)
    requires forall i | 0 <= i < |t| :: t[i].key != k
    ensures RemoveKey(t, k) == t
  {
    if |t| > 0 {
      RemoveAbsentKey(t[1..], k);
      assert [t[0]] + t[1..] == t;
    }
  }

  /** Replacing the body of the first row under k changes what Lookup sees at k only. */
  lemma ReplaceBodyLookup(t: Table, i: nat, k: ReleaseKey, body: Body, k': ReleaseKey)
    requires IndexOf(t, k) == Some(i)
    ensures Lookup(t[i := Row(k, body)], k') == if k' == k then Some(body) else Lookup(t, k')
  {
    SameKeysSameIndex(t, t[i := Row(k, body)], k');
  }

  // ---------------------------------------------------------------------
  // Create

  /**
   A successful Create adds the release at its address, leaves every other
   address as it was, and a following Get (under this or any other spelling
   of the same address) returns the release.
   */
  lemma CreateThenGet(t: Table, key: string, rls: Release, encodes: bool, other: string)
    requires Create(t, key, rls, encodes).result.Success?
    requires ParseKey(other) == ParseKey(key)
    ensures var t' := Create(t, key, rls, encodes).table;
      && Get(t', other) == Success(rls)
      && forall k' | k' != ParseKey(key).value :: Lookup(t', k') == Lookup(t, k')
  {
    var k := ParseKey(key).value;
    var t' := Create(t, key, rls, encodes).table;
    LookupAppend(t, Row(k, Valid(rls)), k);
    forall k' | k' != k
      ensures Lookup(t', k') == Lookup(t, k')
    {
      LookupAppend(t, Row(k, Valid(rls)), k');
    }
  }

  /**
   Create never stores a second row under an address: creating again under
   any spelling of a stored address fails with `ReleaseExists` and changes
   nothing.
   */
  lemma CreateTwice(t: Table, key: string, r1: Release, r2: Release, other: string)
    requires Create(t, key, r1, true).result.Success?
    requires ParseKey(other) == ParseKey(key)
    ensures var t' := Create(t, key, r1, true).table;
      Create(t', other, r2, true) == Step(Failure(ReleaseExists(other)), t')
  {
    var k := ParseKey(key).value;
    LookupAppend(t, Row(k, Valid(r1)), k);
  }

  lemma CreatePreservesUniqueKeys(t: Table, key: string, rls: Release, encodes: bool)
    requires UniqueKeys(t)
    ensures UniqueKeys(Create(t, key, rls, encodes).table)
  {
  }

  // ---------------------------------------------------------------------
  // Update

  /**
   A successful Update makes a following Get return the new release and
   leaves every other address as it was.
   */
  lemma UpdateThenGet(t: Table, key: string, rls: Release)
    requires Update(t, key, rls).result.Success?
    ensures var t' := Update(t, key, rls).table;
      && Get(t', key) == Success(rls)
      && forall k' | k' != ParseKey(key).value :: Lookup(t', k') == Lookup(t, k')
  {
    var k := ParseKey(key).value;
    var i := IndexOf(t, k).value;
    forall k' | k' != k
      ensures Lookup(Update(t, key, rls).table, k') == Lookup(t, k')
    {
      ReplaceBodyLookup(t, i, k, Valid(rls), k');
    }
  }

  /** Applying the same Update twice leaves the same table and result as applying it once. */
  lemma UpdateIdempotent(t: Table, key: string, rls: Release)
    ensures var once := Update(t, key, rls);
      Update(once.table, key, rls) == once
  {
  }

  lemma UpdatePreservesUniqueKeys(t: Table, key: string, rls: Release)
    requires UniqueKeys(t)
    ensures UniqueKeys(Update(t, key, rls).table)
  {
  }

  // ---------------------------------------------------------------------
  // Delete

  /**
   After Delete, Get under any spelling of the address finds nothing, and
   every other address is as it was.
   */
  lemma DeleteThenGet(t: Table, key: string, other: string)
    requires ParseKey(key).Success?
    requires ParseKey(other) == ParseKey(key)
    ensures var t' := Delete(t, key).table;
      && Get(t', other) == Failure(ReleaseNotFound(other))
      && forall k' | k' != ParseKey(key).value :: Lookup(t', k') == Lookup(t, k')
  {
    var k := ParseKey(key).value;
    forall k' | k' != k
      ensures Lookup(RemoveKey(t, k), k') == Lookup(t, k')
    {
      LookupRemoveKey(t, k, k');
    }
  }

  /**
   Delete of an address with no row reports success and leaves the table
   unchanged; it does not report `ReleaseNotFound`.
   */
  lemma DeleteAbsentSucceeds(t: Table, key: string)
    requires ParseKey(key).Success?
    requires Lookup(t, ParseKey(key).value).None?
    ensures Delete(t, key) == Step(Success(None), t)
  {
    RemoveAbsentKey(t, ParseKey(key).value);
  }

  /** Deleting twice is the same as deleting once. */
  lemma DeleteIdempotent(t: Table, key: string)
    ensures var once := Delete(t, key);
      Delete(once.table, key) == once
  {
    var once := Delete(t, key);
    if once.result.Success? {
      RemoveAbsentKey(once.table, ParseKey(key).value);
    }
  }

  /**
   RemoveKey keeps the surviving rows in their table order: it distributes
   over concatenation (and RemoveKeySingle says what it does to one row).
   */
  lemma {:induction false} RemoveKeyAppend(a: Table, b: Table, k: ReleaseKey)
    ensures RemoveKey(a + b, k) == RemoveKey(a, k) + RemoveKey(b, k)
  {
    if |a| == 0 {
      assert a + b == b;
    } else {
      var ab := a + b;
      assert ab[0] == a[0];
      assert ab[1..] == a[1..] + b;
      RemoveKeyAppend(a[1..], b, k);
      var head := if a[0].key == k then [] else [a[0]];
      assert RemoveKey(ab, k) == head + RemoveKey(ab[1..], k);
      assert RemoveKey(a, k) == head + RemoveKey(a[1..], k);
      var ra, rb := RemoveKey(a[1..], k), RemoveKey(b, k);
      assert RemoveKey(ab[1..], k) == ra + rb;
      AppendAssoc(head, ra, rb);
    }
  }

  lemma AppendAssoc<T>(x: seq<T>, y: seq<T>, z: seq<T>)
    ensures x + (y + z) == (x + y) + z
  {
  }

  /** A single row survives RemoveKey exactly when it is under another address. */
  lemma RemoveKeySingle(row: Row, k: ReleaseKey)
    ensures RemoveKey([row], k) == if row.key == k then [] else [row]
  {
  }

  lemma {:induction false} RemoveKeyPreservesUniqueKeys(t: Table, k: ReleaseKey)
    requires UniqueKeys(t)
    ensures UniqueKeys(RemoveKey(t, k))
  {
    if |t| > 0 {
      RemoveKeyPreservesUniqueKeys(t[1..], k);
      var rest := RemoveKey(t[1..], k);
      if t[0].key != k {
        forall j | 0 <= j < |rest|
          ensures rest[j].key != t[0].key
        {
          assert rest[j] in t[1..];
        }
      }
    }
  }

  lemma DeletePreservesUniqueKeys(t: Table, key: string)
    requires UniqueKeys(t)
    ensures UniqueKeys(Delete(t, key).table)
  {
    if ParseKey(key).Success? {
      RemoveKeyPreservesUniqueKeys(t, ParseKey(key).value);
    }
  }

  // ---------------------------------------------------------------------
  // List

  /** Every decodable row whose release satisfies filter contributes to Selected. */
  lemma {:induction false} SelectedComplete(t: Table, filter: Release -> bool, i: int)
    requires 0 <= i < |t| && t[i].body.Valid? && filter(t[i].body.release)
    ensures t[i].body.release in Selected(t, filter)
  {
    var front := t[..|t| - 1];
    if i < |t| - 1 {
      assert front[i] == t[i];
      SelectedComplete(front, filter, i);
    }
  }

  /** Appending a row extends Selected by that row's release exactly when it matches. */
  lemma SelectedSnoc(t: Table, row: Row, filter: Release -> bool)
    ensures Selected(t + [row], filter) ==
      Selected(t, filter) + if row.body.Valid? && filter(row.body.release) then [row.body.release] else []
  {
  }

  /** Row i is decodable and its release satisfies filter. */
  predicate RowMatches(t: Table, filter: Release -> bool, i: int) {
    0 <= i < |t| && t[i].body.Valid? && filter(t[i].body.release)
  }

  /** The positions of the rows List reports. */
  function MatchingRows(t: Table, filter: Release -> bool): set<int> {
    set i | 0 <= i < |t| && RowMatches(t, filter, i)
  }

  /** Extending the table by its last row adds that row's position when it matches. */
  lemma MatchingRowsLast(t: Table, filter: Release -> bool)
    requires |t| > 0
    ensures var n := |t| - 1;
      MatchingRows(t, filter) ==
        MatchingRows(t[..n], filter) + if RowMatches(t, filter, n) then {n} else {}
    ensures |t| - 1 !in MatchingRows(t[..|t| - 1], filter)
  {
  }

  /** List returns one release per matching row: its length is the number of such rows. */
  lemma {:induction false} SelectedCount(t: Table, filter: Release -> bool)
    ensures |Selected(t, filter)| == |MatchingRows(t, filter)|
  {
    if |t| > 0 {
      var n := |t| - 1;
      SelectedCount(t[..n], filter);
      MatchingRowsLast(t, filter);
    }
  }

  /** With no corrupt row and an always-true filter, List returns one release per row. */
  lemma {:induction false} ListAllRows(t: Table)
    requires !HasCorruptRow(t)
    ensures |Selected(t, _ => true)| == |t|
  {
    if |t| > 0 {
      var front := t[..|t| - 1];
      assert !HasCorruptRow(front) by {
        forall i | 0 <= i < |front|
          ensures front[i].body.Valid?
        {
          assert front[i] == t[i];
        }
      }
      ListAllRows(front);
      assert t[|t| - 1].body.Valid?;
    }
  }
}
