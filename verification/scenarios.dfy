/**
 Concrete situations from the driver's tests and documentation, stated as
 consequences of the model.
 */
module Scenarios {
  import opened Wrappers
  import opened Strconv
  import opened Releases
  import opened StorageErrors
  import opened KeyCodec
  import opened SqlDriver
  import opened SqlDriverProperties

  /** The empty name is a valid name: ".v1" is the address ("", 1). */
  lemma EmptyNameKey()
    ensures ParseKey(".v1") == Success(ReleaseKey("", 1))
  {
  }

  /** A key without ".v" is rejected. */
  lemma RejectsMissingSeparator()
    ensures ParseKey("smug-pigeon") == Failure(InvalidKey("smug-pigeon"))
  {
  }

  /** A key with two ".v" splits into three pieces and is rejected. */
  lemma RejectsTwoSeparators()
    ensures SplitSep("a.v1.v2") == ["a", "1", "2"]
    ensures ParseKey("a.v1.v2") == Failure(InvalidKey("a.v1.v2"))
  {
    SplitJoin(["a", "1", "2"]);
    assert JoinSep(["a", "1", "2"]) == "a.v1.v2";
  }

  /** An empty version, a non-numeric one and a bare sign are rejected. */
  lemma RejectsMalformedVersions()
    ensures ParseKey("a.v").Failure?
    ensures ParseKey("a.vx").Failure?
    ensures ParseKey("a.v-").Failure?
  {
  }

  function Stub(name: string, status: Status): Release {
    Release(name, 1, status)
  }

  /** Six stored releases, two in each of three statuses. */
  function SixRows(): Table {
    [ Row(ReleaseKey("key-1", 1), Valid(Stub("key-1", Deleted))),
      Row(ReleaseKey("key-2", 1), Valid(Stub("key-2", Deleted))),
      Row(ReleaseKey("key-3", 1), Valid(Stub("key-3", Deployed))),
      Row(ReleaseKey("key-4", 1), Valid(Stub("key-4", Deployed))),
      Row(ReleaseKey("key-5", 1), Valid(Stub("key-5", Superseded))),
      Row(ReleaseKey("key-6", 1), Valid(Stub("key-6", Superseded))) ]
  }

  /** Filtering the six rows by any of their three statuses selects two releases. */
  lemma SixRowsByStatus(status: Status)
    requires status == Deleted || status == Deployed || status == Superseded
    ensures |Selected(SixRows(), (x: Release) => x.status == status)| == 2
  {
    var filter := (x: Release) => x.status == status;
    var t := SixRows();
    assert t == [t[0]] + [t[1]] + [t[2]] + [t[3]] + [t[4]] + [t[5]];
    SelectedSnoc([], t[0], filter);
    SelectedSnoc([t[0]], t[1], filter);
    SelectedSnoc([t[0]] + [t[1]], t[2], filter);
    SelectedSnoc([t[0]] + [t[1]] + [t[2]], t[3], filter);
    SelectedSnoc([t[0]] + [t[1]] + [t[2]] + [t[3]], t[4], filter);
    SelectedSnoc([t[0]] + [t[1]] + [t[2]] + [t[3]] + [t[4]], t[5], filter);
  }

  /** Listing the six rows by status finds two releases for each status. */
  method ListByStatus() returns (deleted: nat, deployed: nat, superseded: nat)
    ensures deleted == 2 && deployed == 2 && superseded == 2
  {
    var t := SixRows();
    assert !HasCorruptRow(t);
    SixRowsByStatus(Deleted);
    SixRowsByStatus(Deployed);
    SixRowsByStatus(Superseded);
    var r1 := List(t, (x: Release) => x.status == Deleted);
    var r2 := List(t, (x: Release) => x.status == Deployed);
    var r3 := List(t, (x: Release) => x.status == Superseded);
    deleted, deployed, superseded := |r1.value|, |r2.value|, |r3.value|;
  }

  /** One corrupt body among five rows makes List fail, even with an always-true filter. */
  method ListWithCorruptRow() returns (r: Result<seq<Release>, StorageError>)
    ensures r == Failure(DecodeError)
  {
    var t := SixRows()[..4] + [Row(ReleaseKey("key-5", 1), Corrupt)];
    assert t[4].body.Corrupt?;
    r := List(t, _ => true);
  }

  /**
   Create a release under the key built for version 1 of name in an empty
   table; Get under that key returns the same release, and creating it again
   fails with `ReleaseExists`.
   */
  lemma CreateGetCreate(name: string, rls: Release)
    requires !ContainsSep(name)
    ensures var key := FormatKey(ReleaseKey(name, 1));
      && Create([], key, rls, true).result == Success(())
      && Get(Create([], key, rls, true).table, key) == Success(rls)
      && Create(Create([], key, rls, true).table, key, rls, true).result == Failure(ReleaseExists(key))
  {
    var key := FormatKey(ReleaseKey(name, 1));
    ParseFormatKey(ReleaseKey(name, 1));
    CreateThenGet([], key, rls, true, key);
    CreateTwice([], key, rls, rls, key);
  }

  /** The driver's name is "SQL". */
  lemma DriverName()
    ensures Name() == "SQL"
  {
  }
}
