/**
 The SQL release-storage driver, with the `releases` table as a sequence of
 rows in table order and every operation as one atomic transition that
 returns its result together with the new table.
 */
module SqlDriver {
  import opened Wrappers
  import opened Strconv
  import opened Releases
  import opened StorageErrors
  import opened KeyCodec

  /** The string name of this driver. */
  const SqlDriverName: string := "SQL"

  /** One row of the `releases` table: its (name, version) address and its body. */
  datatype Row = Row(key: ReleaseKey, body: Body)

  type Table = seq<Row>

  /** No two rows share an address; the operations below keep this invariant. */
  predicate UniqueKeys(t: Table) {
    forall i, j | 0 <= i < j < |t| :: t[i].key != t[j].key
  }

  /** What an operation returns, together with the table after it. */
  datatype Step<T> = Step(result: Result<T, StorageError>, table: Table)

  /** The position of the first row stored under k, if any. */
  function IndexOf(t: Table, k: ReleaseKey): (r: Option<nat>)
    ensures r.Some? ==> r.value < |t| && t[r.value].key == k
    ensures r.Some? ==> forall i | 0 <= i < r.value :: t[i].key != k
    ensures r.None? ==> forall i | 0 <= i < |t| :: t[i].key != k
  {
    if |t| == 0 then None
    else if t[0].key == k then Some(0)
    else match IndexOf(t[1..], k)
      case None => None
      case Some(i) => Some(i + 1)
  }

  /** The body stored under k, as a point lookup by (name, version) finds it. */
  function Lookup(t: Table, k: ReleaseKey): (r: Option<Body>)
    ensures r.None? <==> forall i | 0 <= i < |t| :: t[i].key != k
    ensures r.Some? ==> exists i | 0 <= i < |t| :: t[i] == Row(k, r.value)
  {
    match IndexOf(t, k)
    case None => None
    case Some(i) => Some(t[i].body)
  }

  /** Name returns the name of the driver. */
  function Name(): (n: string)
    ensures n == SqlDriverName
  {
    SqlDriverName
  }

  /**
   Get returns the release stored under key: `InvalidKey` for a malformed key,
   `ReleaseNotFound` when no row has that address, a decode error for a
   corrupt body, and otherwise exactly the stored release.
   */
  function Get(t: Table, key: string): (r: Result<Release, StorageError>)
    ensures r == Failure(InvalidKey(key)) <==> ParseKey(key).Failure?
    ensures r == Failure(ReleaseNotFound(key)) <==>
      ParseKey(key).Success? && forall i | 0 <= i < |t| :: t[i].key != ParseKey(key).value
    ensures r == Failure(DecodeError) ==>
      exists i | 0 <= i < |t| :: t[i] == Row(ParseKey(key).value, Corrupt)
    ensures r.Success? ==>
      exists i | 0 <= i < |t| :: t[i] == Row(ParseKey(key).value, Valid(r.value))
    ensures r.Failure? ==>
      r.error == InvalidKey(key) || r.error == ReleaseNotFound(key) || r.error == DecodeError
  {
    match ParseKey(key)
    case Failure(e) => Failure(e)
    case Success(k) =>
      match Lookup(t, k)
      case None => Failure(ReleaseNotFound(key))
      case Some(Corrupt) => Failure(DecodeError)
      case Some(Valid(rls)) => Success(rls)
  }

  /**
   The reference meaning of List: the releases of the decodable rows that
   satisfy filter, in table order.
   */
  function Selected(t: Table, filter: Release -> bool): (rs: seq<Release>)
    ensures |rs| <= |t|
    ensures forall x | x in rs :: filter(x) && exists i | 0 <= i < |t| :: t[i].body == Valid(x)
  {
    if |t| == 0 then []
    else
      var front := t[..|t| - 1];
      var last := t[|t| - 1];
      var rs := Selected(front, filter);
      assert forall i | 0 <= i < |front| :: front[i] == t[i];
      rs + (if last.body.Valid? && filter(last.body.release) then [last.body.release] else [])
  }

  /** Some row's body fails to decode. */
  predicate HasCorruptRow(t: Table) {
    exists i | 0 <= i < |t| :: t[i].body.Corrupt?
  }

  /**
   List returns every stored release for which filter is true, in table
   order. It decodes rows in order and gives up with the decode error at the
   first corrupt row, whatever the filter would have said: one corrupt row
   fails the whole call rather than being skipped.
   */
  method List(t: Table, filter: Release -> bool) returns (r: Result<seq<Release>, StorageError>)
    ensures r.Failure? <==> HasCorruptRow(t)
    ensures r.Failure? ==> r.error == DecodeError
    ensures r.Success? ==> r.value == Selected(t, filter)
  {
    var releases: seq<Release> := [];
    var i := 0;
    while i < |t|
      invariant 0 <= i <= |t|
      invariant forall j | 0 <= j < i :: t[j].body.Valid?
      invariant releases == Selected(t[..i], filter)
    {
      var row := t[i];
      if row.body.Corrupt? {
        return Failure(DecodeError);
      }
      assert t[..i + 1][..i] == t[..i];
      if filter(row.body.release) {
        releases := releases + [row.body.release];
      }
      i := i + 1;
    }
    assert t[..|t|] == t;
    return Success(releases);
  }

  /**
   Create stores rls under key. As in the code, the key is split first, then
   the release is encoded (`encodes` is whether that foreign encoder
   succeeds), and only then is the version checked; so for a key with one
   ".v" and a non-numeric version, a failed encode wins over `InvalidKey`.
   The code's existence check is the malformed statement `SELECT (*) ...`
   (sql.go:179), which always errors and so never reports an existing row;
   this function models its evident intent, a lookup by (name, version).
   An existing row at the address gives `ReleaseExists`; otherwise exactly
   one row is appended.
   */
  function Create(t: Table, key: string, rls: Release, encodes: bool): (out: Step<()>)
    ensures out.result.Failure? ==> out.table == t
    ensures out.result == Failure(InvalidKey(key)) <==>
      ParseKey(key).Failure? && (encodes || |SplitSep(key)| != 2)
    ensures out.result == Failure(EncodeError) <==> !encodes && |SplitSep(key)| == 2
    ensures out.result == Failure(ReleaseExists(key)) <==>
      encodes && ParseKey(key).Success? && Lookup(t, ParseKey(key).value).Some?
    ensures out.result.Success? <==>
      encodes && ParseKey(key).Success? && Lookup(t, ParseKey(key).value).None?
    ensures out.result.Success? ==> out.table == t + [Row(ParseKey(key).value, Valid(rls))]
  {
    var elems := SplitSep(key);
    if |elems| != 2 then Step(Failure(InvalidKey(key)), t)
    else if !encodes then Step(Failure(EncodeError), t)
    else match Atoi(elems[1])
      case None => Step(Failure(InvalidKey(key)), t)
      case Some(version) =>
        var k := ReleaseKey(elems[0], version);
        if Lookup(t, k).Some? then Step(Failure(ReleaseExists(key)), t)
        else Step(Success(()), t + [Row(k, Valid(rls))])
  }

  /**
   Update replaces the body of the row stored under key with the encoding of
   rls; `ReleaseNotFound` when no row has that address. Row order and every
   row's address stay the same. This is the evident intent of the code, not
   what it does as written: its lookup is the malformed `COUNT (*) ...`
   (sql.go:211), which always errors, and its `UPDATE` (sql.go:215) has two
   placeholders but binds only the row's UUID and never encodes rls; as
   written, Update never succeeds on a well-formed key.
   */
  function Update(t: Table, key: string, rls: Release): (out: Step<()>)
    ensures out.result.Failure? ==> out.table == t
    ensures out.result == Failure(InvalidKey(key)) <==> ParseKey(key).Failure?
    ensures out.result == Failure(ReleaseNotFound(key)) <==>
      ParseKey(key).Success? && forall i | 0 <= i < |t| :: t[i].key != ParseKey(key).value
    ensures out.result.Success? <==>
      ParseKey(key).Success? && Lookup(t, ParseKey(key).value).Some?
    ensures out.result.Success? ==>
      && |out.table| == |t|
      && (forall i | 0 <= i < |t| :: out.table[i].key == t[i].key)
      && Lookup(out.table, ParseKey(key).value) == Some(Valid(rls))
    ensures out.result.Success? ==>
      forall j | 0 <= j < |t| && t[j].key != ParseKey(key).value :: out.table[j] == t[j]
  {
    match ParseKey(key)
    case Failure(e) => Step(Failure(e), t)
    case Success(k) =>
      match IndexOf(t, k)
      case None => Step(Failure(ReleaseNotFound(key)), t)
      case Some(i) =>
        var t' := t[i := Row(k, Valid(rls))];
        assert IndexOf(t', k) == Some(i) by {
          SameKeysSameIndex(t, t', k);
        }
        Step(Success(()), t')
  }

  /** Tables whose rows carry the same addresses in the same order find k at the same place. */
  lemma SameKeysSameIndex(t: Table, u: Table, k: ReleaseKey)
    requires |t| == |u|
    requires forall i | 0 <= i < |t| :: t[i].key == u[i].key
    ensures IndexOf(t, k) == IndexOf(u, k)
  {
  }

  /** The table without the rows stored under k, the others in their order. */
  function RemoveKey(t: Table, k: ReleaseKey): (r: Table)
    ensures |r| <= |t|
    ensures forall i | 0 <= i < |r| :: r[i].key != k
    ensures forall row | row in r :: row in t
    ensures forall row | row in t && row.key != k :: row in r
  {
    if |t| == 0 then []
    else
      var rest := RemoveKey(t[1..], k);
      assert forall row | row in t[1..] :: row in t;
      (if t[0].key == k then [] else [t[0]]) + rest
  }

  /**
   Delete removes the row stored under key. It reports success, with no
   release, whether or not a row matched: it never gives `ReleaseNotFound`.
   */
  function Delete(t: Table, key: string): (out: Step<Option<Release>>)
    ensures out.result.Failure? <==> ParseKey(key).Failure?
    ensures out.result.Failure? ==> out.result.error == InvalidKey(key) && out.table == t
    ensures out.result.Success? ==>
      && out.result.value == None
      && forall i | 0 <= i < |out.table| :: out.table[i].key != ParseKey(key).value
  {
    match ParseKey(key)
    case Failure(e) => Step(Failure(e), t)
    case Success(k) => Step(Success(None), RemoveKey(t, k))
  }
}
