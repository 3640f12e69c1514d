# SQL release-storage driver, modelled in Dafny

A model of Helm's SQL storage driver (`pkg/storage/driver/sql.go`): the
component that stores versioned releases in a relational `releases` table and
addresses each one by a key of the form `"<name>.v<version>"`.

Two pieces of its logic are modelled and proved:

- **The key codec.** Get, Create, Update and Delete all parse the key the same
  way: Go's `strings.Split(key, ".v")` must give exactly two pieces, and the
  second must pass `strconv.Atoi`. That means an optional sign, at least one
  ASCII digit, leading zeros allowed, and a value within Go's 64-bit `int`.
  Any other key is `ErrInvalidKey(key)`, returned before the table is touched.
  `SplitSep`, `Atoi` and `ParseKey` model this exactly. Two lemmas pin it down:
  `SplitJoin` shows the split is the unique separator-free decomposition, and
  `ParseFormatKey` shows `"<name>.v<version>"` parses back to
  `(name, version)`.
- **The store.** The `releases` table is a sequence of rows in table order.
  Each row has a `(name, version)` address and a body that either decodes to a
  release (`Valid`) or does not (`Corrupt`). Get, List, Create, Update and
  Delete are each one atomic transition that returns a result and the new
  table. Errors come from a closed set: `InvalidKey`, `ReleaseNotFound`,
  `ReleaseExists`, a decode error and an encode error. Lemmas state what a
  later Get sees after each operation, and that every other address is left
  alone. Further lemmas cover idempotence of Update and Delete, the
  unique-address invariant, and what List returns.

Files:
- `wrappers.dfy`: `Option` and `Result`.
- `strconv.dfy`: Go's `Atoi`/`Itoa`.
- `releases.dfy`: releases, bodies and the error vocabulary.
- `key_codec.dfy`: split, parse and format keys.
- `sql_driver.dfy`: the driver operations.
- `sql_properties.dfy`: lemmas relating the operations.
- `scenarios.dfy`: situations taken from the driver's tests.

## Behaviour worth noting

The model follows the code in each case:

- **List aborts on a corrupt row** (sql.go:111-113). One might expect a scan
  to skip a row it cannot decode. The code instead returns the decode error
  for the whole call as soon as it reaches such a row, whatever the filter
  would say. See `SqlDriver.List` and `Scenarios.ListWithCorruptRow`.
- **Delete never reports `ReleaseNotFound`** (sql.go:238-242). The doc comment
  at sql.go:226 says it should. The code reports success, with no release,
  whether or not a row matched. See `SqlDriverProperties.DeleteAbsentSucceeds`.
- **Create encodes before it checks the version** (sql.go:166-174). When the
  key has one `".v"` but a non-numeric version, a failing encoder wins over
  `InvalidKey`. See `SqlDriverProperties.CreateEncodeErrorBeforeVersionCheck`.
- **Any `Atoi`-valid version is accepted** (sql.go:171, 203, 233). The code
  accepts `0`, negative values, an explicit `+` and leading zeros, as in
  `"a.v-01"`. So `"a.v01"`, `"a.v+1"` and `"a.v1"` all address the row
  `("a", 1)`. See `Strconv.AtoiAccepts` and `KeyCodec.KeySpellingsAlias`.

## Model

| member | source | states |
|---|---|---|
| `Strconv.Atoi` | pkg/storage/driver/sql.go:171-174 | accepts only an optional sign and at least one digit (a bare sign is rejected), within the 64-bit range; the value is the digits' value, negated after '-' |
| `Strconv.AtoiAccepts` | pkg/storage/driver/sql.go:171-174 | conversely, every optional sign ("", "+", "-") followed by one or more digits, leading zeros allowed, whose signed value fits in 64 bits is accepted with that value |
| `Strconv.AtoiItoa` | pkg/storage/driver/sql.go:171-174 | every 64-bit integer, formatted in decimal, parses back to itself |
| `Strconv.AtoiRange` | pkg/storage/driver/sql.go:171-174 | digits beyond the 64-bit maximum are rejected; with '-', only the smallest 64-bit integer's digits are accepted |
| `Strconv.AtoiLeadingZero` | pkg/storage/driver/sql.go:203-206 | a leading zero does not change the parsed version |
| `Strconv.AtoiPlusSign` | pkg/storage/driver/sql.go:203-206 | an explicit '+' does not change the parsed version |
| `KeyCodec.SplitSep` | pkg/storage/driver/sql.go:162 | splitting on ".v" gives at least one piece, the pieces joined with ".v" give back the key, and no piece contains ".v" |
| `KeyCodec.SplitJoin` | pkg/storage/driver/sql.go:162-164 | splitting the join of separator-free pieces gives exactly those pieces, so the split is unique |
| `KeyCodec.ParseKey` | pkg/storage/driver/sql.go:77-85 | every rejection is InvalidKey(key); an accepted key has its only ".v" right after the name and an Atoi-valid version after it |
| `KeyCodec.ParseKeyAccepts` | pkg/storage/driver/sql.go:198-206 | conversely, a key with a sole ".v" and an Atoi-valid suffix is accepted with that name and version |
| `KeyCodec.ParseSoleSep` | pkg/storage/driver/sql.go:198-206 | a key "<name>.v<rest>" with no other ".v" parses to (name, Atoi(rest)), and to InvalidKey(key) when Atoi rejects rest |
| `KeyCodec.ParseFormatKey` | pkg/storage/driver/sql.go:78-84 | any name without ".v", the empty name included, and any 64-bit version survive "<name>.v<version>" and parsing |
| `KeyCodec.FormatParsedKey` | pkg/storage/driver/sql.go:229-236 | re-formatting a parsed key gives the canonical spelling of the same address |
| `KeyCodec.KeySpellingsAlias` | pkg/storage/driver/sql.go:233-236 | parsing is not injective: "<name>.v0d" and "<name>.v+d" address the same row as "<name>.v<d>" |
| `SqlDriver.Name` | pkg/storage/driver/sql.go:71-73 | the driver's name is the constant "SQL" |
| `SqlDriver.Lookup` | pkg/storage/driver/sql.go:89 | the point lookup finds nothing exactly when no row has the address, and otherwise finds a row stored under it |
| `SqlDriver.Get` | pkg/storage/driver/sql.go:76-99 | InvalidKey exactly for malformed keys, ReleaseNotFound exactly when no row has the address, and a decode error only for a corrupt stored body; a success is a release stored under the address; no other error is possible |
| `SqlDriverProperties.GetStored` | pkg/storage/driver/sql.go:88-98 | for the row at the parsed address, a decodable body gives Success of exactly its release and a corrupt body gives the decode error |
| `SqlDriver.Selected` | pkg/storage/driver/sql.go:101-102 | every selected release satisfies the filter and is stored in some row; there are no more of them than rows |
| `SqlDriver.List` | pkg/storage/driver/sql.go:102-120 | fails, with the decode error, exactly when some row is corrupt; otherwise returns the filter-satisfying releases in table order |
| `SqlDriver.Create` | pkg/storage/driver/sql.go:160-194 | InvalidKey, encode error, ReleaseExists and success each hold exactly under their conditions; a failure leaves the table unchanged, and a success appends exactly one row |
| `SqlDriver.Update` | pkg/storage/driver/sql.go:197-224 | InvalidKey exactly for malformed keys, and ReleaseNotFound with the table unchanged exactly when no row has the address; a success keeps every row's address and order, stores the new release, and leaves every row under another address exactly as it was |
| `SqlDriver.RemoveKey` | pkg/storage/driver/sql.go:238 | the rows left are exactly the rows not stored under the address |
| `SqlDriver.Delete` | pkg/storage/driver/sql.go:227-243 | InvalidKey exactly for malformed keys; otherwise success with no release and no row left under the address |
| `SqlDriverProperties.InvalidKeyRejected` | pkg/storage/driver/sql.go:78-85 | a malformed key gives InvalidKey in Get, Update and Delete, and in Create when encoding succeeds, with the table unchanged |
| `SqlDriverProperties.CreateEncodeErrorBeforeVersionCheck` | pkg/storage/driver/sql.go:166-174 | with one ".v" and a non-numeric version, a failed encode is reported although the key is invalid |
| `SqlDriverProperties.CreateThenGet` | pkg/storage/driver/sql.go:183-188 | after a successful Create, Get under any spelling of the address returns the release, and every other address is unchanged |
| `SqlDriverProperties.CreateTwice` | pkg/storage/driver/sql.go:178-181 | creating again under any spelling of a stored address gives ReleaseExists and changes nothing |
| `SqlDriverProperties.CreatePreservesUniqueKeys` | pkg/storage/driver/sql.go:178-188 | Create keeps row addresses unique |
| `SqlDriverProperties.UpdateThenGet` | pkg/storage/driver/sql.go:208-217 | after a successful Update, Get returns the new release, and every other address is unchanged |
| `SqlDriverProperties.UpdateIdempotent` | pkg/storage/driver/sql.go:215 | applying the same Update twice gives the same result and table as applying it once |
| `SqlDriverProperties.UpdatePreservesUniqueKeys` | pkg/storage/driver/sql.go:215 | Update keeps row addresses unique |
| `SqlDriverProperties.DeleteThenGet` | pkg/storage/driver/sql.go:238-242 | after Delete, Get under any spelling of the address gives ReleaseNotFound, and every other address is unchanged |
| `SqlDriverProperties.DeleteAbsentSucceeds` | pkg/storage/driver/sql.go:226-242 | deleting an address with no row reports success and leaves the table unchanged, contrary to the doc comment |
| `SqlDriverProperties.RemoveKeyAppend` | pkg/storage/driver/sql.go:238 | removing an address distributes over concatenation, so the surviving rows keep their table order |
| `SqlDriverProperties.RemoveKeySingle` | pkg/storage/driver/sql.go:238 | a single row survives exactly when it is under another address |
| `SqlDriverProperties.DeleteIdempotent` | pkg/storage/driver/sql.go:238 | deleting twice gives the same result and table as deleting once |
| `SqlDriverProperties.DeletePreservesUniqueKeys` | pkg/storage/driver/sql.go:238 | Delete keeps row addresses unique |
| `SqlDriverProperties.SelectedComplete` | pkg/storage/driver/sql.go:114-116 | every decodable row whose release satisfies the filter is in the result |
| `SqlDriverProperties.SelectedCount` | pkg/storage/driver/sql.go:109-117 | the result has exactly one release per matching row |
| `SqlDriverProperties.ListAllRows` | pkg/storage/driver/sql.go:109-117 | with no corrupt row, an always-true filter returns one release per row |
| `Scenarios.EmptyNameKey` | pkg/storage/driver/sql.go:78-84 | ".v1" is the address ("", 1) |
| `Scenarios.RejectsMissingSeparator` | pkg/storage/driver/sql.go:78-80 | a key without ".v" is InvalidKey |
| `Scenarios.RejectsTwoSeparators` | pkg/storage/driver/sql.go:78-80 | "a.v1.v2" splits into the three pieces "a", "1", "2" and is InvalidKey |
| `Scenarios.RejectsMalformedVersions` | pkg/storage/driver/sql.go:83-85 | an empty version, "x" and a bare "-" are rejected |
| `Scenarios.SixRowsByStatus` | pkg/storage/driver/sql_test.go:72-132 | six rows, two per status: filtering by each of the three statuses selects two releases |
| `Scenarios.ListByStatus` | pkg/storage/driver/sql_test.go:98-131 | List over those six rows returns 2, 2 and 2 releases |
| `Scenarios.ListWithCorruptRow` | pkg/storage/driver/sql.go:109-113 | one corrupt row among five fails List with the decode error, even under an always-true filter |
| `Scenarios.CreateGetCreate` | pkg/storage/driver/sql_test.go:139-202 | create in an empty table, get the same release back, and a second create gives ReleaseExists |
| `Scenarios.DriverName` | pkg/storage/driver/sql_test.go:30-35 | Name() is "SQL" |

## Left out

- Strconv.Atoi: assumes a 64-bit platform, where Go's `int` and the range
  `Atoi` accepts are 64 bits; a 32-bit build would reject versions outside
  the 32-bit range, and that narrower range is not modelled.
- `Query` (sql.go:123-157): not modelled. It builds SQL text by concatenating
  caller values. It ranges over map values as if they were keys, so its
  result depends on Go's random map order. It also scans rows straight into a
  release. It has no stable behaviour to state.
- `NewSQL`, connections, transactions (`MustBegin`/`Commit`) and row UUIDs:
  these are I/O and randomness. Each operation is one atomic table update. The
  missing rollback on the `ReleaseExists` path (sql.go:179-181) is not
  modelled.
- Backend failures: the backend is assumed healthy. Errors from `Exec` or
  `Commit` and connection loss are not modelled. Get's mapping of every lookup
  error to `ReleaseNotFound` is modelled only for the "no row" case.
- JSON encoding and decoding of releases is a foreign library. A stored body
  is `Valid(release)` or `Corrupt`. Create's encoder outcome is the boolean
  parameter `encodes`.
- SqlDriver.Update: the code never encodes the new release, and its SQL is
  malformed (`COUNT (*)`; placeholders that do not match the argument).
  Update is modelled by its evident intent: replace the body with the new
  release. So it has no encode-error path.
- SqlDriver.Create: its existence check uses the malformed `SELECT (*)`.
  It is modelled by its evident intent, an existence check by
  `(name, version)`.
- SqlDriver.Get binds the version as the unparsed string (sql.go:89). It is
  modelled as a lookup by the parsed integer. That matches numeric comparison
  in the database; string-typed dialect behaviour is not modelled.
- Concurrency: Create is check-then-insert, which is not safe under
  concurrent callers. Two concurrent creates are not modelled.
- The release object is reduced to name, version and status. The `Label`
  type (sql.go:52-57) is unused by the core and left out.
- The database's row order for `SELECT *` is taken to be insertion order, so
  Create appends.
