/**
 The release key "<name>.v<version>": Go's `strings.Split(key, ".v")` followed
 by `strconv.Atoi` on the second part, as repeated in Get, Create, Update and
 Delete of the SQL driver.
 */
module KeyCodec {
  import opened Wrappers
  import opened Strconv
  import opened StorageErrors

  /** The row address a key denotes. */
  datatype ReleaseKey = ReleaseKey(name: string, version: int)

  /** The separator ".v" starts at index i of s. */
  predicate IsSepAt(s: string, i: int) {
    0 <= i && i + 1 < |s| && s[i] == '.' && s[i + 1] == 'v'
  }

  /** s contains the separator ".v" somewhere. */
  predicate ContainsSep(s: string) {
    |s| >= 2 && ((s[0] == '.' && s[1] == 'v') || ContainsSep(s[1..]))
  }

  /** Glue parts back together with ".v" between neighbours (Go's `strings.Join`). */
  function JoinSep(parts: seq<string>): string
    requires |parts| > 0
  {
    if |parts| == 1 then parts[0] else parts[0] + ".v" + JoinSep(parts[1..])
  }

  /**
   Go's `strings.Split(s, ".v")`: the separator-free pieces between the
   occurrences of ".v", scanned left to right. There is always at least one
   piece (`Split("", ".v")` is `[""]`).
   */
  function SplitSep(s: string): (parts: seq<string>)
    ensures |parts| > 0
    ensures JoinSep(parts) == s
    ensures forall i | 0 <= i < |parts| :: !ContainsSep(parts[i])
  {
    if |s| < 2 then [s]
    else if s[0] == '.' && s[1] == 'v' then
      var rest := SplitSep(s[2..]);
      assert JoinSep([""] + rest) == "" + ".v" + JoinSep(rest);
      [""] + rest
    else
      var rest := SplitSep(s[1..]);
      var head := [s[0]] + rest[0];
      JoinSepPrefix(rest);
      assert head[1..] == rest[0];
      var parts := [head] + rest[1..];
      assert parts[1..] == rest[1..];
      assert JoinSep(parts) == [s[0]] + JoinSep(rest);
      parts
  }

  /** The first piece is a prefix of the joined string. */
  lemma JoinSepPrefix(parts: seq<string>)
    requires |parts| > 0
    ensures |parts[0]| <= |JoinSep(parts)|
    ensures JoinSep(parts)[..|parts[0]|] == parts[0]
  {
  }

  /**
   Splitting undoes joining: for separator-free pieces, the split of their
   join is exactly those pieces. So SplitSep's result is the only
   separator-free decomposition of its input.
   */
  lemma {:induction false} SplitJoin(parts: seq<string>)
    requires |parts| > 0
    requires forall i | 0 <= i < |parts| :: !ContainsSep(parts[i])
    ensures SplitSep(JoinSep(parts)) == parts
    decreases |parts|, |parts[0]|
  {
    var s := JoinSep(parts);
    var p := parts[0];
    if |parts| == 1 {
      if |s| >= 2 {
        assert !(s[0] == '.' && s[1] == 'v');
        var rest := [p[1..]];
        SplitJoin(rest);
        assert s[1..] == JoinSep(rest);
      }
    } else if p == "" {
      assert s == ".v" + JoinSep(parts[1..]);
      assert s[2..] == JoinSep(parts[1..]);
      SplitJoin(parts[1..]);
    } else {
      var rest := [p[1..]] + parts[1..];
      assert rest[1..] == parts[1..];
      assert JoinSep(rest) == p[1..] + ".v" + JoinSep(parts[1..]);
      assert s == p + ".v" + JoinSep(parts[1..]);
      assert s[1..] == JoinSep(rest);
      assert !(s[0] == '.' && s[1] == 'v') by {
        if |p| >= 2 {
          assert s[1] == p[1];
        } else {
          assert s[1] == '.';
        }
      }
      assert !ContainsSep(p[1..]);
      SplitJoin(rest);
      assert s[0] == p[0] && [p[0]] + p[1..] == p;
      assert [[s[0]] + p[1..]] + parts[1..] == parts;
    }
  }

  /** The key "<name>.v<rest>" splits into exactly its two pieces. */
  lemma SplitTwo(name: string, rest: string)
    requires !ContainsSep(name) && !ContainsSep(rest)
    ensures SplitSep(name + ".v" + rest) == [name, rest]
  {
    SplitJoin([name, rest]);
  }

  /** A string without any '.' cannot contain the separator. */
  lemma {:induction false} NoDotNoSep(s: string)
    requires forall i | 0 <= i < |s| :: s[i] != '.'
    ensures !ContainsSep(s)
  {
    if |s| >= 2 {
      NoDotNoSep(s[1..]);
    }
  }

  /**
   The key parsing of Get, Update and Delete: split on ".v", require exactly
   two pieces, and require the second to pass `Atoi`. Every failure is
   `InvalidKey(key)`.
   */
  function ParseKey(key: string): (r: Result<ReleaseKey, StorageError>)
    ensures r.Failure? ==> r.error == InvalidKey(key)
    ensures r.Success? ==>
      var n := |r.value.name|;
      && IsSepAt(key, n)
      && key[..n] == r.value.name
      && !ContainsSep(key[..n])
      && !ContainsSep(key[n + 2..])
      && Atoi(key[n + 2..]) == Some(r.value.version)
  {
    var elems := SplitSep(key);
    if |elems| != 2 then Failure(InvalidKey(key))
    else match Atoi(elems[1])
      case None => Failure(InvalidKey(key))
      case Some(version) =>
        assert elems[1..] == [elems[1]];
        assert JoinSep(elems[1..]) == elems[1];
        assert JoinSep(elems) == elems[0] + ".v" + JoinSep(elems[1..]);
        assert key == elems[0] + ".v" + elems[1];
        assert key[|elems[0]| + 2..] == elems[1];
        Success(ReleaseKey(elems[0], version))
  }

  /**
   The converse of ParseKey's postcondition: a key with a sole ".v" at index i
   followed by an `Atoi`-valid suffix parses to the prefix and that value.
   */
  lemma ParseKeyAccepts(key: string, i: int, version: int)
    requires IsSepAt(key, i)
    requires !ContainsSep(key[..i]) && !ContainsSep(key[i + 2..])
    requires Atoi(key[i + 2..]) == Some(version)
    ensures ParseKey(key) == Success(ReleaseKey(key[..i], version))
  {
    assert key == key[..i] + ".v" + key[i + 2..];
    SplitTwo(key[..i], key[i + 2..]);
  }

  /** How callers build keys: `fmt.Sprintf("%s.v%d", name, version)`. */
  function FormatKey(k: ReleaseKey): string {
    k.name + ".v" + Itoa(k.version)
  }

  /**
   Round trip: every name free of ".v" and every 64-bit version survive
   formatting and parsing, the empty name included.
   */
  lemma ParseFormatKey(k: ReleaseKey)
    requires !ContainsSep(k.name) && InIntRange(k.version)
    ensures ParseKey(FormatKey(k)) == Success(k)
  {
    var digits := Itoa(k.version);
    assert forall i | 0 <= i < |digits| :: digits[i] != '.' by {
      forall i | 0 <= i < |digits|
        ensures digits[i] != '.'
      {
        if k.version < 0 && i > 0 {
          assert digits[i] == digits[1..][i - 1];
        }
      }
    }
    NoDotNoSep(digits);
    SplitTwo(k.name, digits);
    AtoiItoa(k.version);
  }

  /** Formatting a parsed key yields the canonical spelling of the same address. */
  lemma FormatParsedKey(key: string)
    requires ParseKey(key).Success?
    ensures ParseKey(FormatKey(ParseKey(key).value)) == ParseKey(key)
  {
    ParseFormatKey(ParseKey(key).value);
  }

  /** A string of digits never contains the separator. */
  lemma DigitsHaveNoSep(s: string)
    requires AllDigits(s)
    ensures !ContainsSep(s)
  {
  }

  /** Neither does a sign followed by digits. */
  lemma SignedDigitsHaveNoSep(s: string)
    requires |s| > 0 && (s[0] == '+' || s[0] == '-') && AllDigits(s[1..])
    ensures !ContainsSep(s)
  {
    DigitsHaveNoSep(s[1..]);
  }

  /** A key with exactly one ".v" parses to its name and the Atoi value of the rest. */
  lemma ParseSoleSep(name: string, rest: string)
    requires !ContainsSep(name) && !ContainsSep(rest)
    ensures ParseKey(name + ".v" + rest) ==
      match Atoi(rest)
      case None => Failure(InvalidKey(name + ".v" + rest))
      case Some(v) => Success(ReleaseKey(name, v))
  {
    SplitTwo(name, rest);
  }

  /**
   Parsing is not injective: a leading zero or a '+' before the version
   spells the same (name, version) address as the plain digits.
   */
  lemma KeySpellingsAlias(name: string, digits: string)
    requires !ContainsSep(name)
    requires |digits| > 0 && AllDigits(digits) && InIntRange(DigitsValue(digits))
    ensures ParseKey(name + ".v" + digits) == Success(ReleaseKey(name, DigitsValue(digits)))
    ensures ParseKey(name + ".v" + ("0" + digits)) == Success(ReleaseKey(name, DigitsValue(digits)))
    ensures ParseKey(name + ".v" + ("+" + digits)) == Success(ReleaseKey(name, DigitsValue(digits)))
  {
    var zero := "0" + digits;
    var plus := "+" + digits;
    assert AllDigits(zero);
    DigitsHaveNoSep(digits);
    DigitsHaveNoSep(zero);
    assert plus[1..] == digits;
    SignedDigitsHaveNoSep(plus);
    AtoiLeadingZero(digits);
    AtoiPlusSign(digits);
    ParseSoleSep(name, digits);
    ParseSoleSep(name, zero);
    ParseSoleSep(name, plus);
  }
}
