/**
 * The configuration-file reader of the web3.storage client
 * (`Client._read_config`): every line of a `KEY: value` file that holds a
 * colon is stripped and split at its first colon, and the pair is kept when
 * the key passes the test `key in ("ACCESS_TOKEN")`. The parentheses there
 * do not make a tuple, so the test is "the key is a substring of
 * ACCESS_TOKEN", which the model keeps.
 */
module Config {
  import opened Wrappers
  import opened Text

  /** The one key the client looks for. */
  const AccessTokenKey: string := "ACCESS_TOKEN"

  /** One `key: value` pair taken from a line. */
  datatype Entry = Entry(key: string, value: string)

  /** What one line of the file contributes: nothing when it has no colon or
      its key is not accepted, otherwise the key before the first colon of
      the stripped line and the stripped rest. */
  function ParseLine(line: string): (e: Option<Entry>)
    ensures ':' !in line ==> e == None
    ensures e.Some? ==> Contains(AccessTokenKey, e.value.key) && ':' !in e.value.key && IsStripped(e.value.value)
  {
    if ':' !in line then None
    else
      StripKeeps(line, ':');
      var parts := SplitOnce(Strip(line), ':');   // always two parts: the colon survives stripping
      var key, value := parts[0], parts[1];
      // `key in ("ACCESS_TOKEN")` tests against a string, not a tuple: a substring test
      if Contains(AccessTokenKey, key) then Some(Entry(key, Strip(value))) else None
  }

  /** The dictionary after one more line has been processed. */
  function Store(config: map<string, string>, e: Option<Entry>): (c: map<string, string>)
    ensures e.None? ==> c == config
    ensures e.Some? ==> e.value.key in c && c[e.value.key] == e.value.value
    ensures e.Some? ==> forall k :: k != e.value.key ==> (k in c <==> k in config)
    ensures e.Some? ==> forall k :: k != e.value.key && k in config ==> c[k] == config[k]
  {
    match e
    case None => config
    case Some(Entry(key, value)) => config[key := value]
  }

  /** Specification of the reader: the lines processed first to last. */
  function ConfigOf(lines: seq<string>): (config: map<string, string>)
    ensures forall k :: k in config ==> Contains(AccessTokenKey, k)
    decreases |lines|
  {
    if lines == [] then map[]
    else Store(ConfigOf(lines[..|lines| - 1]), ParseLine(lines[|lines| - 1]))
  }

  /** `Client._read_config` once the file is open: the loop over its lines,
      filling the dictionary. */
  method ReadConfig(lines: seq<string>) returns (config: map<string, string>)
    ensures config == ConfigOf(lines)
    ensures forall k :: k in config ==> OccursIn(k, AccessTokenKey)
  {
    config := map[];
    for i := 0 to |lines|
      invariant config == ConfigOf(lines[..i])
    {
      var line := lines[i];
      ConfigOfSnoc(lines[..i], line);
      assert lines[..i] + [line] == lines[..i + 1];
      if ':' in line {
        StripKeeps(line, ':');
        var parts := SplitOnce(Strip(line), ':');
        var key, value := parts[0], parts[1];
        if Contains(AccessTokenKey, key) {
          assert ParseLine(line) == Some(Entry(key, Strip(value)));
          config := config[key := Strip(value)];
        } else {
          assert ParseLine(line) == None;
        }
      }
    }
    assert lines[..|lines|] == lines;
    ConfigOfKeysOccur(lines);
  }

  /** Every key the reader stores is a contiguous block of ACCESS_TOKEN. */
  lemma ConfigOfKeysOccur(lines: seq<string>)
    ensures forall k :: k in ConfigOf(lines) ==> OccursIn(k, AccessTokenKey)
  {
    forall k | k in ConfigOf(lines) ensures OccursIn(k, AccessTokenKey) {
      ContainsIffOccurs(AccessTokenKey, k);
    }
  }

  /** `needle` is a contiguous block of `hay`. */
  ghost predicate OccursIn(needle: string, hay: string)
  {
    exists i :: OccursAt(needle, hay, i)
  }

  // ---------------------------------------------------------------------
  // Properties of a single line
  // ---------------------------------------------------------------------

  /** The shape of a stripped line that yields `key`: the key, a colon and the rest. */
  ghost predicate SplitsAs(line: string, key: string, rest: string)
  {
    Strip(line) == key + ":" + rest && ':' !in key
  }

  /** A line yields `Entry(key, value)` exactly when, once stripped, it reads
      `key + ":" + rest` with no colon in `key`, `key` is a substring of
      `ACCESS_TOKEN`, and `value` is `rest` stripped. So the split is at the
      first colon, and the value may hold further colons. */
  lemma ParseLineIff(line: string, key: string, value: string)
    ensures ParseLine(line) == Some(Entry(key, value)) <==>
      exists rest :: SplitsAs(line, key, rest) && OccursIn(key, AccessTokenKey) && value == Strip(rest)
  {
    ContainsIffOccurs(AccessTokenKey, key);
    if ParseLine(line) == Some(Entry(key, value)) {
      var rest := ParsedRest(line);
      assert SplitsAs(line, key, rest);
    }
    if exists rest :: SplitsAs(line, key, rest) && OccursIn(key, AccessTokenKey) && value == Strip(rest) {
      var rest :| SplitsAs(line, key, rest) && OccursIn(key, AccessTokenKey) && value == Strip(rest);
      ParseLineOfShape(line, key, rest);
    }
  }

  /** What follows the first colon of an accepted, stripped line. */
  ghost function ParsedRest(line: string): (rest: string)
    requires ParseLine(line).Some?
    ensures SplitsAs(line, ParseLine(line).value.key, rest)
    ensures ParseLine(line).value.value == Strip(rest)
  {
    StripKeeps(line, ':');
    SplitOnce(Strip(line), ':')[1]
  }

  /** A stripped line of the form `key + ":" + rest` is split into exactly
      `key` and `rest`, whatever colons `rest` holds. */
  lemma ParseLineOfShape(line: string, key: string, rest: string)
    requires SplitsAs(line, key, rest)
    requires Contains(AccessTokenKey, key)
    ensures ParseLine(line) == Some(Entry(key, Strip(rest)))
  {
    var t := Strip(line);
    assert ':' in t by { assert t[|key|] == ':'; }
    StripKeeps(line, ':');
    var parts := SplitOnce(t, ':');
    SplitAtFirst(t, key, rest, parts[0], parts[1]);
  }

  /** Two ways of writing a string as `a + ":" + b` with no colon in `a` are the same. */
  lemma SplitAtFirst(t: string, a: string, b: string, a': string, b': string)
    requires t == a + ":" + b && ':' !in a
    requires t == a' + ":" + b' && ':' !in a'
    ensures a == a' && b == b'
  {
    assert t[|a|] == ':' && t[|a'|] == ':';
    assert forall k :: 0 <= k < |a| ==> t[k] == a[k];
    assert forall k :: 0 <= k < |a'| ==> t[k] == a'[k];
    assert |a| == |a'|;
    assert a == t[..|a|] && a' == t[..|a'|];
    assert b == t[|a| + 1..] && b' == t[|a'| + 1..];
  }

  /** Leading whitespace never reaches the key candidate, accepted or not:
      the whole line is stripped before the split. (The key itself is not
      stripped again, so a space before the colon stays in it.) */
  lemma KeyHasNoLeadingSpace(line: string)
    requires ':' in line
    ensures var parts := SplitOnce(Strip(line), ':');
      |parts| == 2 && (parts[0] == [] || !IsSpace(parts[0][0]))
  {
    StripKeeps(line, ':');
    var t := Strip(line);
    var parts := SplitOnce(t, ':');
    if parts[0] != [] {
      assert parts[0][0] == t[0];
    }
  }

  // ---------------------------------------------------------------------
  // Properties of the whole file
  // ---------------------------------------------------------------------

  /** Processing one more line stores its entry, if any, onto what was read so far. */
  lemma ConfigOfSnoc(lines: seq<string>, line: string)
    ensures ConfigOf(lines + [line]) == Store(ConfigOf(lines), ParseLine(line))
  {
    assert (lines + [line])[..|lines|] == lines;
  }

  /** A line without a colon leaves the dictionary as it was. */
  lemma LineWithoutColonIgnored(lines: seq<string>, line: string)
    requires ':' !in line
    ensures ConfigOf(lines + [line]) == ConfigOf(lines)
  {
    ConfigOfSnoc(lines, line);
  }

  /** An accepted line sets its key to its value and changes no other entry. */
  lemma AcceptedLineOverwrites(lines: seq<string>, line: string, key: string, value: string)
    requires ParseLine(line) == Some(Entry(key, value))
    ensures var before, after := ConfigOf(lines), ConfigOf(lines + [line]);
      && key in after && after[key] == value
      && (forall k :: k != key ==> (k in after <==> k in before))
      && (forall k :: k != key && k in before ==> after[k] == before[k])
  {
    ConfigOfSnoc(lines, line);
  }

  /** The line at index `i` stores `key`. */
  ghost predicate StoresKey(lines: seq<string>, i: int, key: string)
  {
    0 <= i < |lines| && Stores(ParseLine(lines[i]), key)
  }

  /** Line `i` stores `key` with `value`, and no later line stores `key`. */
  ghost predicate LastStore(lines: seq<string>, key: string, value: string, i: int)
  {
    && 0 <= i < |lines|
    && ParseLine(lines[i]) == Some(Entry(key, value))
    && forall j :: i < j < |lines| ==> !StoresKey(lines, j, key)
  }

  /** A key is in the dictionary exactly when some line stores it. */
  lemma ConfigOfDomain(lines: seq<string>, key: string)
    ensures key in ConfigOf(lines) <==> exists i :: StoresKey(lines, i, key)
  {
    var es := Parsed(lines);
    ConfigOfIsFold(lines);
    FoldDomain(es, key);
    assert forall i :: 0 <= i < |lines| ==> (StoresKey(lines, i, key) <==> Stores(es[i], key));
  }

  /** The last line that stores a key decides its value: the dictionary maps
      `key` to `value` exactly when some line stores `key` with `value` and
      no later line stores `key` again. */
  lemma ConfigOfLastWins(lines: seq<string>, key: string, value: string)
    ensures (key in ConfigOf(lines) && ConfigOf(lines)[key] == value) <==>
      exists i :: LastStore(lines, key, value, i)
  {
    var es := Parsed(lines);
    ConfigOfIsFold(lines);
    FoldLastWins(es, key, value);
    forall i | 0 <= i < |lines| ensures LastEntry(es, key, value, i) <==> LastStore(lines, key, value, i) {
      assert forall j :: i < j < |lines| ==> (StoresKey(lines, j, key) <==> Stores(es[j], key));
    }
  }

  // ---------------------------------------------------------------------
  // The same facts for any sequence of per-line outcomes
  // ---------------------------------------------------------------------

  /** The outcome of every line, in order. */
  function Parsed(lines: seq<string>): (es: seq<Option<Entry>>)
    ensures |es| == |lines|
  {
    seq(|lines|, i requires 0 <= i < |lines| => ParseLine(lines[i]))
  }

  /** Storing the outcomes one after the other, first to last. */
  function Fold(es: seq<Option<Entry>>): (m: map<string, string>)
    decreases |es|
  {
    if es == [] then map[] else Store(Fold(es[..|es| - 1]), es[|es| - 1])
  }

  /** The outcome `e` stores `key`. */
  predicate Stores(e: Option<Entry>, key: string)
  {
    e.Some? && e.value.key == key
  }

  /** Outcome `i` stores `key` with `value`, and no later outcome stores `key`. */
  ghost predicate LastEntry(es: seq<Option<Entry>>, key: string, value: string, i: int)
  {
    && 0 <= i < |es|
    && es[i] == Some(Entry(key, value))
    && forall j :: i < j < |es| ==> !Stores(es[j], key)
  }

  lemma {:induction false} ConfigOfIsFold(lines: seq<string>)
    ensures ConfigOf(lines) == Fold(Parsed(lines))
    decreases |lines|
  {
    if lines != [] {
      var n := |lines| - 1;
      ConfigOfIsFold(lines[..n]);
      assert Parsed(lines)[..n] == Parsed(lines[..n]);
    }
  }

  lemma {:induction false} FoldDomain(es: seq<Option<Entry>>, key: string)
    ensures key in Fold(es) <==> exists i :: 0 <= i < |es| && Stores(es[i], key)
    decreases |es|
  {
    if es != [] {
      var n := |es| - 1;
      FoldDomain(es[..n], key);
      assert forall i :: 0 <= i < n ==> es[..n][i] == es[i];
    }
  }

  lemma {:induction false} FoldLastWins(es: seq<Option<Entry>>, key: string, value: string)
    ensures (key in Fold(es) && Fold(es)[key] == value) <==> exists i :: LastEntry(es, key, value, i)
    decreases |es|
  {
    if es != [] {
      var n := |es| - 1;
      var init := es[..n];
      FoldLastWins(init, key, value);
      assert forall i :: 0 <= i < n ==> init[i] == es[i];
      if Stores(es[n], key) {
        if key in Fold(es) && Fold(es)[key] == value {
          assert LastEntry(es, key, value, n);
        }
      } else {
        forall i | LastEntry(init, key, value, i) ensures LastEntry(es, key, value, i) {
        }
        forall i | LastEntry(es, key, value, i) ensures LastEntry(init, key, value, i) {
        }
      }
    }
  }

  // ---------------------------------------------------------------------
  // Worked lines
  // ---------------------------------------------------------------------

  /** A space before the colon stays in the key, which is then rejected. */
  lemma ExampleSpaceBeforeColonRejected(line: string)
    requires line == "ACCESS_TOKEN : x"
    ensures ParseLine(line) == None
  {
    assert SplitsAs(line, "ACCESS_TOKEN ", " x") by {
      StripUnique(line, "", line, "");
    }
    assert !OccursIn("ACCESS_TOKEN ", AccessTokenKey) by {
      assert |"ACCESS_TOKEN "| > |AccessTokenKey|;
    }
    forall key, value | ParseLine(line) == Some(Entry(key, value)) ensures false {
      ParseLineIff(line, key, value);
      var rest :| SplitsAs(line, key, rest) && OccursIn(key, AccessTokenKey);
      SplitAtFirst(Strip(line), key, rest, "ACCESS_TOKEN ", " x");
    }
  }

  /** A substring of ACCESS_TOKEN is accepted as a key. */
  lemma ExampleSubstringKeyAccepted(line: string)
    requires line == "TOKEN: x"
    ensures ParseLine(line) == Some(Entry("TOKEN", "x"))
  {
    assert SplitsAs(line, "TOKEN", " x") by {
      StripUnique(line, "", line, "");
    }
    assert Strip(" x") == "x" by {
      StripUnique(" x", " ", "x", "");
    }
    assert Contains(AccessTokenKey, "TOKEN") by {
      assert OccursAt("TOKEN", AccessTokenKey, 7);
      ContainsIffOccurs(AccessTokenKey, "TOKEN");
    }
    ParseLineOfShape(line, "TOKEN", " x");
  }

  /** So is the empty key: `"" in "ACCESS_TOKEN"` holds. */
  lemma ExampleEmptyKeyAccepted(line: string)
    requires line == ": x"
    ensures ParseLine(line) == Some(Entry("", "x"))
  {
    assert SplitsAs(line, "", " x") by {
      StripUnique(line, "", line, "");
    }
    assert Strip(" x") == "x" by {
      StripUnique(" x", " ", "x", "");
    }
    ParseLineOfShape(line, "", " x");
  }
}
