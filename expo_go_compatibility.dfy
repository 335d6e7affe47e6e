/**
 Expo Go compatibility: the pinned versions of the packages whose newest
 releases the Expo Go app cannot load, and the rewrite of a `package.json`
 text that pins them and drops `expo-dev-client`.
 */
module ExpoGoCompatibility {
  import opened EntryPattern
  import opened GlobalReplace
  import opened EntryAutomaton

  /**
   The version overrides, in declaration order (which is the order
   `Object.keys` lists them in).
   */
  const ExpoGoCompatExpectedVersions: seq<(string, string)> := [
    ("@react-native-async-storage/async-storage", "1.18.2"),
    ("@shopify/flash-list", "1.4.3"),
    ("expo-application", "~5.3.0"),
    ("expo-font", "~11.4.0"),
    ("expo-localization", "~14.3.0"),
    ("react-native", "0.72.6")
  ]

  /** The version the table pins `name` to, if any. */
  function ExpectedVersion(table: seq<(string, string)>, name: string): Option<string> {
    if table == [] then None
    else if table[0].0 == name then Some(table[0].1)
    else ExpectedVersion(table[1..], name)
  }

  /** The characters a regular expression gives a meaning to. */
  predicate IsRegexMeta(c: char) {
    || c == '\\' || c == '^' || c == '$' || c == '.' || c == '|' || c == '?' || c == '*'
    || c == '+' || c == '(' || c == ')' || c == '[' || c == ']' || c == '{' || c == '}'
  }

  /**
   A dependency name is put into the regular expression and into the
   replacement as it is; it stands for itself only when it has no
   metacharacter and no double quote.
   */
  predicate SafeName(name: string) {
    forall i :: 0 <= i < |name| ==> !IsRegexMeta(name[i]) && name[i] != '"'
  }

  /** A version is put into the replacement string; without `$` it has no replacement pattern in it. */
  predicate SafeVersion(version: string) {
    forall i :: 0 <= i < |version| ==> version[i] != '$'
  }

  /** The regular expression built for one dependency. */
  function DependencyPattern(name: string): Pattern {
    Pattern(name, false)
  }

  /** The entry every match is replaced by: `"<name>": "<version>"`. */
  function PinnedEntry(version: string): Entry {
    Entry([], [' '], version, false)
  }

  /** One step of the `forEach`: every entry of `name` gets `version`. */
  function UpdateDependency(s: string, name: string, version: string): string {
    ReplaceAll(s, DependencyPattern(name), EntryText(name, PinnedEntry(version)))
  }

  const DevClientPattern := Pattern("expo-dev-client", true)

  /**
   The final pass: every `expo-dev-client` entry the scan meets is deleted,
   with one comma right after it. It only deletes, so it never lengthens the text.
   */
  function RemoveDevClient(s: string): (r: string)
    ensures |r| <= |s|
  {
    ReplaceAll(s, DevClientPattern, [])
  }

  /** The updates of `deps` applied in order, each on the result of the one before. */
  function ApplyUpdates(s: string, deps: seq<(string, string)>): string
    decreases |deps|
  {
    if deps == [] then s
    else
      var last := deps[|deps| - 1];
      UpdateDependency(ApplyUpdates(s, deps[..|deps| - 1]), last.0, last.1)
  }

  /**
   Rewrites the package.json text `packageJsonRaw` so that each dependency of
   `dependencies` (its entries in `Object.keys` order) has the given version,
   then drops `expo-dev-client`.
   */
  method FindAndUpdateDependencyVersions(packageJsonRaw: string, dependencies: seq<(string, string)>)
    returns (updatedPackageJson: string)
    requires forall i :: 0 <= i < |dependencies| ==> SafeName(dependencies[i].0) && SafeVersion(dependencies[i].1)
    ensures updatedPackageJson == RemoveDevClient(ApplyUpdates(packageJsonRaw, dependencies))
    ensures dependencies == [] ==> updatedPackageJson == RemoveDevClient(packageJsonRaw)
  {
    updatedPackageJson := packageJsonRaw;
    var i := 0;
    while i < |dependencies|
      invariant 0 <= i <= |dependencies|
      invariant updatedPackageJson == ApplyUpdates(packageJsonRaw, dependencies[..i])
    {
      var (depName, desiredVersion) := dependencies[i];
      assert dependencies[..i + 1][..i] == dependencies[..i];
      updatedPackageJson := UpdateDependency(updatedPackageJson, depName, desiredVersion);
      i := i + 1;
    }
    assert dependencies[..i] == dependencies;
    updatedPackageJson := RemoveDevClient(updatedPackageJson);
  }

  /** Applying the updates of `a` and then those of `b` is applying the updates of `a + b`. */
  lemma {:induction false} ApplyUpdatesAppend(s: string, a: seq<(string, string)>, b: seq<(string, string)>)
    ensures ApplyUpdates(s, a + b) == ApplyUpdates(ApplyUpdates(s, a), b)
    decreases |b|
  {
    if b == [] {
      assert a + b == a;
    } else {
      assert (a + b)[..|a + b| - 1] == a + b[..|b| - 1];
      ApplyUpdatesAppend(s, a, b[..|b| - 1]);
    }
  }

  /**
   An entry of `name` with any whitespace around the colon and any non-empty
   quote-free old value comes out as exactly `"<name>": "<version>"`, and the
   scan goes on after it.
   */
  lemma UpdateRewritesEntry(name: string, version: string, before: string, after: string, current: string, rest: string)
    requires AllSpace(before) && AllSpace(after) && current != [] && QuoteFree(current)
    ensures UpdateDependency(Quote(name) + before + [':'] + after + Quote(current) + rest, name, version)
         == Quote(name) + [':', ' '] + Quote(version) + UpdateDependency(rest, name, version)
  {
    var e := Entry(before, after, current, false);
    assert EntryText(name, e) == Quote(name) + before + [':'] + after + Quote(current);
    assert EntryText(name, PinnedEntry(version)) == Quote(name) + [':', ' '] + Quote(version);
    ReplaceEntry(DependencyPattern(name), e, rest, EntryText(name, PinnedEntry(version)));
  }

  /** An entry of `name` whose value is `""` is not touched by the update at that point. */
  lemma UpdateSkipsEmptyValue(name: string, version: string, before: string, after: string, rest: string)
    requires AllSpace(before) && AllSpace(after)
    ensures var s := Quote(name) + before + [':'] + after + ['"', '"'] + rest;
      UpdateDependency(s, name, version) == [s[0]] + UpdateDependency(s[1..], name, version)
  {
    EmptyValueNotMatched(DependencyPattern(name), before, after, rest);
  }

  /**
   Updating one dependency twice gives the same text as updating it once,
   when the version is non-empty and has no double quote.
   */
  lemma {:induction false} UpdateIdempotent(s: string, name: string, version: string)
    requires QuoteFree(name) && version != [] && QuoteFree(version)
    ensures UpdateDependency(UpdateDependency(s, name, version), name, version) == UpdateDependency(s, name, version)
    decreases |s|
  {
    var p := DependencyPattern(name);
    var e0 := PinnedEntry(version);
    var rep := EntryText(name, e0);
    var u := UpdateDependency(s, name, version);
    if s != [] {
      match MatchAt(s, p)
      case Some(m) =>
        assert u == rep + ReplaceAll(m.rest, p, rep);
        ReplaceEntry(p, e0, ReplaceAll(m.rest, p, rep), rep);
        UpdateIdempotent(m.rest, name, version);
      case None =>
        MatchIffAccepts(name, s);
        MatchIffAccepts(name, u);
        ReplaceAllPreservesRun(name, e0, Open, s);
        assert MatchAt(u, p).None?;
        assert u[0] == s[0] && u[1..] == ReplaceAll(s[1..], p, rep);
        UpdateIdempotent(s[1..], name, version);
    }
  }

  /**
   An `expo-dev-client` entry is deleted together with the comma right after
   it, if there is one, and the scan goes on after it.
   */
  lemma RemoveDeletesEntry(before: string, after: string, version: string, rest: string)
    requires AllSpace(before) && AllSpace(after) && version != [] && QuoteFree(version)
    ensures RemoveDevClient(Quote("expo-dev-client") + before + [':'] + after + Quote(version) + rest)
         == if rest != [] && rest[0] == ',' then RemoveDevClient(rest[1..]) else RemoveDevClient(rest)
  {
    var comma := rest != [] && rest[0] == ',';
    var e := Entry(before, after, version, comma);
    var rest' := if comma then rest[1..] else rest;
    assert EntryText("expo-dev-client", e) + rest'
        == Quote("expo-dev-client") + before + [':'] + after + Quote(version) + rest;
    ReplaceEntry(DevClientPattern, e, rest', []);
  }

  /** With no `expo-dev-client` entry anywhere, the removal pass is the identity. */
  lemma RemoveWithoutEntry(s: string)
    requires forall i :: 0 <= i < |s| ==> MatchAt(s[i..], DevClientPattern).None?
    ensures RemoveDevClient(s) == s
  {
    NoMatchIdentity(s, DevClientPattern, []);
  }

  /** The removal pass changes the text exactly when an `expo-dev-client` entry starts at some position. */
  lemma RemoveChangesIffEntry(s: string)
    ensures RemoveDevClient(s) == s <==> forall i :: 0 <= i < |s| ==> MatchAt(s[i..], DevClientPattern).None?
  {
    if forall i :: 0 <= i < |s| ==> MatchAt(s[i..], DevClientPattern).None? {
      NoMatchIdentity(s, DevClientPattern, []);
    } else {
      var i :| 0 <= i < |s| && MatchAt(s[i..], DevClientPattern).Some?;
      DeleteShrinks(s, DevClientPattern, i);
    }
  }

  /** A text too short to hold an `expo-dev-client` entry at any position is left as it is. */
  lemma RemoveShortText(s: string)
    requires |s| < 17
    ensures RemoveDevClient(s) == s
  {
    forall i | 0 <= i < |s|
      ensures MatchAt(s[i..], DevClientPattern).None?
    {
      ShortTextNoMatch(s[i..], DevClientPattern);
    }
    NoMatchIdentity(s, DevClientPattern, []);
  }

  /**
   An `expo-dev-client` entry between a text in which no match starts and a
   text the pass leaves alone is deleted, and only it is: the text before it
   is kept whole, whatever it ends with.
   */
  lemma RemoveEntryBetween(u: string, e: Entry, rest: string)
    requires WellFormed(DevClientPattern, e) && CommaGreedy(DevClientPattern, e, rest)
    requires forall i :: 0 <= i < |u| ==>
      MatchAt((u + (EntryText("expo-dev-client", e) + rest))[i..], DevClientPattern).None?
    requires RemoveDevClient(rest) == rest
    ensures RemoveDevClient(u + (EntryText("expo-dev-client", e) + rest)) == u + rest
  {
    var t := EntryText("expo-dev-client", e) + rest;
    CopyPrefix(u, t, DevClientPattern, []);
    assert RemoveDevClient(u + t) == u + RemoveDevClient(t);
    ReplaceEntry(DevClientPattern, e, rest, []);
    assert RemoveDevClient(t) == [] + RemoveDevClient(rest);
    assert [] + rest == rest;
  }

  /** `"expo-dev-client": ` cut in two: the head `"expo-dev-` and the tail `client": `. */
  const CutHead := Quote("expo-dev-client")[..10]
  const CutTail := Quote("expo-dev-client")[10..] + [':', ' ']

  /** No `expo-dev-client` entry starts inside `"expo-dev-` when a quote follows it. */
  lemma NoEntryInCutName(t: string)
    requires t != [] && t[0] == '"'
    ensures forall i :: 0 <= i < |CutHead| ==> MatchAt((CutHead + t)[i..], DevClientPattern).None?
  {
    var u := CutHead;
    forall i | 0 <= i < |u|
      ensures MatchAt((u + t)[i..], DevClientPattern).None?
    {
      var x := (u + t)[i..];
      if i == 0 {
        assert x[10] == t[0];
        MismatchNoMatch(x, DevClientPattern, 10);
      } else {
        assert x[0] == u[i];
        MismatchNoMatch(x, DevClientPattern, 0);
      }
    }
  }

  /**
   The removal pass deletes only the entries present when it runs: deleting
   an entry can join the text around it into a new `expo-dev-client` entry,
   which stays in the output. So the output may still hold such an entry, and
   running the pass again changes it.
   */
  lemma RemoveCanJoinNewEntry(inner: string, outer: string)
    requires inner != [] && QuoteFree(inner)
    requires outer != [] && QuoteFree(outer) && |outer| < 6
    ensures var s := CutHead + (EntryText("expo-dev-client", PinnedEntry(inner)) + (CutTail + Quote(outer)));
      && RemoveDevClient(s) == EntryText("expo-dev-client", PinnedEntry(outer))
      && MatchAt(RemoveDevClient(s), DevClientPattern).Some?
      && RemoveDevClient(RemoveDevClient(s)) == []
  {
    RemoveJoinsCutName(inner, outer);
    RemoveWholeEntry(outer);
  }

  /** Deleting an entry placed inside a cut `"expo-dev-client": ` leaves the joined entry. */
  lemma RemoveJoinsCutName(inner: string, outer: string)
    requires inner != [] && QuoteFree(inner)
    requires outer != [] && QuoteFree(outer) && |outer| < 6
    ensures RemoveDevClient(CutHead + (EntryText("expo-dev-client", PinnedEntry(inner)) + (CutTail + Quote(outer))))
         == EntryText("expo-dev-client", PinnedEntry(outer))
  {
    var rest := CutTail + Quote(outer);
    var t := EntryText("expo-dev-client", PinnedEntry(inner)) + rest;
    assert t[0] == '"';
    NoEntryInCutName(t);
    RemoveShortText(rest);
    RemoveEntryBetween(CutHead, PinnedEntry(inner), rest);
    CutNameJoins(outer);
  }

  /** The two halves of a cut `"expo-dev-client"` spell out a whole entry once they are joined. */
  lemma CutNameJoins(outer: string)
    ensures CutHead + (CutTail + Quote(outer)) == EntryText("expo-dev-client", PinnedEntry(outer))
  {
    var q := Quote("expo-dev-client");
    var key := q + [':', ' '];
    assert q[..10] + q[10..] == q;
    assert CutHead + CutTail == (q[..10] + q[10..]) + [':', ' '];
    assert CutHead + (CutTail + Quote(outer)) == key + Quote(outer);
    assert q + [] + [':'] + [' '] == key;
  }

  /** A text that is exactly one `expo-dev-client` entry is matched and deleted whole. */
  lemma RemoveWholeEntry(version: string)
    requires version != [] && QuoteFree(version)
    ensures MatchAt(EntryText("expo-dev-client", PinnedEntry(version)), DevClientPattern).Some?
    ensures RemoveDevClient(EntryText("expo-dev-client", PinnedEntry(version))) == []
  {
    var e := PinnedEntry(version);
    assert EntryText("expo-dev-client", e) + [] == EntryText("expo-dev-client", e);
    MatchAtEntry(DevClientPattern, e, []);
    ReplaceEntry(DevClientPattern, e, [], []);
  }

  /** No `expo-dev-client` entry starts inside the entry `"a": "1", `. */
  lemma NoEntryInKeyValue(t: string)
    ensures var u := "\"a\": \"1\", ";
      forall i :: 0 <= i < |u| ==> MatchAt((u + t)[i..], DevClientPattern).None?
  {
    var u := "\"a\": \"1\", ";
    forall i | 0 <= i < |u|
      ensures MatchAt((u + t)[i..], DevClientPattern).None?
    {
      var x := (u + t)[i..];
      var k := if u[i] == '"' then 1 else 0;
      assert x[k] == u[i + k];
      MismatchNoMatch(x, DevClientPattern, k);
    }
  }

  /**
   When `expo-dev-client` is the last entry of its object, the comma before
   it stays: the pass only takes a comma that follows the entry.
   */
  lemma LastEntryKeepsComma(version: string)
    requires version != [] && QuoteFree(version)
    ensures RemoveDevClient("\"a\": \"1\", " + (EntryText("expo-dev-client", PinnedEntry(version)) + "\n}"))
         == "\"a\": \"1\", " + "\n}"
  {
    NoEntryInKeyValue(EntryText("expo-dev-client", PinnedEntry(version)) + "\n}");
    RemoveShortText("\n}");
    RemoveEntryBetween("\"a\": \"1\", ", PinnedEntry(version), "\n}");
  }

  /** The table has six entries with distinct names and pins e.g. `react-native` to `0.72.6`. */
  lemma ExpectedVersionsTable()
    ensures |ExpoGoCompatExpectedVersions| == 6
    ensures forall i, j :: 0 <= i < j < 6 ==> ExpoGoCompatExpectedVersions[i].0 != ExpoGoCompatExpectedVersions[j].0
    ensures ExpectedVersion(ExpoGoCompatExpectedVersions, "react-native") == Some("0.72.6")
    ensures ExpectedVersion(ExpoGoCompatExpectedVersions, "expo-font") == Some("~11.4.0")
  {
  }

  /** The characters of the table's package names: lower-case letters, `-`, and the scope's `@` and `/`. */
  predicate PackageNameChar(c: char) {
    'a' <= c <= 'z' || c == '-' || c == '@' || c == '/'
  }

  lemma PackageNameSafe(name: string)
    requires forall i :: 0 <= i < |name| ==> PackageNameChar(name[i])
    ensures SafeName(name)
  {
  }

  lemma ScopedNamesSafe()
    ensures SafeName("@react-native-async-storage/async-storage") && SafeName("@shopify/flash-list")
  {
    PackageNameSafe("@react-native-async-storage/async-storage");
    PackageNameSafe("@shopify/flash-list");
  }

  lemma UnscopedNamesSafe()
    ensures SafeName("expo-application") && SafeName("expo-font")
    ensures SafeName("expo-localization") && SafeName("react-native")
  {
    PackageNameSafe("expo-application");
    PackageNameSafe("expo-font");
    PackageNameSafe("expo-localization");
    PackageNameSafe("react-native");
  }

  /** Every name of the table can be put into the regular expression, and every version into the replacement. */
  lemma ExpectedVersionsSafe()
    ensures forall i :: 0 <= i < |ExpoGoCompatExpectedVersions| ==>
      SafeName(ExpoGoCompatExpectedVersions[i].0) && SafeVersion(ExpoGoCompatExpectedVersions[i].1)
  {
    ScopedNamesSafe();
    UnscopedNamesSafe();
  }
}
