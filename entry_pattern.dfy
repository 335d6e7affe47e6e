/**
 The two fixed regular expressions of `findAndUpdateDependencyVersions`,
   "<name>"\s*:\s*"[^"]+"        (one per dependency name)
   "expo-dev-client"\s*:\s*"[^"]+",?
 written out as a matcher over `string`. Neither needs backtracking: `\s*`
 can only stop at the colon or at the opening quote, and `[^"]+` only at the
 closing quote, so a match at a position is unique and the matcher below is
 deterministic.
 */
module EntryPattern {

  datatype Option<T> = None | Some(value: T)

  /** The characters JavaScript's `\s` accepts: WhiteSpace and LineTerminator. */
  predicate IsSpace(c: char) {
    || c == '\t' || c == '\n' || c == '\U{b}' || c == '\U{c}' || c == '\r' || c == ' '
    || c == '\U{a0}' || c == '\U{1680}' || ('\U{2000}' <= c <= '\U{200a}')
    || c == '\U{2028}' || c == '\U{2029}' || c == '\U{202f}' || c == '\U{205f}'
    || c == '\U{3000}' || c == '\U{feff}'
  }

  predicate AllSpace(w: string) {
    forall i :: 0 <= i < |w| ==> IsSpace(w[i])
  }

  /** No character of `v` is a double quote, i.e. `v` is in `[^"]*`. */
  predicate QuoteFree(v: string) {
    forall i :: 0 <= i < |v| ==> v[i] != '"'
  }

  function Quote(s: string): string {
    ['"'] + s + ['"']
  }

  /** A pattern: the literal key it looks for and whether it also swallows one `,` after the value. */
  datatype Pattern = Pattern(name: string, trailingComma: bool)

  /** The parts of one matched `"name" : "value"` entry. */
  datatype Entry = Entry(beforeColon: string, afterColon: string, value: string, comma: bool)

  /** The text an entry occupies in the document. */
  function EntryText(name: string, e: Entry): (t: string)
    ensures |t| >= |name| + 5
  {
    Quote(name) + e.beforeColon + [':'] + e.afterColon + Quote(e.value) + (if e.comma then [','] else [])
  }

  /** The parts agree with `\s*`, `\s*`, `[^"]+` and `,?`. */
  predicate WellFormed(p: Pattern, e: Entry) {
    && AllSpace(e.beforeColon) && AllSpace(e.afterColon)
    && e.value != [] && QuoteFree(e.value)
    && (e.comma ==> p.trailingComma)
  }

  /** `,?` is greedy: the comma is left out only when the text after the entry does not start with one. */
  predicate CommaGreedy(p: Pattern, e: Entry, rest: string) {
    p.trailingComma && !e.comma ==> rest == [] || rest[0] != ','
  }

  /** `\s*`: splits `s` into its longest whitespace prefix and the rest. */
  function SplitSpace(s: string): (r: (string, string))
    ensures s == r.0 + r.1 && AllSpace(r.0)
    ensures r.1 == [] || !IsSpace(r.1[0])
  {
    if s == [] || !IsSpace(s[0]) then ([], s)
    else
      var (w, rest) := SplitSpace(s[1..]);
      ([s[0]] + w, rest)
  }

  /** `[^"]*`: splits `s` into its longest quote-free prefix and the rest. */
  function SplitValue(s: string): (r: (string, string))
    ensures s == r.0 + r.1 && QuoteFree(r.0)
    ensures r.1 == [] || r.1[0] == '"'
  {
    if s == [] || s[0] == '"' then ([], s)
    else
      var (v, rest) := SplitValue(s[1..]);
      ([s[0]] + v, rest)
  }

  /** `\s*:` at the start of `s`: the whitespace and the text after the colon. */
  function MatchColon(s: string): (r: Option<(string, string)>)
    ensures r.Some? ==> s == r.value.0 + ([':'] + r.value.1) && AllSpace(r.value.0)
  {
    var (w, rest) := SplitSpace(s);
    if rest == [] || rest[0] != ':' then None
    else
      assert rest == [':'] + rest[1..];
      Some((w, rest[1..]))
  }

  /** `\s*"[^"]+"` at the start of `s`: the whitespace, the value and the text after the closing quote. */
  function MatchValue(s: string): (r: Option<(string, string, string)>)
    ensures r.Some? ==> s == r.value.0 + (['"'] + (r.value.1 + (['"'] + r.value.2)))
    ensures r.Some? ==> AllSpace(r.value.0) && r.value.1 != [] && QuoteFree(r.value.1)
  {
    var (w, t) := SplitSpace(s);
    if t == [] || t[0] != '"' then None
    else
      var (v, rest) := SplitValue(t[1..]);
      if v == [] || rest == [] then None
      else
        assert rest == ['"'] + rest[1..];
        assert t == ['"'] + (v + (['"'] + rest[1..]));
        Some((w, v, rest[1..]))
  }

  /** A match: the parts of the entry found and the text after it. */
  datatype Match = Match(entry: Entry, rest: string)

  /** What follows the quoted name in an entry, followed by more text, grouped one part after the other. */
  function TailThen(e: Entry, rest: string): string {
    e.beforeColon + ([':'] + (e.afterColon + (['"'] + (e.value + (['"'] + ((if e.comma then [','] else []) + rest))))))
  }

  /** `\s*:\s*"[^"]+"` (and `,?` when the pattern takes it) at the start of `t`, the text right after the quoted name. */
  function MatchTail(t: string, p: Pattern): (r: Option<Match>)
    ensures r.Some? ==> WellFormed(p, r.value.entry) && CommaGreedy(p, r.value.entry, r.value.rest)
    ensures r.Some? ==> t == TailThen(r.value.entry, r.value.rest)
  {
    match MatchColon(t)
    case None => None
    case Some((before, t')) =>
      match MatchValue(t')
      case None => None
      case Some((after, v, rest)) =>
        var comma := p.trailingComma && rest != [] && rest[0] == ',';
        var rest' := if comma then rest[1..] else rest;
        assert rest == (if comma then [','] else []) + rest';
        Some(Match(Entry(before, after, v, comma), rest'))
  }

  /**
   The match of `p` at the start of `s`, if there is one: the matched text is
   EntryText(p.name, entry) and the scan goes on with `rest`.
   */
  function MatchAt(s: string, p: Pattern): (r: Option<Match>)
    ensures r.Some? ==> WellFormed(p, r.value.entry)
    ensures r.Some? ==> s == EntryText(p.name, r.value.entry) + r.value.rest
    ensures r.Some? ==> CommaGreedy(p, r.value.entry, r.value.rest)
  {
    var q := Quote(p.name);
    if !(q <= s) then None
    else
      var r := MatchTail(s[|q|..], p);
      if r.None? then None
      else
        assert s == q + s[|q|..];
        EntryTextSplit(p.name, r.value.entry, r.value.rest);
        r
  }

  /** An entry followed by more text, regrouped the way the matcher reads it. */
  lemma EntryTextSplit(name: string, e: Entry, rest: string)
    ensures EntryText(name, e) + rest == Quote(name) + TailThen(e, rest)
  {
    var c := if e.comma then [','] else [];
    var v := Quote(e.value);
    assert v + (c + rest) == ['"'] + (e.value + (['"'] + (c + rest)));
    calc {
      EntryText(name, e) + rest;
      Quote(name) + e.beforeColon + [':'] + e.afterColon + v + c + rest;
      Quote(name) + (e.beforeColon + ([':'] + (e.afterColon + (v + (c + rest)))));
    }
  }

  lemma {:induction false} SplitSpaceOf(w: string, x: string)
    requires AllSpace(w)
    requires x == [] || !IsSpace(x[0])
    ensures SplitSpace(w + x) == (w, x)
  {
    if w != [] {
      assert (w + x)[1..] == w[1..] + x;
      SplitSpaceOf(w[1..], x);
      assert [w[0]] + w[1..] == w;
    } else {
      assert w + x == x;
    }
  }

  lemma {:induction false} SplitValueOf(v: string, x: string)
    requires QuoteFree(v)
    requires x == [] || x[0] == '"'
    ensures SplitValue(v + x) == (v, x)
  {
    if v != [] {
      assert (v + x)[1..] == v[1..] + x;
      SplitValueOf(v[1..], x);
      assert [v[0]] + v[1..] == v;
    } else {
      assert v + x == x;
    }
  }

  lemma MatchColonOf(w: string, t: string)
    requires AllSpace(w)
    ensures MatchColon(w + ([':'] + t)) == Some((w, t))
  {
    SplitSpaceOf(w, [':'] + t);
    assert ([':'] + t)[1..] == t;
  }

  lemma MatchValueOf(w: string, v: string, tail: string)
    requires AllSpace(w) && v != [] && QuoteFree(v)
    ensures MatchValue(w + (['"'] + (v + (['"'] + tail)))) == Some((w, v, tail))
  {
    SplitSpaceOf(w, ['"'] + (v + (['"'] + tail)));
    assert (['"'] + (v + (['"'] + tail)))[1..] == v + (['"'] + tail);
    SplitValueOf(v, ['"'] + tail);
    assert (['"'] + tail)[1..] == tail;
  }

  lemma MatchTailOf(p: Pattern, e: Entry, rest: string)
    requires WellFormed(p, e) && CommaGreedy(p, e, rest)
    ensures MatchTail(TailThen(e, rest), p) == Some(Match(e, rest))
  {
    var tail := (if e.comma then [','] else []) + rest;
    var t := e.afterColon + (['"'] + (e.value + (['"'] + tail)));
    MatchColonOf(e.beforeColon, t);
    MatchValueOf(e.afterColon, e.value, tail);
    if e.comma {
      assert tail[0] == ',' && tail[1..] == rest;
    } else {
      assert tail == rest;
    }
  }

  /**
   Every well-formed entry at the start of a text is matched, with exactly its
   own parts: any whitespace around the colon, any non-empty quote-free value,
   and the trailing comma when the pattern takes one.
   */
  lemma MatchAtEntry(p: Pattern, e: Entry, rest: string)
    requires WellFormed(p, e) && CommaGreedy(p, e, rest)
    ensures MatchAt(EntryText(p.name, e) + rest, p) == Some(Match(e, rest))
  {
    var q := Quote(p.name);
    var s := EntryText(p.name, e) + rest;
    EntryTextSplit(p.name, e, rest);
    assert s == q + TailThen(e, rest);
    assert s[|q|..] == TailThen(e, rest);
    MatchTailOf(p, e, rest);
  }

  /** A text that differs from the quoted name at some position holds no match at its start. */
  lemma MismatchNoMatch(s: string, p: Pattern, k: nat)
    requires k < |s| && k < |p.name| + 2 && s[k] != Quote(p.name)[k]
    ensures MatchAt(s, p) == None
  {
  }

  /** A text shorter than the quoted name holds no match. */
  lemma ShortTextNoMatch(s: string, p: Pattern)
    requires |s| < |p.name| + 2
    ensures MatchAt(s, p) == None
  {
  }

  /**
   An entry whose value is the empty string `""` is not matched: `[^"]+`
   needs at least one character.
   */
  lemma EmptyValueNotMatched(p: Pattern, before: string, after: string, rest: string)
    requires AllSpace(before) && AllSpace(after)
    ensures MatchAt(Quote(p.name) + before + [':'] + after + ['"', '"'] + rest, p) == None
  {
    var q := Quote(p.name);
    var t := after + (['"'] + (['"'] + rest));
    var s := Quote(p.name) + before + [':'] + after + ['"', '"'] + rest;
    assert s == q + (before + ([':'] + t));
    assert s[|q|..] == before + ([':'] + t);
    MatchColonOf(before, t);
    SplitSpaceOf(after, ['"'] + (['"'] + rest));
    assert (['"'] + (['"'] + rest))[1..] == ['"'] + rest;
    assert SplitValue(['"'] + rest).0 == [];
  }
}
