/**
 The dependency pattern "<name>"\s*:\s*"[^"]+" read one character at a time,
 as the automaton a regular-expression engine runs for it. MatchAt (the
 matcher) and this automaton agree (MatchIffAccepts). The automaton makes one
 fact easy to state: reading any matched entry, from any phase, ends in a
 phase that does not depend on the entry's whitespace or value. Hence
 rewriting entries never changes where the pattern matches, and rewriting
 twice is rewriting once.
 */
module EntryAutomaton {
  import opened EntryPattern
  import opened GlobalReplace

  /** How far a match attempt has got: `InName(k)` has read the opening quote and k characters of the name. */
  datatype Phase = Open | InName(k: nat) | AfterName | AfterColon | ValueStart | InValue | Done | Failed

  function Step(name: string, st: Phase, c: char): Phase {
    match st
    case Open => if c == '"' then InName(0) else Failed
    case InName(k) =>
      if k < |name| then (if c == name[k] then InName(k + 1) else Failed)
      else if c == '"' then AfterName else Failed
    case AfterName => if IsSpace(c) then AfterName else if c == ':' then AfterColon else Failed
    case AfterColon => if IsSpace(c) then AfterColon else if c == '"' then ValueStart else Failed
    case ValueStart => if c == '"' then Failed else InValue
    case InValue => if c == '"' then Done else InValue
    case Done => Done
    case Failed => Failed
  }

  function Run(name: string, st: Phase, s: string): Phase
    decreases |s|
  {
    if s == [] then st else Run(name, Step(name, st, s[0]), s[1..])
  }

  lemma {:induction false} RunAppend(name: string, st: Phase, a: string, b: string)
    ensures Run(name, st, a + b) == Run(name, Run(name, st, a), b)
    decreases |a|
  {
    if a == [] {
      assert a + b == b;
    } else {
      assert (a + b)[0] == a[0] && (a + b)[1..] == a[1..] + b;
      RunAppend(name, Step(name, st, a[0]), a[1..], b);
    }
  }

  lemma {:induction false} RunSettled(name: string, st: Phase, s: string)
    requires st == Done || st == Failed
    ensures Run(name, st, s) == st
    decreases |s|
  {
    if s != [] {
      RunSettled(name, st, s[1..]);
    }
  }

  lemma {:induction false} RunSpaces(name: string, st: Phase, w: string)
    requires AllSpace(w) && (st == AfterName || st == AfterColon)
    ensures Run(name, st, w) == st
    decreases |w|
  {
    if w != [] {
      RunSpaces(name, st, w[1..]);
    }
  }

  lemma {:induction false} RunValue(name: string, st: Phase, v: string)
    requires QuoteFree(v) && v != [] && (st == ValueStart || st == InValue)
    ensures Run(name, st, v) == InValue
    decreases |v|
  {
    if v[1..] != [] {
      RunValue(name, InValue, v[1..]);
    }
  }

  lemma {:induction false} RunNameChars(name: string, k: nat)
    requires k <= |name|
    ensures Run(name, InName(k), name[k..]) == InName(|name|)
    decreases |name| - k
  {
    if k < |name| {
      assert name[k..][1..] == name[k + 1..];
      RunNameChars(name, k + 1);
    }
  }

  /** The phases in which a match attempt waits for the colon, or has already failed. */
  predicate BeforeColon(st: Phase) {
    st == AfterName || st == AfterColon || st == Failed
  }

  lemma {:induction false} RunKeyText(name: string, st: Phase, v: string)
    requires QuoteFree(v) && BeforeColon(st)
    ensures BeforeColon(Run(name, st, v))
    decreases |v|
  {
    if v != [] {
      RunKeyText(name, Step(name, st, v[0]), v[1..]);
    }
  }

  /** Whatever the phase, reading a quoted quote-free name ends in one of four phases. */
  lemma RunQuotedName(name: string, st: Phase)
    requires QuoteFree(name)
    ensures var r := Run(name, st, Quote(name));
      r == AfterName || r == ValueStart || r == Failed || r == Done
    ensures st == Open ==> Run(name, st, Quote(name)) == AfterName
  {
    var s1 := Step(name, st, '"');
    RunAppend(name, st, ['"'], name);
    RunAppend(name, st, ['"'] + name, ['"']);
    assert Run(name, st, ['"']) == s1;
    var s2 := Run(name, s1, name);
    assert Run(name, st, Quote(name)) == Step(name, s2, '"');
    match s1
    case InName(k) =>
      assert k == 0 || k == |name|;
      if k == 0 {
        RunNameChars(name, 0);
        assert name[0..] == name;
      } else {
        RunKeyText(name, AfterName, name);
      }
    case AfterName =>
      RunKeyText(name, AfterName, name);
    case ValueStart =>
      if name != [] {
        RunValue(name, ValueStart, name);
      }
    case Done =>
      RunSettled(name, Done, name);
    case Failed =>
      RunSettled(name, Failed, name);
    case _ =>
      assert false;
  }

  /** What follows the quoted name in an entry of the dependency pattern. */
  function EntryTail(e: Entry): string {
    e.beforeColon + ([':'] + (e.afterColon + (['"'] + (e.value + ['"']))))
  }

  /** The rest of an entry completes a match both right after its name and right after an opening value quote. */
  lemma RunEntryTail(name: string, st: Phase, e: Entry)
    requires WellFormed(Pattern(name, false), e)
    requires st == AfterName || st == ValueStart
    ensures Run(name, st, EntryTail(e)) == Done
  {
    var closing := ['"'] + (e.value + ['"']);
    RunAppend(name, st, e.beforeColon, [':'] + (e.afterColon + closing));
    if st == AfterName {
      RunSpaces(name, AfterName, e.beforeColon);
      RunAppend(name, AfterColon, e.afterColon, closing);
      RunSpaces(name, AfterColon, e.afterColon);
      RunAppend(name, ValueStart, e.value, ['"']);
      RunValue(name, ValueStart, e.value);
    } else {
      var key := e.beforeColon + ([':'] + e.afterColon);
      assert EntryTail(e) == key + closing;
      assert QuoteFree(key) by {
        forall i | 0 <= i < |key| ensures key[i] != '"' {
          if i < |e.beforeColon| {
            assert key[i] == e.beforeColon[i];
          } else if i > |e.beforeColon| {
            assert key[i] == e.afterColon[i - |e.beforeColon| - 1];
          }
        }
      }
      RunAppend(name, ValueStart, key, closing);
      RunValue(name, ValueStart, key);
      RunSettled(name, Done, e.value + ['"']);
    }
  }

  /**
   Reading a matched entry of the dependency pattern from any phase ends in a
   phase fixed by the quoted name alone: its whitespace and value play no part.
   */
  lemma RunEntry(name: string, st: Phase, e: Entry)
    requires QuoteFree(name) && WellFormed(Pattern(name, false), e)
    ensures Run(name, st, EntryText(name, e))
         == if Run(name, st, Quote(name)) == Failed then Failed else Done
  {
    assert EntryText(name, e) == Quote(name) + EntryTail(e);
    RunAppend(name, st, Quote(name), EntryTail(e));
    RunQuotedName(name, st);
    var mid := Run(name, st, Quote(name));
    if mid == Failed || mid == Done {
      RunSettled(name, mid, EntryTail(e));
    } else {
      RunEntryTail(name, mid, e);
    }
  }

  lemma {:induction false} NameMismatch(name: string, k: nat, y: string)
    requires k <= |name|
    requires !(name[k..] + ['"'] <= y)
    ensures Run(name, InName(k), y) != Done
    decreases |y|
  {
    if y != [] {
      if k < |name| && y[0] == name[k] {
        assert name[k..] + ['"'] == [name[k]] + (name[k + 1..] + ['"']);
        assert y == [y[0]] + y[1..];
        NameMismatch(name, k + 1, y[1..]);
      } else if k == |name| && y[0] == '"' {
        assert false;
      } else {
        RunSettled(name, Failed, y[1..]);
      }
    }
  }

  /** Once the value has started, no further character can complete the match except a closing quote after a value character. */
  lemma ValueRejected(name: string, t: string)
    requires MatchValue(t).None?
    ensures Run(name, AfterColon, t) != Done
  {
    var (w, t3) := SplitSpace(t);
    RunAppend(name, AfterColon, w, t3);
    RunSpaces(name, AfterColon, w);
    if t3 != [] && t3[0] == '"' {
      var (v, rest) := SplitValue(t3[1..]);
      assert Run(name, AfterColon, t3) == Run(name, ValueStart, v + rest);
      RunAppend(name, ValueStart, v, rest);
      if v == [] {
        assert v + rest == rest;
        if rest != [] {
          RunSettled(name, Failed, rest[1..]);
        }
      } else {
        RunValue(name, ValueStart, v);
      }
    } else if t3 != [] {
      RunSettled(name, Failed, t3[1..]);
    }
  }

  lemma ColonRejected(name: string, t: string)
    requires MatchColon(t).None? || MatchValue(MatchColon(t).value.1).None?
    ensures Run(name, AfterName, t) != Done
  {
    var (w, r) := SplitSpace(t);
    RunAppend(name, AfterName, w, r);
    RunSpaces(name, AfterName, w);
    if r != [] {
      if r[0] == ':' {
        assert MatchColon(t) == Some((w, r[1..]));
        ValueRejected(name, r[1..]);
      } else {
        RunSettled(name, Failed, r[1..]);
      }
    }
  }

  /** The matcher and the automaton agree: the pattern matches at the start of `z` exactly when the automaton accepts a prefix of it. */
  lemma MatchIffAccepts(name: string, z: string)
    requires QuoteFree(name)
    ensures MatchAt(z, Pattern(name, false)).Some? <==> Run(name, Open, z) == Done
  {
    var p := Pattern(name, false);
    var q := Quote(name);
    match MatchAt(z, p)
    case Some(m) =>
      RunAppend(name, Open, EntryText(name, m.entry), m.rest);
      RunEntry(name, Open, m.entry);
      RunQuotedName(name, Open);
      RunSettled(name, Done, m.rest);
    case None =>
      if q <= z {
        assert z == q + z[|q|..];
        RunAppend(name, Open, q, z[|q|..]);
        RunQuotedName(name, Open);
        ColonRejected(name, z[|q|..]);
      } else if z != [] {
        if z[0] == '"' {
          assert name[0..] == name;
          assert !(name + ['"'] <= z[1..]);
          NameMismatch(name, 0, z[1..]);
        } else {
          RunSettled(name, Failed, z[1..]);
        }
      }
  }

  /**
   Rewriting every entry of the dependency pattern with another entry of the
   same key leaves the automaton's run, from any phase, unchanged.
   */
  lemma {:induction false} ReplaceAllPreservesRun(name: string, e0: Entry, st: Phase, s: string)
    requires QuoteFree(name) && WellFormed(Pattern(name, false), e0)
    ensures Run(name, st, ReplaceAll(s, Pattern(name, false), EntryText(name, e0))) == Run(name, st, s)
    decreases |s|
  {
    var p := Pattern(name, false);
    var rep := EntryText(name, e0);
    if s != [] {
      match MatchAt(s, p)
      case Some(m) =>
        RunAppend(name, st, rep, ReplaceAll(m.rest, p, rep));
        RunEntry(name, st, e0);
        RunEntry(name, st, m.entry);
        ReplaceAllPreservesRun(name, e0, Run(name, st, rep), m.rest);
        RunAppend(name, st, EntryText(name, m.entry), m.rest);
      case None =>
        var r := [s[0]] + ReplaceAll(s[1..], p, rep);
        assert r[0] == s[0] && r[1..] == ReplaceAll(s[1..], p, rep);
        ReplaceAllPreservesRun(name, e0, Step(name, st, s[0]), s[1..]);
    }
  }
}
