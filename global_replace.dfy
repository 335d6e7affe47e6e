/**
 `text.replace(regex, rep)` for a regex with the `g` flag and a replacement
 string without `$` patterns: a left-to-right scan that tries the pattern at
 each position, replaces each match by `rep` and resumes right after it, and
 copies every other character through.
 */
module GlobalReplace {
  import opened EntryPattern

  /**
   The global replace: tries the pattern at each position from the left,
   replaces each match by `rep` and resumes right after it, and copies every
   other character through. A replacement no longer than any entry never
   lengthens the text.
   */
  function ReplaceAll(s: string, p: Pattern, rep: string): (r: string)
    ensures |rep| <= |p.name| + 5 ==> |r| <= |s|
    decreases |s|
  {
    if s == [] then []
    else
      match MatchAt(s, p)
      case Some(m) => rep + ReplaceAll(m.rest, p, rep)
      case None => [s[0]] + ReplaceAll(s[1..], p, rep)
  }

  /** One step of the scan: a character copied through, or a matched entry. */
  datatype Piece = Copied(c: char) | Replaced(entry: Entry)

  /** The input text the pieces came from. */
  function Flatten(name: string, ps: seq<Piece>): string {
    if ps == [] then []
    else
      (match ps[0]
       case Copied(c) => [c]
       case Replaced(e) => EntryText(name, e))
      + Flatten(name, ps[1..])
  }

  /** The output the pieces give: copied characters stay, each entry becomes `rep`. */
  function Render(ps: seq<Piece>, rep: string): string {
    if ps == [] then []
    else
      (match ps[0]
       case Copied(c) => [c]
       case Replaced(_) => rep)
      + Render(ps[1..], rep)
  }

  /**
   Pieces follow the matches of `p`: at each point of the scan, the next piece
   is an entry exactly where `p` matches the text from there on (and then it
   is that match), and a copied character exactly where `p` does not match.
   */
  predicate FollowsMatches(ps: seq<Piece>, p: Pattern) {
    ps == [] ||
    (&& MatchAt(Flatten(p.name, ps), p)
          == (if ps[0].Copied? then None else Some(Match(ps[0].entry, Flatten(p.name, ps[1..]))))
     && FollowsMatches(ps[1..], p))
  }

  /** The scan that `replace` performs, as a list of pieces that spell out the input in order and follow the matches. */
  function Scan(s: string, p: Pattern): (ps: seq<Piece>)
    ensures Flatten(p.name, ps) == s
    ensures FollowsMatches(ps, p)
    decreases |s|
  {
    if s == [] then []
    else
      match MatchAt(s, p)
      case Some(m) =>
        var ps := [Replaced(m.entry)] + Scan(m.rest, p);
        assert ps[1..] == Scan(m.rest, p);
        ps
      case None =>
        var ps := [Copied(s[0])] + Scan(s[1..], p);
        assert ps[1..] == Scan(s[1..], p);
        assert [s[0]] + s[1..] == s;
        ps
  }

  /** `replace` is the rendering of its scan: matched entries become `rep`, all else is copied in order. */
  lemma {:induction false} ReplaceAllIsRender(s: string, p: Pattern, rep: string)
    ensures ReplaceAll(s, p, rep) == Render(Scan(s, p), rep)
    decreases |s|
  {
    if s != [] {
      match MatchAt(s, p)
      case Some(m) =>
        ReplaceAllIsRender(m.rest, p, rep);
        assert ([Replaced(m.entry)] + Scan(m.rest, p))[1..] == Scan(m.rest, p);
      case None =>
        ReplaceAllIsRender(s[1..], p, rep);
        assert ([Copied(s[0])] + Scan(s[1..], p))[1..] == Scan(s[1..], p);
    }
  }

  /** An entry at the head of the text is replaced by exactly `rep`, and the scan goes on after it. */
  lemma ReplaceEntry(p: Pattern, e: Entry, rest: string, rep: string)
    requires WellFormed(p, e) && CommaGreedy(p, e, rest)
    ensures ReplaceAll(EntryText(p.name, e) + rest, p, rep) == rep + ReplaceAll(rest, p, rep)
  {
    MatchAtEntry(p, e, rest);
  }

  /** No match starts in `u` when none starts in `u` extended by its first character. */
  lemma NoMatchInTail(u: string, t: string, p: Pattern)
    requires u != []
    requires forall i :: 0 <= i < |u| ==> MatchAt((u + t)[i..], p).None?
    ensures forall i :: 0 <= i < |u[1..]| ==> MatchAt((u[1..] + t)[i..], p).None?
  {
    forall i | 0 <= i < |u[1..]|
      ensures MatchAt((u[1..] + t)[i..], p).None?
    {
      assert (u[1..] + t)[i..] == (u + t)[i + 1..];
    }
  }

  /** Where no match starts, the scan copies one character and moves on. */
  lemma CopyHead(s: string, p: Pattern, rep: string)
    requires s != [] && MatchAt(s, p).None?
    ensures ReplaceAll(s, p, rep) == [s[0]] + ReplaceAll(s[1..], p, rep)
  {
  }

  /** Text where the pattern matches at no position is copied through unchanged. */
  lemma {:induction false} CopyPrefix(u: string, t: string, p: Pattern, rep: string)
    requires forall i :: 0 <= i < |u| ==> MatchAt((u + t)[i..], p).None?
    ensures ReplaceAll(u + t, p, rep) == u + ReplaceAll(t, p, rep)
    decreases |u|
  {
    if u == [] {
      assert u + t == t;
    } else {
      var s := u + t;
      var r := ReplaceAll(t, p, rep);
      assert MatchAt(s[0..], p).None?;
      assert s[0..] == s;
      CopyHead(s, p, rep);
      assert s[1..] == u[1..] + t;
      NoMatchInTail(u, t, p);
      CopyPrefix(u[1..], t, p, rep);
      assert [u[0]] + (u[1..] + r) == ([u[0]] + u[1..]) + r;
      assert [u[0]] + u[1..] == u;
    }
  }


  /** Without any match the whole pass is the identity. */
  lemma NoMatchIdentity(s: string, p: Pattern, rep: string)
    requires forall i :: 0 <= i < |s| ==> MatchAt(s[i..], p).None?
    ensures ReplaceAll(s, p, rep) == s
  {
    assert s + [] == s;
    CopyPrefix(s, [], p, rep);
  }

  /**
   The scan is the only list of pieces that spells out the text and follows
   the matches, so `ReplaceAllIsRender` pins the output down completely.
   */
  lemma {:induction false} ScanUnique(s: string, p: Pattern, ps: seq<Piece>)
    requires Flatten(p.name, ps) == s && FollowsMatches(ps, p)
    ensures ps == Scan(s, p)
    decreases |ps|
  {
    if ps != [] {
      var rest := Flatten(p.name, ps[1..]);
      ScanUnique(rest, p, ps[1..]);
      match ps[0]
      case Copied(c) =>
        assert s == [c] + rest;
        assert s[0] == c && s[1..] == rest;
        assert Scan(s, p) == [Copied(c)] + Scan(rest, p);
      case Replaced(e) =>
        assert MatchAt(s, p) == Some(Match(e, rest));
        assert Scan(s, p) == [Replaced(e)] + Scan(rest, p);
      assert ps == [ps[0]] + ps[1..];
    }
  }

  /** Deleting the matches shortens the text as soon as the pattern matches at some position. */
  lemma {:induction false} DeleteShrinks(s: string, p: Pattern, i: nat)
    requires i < |s| && MatchAt(s[i..], p).Some?
    ensures |ReplaceAll(s, p, [])| < |s|
    decreases |s|
  {
    match MatchAt(s, p)
    case Some(m) =>
      assert ReplaceAll(s, p, []) == [] + ReplaceAll(m.rest, p, []);
    case None =>
      assert s[0..] == s;
      assert s[1..][i - 1..] == s[i..];
      DeleteShrinks(s[1..], p, i - 1);
  }
}
