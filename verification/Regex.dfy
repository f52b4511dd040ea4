/** The glob matcher of stdlib/regex.ep: * is any text, ? any one character. */
module Regex {

  // ---------- what a match is ----------

  /** What one character of a pattern may stand for. */
  predicate StandsFor(c: char, part: string) {
    if c == '*' then true else if c == '?' then |part| == 1 else part == [c]
  }

  function Concat(parts: seq<string>): string { if parts == [] then "" else parts[0] + Concat(parts[1..]) }

  /** The text falls into parts, one for each character of the pattern. */
  ghost predicate Cuts(pattern: string, text: string, parts: seq<string>) {
    && |parts| == |pattern| && Concat(parts) == text
    && forall i :: 0 <= i < |pattern| ==> StandsFor(pattern[i], parts[i])
  }

  ghost predicate Matches(pattern: string, text: string) { exists parts :: Cuts(pattern, text, parts) }

  // ---------- the same by recursion ----------

  predicate Glob(p: string, t: string)
    decreases |p|
  {
    if p == "" then t == ""
    else if p[0] == '*' then exists k :: 0 <= k <= |t| && Glob(p[1..], t[k..])
    else t != "" && (p[0] == '?' || p[0] == t[0]) && Glob(p[1..], t[1..])
  }

  lemma {:induction false} GlobMatches(p: string, t: string)
    requires Glob(p, t)
    ensures Matches(p, t)
    decreases |p|
  {
    if p == "" {
      assert Cuts(p, t, []);
    } else {
      var k := 1;
      if p[0] == '*' { k :| 0 <= k <= |t| && Glob(p[1..], t[k..]); }
      GlobMatches(p[1..], t[k..]);
      var parts :| Cuts(p[1..], t[k..], parts);
      assert t[..k] + t[k..] == t && ([t[..k]] + parts)[1..] == parts;
      assert Cuts(p, t, [t[..k]] + parts);
    }
  }

  lemma {:induction false} CutsGlob(p: string, t: string, parts: seq<string>)
    requires Cuts(p, t, parts)
    ensures Glob(p, t)
    decreases |p|
  {
    if p != "" {
      var k := |parts[0]|;
      assert t[k..] == Concat(parts[1..]) && t[..k] == parts[0];
      assert StandsFor(p[0], parts[0]);
      forall i | 0 <= i < |p| - 1
        ensures StandsFor(p[1..][i], parts[1..][i])
      {
        assert StandsFor(p[i + 1], parts[i + 1]);
      }
      CutsGlob(p[1..], t[k..], parts[1..]);
    }
  }

  /** The recursion finds a way to cut the text exactly when there is one. */
  lemma GlobExactly(p: string, t: string)
    ensures Glob(p, t) <==> Matches(p, t)
  {
    if Glob(p, t) { GlobMatches(p, t); }
    if parts :| Cuts(p, t, parts) { CutsGlob(p, t, parts); }
  }

  lemma NothingLeft(p: string)
    requires p != ""
    ensures Glob(p, "") <==> p[0] == '*' && Glob(p[1..], "")
  {
    assert ""[0..] == "";
  }

  /** The matcher: it ends, and from any start positions it is right about what is left of
      the pattern and of the text. */
  method GlobMatchHelper(pattern: string, pi0: nat, text: string, ti0: nat) returns (r: bool)
    requires pi0 <= |pattern| && ti0 <= |text|
    ensures r <==> Glob(pattern[pi0..], text[ti0..])
    decreases |pattern| - pi0, 0
  {
    var pi, ti := pi0, ti0;
    while pi < |pattern|
      invariant pi0 <= pi <= |pattern| && ti0 <= ti <= |text|
      invariant Glob(pattern[pi..], text[ti..]) == Glob(pattern[pi0..], text[ti0..])
      decreases |pattern| - pi
    {
      assert pattern[pi..][1..] == pattern[pi + 1..];
      var pc := pattern[pi];
      if ti > |text| - 1 {
        assert text[ti..] == "";
        NothingLeft(pattern[pi..]);
        if pc == '*' { pi := pi + 1; } else { return false; }
      } else {
        var tc := text[ti];
        assert text[ti..][1..] == text[ti + 1..];
        if pc == '*' {
          pi := pi + 1;
          r := StarLoop(pattern, pi, text, ti);
          StarIs(pattern[pi - 1..], text, ti);
          return;
        } else if pc == '?' {
          pi := pi + 1;
          ti := ti + 1;
        } else if pc == tc {
          pi := pi + 1;
          ti := ti + 1;
        } else {
          return false;
        }
      }
    }
    assert pattern[pi..] == "";
    return ti >= |text|;
  }

  /** A star: try to match the rest from every place of the text on. */
  method StarLoop(pattern: string, pi: nat, text: string, from: nat) returns (r: bool)
    requires pi <= |pattern| && from < |text|
    ensures r <==> exists k :: from <= k <= |text| && Glob(pattern[pi..], text[k..])
    decreases |pattern| - pi, 1
  {
    var ti := from;
    while ti < |text| + 1
      invariant from <= ti <= |text| + 1 && forall k :: from <= k < ti ==> !Glob(pattern[pi..], text[k..])
    {
      var found := GlobMatchHelper(pattern, pi, text, ti);
      if found { return true; }
      ti := ti + 1;
    }
    return false;
  }

  lemma StarIs(p: string, text: string, ti: nat)
    requires p != "" && p[0] == '*' && ti <= |text|
    ensures Glob(p, text[ti..]) <==> exists k :: ti <= k <= |text| && Glob(p[1..], text[k..])
  {
    var t := text[ti..];
    assert forall k :: 0 <= k <= |t| ==> t[k..] == text[ti + k..];
    if k :| ti <= k <= |text| && Glob(p[1..], text[k..]) { assert t[k - ti..] == text[k..]; }
  }

  /** simple_match decides the relation, for every pattern and text. */
  method SimpleMatch(pattern: string, text: string) returns (r: bool)
    ensures r <==> Matches(pattern, text)
  {
    r := GlobMatchHelper(pattern, 0, text, 0);
    assert pattern[0..] == pattern && text[0..] == text;
    GlobExactly(pattern, text);
  }
}
