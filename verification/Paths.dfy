/** Disk-relative paths such as "home/maria/letters": which are acceptable, the
    folder above one, the region below one, and the staging sibling of a file. */
module Paths {
  import opened Strings

  const STAGE_SUFFIX := ".ern-new"

  // ---------- acceptable names and paths ----------

  predicate NameChar(c: char) { IsAlphanumeric(c) || c in {' ', '-', '.', '_'} }

  predicate SafeName(n: string) {
    n != "" && n != "." && n != ".." && forall c :: c in n ==> NameChar(c)
  }

  predicate SafePath(p: string) {
    p != "" && forall part :: part in Split(p, "/") ==> SafeName(part)
  }

  method NameIsSafe(name: string) returns (ok: bool)
    ensures ok == SafeName(name)
  {
    if name == "" || name == "." || name == ".." { return false; }
    var i := 0;
    while i < |name|
      invariant 0 <= i <= |name|
      invariant forall k :: 0 <= k < i ==> NameChar(name[k])
    {
      if !NameChar(name[i]) { return false; }
      i := i + 1;
    }
    return true;
  }

  method PathIsSafe(path: string) returns (ok: bool)
    ensures ok == SafePath(path)
  {
    if path == "" { return false; }
    var parts := SplitString(path, "/");
    for i := 0 to |parts|
      invariant forall k :: 0 <= k < i ==> SafeName(parts[k])
    {
      var safe := NameIsSafe(parts[i]);
      if !safe { return false; }
    }
    return true;
  }

  lemma OneName(name: string)
    requires SafeName(name) && '/' !in name
    ensures SafePath(name)
  {
    SplitWithout(name, '/');
  }

  /** A path of two parts is safe exactly when both are. */
  lemma SafeJoin(a: string, b: string)
    requires a != "" && b != ""
    ensures SafePath(a + "/" + b) <==> SafePath(a) && SafePath(b)
  {
    SplitOfConcat(a, b, '/');
    var parts := Split(a + "/" + b, "/");
    assert forall x :: x in Split(a, "/") ==> x in parts;
    assert forall x :: x in Split(b, "/") ==> x in parts;
  }

  /** What a host does with a path: "." stays, ".." climbs, and an empty name stays. */
  function Walk(at: seq<string>, parts: seq<string>): seq<string>
    decreases parts
  {
    if parts == [] then at
    else
      var next :=
        if parts[0] == "" || parts[0] == "." then at
        else if parts[0] == ".." then (if at == [] then at else at[..|at| - 1])
        else at + [parts[0]];
      Walk(next, parts[1..])
  }

  /** The disk's security fence: a safe path, walked from the disk folder, ends strictly
      inside it, at the very names it spells. */
  lemma SafePathStaysInside(p: string, disk: seq<string>)
    requires SafePath(p)
    ensures Walk(disk, Split(p, "/")) == disk + Split(p, "/")
    ensures |Split(p, "/")| > 0
  {
    PlainWalk(disk, Split(p, "/"));
  }

  lemma {:induction false} PlainWalk(at: seq<string>, parts: seq<string>)
    requires forall x :: x in parts ==> SafeName(x)
    ensures Walk(at, parts) == at + parts
    decreases parts
  {
    if parts == [] {
      assert at + parts == at;
    } else {
      assert parts[0] in parts;
      PlainWalk(at + [parts[0]], parts[1..]);
      assert at + [parts[0]] + parts[1..] == at + parts;
    }
  }

  // ---------- the folder above ----------

  /** The last slash of p, or -1. */
  function LastSlash(p: string): (r: int)
    ensures -1 <= r < |p|
    ensures r >= 0 ==> p[r] == '/'
    ensures forall k :: r < k < |p| ==> p[k] != '/'
  {
    if p == "" then -1
    else if p[|p| - 1] == '/' then |p| - 1
    else LastSlash(p[..|p| - 1])
  }

  function Parent(p: string): string {
    if LastSlash(p) < 0 then "" else p[..LastSlash(p)]
  }

  method ParentOf(path: string) returns (r: string)
    ensures r == Parent(path)
  {
    var cut := StringLastIndexOf(path, "/");
    if cut < 0 {
      assert LastSlash(path) >= 0 ==> OccursAt(path, "/", LastSlash(path));
      return "";
    }
    assert path[cut] == '/' by { assert path[cut..cut + 1] == "/"; }
    if cut < LastSlash(path) { assert OccursAt(path, "/", LastSlash(path)); }
    return path[..cut];
  }

  lemma ParentOfJoin(a: string, b: string, p: string)
    requires '/' !in b && p == a + "/" + b
    ensures Parent(p) == a
  {
    assert p[|a|] == '/';
    forall k | |a| < k < |p|
      ensures p[k] != '/'
    {
      assert p[k] == b[k - |a| - 1];
    }
    assert LastSlash(p) == |a|;
    assert p[..|a|] == a;
  }

  lemma ParentIsSafe(p: string)
    requires SafePath(p) && Parent(p) != ""
    ensures SafePath(Parent(p))
  {
    var cut := LastSlash(p);
    assert p == p[..cut] + "/" + p[cut + 1..];
    SplitOfConcat(p[..cut], p[cut + 1..], '/');
    assert forall x :: x in Split(p[..cut], "/") ==> x in Split(p, "/");
  }

  // ---------- the region below ----------

  predicate Below(k: string, a: string) {
    |a| < |k| && k[..|a|] == a && k[|a|] == '/'
  }

  predicate Within(k: string, a: string) { k == a || Below(k, a) }

  lemma BelowIsTransitive(k: string, m: string, a: string)
    requires Below(k, m) && Below(m, a)
    ensures Below(k, a)
  {
    assert k[..|a|] == m[..|a|];
    assert k[|a|] == m[|a|];
  }

  /** Climbing one folder from below a lands on a or still below it. */
  lemma ParentOfBelow(k: string, a: string)
    requires Below(k, a)
    ensures Within(Parent(k), a) && LastSlash(k) >= |a| && |Parent(k)| < |k|
  {
    var cut := LastSlash(k);
    assert cut >= |a|;
    if cut == |a| { assert Parent(k) == a; } else { assert Parent(k)[..|a|] == a; }
  }

  lemma AboveParent(k: string)
    requires LastSlash(k) >= 0
    ensures Below(k, Parent(k))
  {
  }

  /** The path k, re-rooted from a to b. */
  function Shift(k: string, a: string, b: string): string
    requires Within(k, a)
  {
    b + k[|a|..]
  }

  lemma ShiftInvolutes(k: string, a: string, b: string)
    requires Within(k, a)
    ensures Within(Shift(k, a, b), b) && Shift(Shift(k, a, b), b, a) == k
  {
    var m := Shift(k, a, b);
    assert m[..|b|] == b && m[|b|..] == k[|a|..];
    assert a + k[|a|..] == k by { assert k[..|a|] == a; }
  }

  lemma ShiftParent(k: string, a: string, b: string)
    requires Below(k, a)
    ensures Within(Parent(k), a) && Parent(Shift(k, a, b)) == Shift(Parent(k), a, b)
  {
    ParentOfBelow(k, a);
    var m, cut := Shift(k, a, b), LastSlash(k);
    var there := cut - |a| + |b|;
    assert m[there] == k[cut];
    assert forall i :: there < i < |m| ==> m[i] == k[i - |b| + |a|];
    assert LastSlash(m) == there;
    assert m[..there] == b + k[..cut][|a|..];
  }

  // ---------- the staging sibling ----------

  function Stage(p: string): string { p + STAGE_SUFFIX }

  predicate IsStage(p: string) {
    |p| >= |STAGE_SUFFIX| && p[|p| - |STAGE_SUFFIX|..] == STAGE_SUFFIX
  }

  function Unstage(p: string): string
    requires IsStage(p)
  {
    p[..|p| - |STAGE_SUFFIX|]
  }

  lemma StageFacts(p: string)
    ensures IsStage(Stage(p)) && Unstage(Stage(p)) == p && Stage(p) != p
    ensures Parent(Stage(p)) == Parent(p)
  {
    var m := Stage(p);
    assert forall i :: |p| <= i < |m| ==> m[i] == STAGE_SUFFIX[i - |p|];
    assert forall c :: c in STAGE_SUFFIX ==> c != '/';
    assert forall i :: LastSlash(p) < i < |m| ==> m[i] != '/';
    assert LastSlash(p) >= 0 ==> m[LastSlash(p)] == '/';
    assert LastSlash(m) == LastSlash(p);
  }

  lemma StageIsSafe(p: string)
    requires SafePath(p)
    ensures SafePath(Stage(p))
  {
    var parts := Split(p, "/");
    var last := parts[|parts| - 1];
    SplitStretch(p, STAGE_SUFFIX, '/');
    assert SafeName(last) by { assert last in parts; }
    assert SafeName(last + STAGE_SUFFIX);
    assert forall x :: x in Split(Stage(p), "/") ==> x in parts || x == last + STAGE_SUFFIX;
  }

  lemma StageHasDot(k: string)
    requires IsStage(k)
    ensures '.' in k
  {
    assert k[|k| - |STAGE_SUFFIX|] == k[|k| - |STAGE_SUFFIX|..][0];
  }

  /** The suffix holds no slash, so it ends what follows the last one. */
  lemma StageEndsTail(front: string, r: string)
    requires IsStage(front + "/" + r)
    ensures IsStage(r)
  {
    var path, start := front + "/" + r, |front| + 1 + |r| - |STAGE_SUFFIX|;
    assert forall i :: start <= i < |path| ==> path[i] == STAGE_SUFFIX[i - start] && path[i] != '/';
    assert path[|front|] == '/';
    assert r[|r| - |STAGE_SUFFIX|..] == path[start..];
  }

  lemma StageEndsWhole(r: string)
    requires r != "" && IsStage(r[1..])
    ensures IsStage(r)
  {
    assert r[|r| - |STAGE_SUFFIX|..] == r[1..][|r| - 1 - |STAGE_SUFFIX|..];
  }

  lemma UnstageFacts(k: string)
    requires IsStage(k)
    ensures Stage(Unstage(k)) == k
  {
  }

  /** A staging name below a region names a file of that region, or the region itself
      lies one level up: the suffix holds no slash. */
  lemma StageWithin(p: string, a: string)
    ensures Below(Stage(p), a) <==> Below(p, a)
    ensures !IsStage(a) ==> (Within(Stage(p), a) <==> Below(p, a))
  {
    var m := Stage(p);
    if Below(m, a) {
      assert forall i :: |p| <= i < |m| ==> m[i] == STAGE_SUFFIX[i - |p|] && m[i] != '/';
      assert p[..|a|] == m[..|a|];
    }
    if Below(p, a) { assert m[..|a|] == p[..|a|]; }
    StageFacts(p);
  }

  /** Re-rooting commutes with staging. */
  lemma StageShift(p: string, a: string, b: string)
    requires Below(p, a)
    ensures Below(Stage(p), a) && Shift(Stage(p), a, b) == Stage(Shift(p, a, b))
  {
    StageWithin(p, a);
    assert Stage(p)[|a|..] == p[|a|..] + STAGE_SUFFIX;
  }

  lemma ShiftKeepsPlain(p: string, a: string, b: string)
    requires Below(p, a)
    ensures IsStage(Shift(p, a, b)) == IsStage(p)
  {
    var m := Shift(p, a, b);
    var n := |STAGE_SUFFIX|;
    if IsStage(p) {
      UnstageFacts(p);
      StageWithin(Unstage(p), a);
      StageShift(Unstage(p), a, b);
      StageFacts(Shift(Unstage(p), a, b));
    }
    if IsStage(m) {
      ShiftInvolutes(p, a, b);
      UnstageFacts(m);
      StageWithin(Unstage(m), b);
      StageShift(Unstage(m), b, a);
      StageFacts(Shift(Unstage(m), b, a));
    }
  }
}
