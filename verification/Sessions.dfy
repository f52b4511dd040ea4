/** system/kernel/sessions.ep: who is at the keyboard, and where they may write. */
module Sessions {
  import opened Strings
  import opened Paths

  function HomeOf(person: string): string { "home/" + person }

  /** Admins write anywhere, everyone else in their own home and below it. */
  predicate MayWrite(role: string, person: string, path: string) {
    role == "admin" || Within(path, HomeOf(person))
  }

  /** A path none of whose ancestors, nor itself, carries the reserved suffix. */
  predicate Plain(p: string)
    decreases |p|
  {
    !IsStage(p) && (Parent(p) != "" ==> Plain(Parent(p)))
  }

  class Session {
    const person: string
    const role: string
    var place: string
    const started: string

    constructor (name: string, roleName: string, stamp: string)
      ensures person == name && role == roleName && place == HomeOf(name) && started == stamp
    {
      person, role, place, started := name, roleName, HomeOf(name), stamp;
    }

    method MoveTo(spot: string)
      modifies this
      ensures place == spot
    {
      place := spot;
    }

    /** session_may_write compares strings; that is the region below the home folder, and
        a neighbour such as home/<person>x is no part of it. */
    method MayWriteAt(path: string) returns (may: bool)
      ensures may == MayWrite(role, person, path)
    {
      if role == "admin" { return true; }
      var home := HomeOf(person);
      if path == home { return true; }
      var fence := home + "/";
      assert |path| >= |fence| && path[..|fence|] == fence ==>
        path[|home|] == fence[|home|] && path[..|home|] == fence[..|home|];
      assert Below(path, home) ==> path[..|fence|] == fence;
      return |path| >= |fence| && path[..|fence|] == fence;
    }
  }

  /** A name an account may have is a safe home folder name. */
  predicate PersonName(name: string) {
    0 < |name| <= 32 && forall c :: c in name ==> IsAlphanumeric(c) || c == '-' || c == '_'
  }

  lemma HomeFacts(person: string)
    requires PersonName(person)
    ensures SafePath(HomeOf(person)) && Plain(HomeOf(person)) && Parent(HomeOf(person)) == "home"
  {
    var home := HomeOf(person);
    assert home == "home" + "/" + person;
    HomeIsSafe(person);
    assert '.' !in home;
    if IsStage(home) { StageHasDot(home); }
    assert home[4] == '/';
    forall i | 5 <= i < |home|
      ensures home[i] != '/'
    {
      assert home[i] == person[i - 5] && person[i - 5] in person;
    }
    assert LastSlash(home) == 4;
    assert Parent(home) == "home";
    assert LastSlash("home") == -1;
  }

  lemma HomeIsSafe(person: string)
    requires PersonName(person)
    ensures SafePath("home" + "/" + person)
  {
    SplitWithout(person, '/');
    SplitWithout("home", '/');
    assert person !in {".", ".."} by { assert person[0] in person; }
    SafeJoin("home", person);
  }
}
