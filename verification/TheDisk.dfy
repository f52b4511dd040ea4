/** system/hal/the_disk.ep: staged writes and their recovery, on a host that may refuse
    any call and whose power may go at any moment. */
module TheDisk {
  import opened Strings
  import opened Paths
  import opened HostFiles

  /** One atomic host call: either nothing happened, or it was possible and happened.
      A power cut lands before the call's effect; a cut after it is a cut before the next. */
  ghost predicate Atomically(fs0: Files, on0: bool, fs1: Files, on1: bool, ok: bool, can: bool, after: Files) {
    && (on1 ==> on0)
    && (!on1 ==> fs1 == fs0)
    && (on1 && ok ==> can && fs1 == after)
    && (on1 && !ok ==> fs1 == fs0)
  }

  ghost predicate NoNewStage(fs0: Files, fs1: Files) { forall k :: k in fs1 && IsStage(k) ==> k in fs0 }

  /** Counts only grow, and a refused recovery is a denied host call. */
  ghost predicate Grows(refusals0: nat, refusals1: nat, denials0: nat, denials1: nat) {
    refusals0 <= refusals1 && denials0 <= denials1 && (denials0 == denials1 ==> refusals0 == refusals1)
  }

  /** The host folder "disk" and the calls the_disk makes on it. Once the power is off no
      call has an effect: what a method does from there on models nothing but the state
      the cut left behind. */
  class Disk {
    var fs: Files
    var on: bool
    /** How many times recovery's own host call was refused. */
    ghost var refusals: nat
    /** How many host calls that could have been made the host denied. */
    ghost var denials: nat
    /** Can a power cut leave half of a write behind? */
    const tears: bool

    constructor (files: Files, tears: bool)
      ensures fs == files && on && this.tears == tears && refusals == denials == 0
    {
      fs, on, refusals, denials, this.tears := files, true, 0, 0, tears;
    }

    /** The power comes back. */
    method Restart()
      modifies this
      ensures on && fs == old(fs) && refusals == old(refusals) && denials == old(denials)
    {
      on := true;
    }

    // ---------- host calls ----------

    method HostWrite(p: string, content: string) returns (ok: bool)
      modifies this
      ensures refusals == old(refusals) && denials >= old(denials) && (on ==> old(on))
      ensures on ==> Atomically(old(fs), old(on), fs, on, ok, CanWrite(old(fs), p), old(fs)[p := File(content)])
      ensures on && CanWrite(old(fs), p) && denials == old(denials) ==> ok
      ensures fs == old(fs) || (old(on) && CanWrite(old(fs), p) &&
                exists x :: fs == old(fs)[p := File(x)] && (x == content || (tears && !on)))
    {
      var cut, refuse, partly: bool, half: string := *, *, *, *;
      ok := *;
      if !on { return; }
      if cut {
        on := false;
        if CanWrite(fs, p) && partly {
          fs := fs[p := File(if tears then half else content)];
        }
        return;
      }
      if !CanWrite(fs, p) { return false; }
      if refuse {
        denials := denials + 1;
        return false;
      }
      fs := fs[p := File(content)];
      return true;
    }

    /** An append that is cut keeps what was there and may add a part of the new text. */
    method HostAppend(p: string, content: string) returns (ok: bool)
      modifies this
      ensures refusals == old(refusals) && denials >= old(denials) && (on ==> old(on))
      ensures on && CanWrite(old(fs), p) && denials == old(denials) ==> ok
      ensures on && ok ==> CanWrite(old(fs), p) && fs == old(fs)[p := File(Bytes(old(fs), p) + content)]
      ensures on && !ok ==> fs == old(fs)
      ensures fs == old(fs) || (old(on) && CanWrite(old(fs), p) &&
                exists x :: fs == old(fs)[p := File(Bytes(old(fs), p) + x)] && x <= content)
    {
      var cut, refuse, partly: bool, part: nat := *, *, *, *;
      ok := *;
      if !on { return; }
      if cut {
        on := false;
        if CanWrite(fs, p) && partly && part <= |content| {
          fs := fs[p := File(Bytes(fs, p) + content[..part])];
        }
        return;
      }
      if !CanWrite(fs, p) { return false; }
      if refuse {
        denials := denials + 1;
        return false;
      }
      fs := fs[p := File(Bytes(fs, p) + content)];
      return true;
    }

    method HostRename(a: string, b: string) returns (ok: bool)
      modifies this
      ensures refusals == old(refusals) && denials >= old(denials)
      ensures on && CanRename(old(fs), a, b) && denials == old(denials) ==> ok
      ensures Atomically(old(fs), old(on), fs, on, ok, CanRename(old(fs), a, b), Renamed(old(fs), a, b))
    {
      var possible := CanRename(fs, a, b);
      var goes := Chance(possible);
      if goes { fs := Renamed(fs, a, b); return true; }
      ok := false;
    }

    method HostRemove(p: string) returns (ok: bool)
      modifies this
      ensures refusals == old(refusals) && denials >= old(denials)
      ensures on && CanRemove(old(fs), p) && denials == old(denials) ==> ok
      ensures Atomically(old(fs), old(on), fs, on, ok, CanRemove(old(fs), p), old(fs) - {p})
    {
      var possible := CanRemove(fs, p);
      var goes := Chance(possible);
      if goes { fs := fs - {p}; return true; }
      ok := false;
    }

    method HostRemoveFolder(p: string) returns (ok: bool)
      modifies this
      ensures refusals == old(refusals) && denials >= old(denials)
      ensures on && IsFolder(old(fs), p) && Empty(old(fs), p) && denials == old(denials) ==> ok
      ensures Atomically(old(fs), old(on), fs, on, ok, IsFolder(old(fs), p) && Empty(old(fs), p), old(fs) - {p})
    {
      var possible := IsFolder(fs, p) && Empty(fs, p);
      var goes := Chance(possible);
      if goes { fs := fs - {p}; return true; }
      ok := false;
    }

    method HostMakeFolder(p: string) returns (ok: bool)
      modifies this
      ensures refusals == old(refusals) && denials >= old(denials)
      ensures on && CanMakeFolder(old(fs), p) && denials == old(denials) ==> ok
      ensures Atomically(old(fs), old(on), fs, on, ok, CanMakeFolder(old(fs), p), old(fs)[p := Folder])
    {
      var possible := CanMakeFolder(fs, p);
      var goes := Chance(possible);
      if goes { fs := fs[p := Folder]; return true; }
      ok := false;
    }

    /** Does a possible call go through? It may be refused, and the power may go first. */
    method Chance(possible: bool) returns (goes: bool)
      modifies this`on, this`denials
      ensures (on ==> old(on)) && denials >= old(denials)
      ensures goes ==> possible && on
      ensures on && possible && denials == old(denials) ==> goes
    {
      var cut, refuse: bool := *, *;
      if cut { on := false; }
      goes := on && possible && !refuse;
      if on && possible && refuse { denials := denials + 1; }
    }

    /** The names inside a folder, each once, in no particular order. */
    method HostList(p: string) returns (names: seq<string>)
      ensures forall n :: n in names <==> p + "/" + n in fs && '/' !in n
      ensures forall i, j :: 0 <= i < j < |names| ==> names[i] != names[j]
    {
      names := [];
      var left := fs.Keys;
      while left != {}
        invariant left <= fs.Keys
        invariant forall n :: n in names <==> p + "/" + n in fs.Keys - left && '/' !in n
        invariant forall i, j :: 0 <= i < j < |names| ==> names[i] != names[j]
        decreases left
      {
        var k :| k in left;
        left := left - {k};
        if Below(k, p) && '/' !in k[|p| + 1..] {
          var name := k[|p| + 1..];
          assert k == p + "/" + name;
          names := names + [name];
        }
        forall n | p + "/" + n == k
          ensures Below(k, p) && n == k[|p| + 1..]
        {
          assert k[..|p|] == p;
        }
      }
    }

    // ---------- the crash-safe store ----------

    /** Finish or discard an interrupted write. Shows nothing, whatever happens. */
    method Recover(path: string) returns (ok: bool)
      requires Ok(fs) && !IsStage(path)
      modifies this
      ensures Ok(fs) && View(fs) == View(old(fs)) && (on ==> old(on))
      ensures !SafePath(path) ==> !ok && refusals == old(refusals) && fs == old(fs)
      ensures on && SafePath(path) && denials == old(denials) ==> ok
      ensures on && ok ==> Stage(path) !in fs && refusals == old(refusals) && fs == Recovered(old(fs), path)
      ensures on && !ok && SafePath(path) ==> refusals == old(refusals) + 1
      ensures Stage(path) !in old(fs) ==> refusals == old(refusals) && fs == old(fs)
      ensures NoNewStage(old(fs), fs)
      ensures Grows(old(refusals), refusals, old(denials), denials)
    {
      var safe := PathIsSafe(path);
      if !safe { return false; }
      StageFacts(path);
      ViewOne(fs, path);
      if Stage(path) !in fs { return true; }
      if path in fs {
        DiscardStage(fs, path);
        ok := HostRemove(Stage(path));
      } else {
        CommitStage(fs, path);
        ok := HostRename(Stage(path), path);
      }
      if on && !ok { refusals := refusals + 1; }
    }

    /** A note's whole text; "" when it is missing or the path is refused. */
    method Read(path: string) returns (text: string)
      requires Ok(fs) && !IsStage(path)
      modifies this
      ensures Ok(fs) && View(fs) == View(old(fs)) && (on ==> old(on))
      ensures Grows(old(refusals), refusals, old(denials), denials)
      ensures Stage(path) !in old(fs) ==> refusals == old(refusals)
      ensures on && SafePath(path) ==>
        (text == Bytes(View(old(fs)), path) <==> refusals == old(refusals) || Bytes(View(old(fs)), path) == "")
      ensures on ==> text == Bytes(View(old(fs)), path) || text == ""
      ensures !SafePath(path) ==> text == ""
    {
      var safe := PathIsSafe(path);
      if !safe { return ""; }
      var ok := Recover(path);
      if !ok { return ""; }
      ViewOne(fs, path);
      return Bytes(fs, path);
    }

    /** Replace a note's text through its staging name. The view afterwards is the old one
        or the one with the new text, wherever the power was cut and whatever was refused;
        only a note that did not exist can show a torn stage, and only if writes can tear.
        left: after a failed write the stage could not be taken back. */
    method Write(path: string, content: string) returns (ok: bool, ghost left: bool)
      requires Ok(fs) && !IsStage(path)
      modifies this
      ensures Ok(fs) && (on ==> old(on)) && Grows(old(refusals), refusals, old(denials), denials)
      ensures !SafePath(path) ==> !ok && View(fs) == View(old(fs))
      ensures !old(on) ==> View(fs) == View(old(fs))
      ensures on && ok ==> View(fs) == View(old(fs))[path := File(content)] && SafePath(path)
      ensures on && denials == old(denials) && SafePath(path) && CanWrite(View(old(fs)), path) ==> ok
      ensures on && !ok && path in View(old(fs)) ==> View(fs) == View(old(fs))
      ensures left ==> denials > old(denials)
      ensures on && !ok && path !in View(old(fs)) ==> (path in View(fs) <==> left)
      ensures forall k :: k in fs && IsStage(k) && k != Stage(path) ==> k in old(fs)
      ensures !tears || path in View(old(fs)) || on ==>
        View(fs) == View(old(fs)) || View(fs) == View(old(fs))[path := File(content)]
      ensures View(fs) == View(old(fs)) || exists x :: View(fs) == View(old(fs))[path := File(x)]
    {
      hide View, Recovered, Renamed, IsStage, CanRename;
      left := false;
      ok := PathIsSafe(path);
      if !ok { return; }
      ok := Recover(path);
      if !ok { return; }
      ghost var ready := fs;
      assert on ==> Stage(path) !in ready;
      if on { WriteGoesThrough(ready, path, content); }
      ok := HostWrite(Stage(path), content);
      ghost var staged := fs;
      if staged != ready {
        StageFacts(path);
        var x :| staged == ready[Stage(path) := File(x)] && (x == content || (tears && !on));
        Staged(ready, path, x);
      }
      if !ok { return; }
      ok, left := PutInPlace(path, content, ready);
    }

    /** The stage is whole: commit it, or take it back. */
    method PutInPlace(path: string, content: string, ghost ready: Files) returns (ok: bool, ghost left: bool)
      requires Ok(fs) && Ok(ready) && path != "" && !IsStage(path)
      requires on ==> Stage(path) !in ready && ParentOk(ready, path) && fs == ready[Stage(path) := File(content)]
      modifies this
      ensures Ok(fs) && (on ==> old(on)) && Grows(old(refusals), refusals, old(denials), denials)
      ensures !old(on) ==> fs == old(fs)
      ensures old(on) ==> View(fs) in {View(old(fs)), View(ready), View(ready)[path := File(content)]}
      ensures on && ok ==> View(fs) == View(ready)[path := File(content)]
      ensures on && denials == old(denials) && CanRename(old(fs), Stage(path), path) ==> ok
      ensures on && !ok && path in View(ready) ==> View(fs) == View(ready)
      ensures left ==> denials > old(denials)
      ensures on && !ok && path !in View(ready) ==> (path in View(fs) <==> left)
      ensures forall k :: k in fs && IsStage(k) && k != Stage(path) ==> k in old(fs)
    {
      hide View;
      left := false;
      if on { Staged(ready, path, content); }
      ghost var staged := fs;
      ok := HostRename(Stage(path), path);
      if on && ok { OnlyStage(staged, path); }
      if !ok {
        var cleaned := HostRemove(Stage(path));
        left := on && !cleaned;
      }
    }

    /** Add to the end of a note. Nothing that was there is lost, even by a cut. */
    method Append(path: string, content: string) returns (ok: bool)
      requires Ok(fs) && !IsStage(path)
      modifies this
      ensures Ok(fs) && (on ==> old(on)) && Grows(old(refusals), refusals, old(denials), denials)
      ensures !SafePath(path) ==> !ok
      ensures on && denials == old(denials) && SafePath(path) && CanWrite(View(old(fs)), path) ==> ok
      ensures on && ok ==>
        View(fs) == View(old(fs))[path := File(Bytes(View(old(fs)), path) + content)]
      ensures on && !ok ==> View(fs) == View(old(fs))
      ensures View(fs) == View(old(fs)) ||
        (exists x :: x <= content && View(fs) == View(old(fs))[path := File(Bytes(View(old(fs)), path) + x)])
    {
      hide View, Recovered, Renamed;
      var safe := PathIsSafe(path);
      if !safe { return false; }
      ok := Recover(path);
      if !ok { return false; }
      ghost var ready := fs;
      ViewFolders(ready, path);
      ViewFolders(ready, Parent(path));
      ok := HostAppend(path, content);
      if fs != ready || (on && ok) {
        var x :| fs == ready[path := File(Bytes(ready, path) + x)] && x <= content;
        PutFinal(ready, path, File(Bytes(ready, path) + x));
        ViewOne(ready, path);
        assert Bytes(View(ready), path) == Bytes(ready, path);
        if on { assert fs[path] == File(Bytes(ready, path) + content); }
      }
    }

    /** Does anything live here? The answer is the truth exactly when recovery was not
        refused, which it can only be when a stage is there. */
    method Exists(path: string) returns (there: bool)
      requires Ok(fs) && !IsStage(path)
      modifies this
      ensures Ok(fs) && View(fs) == View(old(fs)) && (on ==> old(on))
      ensures Grows(old(refusals), refusals, old(denials), denials)
      ensures there ==> SafePath(path)
      ensures !SafePath(path) || Stage(path) !in old(fs) ==> refusals == old(refusals) && fs == old(fs)
      ensures NoNewStage(old(fs), fs)
      ensures on && SafePath(path) ==> ((there == (path in View(old(fs)))) <==> refusals == old(refusals))
      ensures on && SafePath(path) && refusals != old(refusals) ==> path in View(old(fs))
      ensures on && refusals == old(refusals) && SafePath(path) ==>
        (there <==> path in View(old(fs))) && (there <==> path in fs) && Stage(path) !in fs
      ensures on && there ==> path in View(old(fs)) && Stage(path) !in fs
    {
      var safe := PathIsSafe(path);
      if !safe { return false; }
      there := Recover(path);
      if !there { return false; }
      ViewOne(fs, path);
      return path in fs;
    }

    method IsFolderAt(path: string) returns (folder: bool)
      requires Ok(fs)
      ensures folder <==> SafePath(path) && IsFolder(View(fs), path)
    {
      var safe := PathIsSafe(path);
      if !safe { return false; }
      ViewFolders(fs, path);
      return IsFolder(fs, path);
    }

    method List(path: string) returns (names: seq<string>)
      ensures !SafePath(path) ==> names == []
      ensures SafePath(path) ==>
        forall n :: n in names <==> path + "/" + n in fs && '/' !in n
      ensures forall i, j :: 0 <= i < j < |names| ==> names[i] != names[j]
    {
      var safe := PathIsSafe(path);
      if !safe { return []; }
      names := HostList(path);
    }

    method MakeFolder(path: string) returns (ok: bool)
      requires Ok(fs) && !IsStage(path)
      modifies this
      ensures Ok(fs) && refusals == old(refusals) && denials >= old(denials) && (on ==> old(on))
      ensures on && ok ==> SafePath(path) && CanMakeFolder(old(fs), path)
      ensures on && denials == old(denials) && SafePath(path) && CanMakeFolder(old(fs), path) ==> ok
      ensures on && ok ==> View(fs) == View(old(fs))[path := Folder]
      ensures !(on && ok) ==> View(fs) == View(old(fs))
    {
      var safe := PathIsSafe(path);
      if !safe { return false; }
      ok := HostMakeFolder(path);
      if on && ok { PutFinal(old(fs), path, Folder); }
    }

    method RemoveFile(path: string) returns (ok: bool)
      requires Ok(fs) && !IsStage(path)
      modifies this
      ensures Ok(fs) && (on ==> old(on)) && Grows(old(refusals), refusals, old(denials), denials)
      ensures on && ok ==> SafePath(path) && path in View(old(fs)) && View(fs) == View(old(fs)) - {path}
      ensures Stage(path) !in old(fs) ==> refusals == old(refusals)
      ensures on && denials == old(denials) && SafePath(path) && CanRemove(View(old(fs)), path) ==> ok
      ensures !(on && ok) ==> View(fs) == View(old(fs))
    {
      var safe := PathIsSafe(path);
      if !safe { return false; }
      ok := Recover(path);
      if !ok { return false; }
      ghost var ready := fs;
      ViewOne(ready, path);
      ViewEmpty(ready, path);
      ok := HostRemove(path);
      if on && ok { RemoveFinal(ready, path); }
    }

    method RemoveFolder(path: string) returns (ok: bool)
      requires Ok(fs) && !IsStage(path) && (on ==> Stage(path) !in fs)
      modifies this
      ensures Ok(fs) && refusals == old(refusals) && denials >= old(denials) && (on ==> old(on))
      ensures on && ok ==> SafePath(path) && IsFolder(View(old(fs)), path) && Empty(View(old(fs)), path)
      ensures on && ok ==> View(fs) == View(old(fs)) - {path}
      ensures on && denials == old(denials) && SafePath(path) && BareFolder(View(old(fs)), path) ==> ok
      ensures !(on && ok) ==> View(fs) == View(old(fs))
    {
      var safe := PathIsSafe(path);
      if !safe { return false; }
      ViewFolders(fs, path);
      ViewEmpty(fs, path);
      ok := HostRemoveFolder(path);
      if on && ok { RemoveFinal(old(fs), path); }
    }

    /** A move. Its full effect needs both places recovered; that it stays inside a region
        holding both places does not. */
    method Rename(a: string, b: string) returns (ok: bool)
      requires Ok(fs) && !IsStage(a) && !IsStage(b)
      modifies this
      ensures Ok(fs) && (on ==> old(on)) && Grows(old(refusals), refusals, old(denials), denials)
      ensures on && ok ==> SafePath(a) && SafePath(b)
      ensures !(on && ok) ==> View(fs) == View(old(fs))
      ensures Stage(a) !in old(fs) ==> refusals == old(refusals)
      ensures on && denials == old(denials) && SafePath(a) && SafePath(b) && MayMove(View(old(fs)), a, b) ==> ok
      ensures on && ok && b !in View(old(fs)) ==>
        && a in View(old(fs)) && ParentOk(View(old(fs)), b) && !Within(b, a)
        && View(fs) == Moved(View(old(fs)), a, b)
      ensures forall home :: Within(a, home) && Within(b, home) ==>
        SameOutside(View(old(fs)), View(fs), home)
    {
      hide View, Recovered, Renamed, Moved, Below;
      var safe := PathIsSafe(a);
      if !safe { return false; }
      safe := PathIsSafe(b);
      if !safe { return false; }
      ok := Recover(a);
      if !ok { return false; }
      ghost var ready := fs;
      if on { MoveGoesThrough(ready, a, b); }
      ok := HostRename(a, b);
      if on && ok { RenameShows(ready, a, b); }
    }
  }

  ghost predicate BareFolder(t: Files, p: string) { IsFolder(t, p) && Empty(t, p) }

  /** Where the view lets a file be, the host lets it be staged and committed. */
  lemma WriteGoesThrough(ready: Files, p: string, x: string)
    requires Ok(ready) && p != "" && !IsStage(p) && Stage(p) !in ready
    ensures CanWrite(View(ready), p) ==>
      CanWrite(ready, Stage(p)) && CanRename(ready[Stage(p) := File(x)], Stage(p), p)
  {
    StageFacts(p);
    ViewFolders(ready, p);
    ViewFolders(ready, Parent(p));
  }

  /** What a move to a free place needs. */
  ghost predicate MayMove(t: Files, a: string, b: string) {
    a in t && b !in t && ParentOk(t, b) && !Within(b, a)
  }

  lemma MoveGoesThrough(ready: Files, a: string, b: string)
    requires Ok(ready) && !IsStage(a) && !IsStage(b) && Stage(a) !in ready
    ensures MayMove(View(ready), a, b) ==> CanRename(ready, a, b)
  {
    ViewOne(ready, a);
    ViewOne(ready, b);
    ViewFolders(ready, Parent(b));
  }

  lemma RenameShows(fs: Files, a: string, b: string)
    requires Ok(fs) && CanRename(fs, a, b) && a != "" && b != ""
    requires !IsStage(a) && !IsStage(b) && Stage(a) !in fs
    ensures Ok(Renamed(fs, a, b))
    ensures forall home :: Within(a, home) && Within(b, home) ==>
      SameOutside(View(fs), View(Renamed(fs, a, b)), home)
    ensures b !in View(fs) ==>
      && a in View(fs) && ParentOk(View(fs), b) && !Within(b, a)
      && View(Renamed(fs, a, b)) == Moved(View(fs), a, b)
  {
    RenameKeepsOk(fs, a, b);
    forall home | Within(a, home) && Within(b, home)
      ensures SameOutside(View(fs), View(Renamed(fs, a, b)), home)
    {
      RenameStaysInside(fs, a, b, home);
    }
    ViewOne(fs, a);
    ViewOne(fs, b);
    if b !in View(fs) {
      ViewOfMoved(fs, a, b);
      ViewFolders(fs, Parent(b));
    }
  }

  /** The states a staged write passes through, in the view: staged, undone, committed. */
  lemma Staged(ready: Files, p: string, x: string)
    requires Ok(ready) && p != "" && !IsStage(p) && Stage(p) !in ready && ParentOk(ready, p)
    ensures var staged := ready[Stage(p) := File(x)];
      && Ok(staged) && staged - {Stage(p)} == ready
      && View(staged) == (if p in View(ready) then View(ready) else View(ready)[p := File(x)])
      && (CanRename(staged, Stage(p), p) ==>
            && Ok(Renamed(staged, Stage(p), p))
            && View(Renamed(staged, Stage(p), p)) == View(ready)[p := File(x)])
  {
    StagedShows(ready, p, x);
    if CanRename(ready[Stage(p) := File(x)], Stage(p), p) { StagedCommits(ready, p, x); }
  }

  /** Committing a stage makes no other stage. */
  lemma OnlyStage(staged: Files, p: string)
    requires Ok(staged) && p != "" && !IsStage(p) && CanRename(staged, Stage(p), p)
    ensures forall k :: k in Renamed(staged, Stage(p), p) && IsStage(k) ==> k in staged
  {
    StageFacts(p);
    if !IsFolder(staged, p) { CommitStage(staged, p); }
  }

  lemma StagedShows(ready: Files, p: string, x: string)
    requires Ok(ready) && p != "" && !IsStage(p) && Stage(p) !in ready && ParentOk(ready, p)
    ensures var staged := ready[Stage(p) := File(x)];
      && Ok(staged) && staged - {Stage(p)} == ready
      && View(staged) == (if p in View(ready) then View(ready) else View(ready)[p := File(x)])
  {
    ViewOne(ready, p);
    StageWritten(ready, p, x);
  }

  lemma StagedCommits(ready: Files, p: string, x: string)
    requires Ok(ready) && p != "" && !IsStage(p) && Stage(p) !in ready && ParentOk(ready, p)
    requires CanRename(ready[Stage(p) := File(x)], Stage(p), p)
    ensures Ok(Renamed(ready[Stage(p) := File(x)], Stage(p), p))
    ensures View(Renamed(ready[Stage(p) := File(x)], Stage(p), p)) == View(ready)[p := File(x)]
  {
    StageFacts(p);
    ViewOne(ready, p);
    StageWritten(ready, p, x);
    CommitStage(ready[Stage(p) := File(x)], p);
    assert View(ready)[p := File(x)][p := File(x)] == View(ready)[p := File(x)];
  }

  /** The text of a file, "" when there is none. */
  function Bytes(t: Files, p: string): string {
    if p in t && t[p].File? then t[p].bytes else ""
  }

  /** Exactly when a cut inside the staging write leaves the old or the new text in view:
      the note existed, or the stage happened to be whole. */
  lemma TornExactly(ready: Files, p: string, content: string, x: string)
    requires Ok(ready) && p != "" && !IsStage(p) && ParentOk(ready, p)
    ensures var torn := View(ready[Stage(p) := File(x)]);
      (torn == View(ready) || torn == View(ready)[p := File(content)]) <==>
      p in ready || At(View(ready), p) == Seen(File(x)) || x == content
  {
    StageWritten(ready, p, x);
    ViewOne(ready, p);
    var v := View(ready);
    if p !in ready {
      assert v[p := File(x)][p] == File(x);
      assert v[p := File(content)][p] == File(content);
      if p in v && v[p] == File(x) { assert v[p := File(x)] == v; }
    }
  }

  // ---------- whole histories with crashes ----------

  datatype Deed = Put(content: string) | Look

  /** What the note at path may show after deeds, when every deed up to and including the
      one numbered acked has been acknowledged: the last acknowledged text or a later one. */
  ghost predicate Recent(before: Files, after: Files, path: string, deeds: seq<Deed>, acked: int) {
    || (acked == -1 && At(after, path) == At(before, path))
    || (exists j :: 0 <= j < |deeds| && acked <= j && deeds[j].Put? && At(after, path) == Seen(File(deeds[j].content)))
  }

  /** Any writes and reads of one note, each perhaps cut off by the power and followed by
      a restart, recovery included. A note that existed, or any note when writes do not
      tear, shows an unbroken text at least as new as the last acknowledged write, and
      nothing else changes. */
  method CrashHistory(d: Disk, path: string, deeds: seq<Deed>) returns (acked: int)
    requires Ok(d.fs) && !IsStage(path) && SafePath(path)
    requires path in View(d.fs) || !d.tears
    modifies d
    ensures Ok(d.fs) && -1 <= acked < |deeds|
    ensures acked >= 0 ==> deeds[acked].Put?
    ensures Recent(View(old(d.fs)), View(d.fs), path, deeds, acked)
    ensures forall q :: q != path ==> At(View(d.fs), q) == At(View(old(d.fs)), q)
  {
    hide View;
    acked := -1;
    ghost var v0 := View(d.fs);
    for i := 0 to |deeds|
      invariant Ok(d.fs) && (path in View(d.fs) || !d.tears)
      invariant OnTrack(v0, View(d.fs), path, deeds, i, acked)
    {
      acked := NextDeed(d, path, deeds, i, acked, v0);
    }
    assert deeds[..|deeds|] == deeds;
  }

  ghost predicate OnTrack(v0: Files, v: Files, path: string, deeds: seq<Deed>, i: nat, acked: int) {
    && -1 <= acked < i <= |deeds| && (acked >= 0 ==> deeds[acked].Put?)
    && Recent(v0, v, path, deeds[..i], acked) && forall q :: q != path ==> At(v, q) == At(v0, q)
  }

  lemma StaysOnTrack(v0: Files, v: Files, v1: Files, path: string, deeds: seq<Deed>, i: nat, acked: int, done: bool)
    requires i < |deeds| && OnTrack(v0, v, path, deeds, i, acked)
    requires At(v1, path) == At(v, path) || (deeds[i].Put? && At(v1, path) == Seen(File(deeds[i].content)))
    requires done ==> deeds[i].Put? && At(v1, path) == Seen(File(deeds[i].content))
    requires forall q :: q != path ==> At(v1, q) == At(v, q)
    ensures OnTrack(v0, v1, path, deeds, i + 1, if done then i else acked)
  {
    RecentStep(v0, v, v1, path, deeds, i, acked, done);
  }

  method NextDeed(d: Disk, path: string, deeds: seq<Deed>, i: nat, acked: int, ghost v0: Files) returns (now: int)
    requires Ok(d.fs) && !IsStage(path) && SafePath(path) && (path in View(d.fs) || !d.tears)
    requires i < |deeds| && OnTrack(v0, View(d.fs), path, deeds, i, acked)
    modifies d
    ensures Ok(d.fs) && (path in View(d.fs) || !d.tears)
    ensures OnTrack(v0, View(d.fs), path, deeds, i + 1, now)
  {
    ghost var v := View(d.fs);
    var done := OneDeed(d, path, deeds[i]);
    StaysOnTrack(v0, v, View(d.fs), path, deeds, i, acked, done);
    now := if done then i else acked;
  }

  /** One write or read after a restart, perhaps cut off; done when it was acknowledged. */
  method OneDeed(d: Disk, path: string, deed: Deed) returns (done: bool)
    requires Ok(d.fs) && !IsStage(path) && SafePath(path)
    requires path in View(d.fs) || !d.tears
    modifies d
    ensures Ok(d.fs) && (path in View(d.fs) || !d.tears)
    ensures forall q :: q != path ==> At(View(d.fs), q) == At(View(old(d.fs)), q)
    ensures At(View(d.fs), path) == At(View(old(d.fs)), path)
      || (deed.Put? && At(View(d.fs), path) == Seen(File(deed.content)))
    ensures done ==> deed.Put? && At(View(d.fs), path) == Seen(File(deed.content))
    ensures d.on && d.denials == old(d.denials) && deed.Put? && CanWrite(View(old(d.fs)), path) ==> done
  {
    d.Restart();
    done := false;
    match deed
    case Look =>
      var seen := d.Read(path);
    case Put(content) =>
      var ok, left := d.Write(path, content);
      done := d.on && ok;
  }

  lemma RecentStep(v0: Files, v: Files, v1: Files, path: string, deeds: seq<Deed>, i: nat, acked: int, done: bool)
    requires i < |deeds| && -1 <= acked < i && Recent(v0, v, path, deeds[..i], acked)
    requires At(v1, path) == At(v, path) || (deeds[i].Put? && At(v1, path) == Seen(File(deeds[i].content)))
    requires done ==> deeds[i].Put? && At(v1, path) == Seen(File(deeds[i].content))
    ensures Recent(v0, v1, path, deeds[..i + 1], if done then i else acked)
  {
    assert deeds[..i + 1][i] == deeds[i];
    if j :| 0 <= j < i && acked <= j && deeds[..i][j].Put? && At(v, path) == Seen(File(deeds[..i][j].content)) {
      assert deeds[..i + 1][j] == deeds[..i][j];
    }
  }
}
