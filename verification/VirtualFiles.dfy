/** system/kernel/virtual_files.ep: the world of folders and notes.

    Each operation is proved against an operation on the logical view: what it answers,
    what it changes, that a power cut leaves the old view or the new one, and that a
    member changes nothing outside their home. */
module VirtualFiles {
  import opened Strings
  import opened Paths
  import opened HostFiles
  import opened TheDisk
  import opened Sessions

  /** The answer codes 1 to 7, in order. */
  datatype Answer = Worked | NotAllowed | BadName | NoSuchThing | NotEmpty | AlreadyThere | HostFailed

  function Resolve(place: string, raw: string): string {
    var r := Trim(raw);
    if r == "" then place else if r[0] == '/' then r[1..] else place + "/" + r
  }

  /** Where a typed name x leads, whatever blanks are typed around it: below the place,
      part by part; with a leading slash to the rest of it from any place; and nothing
      typed leads to the place itself. */
  lemma ResolveLeads(place: string, front: string, x: string, back: string)
    requires (forall c :: c in front + back ==> IsSpace(c)) && Trimmed(x)
    ensures x == "" ==> Resolve(place, front + x + back) == place
    ensures x != "" && x[0] == '/' ==> Resolve(place, front + x + back) == x[1..]
    ensures x != "" && x[0] != '/' ==>
      Split(Resolve(place, front + x + back), "/") == Split(place, "/") + Split(x, "/")
  {
    TrimOfPadded(front, x, back);
    if x != "" && x[0] != '/' { SplitOfConcat(place, x, '/'); }
  }

  /** A single name leads to what has that name right in the place. */
  lemma NameLeadsHere(place: string, raw: string)
    requires SafeName(Trim(raw))
    ensures Resolve(place, raw) == place + "/" + Trim(raw) && Parent(place + "/" + Trim(raw)) == place
  {
    var name := Trim(raw);
    assert name[0] in name;
    assert '/' !in name;
    ParentOfJoin(place, name, place + "/" + name);
  }

  // ---------- what the tree dictates ----------

  function WriteAnswer(t: Files, may: bool, path: string): Answer {
    if !SafePath(path) then BadName
    else if !may then NotAllowed
    else if !ParentOk(t, path) then NoSuchThing
    else if IsFolder(t, path) then AlreadyThere
    else Worked
  }

  function MakeFolderAnswer(t: Files, may: bool, path: string): Answer {
    if !SafePath(path) then BadName
    else if !may then NotAllowed
    else if path in t then AlreadyThere
    else if !ParentOk(t, path) then NoSuchThing
    else Worked
  }

  function RemoveAnswer(t: Files, may: bool, path: string): Answer {
    if !SafePath(path) then BadName
    else if !may then NotAllowed
    else if path !in t then NoSuchThing
    else if IsFolder(t, path) && !Empty(t, path) then NotEmpty
    else Worked
  }

  function MoveAnswer(t: Files, may: bool, a: string, b: string): Answer {
    if !SafePath(a) || !SafePath(b) then BadName
    else if a !in t then NoSuchThing
    else if !may then NotAllowed
    else if b in t then AlreadyThere
    else if !ParentOk(t, b) then NoSuchThing
    else Worked
  }

  /** The operation answered r where the tree dictates dictated, taking the view from v to
      w: what it dictates, except that the host may fail what would have worked, and only
      a success changes the view. When no host call is denied, the host fails nothing but a
      move into the moved thing's own subtree. */
  ghost predicate Refines(v: Files, w: Files, r: Answer, dictated: Answer, after: Files) {
    && (r == dictated || (r == HostFailed && dictated == Worked))
    && (r == Worked ==> w == after)
    && (r != Worked && r != HostFailed ==> w == v)
  }

  ghost predicate MakeRefines(v: Files, w: Files, r: Answer, s: Session, path: string) {
    Refines(v, w, r, MakeFolderAnswer(v, MayWrite(s.role, s.person, path), path), v[path := Folder])
  }

  ghost predicate RemoveRefines(v: Files, w: Files, r: Answer, s: Session, path: string) {
    Refines(v, w, r, RemoveAnswer(v, MayWrite(s.role, s.person, path), path), v - {path})
  }

  function MoveDictates(v: Files, s: Session, a: string, b: string): Answer {
    MoveAnswer(v, MayWrite(s.role, s.person, a) && MayWrite(s.role, s.person, b), a, b)
  }

  ghost predicate MoveRefines(v: Files, w: Files, r: Answer, s: Session, a: string, b: string) {
    Refines(v, w, r, MoveDictates(v, s, a, b), Moved(v, a, b))
  }

  /** Not an admin's, and not in the person's own home. */
  ghost predicate Outside(s: Session, path: string) { s.role != "admin" && !Within(path, HomeOf(s.person)) }

  /** Confined to a member's own home. */
  ghost predicate Fenced(v: Files, w: Files, s: Session) {
    s.role != "admin" ==> SameOutside(v, w, HomeOf(s.person))
  }

  /** What the other answers tell someone who may write: 6 that something is in the way, 5
      that a folder has something in it, 4 that what is needed is not there. */
  lemma AnswersTell(t: Files, path: string)
    requires TreeOk(t) && SafePath(path)
    ensures WriteAnswer(t, true, path) == AlreadyThere <==> IsFolder(t, path)
    ensures WriteAnswer(t, true, path) == NoSuchThing <==> Parent(path) != "" && !IsFolder(t, Parent(path))
    ensures MakeFolderAnswer(t, true, path) == AlreadyThere <==> path in t
    ensures MakeFolderAnswer(t, true, path) == NoSuchThing <==> Parent(path) != "" && !IsFolder(t, Parent(path))
    ensures RemoveAnswer(t, true, path) == NoSuchThing <==> path !in t
    ensures RemoveAnswer(t, true, path) == NotEmpty <==> exists k :: k in t && Below(k, path)
  {
    forall k | k in t && Below(k, path)
      ensures IsFolder(t, path)
    {
      AncestorIsFolder(t, k, path);
    }
  }

  // ---------- the operations ----------

  method ResolveIn(s: Session, raw: string) returns (path: string)
    ensures path == Resolve(s.place, raw)
  {
    var r := StringTrim(raw);
    if r == "" { return s.place; }
    if r[0] == '/' { return r[1..]; }
    return s.place + "/" + r;
  }

  method Exists(d: Disk, s: Session, raw: string) returns (there: bool)
    requires Ok(d.fs) && !IsStage(Resolve(s.place, raw))
    modifies d
    ensures Ok(d.fs) && View(d.fs) == View(old(d.fs)) && (d.on ==> old(d.on))
    ensures Grows(old(d.refusals), d.refusals, old(d.denials), d.denials)
    ensures Stage(Resolve(s.place, raw)) !in old(d.fs) ==> d.refusals == old(d.refusals)
    ensures d.on ==>
      ((there <==> SafePath(Resolve(s.place, raw)) && Resolve(s.place, raw) in View(d.fs))
       <==> d.refusals == old(d.refusals))
  {
    var path := ResolveIn(s, raw);
    there := d.Exists(path);
  }

  method Read(d: Disk, s: Session, raw: string) returns (text: string)
    requires Ok(d.fs) && !IsStage(Resolve(s.place, raw))
    modifies d
    ensures Ok(d.fs) && View(d.fs) == View(old(d.fs)) && (d.on ==> old(d.on))
    ensures Grows(old(d.refusals), d.refusals, old(d.denials), d.denials)
    ensures Stage(Resolve(s.place, raw)) !in old(d.fs) ==> d.refusals == old(d.refusals)
    ensures d.on && SafePath(Resolve(s.place, raw)) ==>
      (text == Bytes(View(d.fs), Resolve(s.place, raw))
       <==> d.refusals == old(d.refusals) || Bytes(View(d.fs), Resolve(s.place, raw)) == "")
    ensures !SafePath(Resolve(s.place, raw)) ==> text == ""
  {
    var path := ResolveIn(s, raw);
    var there := d.Exists(path);
    if !there { return ""; }
    var folder := d.IsFolderAt(path);
    if folder { return ""; }
    text := d.Read(path);
  }

  /** Writing never needs recovery to go through: a refused recovery fails the write. */
  method Write(d: Disk, s: Session, raw: string, text: string) returns (r: Answer)
    requires Ok(d.fs) && !IsStage(Resolve(s.place, raw))
    modifies d
    ensures Ok(d.fs) && (d.on ==> old(d.on)) && Grows(old(d.refusals), d.refusals, old(d.denials), d.denials)
    ensures Fenced(View(old(d.fs)), View(d.fs), s)
    ensures d.on ==> Refines(View(old(d.fs)), View(d.fs), r,
              WriteAnswer(View(old(d.fs)), MayWrite(s.role, s.person, Resolve(s.place, raw)), Resolve(s.place, raw)),
              View(old(d.fs))[Resolve(s.place, raw) := File(text)])
    ensures d.on && d.denials == old(d.denials) ==> r != HostFailed
    ensures d.on && r == Worked && SafeName(Trim(raw)) ==>
      At(View(d.fs), s.place + "/" + Trim(raw)) == Seen(File(text))
    ensures d.on && d.denials == old(d.denials) && s.role == "admin" ==>
      (r == Worked <==> SafePath(Resolve(s.place, raw)) && CanWrite(View(old(d.fs)), Resolve(s.place, raw)))
    ensures d.on && r == HostFailed && Resolve(s.place, raw) in View(old(d.fs)) ==> View(d.fs) == View(old(d.fs))
    ensures !d.tears || Resolve(s.place, raw) in View(old(d.fs)) || d.on ==>
      View(d.fs) == View(old(d.fs)) || View(d.fs) == View(old(d.fs))[Resolve(s.place, raw) := File(text)]
    ensures !SafePath(Resolve(s.place, raw)) ==> r == BadName
    ensures SafePath(Resolve(s.place, raw)) && Outside(s, Resolve(s.place, raw)) ==> r == NotAllowed
  {
    hide View, Trim, SafePath, SafeName, Resolve, Below;
    if SafeName(Trim(raw)) { NameLeadsHere(s.place, raw); }
    var path := ResolveIn(s, raw);
    var safe := PathIsSafe(path);
    if !safe { return BadName; }
    var may := s.MayWriteAt(path);
    if !may { return NotAllowed; }
    var parent := ParentOf(path);
    if parent != "" {
      var above := d.IsFolderAt(parent);
      ParentIsSafe(path);
      if !above { return NoSuchThing; }
    }
    var folder := d.IsFolderAt(path);
    if folder { return AlreadyThere; }
    var ok, left := d.Write(path, text);
    return if ok then Worked else HostFailed;
  }

  method MakeFolder(d: Disk, s: Session, raw: string) returns (r: Answer)
    requires Ok(d.fs) && !IsStage(Resolve(s.place, raw))
    modifies d
    ensures Ok(d.fs) && (d.on ==> old(d.on)) && Grows(old(d.refusals), d.refusals, old(d.denials), d.denials)
    ensures Fenced(View(old(d.fs)), View(d.fs), s)
    ensures Stage(Resolve(s.place, raw)) !in old(d.fs) ==> d.refusals == old(d.refusals)
    ensures d.on ==>
      (MakeRefines(View(old(d.fs)), View(d.fs), r, s, Resolve(s.place, raw)) <==> d.refusals == old(d.refusals))
    ensures d.on && d.denials == old(d.denials) ==> r != HostFailed
    ensures d.on && r != Worked ==> View(d.fs) == View(old(d.fs))
    ensures View(d.fs) == View(old(d.fs)) || View(d.fs) == View(old(d.fs))[Resolve(s.place, raw) := Folder]
    ensures d.on && r == Worked && SafeName(Trim(raw)) ==>
      At(View(d.fs), s.place + "/" + Trim(raw)) == Seen(Folder)
    ensures !SafePath(Resolve(s.place, raw)) ==> r == BadName
    ensures SafePath(Resolve(s.place, raw)) && Outside(s, Resolve(s.place, raw)) ==> r == NotAllowed
    ensures d.on && d.denials == old(d.denials) && s.role == "admin" ==>
      (r == Worked <==> SafePath(Resolve(s.place, raw)) && Resolve(s.place, raw) !in View(old(d.fs))
                        && ParentOk(View(old(d.fs)), Resolve(s.place, raw)))
  {
    hide View, Trim, SafePath, SafeName, Parent, IsStage, Resolve, Below;
    if SafeName(Trim(raw)) { NameLeadsHere(s.place, raw); }
    var path := ResolveIn(s, raw);
    var safe := PathIsSafe(path);
    if !safe { return BadName; }
    var may := s.MayWriteAt(path);
    if !may { return NotAllowed; }
    r := MakeAt(d, path);
  }

  /** The same where the session may write. */
  method MakeAt(d: Disk, path: string) returns (r: Answer)
    requires Ok(d.fs) && SafePath(path) && !IsStage(path)
    modifies d
    ensures Ok(d.fs) && (d.on ==> old(d.on)) && Grows(old(d.refusals), d.refusals, old(d.denials), d.denials)
    ensures Stage(path) !in old(d.fs) ==> d.refusals == old(d.refusals)
    ensures d.on ==>
      (Refines(View(old(d.fs)), View(d.fs), r, MakeFolderAnswer(View(old(d.fs)), true, path),
               View(old(d.fs))[path := Folder])
       <==> d.refusals == old(d.refusals))
    ensures d.on && r == Worked ==> View(d.fs) == View(old(d.fs))[path := Folder]
    ensures d.on && d.denials == old(d.denials) ==> r != HostFailed
    ensures d.on && r != Worked ==> View(d.fs) == View(old(d.fs))
    ensures View(d.fs) == View(old(d.fs)) || View(d.fs) == View(old(d.fs))[path := Folder]
  {
    hide View, SafePath, IsStage, Below;
    var there := d.Exists(path);
    if there { return AlreadyThere; }
    var parent := ParentOf(path);
    ViewFolders(d.fs, parent);
    if parent != "" {
      var above := d.IsFolderAt(parent);
      ParentIsSafe(path);
      if !above { return NoSuchThing; }
    }
    var ok := d.MakeFolder(path);
    return if ok then Worked else HostFailed;
  }

  method Remove(d: Disk, s: Session, raw: string) returns (r: Answer)
    requires Ok(d.fs) && !IsStage(Resolve(s.place, raw))
    modifies d
    ensures Ok(d.fs) && (d.on ==> old(d.on)) && Grows(old(d.refusals), d.refusals, old(d.denials), d.denials)
    ensures Fenced(View(old(d.fs)), View(d.fs), s)
    ensures Stage(Resolve(s.place, raw)) !in old(d.fs) ==> d.refusals == old(d.refusals)
    ensures d.on ==>
      (RemoveRefines(View(old(d.fs)), View(d.fs), r, s, Resolve(s.place, raw)) <==> d.refusals == old(d.refusals))
    ensures d.on && d.denials == old(d.denials) ==> r != HostFailed
    ensures d.on && r != Worked ==> View(d.fs) == View(old(d.fs))
    ensures View(d.fs) == View(old(d.fs)) || View(d.fs) == View(old(d.fs)) - {Resolve(s.place, raw)}
    ensures d.on && r == Worked && SafeName(Trim(raw)) ==>
      s.place + "/" + Trim(raw) in View(old(d.fs)) && s.place + "/" + Trim(raw) !in View(d.fs)
    ensures !SafePath(Resolve(s.place, raw)) ==> r == BadName
    ensures SafePath(Resolve(s.place, raw)) && Outside(s, Resolve(s.place, raw)) ==> r == NotAllowed
    ensures d.on && d.denials == old(d.denials) && s.role == "admin" ==>
      (r == Worked <==> SafePath(Resolve(s.place, raw)) && CanRemove(View(old(d.fs)), Resolve(s.place, raw)))
  {
    hide View, Trim, SafePath, SafeName, Parent, IsStage, Resolve, Below;
    if SafeName(Trim(raw)) { NameLeadsHere(s.place, raw); }
    var path := ResolveIn(s, raw);
    var safe := PathIsSafe(path);
    if !safe { return BadName; }
    var may := s.MayWriteAt(path);
    if !may { return NotAllowed; }
    r := RemoveAt(d, path);
  }

  method RemoveAt(d: Disk, path: string) returns (r: Answer)
    requires Ok(d.fs) && SafePath(path) && !IsStage(path)
    modifies d
    ensures Ok(d.fs) && (d.on ==> old(d.on)) && Grows(old(d.refusals), d.refusals, old(d.denials), d.denials)
    ensures Stage(path) !in old(d.fs) ==> d.refusals == old(d.refusals)
    ensures d.on ==>
      (Refines(View(old(d.fs)), View(d.fs), r, RemoveAnswer(View(old(d.fs)), true, path), View(old(d.fs)) - {path})
       <==> d.refusals == old(d.refusals))
    ensures d.on && r == Worked ==> path in View(old(d.fs)) && View(d.fs) == View(old(d.fs)) - {path}
    ensures d.on && d.denials == old(d.denials) ==> r != HostFailed
    ensures d.on && r != Worked ==> View(d.fs) == View(old(d.fs))
    ensures View(d.fs) == View(old(d.fs)) || View(d.fs) == View(old(d.fs)) - {path}
  {
    var there := d.Exists(path);
    if !there { return NoSuchThing; }
    var folder := d.IsFolderAt(path);
    if folder {
      var inside := d.List(path);
      ListEmpty(d.fs, path, inside);
      if |inside| > 0 { return NotEmpty; }
      var gone := d.RemoveFolder(path);
      return if gone then Worked else HostFailed;
    }
    var ok := d.RemoveFile(path);
    return if ok then Worked else HostFailed;
  }

  /** A folder lists no names exactly when nothing at all lies below it in the view. */
  lemma ListEmpty(fs: Files, path: string, names: seq<string>)
    requires Ok(fs) && path != ""
    requires forall n :: n in names <==> path + "/" + n in fs && '/' !in n
    ensures names == [] <==> Empty(View(fs), path)
  {
    ViewEmpty(fs, path);
    if k :| k in fs && Below(k, path) {
      var c := ChildToward(fs, k, path);
      assert c in names;
    }
    if names != [] {
      var k := path + "/" + names[0];
      assert names[0] in names && k[..|path|] == path;
      assert Below(k, path);
    }
  }

  /** The name inside path that leads to k. */
  lemma {:induction false} ChildToward(fs: Files, k: string, path: string) returns (n: string)
    requires TreeOk(fs) && k in fs && Below(k, path) && path != ""
    ensures path + "/" + n in fs && '/' !in n && Within(k, path + "/" + n)
    decreases |k|
  {
    ParentOfBelow(k, path);
    AboveParent(k);
    if Parent(k) == path {
      n := k[|path| + 1..];
      assert path + "/" + n == k;
      assert forall i :: 0 <= i < |n| ==> n[i] == k[|path| + 1 + i];
    } else {
      assert ParentOk(fs, k);
      n := ChildToward(fs, Parent(k), path);
      if Parent(k) != path + "/" + n { BelowIsTransitive(k, Parent(k), path + "/" + n); }
    }
  }

  method Move(d: Disk, s: Session, rawFrom: string, rawTo: string) returns (r: Answer)
    requires Ok(d.fs) && !IsStage(Resolve(s.place, rawFrom)) && !IsStage(Resolve(s.place, rawTo))
    modifies d
    ensures Ok(d.fs) && (d.on ==> old(d.on)) && Grows(old(d.refusals), d.refusals, old(d.denials), d.denials)
    ensures Fenced(View(old(d.fs)), View(d.fs), s)
    ensures Stage(Resolve(s.place, rawFrom)) !in old(d.fs) && Stage(Resolve(s.place, rawTo)) !in old(d.fs) ==>
      d.refusals == old(d.refusals)
    ensures d.on ==>
      (MoveRefines(View(old(d.fs)), View(d.fs), r, s, Resolve(s.place, rawFrom), Resolve(s.place, rawTo))
       <==> d.refusals == old(d.refusals)
            || MoveDictates(View(old(d.fs)), s, Resolve(s.place, rawFrom), Resolve(s.place, rawTo)) == NoSuchThing)
    ensures d.on && d.denials == old(d.denials) && r == HostFailed ==>
      Within(Resolve(s.place, rawTo), Resolve(s.place, rawFrom))
    ensures d.on && r != Worked ==> View(d.fs) == View(old(d.fs))
    ensures d.on && d.refusals == old(d.refusals) && r == Worked ==>
      !Within(Resolve(s.place, rawTo), Resolve(s.place, rawFrom))
    ensures d.refusals == old(d.refusals) ==>
      || View(d.fs) == View(old(d.fs))
      || View(d.fs) == Moved(View(old(d.fs)), Resolve(s.place, rawFrom), Resolve(s.place, rawTo))
  {
    var a := ResolveIn(s, rawFrom);
    var b := ResolveIn(s, rawTo);
    var safe := PathIsSafe(a);
    if !safe { return BadName; }
    safe := PathIsSafe(b);
    if !safe { return BadName; }
    var there := d.Exists(a);
    if !there { return NoSuchThing; }
    var may := s.MayWriteAt(a);
    if !may { return NotAllowed; }
    may := s.MayWriteAt(b);
    if !may { return NotAllowed; }
    r := MoveTo(d, a, b);
  }

  /** The rest of a move, where the session may write, from a thing that is there. */
  method MoveTo(d: Disk, a: string, b: string) returns (r: Answer)
    requires Ok(d.fs) && SafePath(a) && SafePath(b) && !IsStage(a) && !IsStage(b)
    requires d.on ==> a in View(d.fs) && Stage(a) !in d.fs
    modifies d
    ensures Ok(d.fs) && (d.on ==> old(d.on)) && Grows(old(d.refusals), d.refusals, old(d.denials), d.denials)
    ensures forall home :: Within(a, home) && Within(b, home) ==> SameOutside(View(old(d.fs)), View(d.fs), home)
    ensures Stage(a) !in old(d.fs) && Stage(b) !in old(d.fs) ==> d.refusals == old(d.refusals)
    ensures d.on ==>
      (Refines(View(old(d.fs)), View(d.fs), r, MoveAnswer(View(old(d.fs)), true, a, b), Moved(View(old(d.fs)), a, b))
       <==> d.refusals == old(d.refusals))
    ensures d.on && d.refusals != old(d.refusals) ==> b in View(old(d.fs)) && r in {Worked, HostFailed}
    ensures d.on && d.denials == old(d.denials) && r == HostFailed ==> Within(b, a)
    ensures d.on && r != Worked ==> View(d.fs) == View(old(d.fs))
    ensures d.on && d.refusals == old(d.refusals) && r == Worked ==> !Within(b, a)
    ensures d.refusals == old(d.refusals) ==>
      View(d.fs) == View(old(d.fs)) || View(d.fs) == Moved(View(old(d.fs)), a, b)
  {
    hide View, SafePath, Moved, Below;
    ViewTreeOk(d.fs);
    var there := d.Exists(b);
    if there { return AlreadyThere; }
    var parent := ParentOf(b);
    if parent != "" {
      var above := d.IsFolderAt(parent);
      ParentIsSafe(b);
      if !above { return NoSuchThing; }
    }
    var ok := d.Rename(a, b);
    return if ok then Worked else HostFailed;
  }

  method Go(d: Disk, s: Session, raw: string) returns (r: Answer)
    requires Ok(d.fs)
    modifies s
    ensures r == if SafePath(Resolve(old(s.place), raw)) && IsFolder(View(d.fs), Resolve(old(s.place), raw))
              then Worked else NoSuchThing
    ensures s.place == if r == Worked then Resolve(old(s.place), raw) else old(s.place)
    ensures r == Worked && SafeName(Trim(raw)) ==>
      s.place == old(s.place) + "/" + Trim(raw) && Parent(s.place) == old(s.place)
  {
    if SafeName(Trim(raw)) { NameLeadsHere(s.place, raw); }
    var path := ResolveIn(s, raw);
    var folder := d.IsFolderAt(path);
    if !folder { return NoSuchThing; }
    s.MoveTo(path);
    return Worked;
  }

  method GoUp(s: Session) returns (r: Answer)
    modifies s
    ensures r == if Parent(old(s.place)) == "" then NoSuchThing else Worked
    ensures s.place == if r == Worked then Parent(old(s.place)) else old(s.place)
  {
    var parent := ParentOf(s.place);
    if parent == "" { return NoSuchThing; }
    s.MoveTo(parent);
    return Worked;
  }

  // ---------- when recovery is refused ----------

  /** vf_make_folder answers 1 on the strength of a missing final file. The folder is what
      the tree dictates exactly when nothing is staged there; otherwise the staged note is
      lost from view under it. */
  lemma MakeFolderExactly(fs: Files, p: string)
    requires Ok(fs) && SafePath(p) && !IsStage(p) && CanMakeFolder(fs, p)
    ensures MakeFolderAnswer(View(fs), true, p) == Worked <==> Stage(p) !in fs
    ensures View(fs[p := Folder]) == View(fs)[p := Folder]
  {
    ViewOne(fs, p);
    ViewFolders(fs, Parent(p));
    PutFinal(fs, p, Folder);
  }

  /** With recovery of "home" refused, making that folder hides the note staged there. */
  lemma RefusedRecoveryHidesNote()
    ensures var fs: Files := map["home.ern-new" := File("kept")];
      && Ok(fs) && At(View(fs), "home") == Seen(File("kept"))
      && CanMakeFolder(fs, "home") && At(View(fs["home" := Folder]), "home") == Seen(Folder)
  {
    var fs: Files := map["home.ern-new" := File("kept")];
    StageFacts("home");
    assert Stage("home") == "home.ern-new";
    assert LastSlash("home") == -1;
    ViewOne(fs, "home");
    ViewOne(fs["home" := Folder], "home");
  }

  /** And moving another note there replaces the final one. */
  lemma RefusedRecoveryReplacesNote()
    ensures var fs: Files := map["home" := File("kept"), "home.ern-new" := File("stale"), "apps" := File("new")];
      && CanRename(fs, "apps", "home") && At(View(fs), "home") == Seen(File("kept"))
      && At(View(Renamed(fs, "apps", "home")), "home") == Seen(File("new"))
  {
    var fs: Files := map["home" := File("kept"), "home.ern-new" := File("stale"), "apps" := File("new")];
    assert LastSlash("home") == -1;
    ViewOne(fs, "home");
    ViewOne(Renamed(fs, "apps", "home"), "home");
    MovedAt(fs, "apps", "home", "home");
    assert Shift("home", "home", "apps") == "apps";
  }

  /** Why a path must not end in the reserved suffix: the name check lets it through, the
      staged write of a note under it goes through, and the next recovery of the name it
      would stage takes it away: to that name when it was free, and nowhere when it was not. */
  lemma ReservedNameIsTakenAway(fs: Files, p: string, x: string)
    requires Ok(fs) && SafePath(p) && !IsStage(p) && ParentOk(fs, p) && Stage(Stage(p)) !in fs
    ensures SafePath(Stage(p)) && CanWrite(fs, Stage(Stage(p)))
    ensures var staged := fs[Stage(Stage(p)) := File(x)];
      && CanRename(staged, Stage(Stage(p)), Stage(p))
      && var written := Renamed(staged, Stage(Stage(p)), Stage(p));
         && written == fs[Stage(p) := File(x)] && Stage(p) !in Recovered(written, p)
         && (p in fs ==> Recovered(written, p) == fs - {Stage(p)})
         && (p !in fs ==> Recovered(written, p) == (fs - {Stage(p)})[p := File(x)])
  {
    hide CanRename, CanWrite, Renamed, ParentOk, IsStage;
    var u := Stage(p);
    StageIsFree(fs, p);
    StageIsSafe(p);
    StagedAndRenamed(fs, u, x);
    StageKeepsOk(fs, p, x);
    if p !in fs { CommitIsMove(fs[u := File(x)], p); }
  }

  lemma StageIsFree(fs: Files, p: string)
    requires Ok(fs) && !IsStage(p) && ParentOk(fs, p) && p != ""
    ensures Stage(p) != "" && Stage(p) != p && !IsFolder(fs, Stage(p)) && ParentOk(fs, Stage(p))
    ensures TreeOk(fs) && (p !in fs ==> !IsFolder(fs[Stage(p) := File("")], p))
  {
    StageFacts(p);
  }

  lemma StagedAndRenamed(fs: Files, u: string, x: string)
    requires TreeOk(fs) && u != "" && !IsFolder(fs, u) && ParentOk(fs, u) && Stage(u) !in fs
    ensures CanWrite(fs, Stage(u)) && CanRename(fs[Stage(u) := File(x)], Stage(u), u)
    ensures Renamed(fs[Stage(u) := File(x)], Stage(u), u) == fs[u := File(x)]
  {
    var staged := fs[Stage(u) := File(x)];
    StageFacts(u);
    NothingBelowMissing(fs, Stage(u));
    if u in fs { NothingBelowFile(fs, u); } else { NothingBelowMissing(fs, u); }
    StageWithin(u, u);
    assert !Below(u, Stage(u));
    MovedFile(staged, Stage(u), u);
  }

  // ---------- the fence over whole runs ----------

  datatype Wish =
    | LookAt(raw: string) | WriteTo(raw: string, text: string) | MakeAt(raw: string) | RemoveAt(raw: string)
    | MoveOver(rawFrom: string, rawTo: string) | GoTo(raw: string) | GoAbove | GoHome

  /** No path a person types ends in the reserved suffix. */
  predicate Unreserved(w: Wish) {
    match w
    case MoveOver(a, b) => !IsStage(Trim(a)) && !IsStage(Trim(b))
    case GoAbove => true
    case GoHome => true
    case _ => !IsStage(Trim(w.raw))
  }

  lemma ResolveUnreserved(place: string, raw: string)
    requires !IsStage(place) && !IsStage(Trim(raw))
    ensures !IsStage(Resolve(place, raw))
  {
    var r := Trim(raw);
    if r != "" && r[0] != '/' && IsStage(Resolve(place, raw)) { StageEndsTail(place, r); }
    if r != "" && r[0] == '/' && IsStage(Resolve(place, raw)) { StageEndsWhole(r); }
  }

  lemma FolderIsPlain(fs: Files, p: string)
    requires Ok(fs) && IsFolder(fs, p)
    ensures Plain(p)
    decreases |p|
  {
    if Parent(p) != "" { FolderIsPlain(fs, Parent(p)); }
  }

  /** Whatever a member asks for, in any order, with the power going at any moment and the
      host refusing anything, recovery included: nothing outside their home changes in
      view, the view stays a tree, and they always stand at a safe path. A power cut ends
      the session; the next one starts at home. */
  method MemberRun(d: Disk, s: Session, wishes: seq<Wish>)
    requires Ok(d.fs) && s.role != "admin" && PersonName(s.person)
    requires SafePath(s.place) && Plain(s.place)
    requires forall w :: w in wishes ==> Unreserved(w)
    modifies d, s
    ensures Ok(d.fs) && TreeOk(View(d.fs))
    ensures SameOutside(View(old(d.fs)), View(d.fs), HomeOf(s.person))
    ensures SafePath(s.place) && Plain(s.place)
  {
    for i := 0 to |wishes|
      invariant Ok(d.fs)
      invariant SameOutside(View(old(d.fs)), View(d.fs), HomeOf(s.person))
      invariant SafePath(s.place) && Plain(s.place)
    {
      var w := wishes[i];
      if !d.on {
        d.Restart();
        HomeFacts(s.person);
        s.MoveTo(HomeOf(s.person));
      }
      Grant(d, s, w);
    }
    ViewTreeOk(d.fs);
  }

  method Grant(d: Disk, s: Session, w: Wish)
    requires Ok(d.fs) && PersonName(s.person) && SafePath(s.place) && Plain(s.place) && Unreserved(w)
    modifies d, s
    ensures Ok(d.fs) && Fenced(View(old(d.fs)), View(d.fs), s)
    ensures SafePath(s.place) && Plain(s.place)
  {
    match w
    case LookAt(raw) =>
      ResolveUnreserved(s.place, raw);
      var text := Read(d, s, raw);
    case WriteTo(raw, text) =>
      ResolveUnreserved(s.place, raw);
      var r := Write(d, s, raw, text);
    case MakeAt(raw) =>
      ResolveUnreserved(s.place, raw);
      var r := MakeFolder(d, s, raw);
    case RemoveAt(raw) =>
      ResolveUnreserved(s.place, raw);
      var r := Remove(d, s, raw);
    case MoveOver(a, b) =>
      ResolveUnreserved(s.place, a);
      ResolveUnreserved(s.place, b);
      var r := Move(d, s, a, b);
    case GoTo(raw) =>
      var r := Go(d, s, raw);
      if r == Worked {
        ViewFolders(d.fs, s.place);
        FolderIsPlain(d.fs, s.place);
      }
    case GoAbove =>
      if Parent(s.place) != "" { ParentIsSafe(s.place); }
      var r := GoUp(s);
    case GoHome =>
      HomeFacts(s.person);
      s.MoveTo(HomeOf(s.person));
  }
}
