/** The count of notes and folders of system/kernel/virtual_files.ep. */
module Tally {
  import opened Strings
  import opened Paths
  import opened HostFiles
  import opened TheDisk
  import VirtualFiles

  function KeysBelow(fs: Files, path: string): set<string> { set k | k in fs && Below(k, path) }

  /** Of these names, those of folders, or of files. */
  function Those(fs: Files, names: set<string>, folders: bool): set<string> {
    set k | k in names && k in fs && fs[k].Folder? == folders
  }

  function Count(fs: Files, names: set<string>, folders: bool): nat { |Those(fs, names, folders)| }

  lemma ThoseOfBoth(fs: Files, a: set<string>, b: set<string>, folders: bool)
    requires a !! b
    ensures Count(fs, a + b, folders) == Count(fs, a, folders) + Count(fs, b, folders)
  {
    assert Those(fs, a + b, folders) == Those(fs, a, folders) + Those(fs, b, folders);
  }

  /** How many folders, or files, lie below a path. */
  function HowMany(fs: Files, path: string, folders: bool): nat { Count(fs, KeysBelow(fs, path), folders) }

  // ---------- what lies under some of the names in a folder ----------

  function Child(path: string, name: string): string { path + "/" + name }

  function Under(fs: Files, path: string, names: seq<string>): set<string> {
    set k | k in fs && exists i :: 0 <= i < |names| && Within(k, Child(path, names[i]))
  }

  /** Names in one folder hold nothing in common. */
  lemma ChildrenApart(k: string, path: string, a: string, b: string)
    requires '/' !in a && '/' !in b && Within(k, Child(path, a)) && Within(k, Child(path, b))
    ensures a == b
  {
    var ka, kb := Child(path, a), Child(path, b);
    assert k[..|ka|] == ka && k[..|kb|] == kb;
    assert forall i :: 0 <= i < |a| ==> k[|path| + 1 + i] == ka[|path| + 1 + i] == a[i] && a[i] in a;
    assert forall i :: 0 <= i < |b| ==> k[|path| + 1 + i] == kb[|path| + 1 + i] == b[i] && b[i] in b;
    assert |a| == |b|;
    assert a == ka[|path| + 1..] && b == kb[|path| + 1..];
  }

  lemma OneNameMore(fs: Files, path: string, names: seq<string>, i: nat)
    requires i < |names| && (forall n :: n in names ==> '/' !in n)
    requires forall j, k :: 0 <= j < k < |names| ==> names[j] != names[k]
    requires Child(path, names[i]) in fs
    ensures var spot := Child(path, names[i]);
      && Under(fs, path, names[..i + 1]) == Under(fs, path, names[..i]) + ({spot} + KeysBelow(fs, spot))
      && Under(fs, path, names[..i]) !! ({spot} + KeysBelow(fs, spot)) && {spot} !! KeysBelow(fs, spot)
  {
    var spot := Child(path, names[i]);
    var before, after := names[..i], names[..i + 1];
    forall k | k in Under(fs, path, before)
      ensures !Within(k, spot) && k in Under(fs, path, after)
    {
      var j :| 0 <= j < i && Within(k, Child(path, before[j]));
      assert after[j] == names[j] && names[j] in names && names[i] in names;
      if Within(k, spot) { ChildrenApart(k, path, names[j], names[i]); }
    }
    forall k | k in fs && Within(k, spot)
      ensures k in Under(fs, path, after)
    {
      assert Within(k, Child(path, after[i]));
    }
    forall k | k in Under(fs, path, after)
      ensures k in Under(fs, path, before) || Within(k, spot)
    {
      var j :| 0 <= j < i + 1 && Within(k, Child(path, after[j]));
      if j < i { assert before[j] == after[j]; }
    }
  }

  lemma AllNames(fs: Files, path: string, names: seq<string>)
    requires TreeOk(fs) && path != "" && forall n :: n in names <==> Child(path, n) in fs && '/' !in n
    ensures Under(fs, path, names) == KeysBelow(fs, path)
  {
    forall k | k in KeysBelow(fs, path)
      ensures k in Under(fs, path, names)
    {
      var n := VirtualFiles.ChildToward(fs, k, path);
      assert n in names;
      var i :| 0 <= i < |names| && names[i] == n;
      assert Within(k, Child(path, names[i]));
    }
    forall k | k in Under(fs, path, names)
      ensures Below(k, path)
    {
      var i :| 0 <= i < |names| && Within(k, Child(path, names[i]));
      var c := Child(path, names[i]);
      assert c[..|path|] == path && Below(c, path);
      if k != c { BelowIsTransitive(k, c, path); }
    }
  }

  // ---------- the walk ----------

  class Counts {
    var notes: nat
    var folders: nat

    constructor ()
      ensures notes == 0 && folders == 0
    {
      notes, folders := 0, 0;
    }
  }

  /** What the walk gets to see: folders the disk takes no path of are taken for notes, and
      nothing below them is found. */
  function Reached(fs: Files): Files {
    map k | k in fs && (Parent(k) == "" || SafePath(Parent(k))) ::
      if fs[k].Folder? && !SafePath(k) then File("") else fs[k]
  }

  lemma ReachedIsTree(fs: Files)
    requires TreeOk(fs)
    ensures TreeOk(Reached(fs))
  {
    forall k | k in Reached(fs)
      ensures ParentOk(Reached(fs), k)
    {
      assert ParentOk(fs, k);
      if Parent(k) != "" && Parent(Parent(k)) != "" { ParentIsSafe(Parent(k)); }
    }
  }

  /** Nothing is missed or mistaken exactly when the disk would take the path of every
      folder there is, as it does of those it made itself. */
  lemma ReachedIsAll(fs: Files)
    requires TreeOk(fs)
    ensures Reached(fs) == fs <==> forall k :: k in fs && fs[k].Folder? ==> SafePath(k)
  {
    if Reached(fs) == fs {
      forall k | k in fs && fs[k].Folder?
        ensures SafePath(k)
      {
        assert Reached(fs)[k].Folder?;
      }
    }
    if forall k :: k in fs && fs[k].Folder? ==> SafePath(k) {
      forall k | k in fs
        ensures k in Reached(fs)
      {
        assert ParentOk(fs, k);
      }
    }
  }

  lemma ReachedChildren(fs: Files, path: string, name: string)
    requires SafePath(path) && '/' !in name
    ensures Child(path, name) in fs <==> Child(path, name) in Reached(fs)
    ensures SafePath(Child(path, name)) && IsFolder(fs, Child(path, name)) <==> IsFolder(Reached(fs), Child(path, name))
  {
    ParentOfJoin(path, name, Child(path, name));
  }

  /** The walk ends, and counts every folder and every file it can see below the path once. */
  method Walk(d: Disk, path: string, tally: Counts)
    requires Ok(d.fs) && SafePath(path)
    modifies tally
    ensures tally.notes == old(tally.notes) + HowMany(Reached(d.fs), path, false)
    ensures tally.folders == old(tally.folders) + HowMany(Reached(d.fs), path, true)
    decreases |KeysBelow(Reached(d.fs), path)|
  {
    hide Reached, Those, SafePath;
    var names := d.List(path);
    ghost var seen := Reached(d.fs);
    NamesReached(d.fs, path, names);
    var i := 0;
    assert Under(seen, path, names[..0]) == {};
    NoneCounted(seen);
    while i < |names|
      invariant 0 <= i <= |names|
      invariant tally.notes == old(tally.notes) + Count(seen, Under(seen, path, names[..i]), false)
      invariant tally.folders == old(tally.folders) + Count(seen, Under(seen, path, names[..i]), true)
    {
      assert names[i] in names;
      Entry(d, path, names[i], tally);
      Counted(seen, path, names, i);
      i := i + 1;
    }
    assert names[..i] == names;
    ReachedIsTree(d.fs);
    SafeIsSome(path);
    AllNames(seen, path, names);
  }

  lemma SafeIsSome(path: string)
    requires SafePath(path)
    ensures path != ""
  {}

  lemma NoneCounted(fs: Files)
    ensures forall f: bool :: Count(fs, {}, f) == 0
  {
    assert forall f: bool :: Those(fs, {}, f) == {};
  }

  lemma NamesReached(fs: Files, path: string, names: seq<string>)
    requires SafePath(path) && forall n :: n in names <==> path + "/" + n in fs && '/' !in n
    ensures forall n :: n in names <==> Child(path, n) in Reached(fs) && '/' !in n
  {
    forall n
      ensures n in names <==> Child(path, n) in Reached(fs) && '/' !in n
    {
      if '/' !in n { ReachedChildren(fs, path, n); }
    }
  }

  /** The whole world: what can be seen below the three top folders. */
  method TallyAll(d: Disk) returns (tally: Counts)
    requires Ok(d.fs)
    ensures var seen := Reached(d.fs);
      && tally.notes == HowMany(seen, "home", false) + HowMany(seen, "system", false) + HowMany(seen, "apps", false)
      && tally.folders == HowMany(seen, "home", true) + HowMany(seen, "system", true) + HowMany(seen, "apps", true)
  {
    tally := new Counts();
    OneName("home");
    Walk(d, "home", tally);
    OneName("system");
    Walk(d, "system", tally);
    OneName("apps");
    Walk(d, "apps", tally);
  }

  method Entry(d: Disk, path: string, name: string, tally: Counts)
    requires Ok(d.fs) && SafePath(path) && '/' !in name && Child(path, name) in Reached(d.fs)
    modifies tally
    ensures var below := {Child(path, name)} + KeysBelow(Reached(d.fs), Child(path, name));
      && tally.notes == old(tally.notes) + Count(Reached(d.fs), below, false)
      && tally.folders == old(tally.folders) + Count(Reached(d.fs), below, true)
    decreases |KeysBelow(Reached(d.fs), path)|, 0
  {
    hide Reached, Those, KeysBelow, SafePath;
    var spot := path + "/" + name;
    ReachedIsTree(d.fs);
    ReachedChildren(d.fs, path, name);
    Fewer(Reached(d.fs), path, name);
    SpotFirst(Reached(d.fs), spot);
    ViewFolders(d.fs, spot);
    var folder := d.IsFolderAt(spot);
    if folder {
      tally.folders := tally.folders + 1;
      Walk(d, spot, tally);
    } else {
      tally.notes := tally.notes + 1;
    }
  }

  lemma Fewer(fs: Files, path: string, name: string)
    requires Child(path, name) in fs
    ensures |KeysBelow(fs, Child(path, name))| < |KeysBelow(fs, path)|
  {
    var spot := Child(path, name);
    assert spot[..|path|] == path && Below(spot, path);
    forall k | k in KeysBelow(fs, spot)
      ensures k in KeysBelow(fs, path)
    {
      BelowIsTransitive(k, spot, path);
    }
    assert KeysBelow(fs, spot) + {spot} <= KeysBelow(fs, path) && spot !in KeysBelow(fs, spot);
    Smaller(KeysBelow(fs, spot), spot, KeysBelow(fs, path));
  }

  lemma Smaller(a: set<string>, x: string, b: set<string>)
    requires a + {x} <= b && x !in a
    ensures |a| < |b|
  {
    assert b == (a + {x}) + (b - (a + {x}));
  }

  function One(fs: Files, spot: string, folders: bool): nat
    requires spot in fs
  {
    if fs[spot].Folder? == folders then 1 else 0
  }

  /** The spot itself, then what is below it; below a file there is nothing. */
  lemma SpotFirst(fs: Files, spot: string)
    requires TreeOk(fs) && spot in fs && spot != ""
    ensures forall f: bool :: Count(fs, {spot} + KeysBelow(fs, spot), f) == One(fs, spot, f) + HowMany(fs, spot, f)
    ensures fs[spot].File? ==> forall f: bool :: HowMany(fs, spot, f) == 0
  {
    forall f: bool
      ensures Count(fs, {spot} + KeysBelow(fs, spot), f) == One(fs, spot, f) + HowMany(fs, spot, f)
    {
      ThoseOfBoth(fs, {spot}, KeysBelow(fs, spot), f);
      assert Those(fs, {spot}, f) == if fs[spot].Folder? == f then {spot} else {};
    }
    if fs[spot].File? {
      NothingBelowFile(fs, spot);
      assert KeysBelow(fs, spot) == {};
      assert forall f: bool :: Those(fs, {}, f) == {};
    }
  }

  lemma Counted(fs: Files, path: string, names: seq<string>, i: nat)
    requires i < |names| && (forall n :: n in names ==> '/' !in n)
    requires forall j, k :: 0 <= j < k < |names| ==> names[j] != names[k]
    requires Child(path, names[i]) in fs
    ensures var spot := Child(path, names[i]);
      forall f: bool :: Count(fs, Under(fs, path, names[..i + 1]), f)
                     == Count(fs, Under(fs, path, names[..i]), f) + Count(fs, {spot} + KeysBelow(fs, spot), f)
  {
    OneNameMore(fs, path, names, i);
    var spot := Child(path, names[i]);
    ThoseOfBoth(fs, Under(fs, path, names[..i]), {spot} + KeysBelow(fs, spot), true);
    ThoseOfBoth(fs, Under(fs, path, names[..i]), {spot} + KeysBelow(fs, spot), false);
  }

  // ---------- what people see ----------

  /** A staging file below the path whose note is there too. */
  function Stale(fs: Files, path: string): set<string> {
    set k | k in fs && Below(k, path) && IsStage(k) && Unstage(k) in fs
  }

  function Final(k: string): string { if IsStage(k) then Unstage(k) else k }

  function Finals(ks: set<string>): set<string> { set k | k in ks :: Final(k) }

  lemma {:induction false} FinalsCount(ks: set<string>)
    requires forall a, b :: a in ks && b in ks && Final(a) == Final(b) ==> a == b
    ensures |Finals(ks)| == |ks|
    decreases |ks|
  {
    if ks != {} {
      var k :| k in ks;
      var others := ks - {k};
      FinalsCount(others);
      assert Finals(ks) == Finals(others) + {Final(k)} && Final(k) !in Finals(others);
    }
  }

  /** The files below the path that people see under their own or their staging name. */
  function Live(fs: Files, path: string): set<string> { Those(fs, KeysBelow(fs, path), false) - Stale(fs, path) }

  lemma LiveApart(fs: Files, path: string)
    ensures forall a, b :: a in Live(fs, path) && b in Live(fs, path) && Final(a) == Final(b) ==> a == b
  {
    forall a, b | a in Live(fs, path) && b in Live(fs, path) && Final(a) == Final(b)
      ensures a == b
    {
      if IsStage(a) { UnstageFacts(a); }
      if IsStage(b) { UnstageFacts(b); }
    }
  }

  lemma LiveFinals(fs: Files, path: string)
    requires Ok(fs)
    ensures Finals(Live(fs, path)) == Those(View(fs), KeysBelow(View(fs), path), false)
  {
    var live := Live(fs, path);
    forall k | k in live
      ensures Final(k) in Those(View(fs), KeysBelow(View(fs), path), false)
    {
      if IsStage(k) { UnstageFacts(k); }
      ViewOne(fs, Final(k));
      StageWithin(Final(k), path);
    }
    forall p | p in Those(View(fs), KeysBelow(View(fs), path), false)
      ensures p in Finals(live)
    {
      ViewOne(fs, p);
      StageFacts(p);
      StageWithin(p, path);
      var k := if p in fs then p else Stage(p);
      assert k in live && Final(k) == p;
    }
  }

  lemma FoldersSeen(fs: Files, path: string)
    requires Ok(fs)
    ensures Those(fs, KeysBelow(fs, path), true) == Those(View(fs), KeysBelow(View(fs), path), true)
  {
    forall k
      ensures k in Those(fs, KeysBelow(fs, path), true) <==> k in Those(View(fs), KeysBelow(View(fs), path), true)
    {
      ViewFolders(fs, k);
    }
  }

  /** The count is of what people see, and of every stale staging file besides: it is right
      about the notes if and only if there is none. */
  lemma TallyOfTheView(fs: Files, path: string)
    requires Ok(fs)
    ensures HowMany(fs, path, true) == HowMany(View(fs), path, true)
    ensures HowMany(fs, path, false) == HowMany(View(fs), path, false) + |Stale(fs, path)|
    ensures HowMany(fs, path, false) == HowMany(View(fs), path, false) <==> Stale(fs, path) == {}
  {
    FoldersSeen(fs, path);
    LiveFinals(fs, path);
    LiveApart(fs, path);
    FinalsCount(Live(fs, path));
    Parted(Those(fs, KeysBelow(fs, path), false), Stale(fs, path));
  }

  lemma Parted(files: set<string>, stale: set<string>)
    requires stale <= files
    ensures |files| == |files - stale| + |stale| && (|stale| == 0 <==> stale == {})
  {
    assert files == (files - stale) + stale;
  }
}
