/** The host's files as a map from disk-relative path to file or folder, what the host
    calls do to it, and the logical view people see through the staging names. */
module HostFiles {
  import opened Strings
  import opened Paths

  datatype Node = File(bytes: string) | Folder

  type Files = map<string, Node>

  datatype Sight = Nothing | Seen(node: Node)

  predicate IsFolder(t: Files, p: string) { p in t && t[p].Folder? }

  predicate ParentOk(t: Files, p: string) { Parent(p) == "" || IsFolder(t, Parent(p)) }

  predicate Empty(t: Files, p: string) { forall k :: k in t ==> !Below(k, p) }

  /** Everything lives in a folder. */
  predicate TreeOk(t: Files) { forall k :: k in t ==> ParentOk(t, k) }

  /** A staging name is only ever a file, staged for a name that is not itself one. */
  predicate Clean(fs: Files) {
    forall k :: k in fs && IsStage(k) ==> fs[k].File? && !IsStage(Unstage(k))
  }

  predicate Ok(fs: Files) { TreeOk(fs) && Clean(fs) }

  /** Every ancestor of something that exists is a folder. */
  lemma {:induction false} AncestorIsFolder(t: Files, k: string, a: string)
    requires TreeOk(t) && k in t && Below(k, a) && a != ""
    ensures IsFolder(t, a)
    decreases |k|
  {
    ParentOfBelow(k, a);
    if Parent(k) != a { AncestorIsFolder(t, Parent(k), a); }
  }

  // ---------- what host calls need and do ----------

  predicate CanWrite(fs: Files, p: string) { ParentOk(fs, p) && !IsFolder(fs, p) }

  predicate CanMakeFolder(fs: Files, p: string) { p !in fs && ParentOk(fs, p) }

  predicate CanRemove(fs: Files, p: string) { p in fs && (fs[p].Folder? ==> Empty(fs, p)) }

  /** rename(2): into an existing folder, never into the moved thing's own subtree,
      replacing only a file by a file or an empty folder by a folder. */
  predicate CanRename(fs: Files, a: string, b: string) {
    && a in fs && ParentOk(fs, b) && !Below(b, a)
    && (b in fs && b != a ==> fs[a].File? == fs[b].File? && (fs[b].Folder? ==> Empty(fs, b)))
  }

  function MovedNames(t: Files, a: string, b: string): set<string> {
    (set k | k in t && !Within(k, a) && !Within(k, b)) +
    (set k | k in t && Within(k, a) :: Shift(k, a, b))
  }

  /** The files after a and all below it are re-rooted at b. */
  function Moved(t: Files, a: string, b: string): Files {
    MovedSource(t, a, b);
    map k | k in MovedNames(t, a, b) :: t[if Within(k, b) then Shift(k, b, a) else k]
  }

  lemma MovedSource(t: Files, a: string, b: string)
    ensures forall k :: k in MovedNames(t, a, b) ==> (if Within(k, b) then Shift(k, b, a) else k) in t
  {
    forall k | k in MovedNames(t, a, b)
      ensures (if Within(k, b) then Shift(k, b, a) else k) in t
    {
      if j :| j in t && Within(j, a) && k == Shift(j, a, b) { ShiftInvolutes(j, a, b); }
    }
  }

  /** Moved, one name at a time. */
  lemma MovedAt(t: Files, a: string, b: string, k: string)
    ensures Within(k, b) ==> (k in Moved(t, a, b) <==> Shift(k, b, a) in t)
    ensures Within(k, b) && k in Moved(t, a, b) ==> Moved(t, a, b)[k] == t[Shift(k, b, a)]
    ensures !Within(k, b) ==> (k in Moved(t, a, b) <==> k in t && !Within(k, a))
    ensures !Within(k, b) && k in Moved(t, a, b) ==> Moved(t, a, b)[k] == t[k]
  {
    MovedSource(t, a, b);
    if Within(k, b) && Shift(k, b, a) in t {
      ShiftInvolutes(k, b, a);
      assert k == Shift(Shift(k, b, a), a, b);
    }
    if !Within(k, b) && k in Moved(t, a, b) {
      if j :| j in t && Within(j, a) && k == Shift(j, a, b) {
        ShiftInvolutes(j, a, b);
      }
    }
  }

  function Renamed(fs: Files, a: string, b: string): Files {
    if a == b then fs else Moved(fs, a, b)
  }

  /** A rename keeps the tree a tree. */
  lemma MovedTreeOk(t: Files, a: string, b: string)
    requires TreeOk(t) && a in t && a != "" && ParentOk(t, b) && !Within(b, a) && !Within(a, b)
    ensures TreeOk(Moved(t, a, b))
  {
    forall k | k in Moved(t, a, b)
      ensures ParentOk(Moved(t, a, b), k)
    {
      MovedAt(t, a, b, k);
      if Below(k, b) { MovedParentBelow(t, a, b, k); } else { MovedParentBeside(t, a, b, k); }
    }
  }

  lemma MovedParentBelow(t: Files, a: string, b: string, k: string)
    requires TreeOk(t) && Below(k, b) && Shift(k, b, a) in t && a != ""
    ensures ParentOk(Moved(t, a, b), k)
  {
    ShiftParent(k, b, a);
    ParentOfBelow(k, b);
    MovedAt(t, a, b, Parent(k));
    assert ParentOk(t, Shift(k, b, a));
  }

  lemma MovedParentBeside(t: Files, a: string, b: string, k: string)
    requires ParentOk(t, k) && !Within(b, a) && !Within(a, b) && !Within(k, a) && !Below(k, b)
    ensures ParentOk(Moved(t, a, b), k)
  {
    var above := Parent(k);
    if above != "" {
      AboveParent(k);
      if Below(above, a) { BelowIsTransitive(k, above, a); }
      if Below(above, b) { BelowIsTransitive(k, above, b); }
      MovedAt(t, a, b, above);
    }
  }

  /** Moving a plain file onto a free name or another file is a replacement. */
  lemma MovedFile(fs: Files, a: string, b: string)
    requires a in fs && a != b && Empty(fs, a) && Empty(fs, b) && !Within(a, b) && !Within(b, a)
    ensures Moved(fs, a, b) == (fs - {a})[b := fs[a]]
  {
    var m, r := Moved(fs, a, b), (fs - {a})[b := fs[a]];
    forall k
      ensures k in m <==> k in r
      ensures k in m ==> m[k] == r[k]
    {
      MovedAt(fs, a, b, k);
      if Below(k, b) {
        ShiftInvolutes(k, b, a);
        assert Below(Shift(k, b, a), a);
      }
      if k == b { assert Shift(b, b, a) == a; }
    }
  }

  // ---------- the logical view ----------

  /** What people see at one name: the final thing where there is one, otherwise the
      orphan stage. */
  function Shown(fs: Files, p: string): Sight {
    if IsStage(p) then Nothing
    else if p in fs then Seen(fs[p])
    else if Stage(p) in fs then Seen(fs[Stage(p)])
    else Nothing
  }

  function At(t: Files, p: string): Sight { if p in t then Seen(t[p]) else Nothing }

  function ViewNames(fs: Files): set<string> {
    (set k | k in fs && !IsStage(k)) + (set k | k in fs && IsStage(k) :: Unstage(k))
  }

  /** Everything people see, as one map. */
  function View(fs: Files): Files {
    map p | p in ViewNames(fs) && Shown(fs, p).Seen? :: Shown(fs, p).node
  }

  lemma ViewOne(fs: Files, p: string)
    ensures At(View(fs), p) == Shown(fs, p)
  {
    StageFacts(p);
    if Shown(fs, p).Seen? && p !in fs { assert p == Unstage(Stage(p)); }
  }

  /** A view is a map when it shows the same at every name. */
  lemma ViewIs(fs: Files, t: Files)
    requires forall q :: Shown(fs, q) == At(t, q)
    ensures View(fs) == t
  {
    forall q
      ensures q in View(fs) <==> q in t
      ensures q in t ==> View(fs)[q] == t[q]
    {
      ViewOne(fs, q);
    }
  }

  lemma ViewSame(fs: Files, gs: Files)
    requires forall q :: Shown(gs, q) == Shown(fs, q)
    ensures View(gs) == View(fs)
  {
    forall q ensures Shown(gs, q) == At(View(fs), q) { ViewOne(fs, q); }
    ViewIs(gs, View(fs));
  }

  lemma ViewPut(fs: Files, gs: Files, p: string, n: Node)
    requires forall q :: Shown(gs, q) == if q == p then Seen(n) else Shown(fs, q)
    ensures View(gs) == View(fs)[p := n]
  {
    forall q ensures Shown(gs, q) == At(View(fs)[p := n], q) { ViewOne(fs, q); }
    ViewIs(gs, View(fs)[p := n]);
  }

  lemma ViewDrop(fs: Files, gs: Files, p: string)
    requires forall q :: Shown(gs, q) == if q == p then Nothing else Shown(fs, q)
    ensures View(gs) == View(fs) - {p}
  {
    forall q ensures Shown(gs, q) == At(View(fs) - {p}, q) { ViewOne(fs, q); }
    ViewIs(gs, View(fs) - {p});
  }

  /** The view is a tree whenever the host's files are. */
  lemma ViewTreeOk(fs: Files)
    requires Ok(fs)
    ensures TreeOk(View(fs))
  {
    forall p | p in View(fs)
      ensures ParentOk(View(fs), p)
    {
      ViewOne(fs, p);
      StageFacts(p);
      assert ParentOk(fs, p);
      ViewFolders(fs, Parent(p));
    }
  }

  /** A folder of the view is a folder of the host, and the other way round. */
  lemma ViewFolders(fs: Files, p: string)
    requires Clean(fs)
    ensures IsFolder(View(fs), p) <==> IsFolder(fs, p)
  {
    ViewOne(fs, p);
    StageFacts(p);
  }

  /** A folder looks empty exactly when the host finds it empty. */
  lemma ViewEmpty(fs: Files, a: string)
    requires Clean(fs)
    ensures Empty(View(fs), a) <==> Empty(fs, a)
  {
    forall k | k in fs && Below(k, a)
      ensures exists p :: p in View(fs) && Below(p, a)
    {
      var p := if IsStage(k) then Unstage(k) else k;
      if IsStage(k) {
        UnstageFacts(k);
        StageWithin(p, a);
      }
      ViewOne(fs, p);
      assert p in View(fs) && Below(p, a);
    }
    forall p | p in View(fs) && Below(p, a)
      ensures exists k :: k in fs && Below(k, a)
    {
      ViewOne(fs, p);
      StageWithin(p, a);
      if p !in fs { assert Stage(p) in fs && Below(Stage(p), a); }
    }
  }

  // ---------- how each host call shows through the view ----------

  lemma NothingBelowFile(fs: Files, p: string)
    requires TreeOk(fs) && p in fs && fs[p].File? && p != ""
    ensures Empty(fs, p)
  {
    forall k | k in fs && Below(k, p)
      ensures false
    {
      AncestorIsFolder(fs, k, p);
    }
  }

  lemma NothingBelowMissing(fs: Files, p: string)
    requires TreeOk(fs) && p !in fs && p != ""
    ensures Empty(fs, p)
  {
    forall k | k in fs && Below(k, p)
      ensures false
    {
      AncestorIsFolder(fs, k, p);
    }
  }

  /** Dropping a stale stage shows nothing. */
  lemma DiscardStage(fs: Files, p: string)
    requires Ok(fs) && !IsStage(p) && p in fs && Stage(p) in fs
    ensures Ok(fs - {Stage(p)}) && View(fs - {Stage(p)}) == View(fs)
  {
    StageFacts(p);
    var gs := fs - {Stage(p)};
    forall k | k in gs
      ensures ParentOk(gs, k)
    {
      assert ParentOk(fs, k);
    }
    forall q
      ensures Shown(gs, q) == Shown(fs, q)
    {
      StageFacts(q);
    }
    ViewSame(fs, gs);
  }

  /** What a recovery that goes through makes of a stage: it is discarded beside a final
      thing, and becomes it otherwise. */
  function Recovered(fs: Files, p: string): Files {
    if Stage(p) !in fs then fs else if p in fs then fs - {Stage(p)} else Renamed(fs, Stage(p), p)
  }

  function Committed(fs: Files, p: string): Files
    requires Stage(p) in fs
  {
    (fs - {Stage(p)})[p := fs[Stage(p)]]
  }

  /** Renaming a stage to its final name, over an old file or none, puts its bytes there;
      when there was no final file the view already showed them. */
  lemma CommitStage(fs: Files, p: string)
    requires Ok(fs) && p != "" && !IsStage(p) && Stage(p) in fs && !IsFolder(fs, p)
    ensures Renamed(fs, Stage(p), p) == Committed(fs, p)
    ensures Ok(Committed(fs, p)) && View(Committed(fs, p)) == View(fs)[p := fs[Stage(p)]]
    ensures p !in fs ==> View(Committed(fs, p)) == View(fs)
  {
    CommittedOk(fs, p);
    CommittedShows(fs, p);
    CommitIsMove(fs, p);
  }

  lemma CommittedOk(fs: Files, p: string)
    requires Ok(fs) && p != "" && !IsStage(p) && Stage(p) in fs && !IsFolder(fs, p)
    ensures Ok(Committed(fs, p))
  {
    var gs := Committed(fs, p);
    StageFacts(p);
    forall k | k in gs
      ensures ParentOk(gs, k)
    {
      assert ParentOk(fs, if k == p then Stage(p) else k);
    }
  }

  lemma CommittedShows(fs: Files, p: string)
    requires !IsStage(p) && Stage(p) in fs
    ensures View(Committed(fs, p)) == View(fs)[p := fs[Stage(p)]]
    ensures p !in fs ==> View(Committed(fs, p)) == View(fs)
  {
    var gs := Committed(fs, p);
    StageFacts(p);
    forall q
      ensures Shown(gs, q) == if q == p then Seen(fs[Stage(p)]) else Shown(fs, q)
    {
      StageFacts(q);
    }
    ViewPut(fs, gs, p, fs[Stage(p)]);
    if p !in fs { ViewSame(fs, gs); }
  }

  lemma CommitIsMove(fs: Files, p: string)
    requires Ok(fs) && p != "" && !IsStage(p) && Stage(p) in fs && !IsFolder(fs, p)
    ensures Renamed(fs, Stage(p), p) == Committed(fs, p)
  {
    StageFacts(p);
    NothingBelowFile(fs, Stage(p));
    if p in fs { NothingBelowFile(fs, p); } else { NothingBelowMissing(fs, p); }
    StageWithin(p, p);
    MovedFile(fs, Stage(p), p);
  }

  /** Staging shows nothing beside a final file, and shows the staged bytes otherwise. */
  lemma StageWritten(fs: Files, p: string, x: string)
    requires Ok(fs) && !IsStage(p) && ParentOk(fs, p)
    ensures Ok(fs[Stage(p) := File(x)])
    ensures p in fs ==> View(fs[Stage(p) := File(x)]) == View(fs)
    ensures p !in fs ==> View(fs[Stage(p) := File(x)]) == View(fs)[p := File(x)]
  {
    StageKeepsOk(fs, p, x);
    var gs := fs[Stage(p) := File(x)];
    forall q
      ensures Shown(gs, q) == if q == p && p !in fs then Seen(File(x)) else Shown(fs, q)
    {
      StageFacts(q);
    }
    if p in fs { ViewSame(fs, gs); } else { ViewPut(fs, gs, p, File(x)); }
  }

  lemma StageKeepsOk(fs: Files, p: string, x: string)
    requires Ok(fs) && !IsStage(p) && ParentOk(fs, p)
    ensures Ok(fs[Stage(p) := File(x)])
  {
    StageFacts(p);
    PutKeepsTree(fs, Stage(p), File(x));
  }

  lemma PutKeepsTree(fs: Files, p: string, n: Node)
    requires TreeOk(fs) && ParentOk(fs, p) && (IsFolder(fs, p) ==> n.Folder?)
    ensures TreeOk(fs[p := n])
  {
    var gs := fs[p := n];
    forall k | k in gs
      ensures ParentOk(gs, k)
    {
      assert k in fs ==> ParentOk(fs, k);
    }
  }

  /** Putting a final file or folder shows it, whatever was staged. */
  lemma PutFinal(fs: Files, p: string, n: Node)
    requires Ok(fs) && !IsStage(p) && ParentOk(fs, p) && (IsFolder(fs, p) ==> n.Folder?)
    ensures Ok(fs[p := n]) && View(fs[p := n]) == View(fs)[p := n]
  {
    PutKeepsTree(fs, p, n);
    forall q
      ensures Shown(fs[p := n], q) == if q == p then Seen(n) else Shown(fs, q)
    {
      StageFacts(q);
    }
    ViewPut(fs, fs[p := n], p, n);
  }

  /** Removing a final with nothing staged beside it removes it from the view. */
  lemma RemoveFinal(fs: Files, p: string)
    requires Ok(fs) && p != "" && !IsStage(p) && CanRemove(fs, p) && Stage(p) !in fs
    ensures Ok(fs - {p}) && View(fs - {p}) == View(fs) - {p}
  {
    var gs := fs - {p};
    if fs[p].File? { NothingBelowFile(fs, p); }
    forall k | k in gs
      ensures ParentOk(gs, k)
    {
      assert ParentOk(fs, k);
      if Parent(k) == p { AboveParent(k); }
    }
    forall q
      ensures Shown(gs, q) == if q == p then Nothing else Shown(fs, q)
    {
      StageFacts(q);
    }
    ViewDrop(fs, gs, p);
  }

  /** What the host lets a rename do never nests the two places. */
  lemma RenameApart(fs: Files, a: string, b: string)
    requires TreeOk(fs) && CanRename(fs, a, b) && a != b && b != ""
    ensures !Within(a, b) && !Within(b, a)
  {
    if Below(a, b) { AncestorIsFolder(fs, a, b); }
  }

  /** A rename of final names keeps the invariant. */
  lemma RenameKeepsOk(fs: Files, a: string, b: string)
    requires Ok(fs) && CanRename(fs, a, b) && a != "" && b != "" && !IsStage(a) && !IsStage(b)
    ensures Ok(Renamed(fs, a, b))
  {
    if a != b {
      RenameApart(fs, a, b);
      MovedTreeOk(fs, a, b);
      forall k | k in Moved(fs, a, b) && IsStage(k)
        ensures Moved(fs, a, b)[k].File? && !IsStage(Unstage(k))
      {
        MovedAt(fs, a, b, k);
        UnstageFacts(k);
        if Below(k, b) {
          var base := Unstage(k);
          StageWithin(base, b);
          StageShift(base, b, a);
          StageFacts(Shift(base, b, a));
          ShiftKeepsPlain(base, b, a);
        }
      }
    }
  }

  /** Moving a final thing with nothing staged beside either place moves it in the view,
      with everything below it, staged or final. */
  lemma ViewOfMoved(fs: Files, a: string, b: string)
    requires Ok(fs) && CanRename(fs, a, b) && b !in fs && a != "" && b != ""
    requires !IsStage(a) && !IsStage(b) && Stage(a) !in fs && Stage(b) !in fs
    ensures View(Moved(fs, a, b)) == Moved(View(fs), a, b)
  {
    RenameApart(fs, a, b);
    forall q
      ensures Shown(Moved(fs, a, b), q) == At(Moved(View(fs), a, b), q)
    {
      ShownMoved(fs, a, b, q);
      MovedAt(View(fs), a, b, q);
      if Within(q, b) { ViewOne(fs, Shift(q, b, a)); } else { ViewOne(fs, q); }
    }
    ViewIs(Moved(fs, a, b), Moved(View(fs), a, b));
  }

  lemma ShownMoved(fs: Files, a: string, b: string, q: string)
    requires !IsStage(a) && !IsStage(b) && a in fs && Stage(a) !in fs && Stage(b) !in fs && b !in fs
    ensures Shown(Moved(fs, a, b), q) ==
      if Within(q, b) then Shown(fs, Shift(q, b, a))
      else if Within(q, a) then Nothing
      else Shown(fs, q)
  {
    MovedAt(fs, a, b, q);
    MovedAt(fs, a, b, Stage(q));
    if Below(q, b) {
      StageShift(q, b, a);
      ShiftKeepsPlain(q, b, a);
    } else {
      StageWithin(q, a);
      StageWithin(q, b);
      if q == b { assert Shift(b, b, a) == a; }
    }
  }

  // ---------- what lies outside a region ----------

  /** Two views agree everywhere but within the region home. */
  ghost predicate SameOutside(v: Files, w: Files, home: string) {
    forall q :: !Within(q, home) ==> At(v, q) == At(w, q)
  }

  /** A rename between two places of a region shows nothing outside it, even when the
      host replaced something at the new place. */
  lemma RenameStaysInside(fs: Files, a: string, b: string, home: string)
    requires !IsStage(a) && !IsStage(b) && Within(a, home) && Within(b, home)
    ensures SameOutside(View(fs), View(Renamed(fs, a, b)), home)
  {
    forall q | !Within(q, home)
      ensures At(View(fs), q) == At(View(Renamed(fs, a, b)), q)
    {
      OutsideEither(q, a, home);
      OutsideEither(q, b, home);
      ViewOne(fs, q);
      ViewOne(Renamed(fs, a, b), q);
      MovedAt(fs, a, b, q);
      MovedAt(fs, a, b, Stage(q));
    }
  }

  lemma OutsideEither(q: string, a: string, home: string)
    requires Within(a, home) && !Within(q, home) && !IsStage(a)
    ensures !Within(q, a) && !Within(Stage(q), a)
  {
    if Below(q, a) && a != home { BelowIsTransitive(q, a, home); }
    StageWithin(q, a);
  }
}
