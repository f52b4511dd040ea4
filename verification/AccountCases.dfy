/** Host states in which system/kernel/user_accounts.ep does what one would not expect. */
module AccountCases {
  import opened Strings
  import opened Paths
  import opened HostFiles
  import opened TheDisk
  import opened Sessions
  import opened AccountRecords
  import opened UserAccounts

  /** What a write of the record leaves, when it recovers, stages and commits. */
  function Rewritten(fs: Files, name: string, text: string): Files {
    var p := RecordPath(name);
    Renamed(Recovered(fs, p)[Stage(p) := File(text)], Stage(p), p)
  }

  /** The host calls of that write are all possible. */
  ghost predicate Rewritable(fs: Files, name: string, text: string) {
    var p := RecordPath(name);
    && (Stage(p) in fs ==> if p in fs then CanRemove(fs, Stage(p)) else CanRename(fs, Stage(p), p))
    && CanWrite(Recovered(fs, p), Stage(p))
    && CanRename(Recovered(fs, p)[Stage(p) := File(text)], Stage(p), p)
  }

  /** A creation that got past the question whether the account exists writes over the
      record. With a stage beside the record it gets past it by one refused recovery;
      without one it never does, as Create promises. */
  lemma RewriteGoesThrough(fs: Files, name: string, text: string)
    requires Ok(fs) && PersonName(name) && CanWrite(View(fs), RecordPath(name))
    ensures Rewritable(fs, name, text) && Ok(Rewritten(fs, name, text))
    ensures View(Rewritten(fs, name, text)) == View(fs)[RecordPath(name) := File(text)]
  {
    hide View;
    var p := RecordPath(name);
    PathFacts(name);
    RecoveryGoesThrough(fs, p);
    WriteGoesThrough(Recovered(fs, p), p, text);
    ViewFolders(Recovered(fs, p), Parent(p));
    StageFacts(p);
    Staged(Recovered(fs, p), p, text);
  }

  lemma RecoveryGoesThrough(fs: Files, p: string)
    requires Ok(fs) && p != "" && !IsStage(p)
    ensures Stage(p) in fs ==> if p in fs then CanRemove(fs, Stage(p)) else CanRename(fs, Stage(p), p)
    ensures Ok(Recovered(fs, p)) && View(Recovered(fs, p)) == View(fs) && Stage(p) !in Recovered(fs, p)
  {
    StageFacts(p);
    if Stage(p) in fs {
      if p in fs {
        DiscardStage(fs, p);
      } else {
        assert !Below(p, Stage(p));
        assert ParentOk(fs, Stage(p));
        CommitStage(fs, p);
      }
    }
  }

  /** From then on the person's record accepts exactly what the new one does. */
  lemma OldPasswordStopsWorking(sha: Hash, fs: Files, name: string, salt: string, password: string, role: string,
                                created: string, other: string)
    requires Ok(fs) && GoodHash(sha) && PersonName(name) && CanWrite(View(fs), RecordPath(name))
    requires salt != "" && '\n' !in salt + role + created
    ensures var after := Rewritten(fs, name, RecordText(Fresh(sha, name, salt, password, role, created)));
      Accepts(sha, View(after), name, other) <==>
      Secret(sha, salt, other, ROUNDS) == Secret(sha, salt, password, ROUNDS)
  {
    hide View, Accepted, Secret, RecordText, Rewritten, Rewritable;
    assert '\n' !in name;
    RewriteGoesThrough(fs, name, RecordText(Fresh(sha, name, salt, password, role, created)));
    FreshAccepts(sha, name, salt, password, role, created);
  }

  // ---------- a hash one can follow ----------

  /** Not SHA-256, but as good as the results about accounts ask for. */
  function ParityHash(x: string): string { if |x| % 2 == 0 then "p" else "qq" }

  const SALT := "0123456789abcdef0123456789abcdef"

  lemma ParityIsGood()
    ensures GoodHash(ParityHash)
  {}

  lemma {:induction false} ParityStays(f: string, n: nat)
    requires f == "p" || f == "qq"
    ensures SaltedRounds(ParityHash, SALT, f, n) == f
  {
    if n > 0 { ParityStays(f, n - 1); }
  }

  lemma ParitySecret(password: string, rounds: nat)
    ensures Secret(ParityHash, SALT, password, rounds) == if |password| % 2 == 1 then "p" else "qq"
  {
    ParityStays(ParityHash("ern-os-v2|" + SALT + "|" + password), rounds);
  }

  function RecordOf(name: string, password: string): string {
    RecordText(Fresh(ParityHash, name, SALT, password, "member", ""))
  }

  lemma RecordOfAccepts(password: string, other: string)
    ensures Accepted(ParityHash, RecordOf("ann", password), other) <==> |other| % 2 == |password| % 2
  {
    hide Accepted, Secret, RecordText;
    ParityIsGood();
    ParitySecret(password, ROUNDS);
    ParitySecret(other, ROUNDS);
    FreshAccepts(ParityHash, "ann", SALT, password, "member", "");
  }

  lemma AcceptsIs(v: Files, name: string, text: string, password: string)
    requires PersonName(name) && At(v, RecordPath(name)) == Seen(File(text))
    ensures Accepts(ParityHash, v, name, password) <==> Accepted(ParityHash, text, password)
  {}

  // ---------- two host states ----------

  function Registry(): Files {
    map["system" := Folder, "system/registry" := Folder, "system/registry/users" := Folder]
  }

  lemma RegistryParents()
    ensures Parent("system") == "" && Parent("system/registry") == "system"
    ensures Parent("system/registry/users") == "system/registry" && Parent("home/ann") == "home"
    ensures Parent(RecordPath("ann")) == "system/registry/users" && PersonName("ann")
  {
    hide LastSlash;
    assert LastSlash("system") < 0;
    ParentOfJoin("system", "registry", "system/registry");
    ParentOfJoin("system/registry", "users", "system/registry/users");
    ParentOfJoin("home", "ann", "home/ann");
    ParentOfJoin("system/registry/users", "ann", RecordPath("ann"));
  }

  lemma RegistryIsOk()
    ensures Ok(Registry()) && RecordPath("ann") == "system/registry/users/ann"
    ensures CanWrite(View(Registry()), RecordPath("ann"))
    ensures Parent(Stage(RecordPath("ann"))) == "system/registry/users"
  {
    hide Parent;
    RegistryParents();
    PathFacts("ann");
    StageFacts(RecordPath("ann"));
    forall k | k in Registry() ensures !IsStage(k) { if IsStage(k) { StageHasDot(k); } }
    ViewFolders(Registry(), "system/registry/users");
    ViewOne(Registry(), RecordPath("ann"));
    ViewFolders(Registry(), RecordPath("ann"));
  }

  /** ann's record, with the stage of an unfinished write beside it. */
  function WithStaleStage(): Files {
    Registry()[RecordPath("ann") := File(RecordOf("ann", "password"))][Stage(RecordPath("ann")) := File("stale")]
  }

  lemma StaleStageIsOk()
    ensures Ok(WithStaleStage()) && CanWrite(View(WithStaleStage()), RecordPath("ann"))
    ensures At(View(WithStaleStage()), RecordPath("ann")) == Seen(File(RecordOf("ann", "password")))
  {
    hide RecordOf, Parent, View;
    RegistryIsOk();
    RegistryParents();
    PathFacts("ann");
    var p := RecordPath("ann");
    var one := Registry()[p := File(RecordOf("ann", "password"))];
    PutFinal(Registry(), p, File(RecordOf("ann", "password")));
    StageWritten(one, p, "stale");
    ViewFolders(WithStaleStage(), "system/registry/users");
  }

  /** Recovery of the record is refused once, so create_account does not find it; then
      nothing is denied, and the record is written over: the password that was accepted
      is not any more, the new one is. */
  lemma AccountWrittenOver()
    ensures var fs, p := WithStaleStage(), RecordPath("ann");
      && Ok(fs) && Stage(p) in fs && Rewritable(fs, "ann", RecordOf("ann", "passwords"))
      && Accepts(ParityHash, View(fs), "ann", "password")
      && var after := Rewritten(fs, "ann", RecordOf("ann", "passwords"));
         && !Accepts(ParityHash, View(after), "ann", "password")
         && Accepts(ParityHash, View(after), "ann", "passwords")
  {
    hide Accepted, RecordOf, Rewritten, Rewritable, View, Parent;
    var fs, after := WithStaleStage(), Rewritten(WithStaleStage(), "ann", RecordOf("ann", "passwords"));
    StaleStageIsOk();
    RegistryParents();
    RewriteGoesThrough(fs, "ann", RecordOf("ann", "passwords"));
    RecordOfAccepts("password", "password");
    RecordOfAccepts("passwords", "password");
    RecordOfAccepts("passwords", "passwords");
    AcceptsIs(View(fs), "ann", RecordOf("ann", "password"), "password");
    AcceptsIs(View(after), "ann", RecordOf("ann", "passwords"), "password");
    AcceptsIs(View(after), "ann", RecordOf("ann", "passwords"), "passwords");
  }

  /** There is no folder for homes: the record is written, its home cannot be made, and the
      host refuses to take the record back. The answer is 7, and the account works. */
  lemma AccountLeftAfterSeven()
    ensures var fs, p := Registry(), RecordPath("ann");
      && Ok(fs) && p !in View(fs) && Rewritable(fs, "ann", RecordOf("ann", "password"))
      && var after := Rewritten(fs, "ann", RecordOf("ann", "password"));
         && HomeOf("ann") !in after && !CanMakeFolder(after, HomeOf("ann")) && CanRemove(after, p)
         && Accepts(ParityHash, View(after), "ann", "password")
  {
    hide Accepted, RecordOf, Rewritten, Rewritable, Parent, View;
    var after := Rewritten(Registry(), "ann", RecordOf("ann", "password"));
    RegistryIsOk();
    RegistryParents();
    RewriteGoesThrough(Registry(), "ann", RecordOf("ann", "password"));
    RegistryRewritten(RecordOf("ann", "password"));
    RecordOfAccepts("password", "password");
    AcceptsIs(View(after), "ann", RecordOf("ann", "password"), "password");
    assert HomeOf("ann") == "home/ann" && |RecordPath("ann")| == 25;
    assert "home" !in after && HomeOf("ann") !in after;
  }

  lemma RegistryRewritten(text: string)
    ensures RecordPath("ann") !in View(Registry())
    ensures Rewritten(Registry(), "ann", text) == Registry()[RecordPath("ann") := File(text)]
  {
    hide Parent, View, Renamed;
    RegistryIsOk();
    RegistryParents();
    PathFacts("ann");
    var p := RecordPath("ann");
    StageFacts(p);
    ViewOne(Registry(), p);
    StageHasDot(Stage(p));
    StageKeepsOk(Registry(), p, text);
    CommitStage(Registry()[Stage(p) := File(text)], p);
  }
}
