/** system/kernel/user_accounts.ep: who is allowed to use the computer. */
module UserAccounts {
  import opened Strings
  import opened Paths
  import opened HostFiles
  import opened TheDisk
  import opened Sessions
  import opened AccountRecords

  const LOG := "system/log/system.log"

  function RecordPath(name: string): string { "system/registry/users/" + name }

  method NameIsOk(name: string) returns (ok: bool)
    ensures ok <==> PersonName(name)
  {
    if |name| == 0 { return false; }
    if |name| > 32 { return false; }
    var i := 0;
    while i < |name|
      invariant 0 <= i <= |name|
      invariant forall k :: 0 <= k < i ==> IsAlphanumeric(name[k]) || name[k] == '-' || name[k] == '_'
    {
      var c, good := name[i], false;
      if IsAlphanumeric(c) { good := true; }
      if c == '-' { good := true; }
      if c == '_' { good := true; }
      if !good { return false; }
      i := i + 1;
    }
    return true;
  }

  // ---------- where things are ----------

  lemma PathFacts(name: string)
    requires PersonName(name)
    ensures SafePath(RecordPath(name)) && !IsStage(RecordPath(name)) && RecordPath(name) != LOG
    ensures SafePath(HomeOf(name)) && !IsStage(HomeOf(name)) && HomeOf(name) != RecordPath(name)
  {
    HomeFacts(name);
    RegistryIsSafe();
    HomeIsSafe(name);
    SafeJoin("home", name);
    assert RecordPath(name) == "system/registry/users" + "/" + name;
    SafeJoin("system/registry/users", name);
    assert '.' !in RecordPath(name);
    if IsStage(RecordPath(name)) { StageHasDot(RecordPath(name)); }
    assert LOG[17] == '.';
    assert RecordPath(name)[0] == 's' && HomeOf(name)[0] == 'h';
  }

  lemma RegistryIsSafe()
    ensures SafePath("system/registry/users")
  {
    OneName("system");
    OneName("registry");
    SafeJoin("system", "registry");
    assert "system" + "/" + "registry" == "system/registry";
    UsersIsSafe();
  }

  lemma UsersIsSafe()
    requires SafePath("system/registry")
    ensures SafePath("system/registry/users")
  {
    hide SafePath, Split;
    OneName("users");
    SafeJoin("system/registry", "users");
    assert "system/registry" + "/" + "users" == "system/registry/users";
  }

  lemma LogIsNoStage()
    ensures !IsStage(LOG)
  {
    assert |STAGE_SUFFIX| == 8 && LOG[|LOG| - 8..][0] == LOG[|LOG| - 8] && LOG[|LOG| - 8] == 's';
  }

  lemma RecordPathsDiffer(name: string, other: string)
    ensures RecordPath(name) == RecordPath(other) <==> name == other
  {
    assert RecordPath(name)[22..] == name && RecordPath(other)[22..] == other;
  }

  /** Outside these places the view is the same. */
  ghost predicate OnlyAt(v0: Files, v1: Files, places: set<string>) {
    forall q :: q !in places ==> At(v1, q) == At(v0, q)
  }

  lemma OnlyAtItself(v: Files, places: set<string>)
    ensures OnlyAt(v, v, places)
  {}

  lemma Then(v0: Files, v1: Files, v2: Files, a: set<string>, b: set<string>)
    requires OnlyAt(v0, v1, a) && OnlyAt(v1, v2, b)
    ensures OnlyAt(v0, v2, a + b)
  {}

  lemma Wider(v0: Files, v1: Files, a: set<string>, b: set<string>)
    requires OnlyAt(v0, v1, a) && a <= b
    ensures OnlyAt(v0, v1, b)
  {}

  /** The text of a person's record, as the view shows it. */
  ghost function RecordIn(v: Files, name: string): string { Bytes(v, RecordPath(name)) }

  ghost predicate HasAccount(v: Files, name: string) { PersonName(name) && RecordPath(name) in v }

  /** Does this person's record, as the view shows it, accept this password? */
  ghost predicate Accepts(sha: Hash, v: Files, name: string, password: string) {
    HasAccount(v, name) && Accepted(sha, RecordIn(v, name), password)
  }

  /** This password, and no other, is accepted. */
  ghost predicate OnlyAccepts(sha: Hash, v: Files, name: string, password: string) {
    forall q :: Accepts(sha, v, name, q) <==> q == password
  }

  /** Without collisions no one else gets in. */
  lemma OneWayIn(sha: Hash, v: Files, name: string, password: string)
    ensures Collisionless(sha) && Accepts(sha, v, name, password) ==> OnlyAccepts(sha, v, name, password)
  {
    if Collisionless(sha) && Accepts(sha, v, name, password) {
      forall q | Accepts(sha, v, name, q)
        ensures q == password
      {
        OnePassword(sha, RecordIn(v, name), q, password);
      }
    }
  }

  ghost predicate SameRecord(v0: Files, v1: Files, name: string) {
    At(v1, RecordPath(name)) == At(v0, RecordPath(name))
  }

  /** The record was replaced by a fresh one that accepts the password and keeps the role
      and the date. */
  ghost predicate Migrated(sha: Hash, before: string, after: string, password: string) {
    && Accepted(sha, before, password) && RecordField(before, "scheme") == LEGACY
    && Accepted(sha, after, password) && RecordField(after, "scheme") == SCHEME
    && RecordField(after, "role") == RecordField(before, "role")
    && RecordField(after, "created") == RecordField(before, "created")
  }

  /** There is a home already, or a folder for one. */
  ghost predicate HomeRoom(v: Files, name: string) { HomeOf(name) in v || ParentOk(v, HomeOf(name)) }

  /** The folders an account needs are there. */
  ghost predicate Room(v: Files, name: string) { CanWrite(v, RecordPath(name)) && HomeRoom(v, name) }

  lemma RoomStays(v0: Files, v1: Files, name: string)
    requires PersonName(name) && OnlyAt(v0, v1, {RecordPath(name)})
    ensures HomeRoom(v0, name) ==> HomeRoom(v1, name)
  {
    HomeFacts(name);
    PathFacts(name);
    assert RecordPath(name)[0] == 's' && Parent(HomeOf(name)) == "home" && "home"[0] == 'h';
    assert At(v1, "home") == At(v0, "home") && At(v1, HomeOf(name)) == At(v0, HomeOf(name));
  }

  /** What a write of the record leaves as it was for the home. */
  lemma HomeStays(fs0: Files, fs1: Files, name: string)
    requires PersonName(name) && OnlyAt(View(fs0), View(fs1), {RecordPath(name)})
    requires forall k :: k in fs1 && IsStage(k) && k != Stage(RecordPath(name)) ==> k in fs0
    ensures HomeRoom(View(fs0), name) ==> HomeRoom(View(fs1), name)
    ensures HomeOf(name) in View(fs0) ==> HomeOf(name) in View(fs1)
    ensures Stage(HomeOf(name)) !in fs0 ==> Stage(HomeOf(name)) !in fs1
  {
    RoomStays(View(fs0), View(fs1), name);
    PathFacts(name);
    StageFacts(HomeOf(name));
    StageFacts(RecordPath(name));
    assert At(View(fs1), HomeOf(name)) == At(View(fs0), HomeOf(name));
  }

  function DiaryLine(stamp: string, kind: string, text: string): string {
    "[" + stamp + "] " + kind + ": " + text + "\n"
  }

  ghost predicate OneLineMore(v0: Files, v1: Files, kind: string, text: string) {
    exists stamp :: LineMore(v0, v1, DiaryLine(stamp, kind, text))
  }

  ghost predicate LineMore(v0: Files, v1: Files, line: string) { Bytes(v1, LOG) == Bytes(v0, LOG) + line }

  lemma LineAdded(v0: Files, v1: Files, stamp: string, kind: string, text: string)
    requires v1 == v0[LOG := File(Bytes(v0, LOG) + DiaryLine(stamp, kind, text))]
    ensures OneLineMore(v0, v1, kind, text)
  {
    assert LineMore(v0, v1, DiaryLine(stamp, kind, text));
  }

  /** How an account creation ended. left: taking back what was written was denied. */
  datatype Fate = Refused | Kept | NotWritten(left: bool) | TakenBack(left: bool)

  predicate Left(f: Fate) { (f.NotWritten? || f.TakenBack?) && f.left }

  predicate Tells(f: Fate, answer: int) { answer == if f.Refused? then 0 else if f.Kept? then 1 else 7 }

  class Accounts {
    const disk: Disk
    const sha: Hash

    constructor (d: Disk, hash: Hash)
      ensures disk == d && sha == hash
    {
      disk, sha := d, hash;
    }

    /** One line in the diary; that it may not be written stops nothing. */
    method LogLine(kind: string, text: string) returns (written: bool)
      requires Ok(disk.fs)
      modifies disk
      ensures Ok(disk.fs) && OnlyAt(View(old(disk.fs)), View(disk.fs), {LOG})
      ensures disk.on && written ==> OneLineMore(View(old(disk.fs)), View(disk.fs), kind, text)
      ensures (disk.on ==> old(disk.on)) && Grows(old(disk.refusals), disk.refusals, old(disk.denials), disk.denials)
    {
      LogIsNoStage();
      var stamp: string := *;
      var line := DiaryLine(stamp, kind, text);
      written := disk.Append(LOG, line);
      if disk.on && written { LineAdded(View(old(disk.fs)), View(disk.fs), stamp, kind, text); }
    }

    method Exists(name: string) returns (there: bool)
      requires Ok(disk.fs)
      modifies disk
      ensures Ok(disk.fs) && View(disk.fs) == View(old(disk.fs))
      ensures (disk.on ==> old(disk.on)) && Grows(old(disk.refusals), disk.refusals, old(disk.denials), disk.denials)
      ensures there ==> PersonName(name)
      ensures !PersonName(name) || Stage(RecordPath(name)) !in old(disk.fs) ==>
        disk.refusals == old(disk.refusals) && disk.fs == old(disk.fs)
      ensures disk.on ==> ((there <==> HasAccount(View(old(disk.fs)), name)) <==> disk.refusals == old(disk.refusals))
      ensures NoNewStage(old(disk.fs), disk.fs)
      ensures disk.on && there ==> HasAccount(View(old(disk.fs)), name) && Stage(RecordPath(name)) !in disk.fs
    {
      var ok := NameIsOk(name);
      if !ok { return false; }
      PathFacts(name);
      there := disk.Exists(RecordPath(name));
    }

    /** Build a record, line by line, and store it in one piece. */
    method WriteRecord(r: Record) returns (ok: bool, ghost left: bool)
      requires Ok(disk.fs) && PersonName(r.name)
      modifies disk
      ensures Ok(disk.fs) && (disk.on ==> old(disk.on))
      ensures Grows(old(disk.refusals), disk.refusals, old(disk.denials), disk.denials)
      ensures OnlyAt(View(old(disk.fs)), View(disk.fs), {RecordPath(r.name)})
      ensures disk.on && ok ==> At(View(disk.fs), RecordPath(r.name)) == Seen(File(RecordText(r)))
      ensures RecordPath(r.name) in View(old(disk.fs)) || disk.on ==>
        SameRecord(View(old(disk.fs)), View(disk.fs), r.name)
        || At(View(disk.fs), RecordPath(r.name)) == Seen(File(RecordText(r)))
      ensures disk.on && !ok && RecordPath(r.name) in View(old(disk.fs)) ==> View(disk.fs) == View(old(disk.fs))
      ensures left ==> disk.denials > old(disk.denials)
      ensures disk.on && !ok && RecordPath(r.name) !in View(old(disk.fs)) ==>
        (RecordPath(r.name) in View(disk.fs) <==> left)
      ensures forall k :: k in disk.fs && IsStage(k) && k != Stage(RecordPath(r.name)) ==> k in old(disk.fs)
      ensures !old(disk.on) ==> View(disk.fs) == View(old(disk.fs))
      ensures disk.on && disk.denials == old(disk.denials) && CanWrite(View(old(disk.fs)), RecordPath(r.name)) ==> ok
    {
      PathFacts(r.name);
      var record := BuildRecord(r);
      ok, left := disk.Write(RecordPath(r.name), record);
    }

    /** A new person. 1 made; 0 refused; 7 when the disk would not: then the record is there
        all the same, whole and accepting the password, exactly when it was left. Someone
        who has an account is left alone exactly when recovery of the record was not
        refused, which it can only be with a stage beside it. */
    method Create(name: string, password: string, role: string) returns (answer: int, ghost fate: Fate)
      requires Ok(disk.fs) && GoodHash(sha)
      modifies disk
      ensures Ok(disk.fs) && (disk.on ==> old(disk.on))
      ensures Grows(old(disk.refusals), disk.refusals, old(disk.denials), disk.denials)
      ensures OnlyAt(View(old(disk.fs)), View(disk.fs), {RecordPath(name), HomeOf(name), LOG})
      ensures !PersonName(name) || |password| < 8 || role !in {"admin", "member"} ==>
        answer == 0 && View(disk.fs) == View(old(disk.fs))
      ensures answer in {0, 1, 7} && (answer == 0 ==> View(disk.fs) == View(old(disk.fs)))
      ensures HasAccount(View(old(disk.fs)), name)
              && (disk.refusals == old(disk.refusals) || Stage(RecordPath(name)) !in old(disk.fs)) ==>
        SameRecord(View(old(disk.fs)), View(disk.fs), name)
      ensures disk.on && HasAccount(View(old(disk.fs)), name) && |password| >= 8 && role in {"admin", "member"} ==>
        (answer == 0 <==> disk.refusals == old(disk.refusals))
      ensures Tells(fate, answer) && (disk.on && Left(fate) ==> disk.denials > old(disk.denials))
      ensures disk.on && answer == 7 && !HasAccount(View(old(disk.fs)), name) ==>
        (HasAccount(View(disk.fs), name) <==> Left(fate))
      ensures disk.on && HomeOf(name) in View(old(disk.fs)) && Stage(HomeOf(name)) !in old(disk.fs) ==>
        !fate.TakenBack?
      ensures disk.on && disk.denials == old(disk.denials) && Room(View(old(disk.fs)), name) ==>
        answer == if !PersonName(name) || |password| < 8 || role !in {"admin", "member"}
                    || HasAccount(View(old(disk.fs)), name) then 0 else 1
      ensures disk.on && answer == 1 ==> Made(sha, View(disk.fs), name, password, role)
      ensures disk.on && answer == 7 && !HasAccount(View(old(disk.fs)), name) && HasAccount(View(disk.fs), name) ==>
        Made(sha, View(disk.fs), name, password, role)
    {
      answer, fate := 0, Refused;
      var ok := NameIsOk(name);
      if !ok { return; }
      PathFacts(name);
      var exists_ := Exists(name);
      if exists_ { return; }
      if |password| < 8 { return; }
      if role != "admin" && role != "member" { return; }
      answer, fate := Store(name, password, role);
    }

    method Store(name: string, password: string, role: string) returns (answer: int, ghost fate: Fate)
      requires Ok(disk.fs) && GoodHash(sha) && PersonName(name) && role in {"admin", "member"}
      modifies disk
      ensures Ok(disk.fs) && (disk.on ==> old(disk.on))
      ensures Grows(old(disk.refusals), disk.refusals, old(disk.denials), disk.denials)
      ensures OnlyAt(View(old(disk.fs)), View(disk.fs), {RecordPath(name), HomeOf(name), LOG})
      ensures answer in {1, 7} && (!old(disk.on) ==> SameRecord(View(old(disk.fs)), View(disk.fs), name))
      ensures disk.on && disk.denials == old(disk.denials) && Room(View(old(disk.fs)), name) ==> answer == 1
      ensures Tells(fate, answer) && (disk.on && Left(fate) ==> disk.denials > old(disk.denials))
      ensures disk.on && answer == 7 && RecordPath(name) !in View(old(disk.fs)) ==>
        (RecordPath(name) in View(disk.fs) <==> Left(fate))
      ensures disk.on && HomeOf(name) in View(old(disk.fs)) && Stage(HomeOf(name)) !in old(disk.fs) ==>
        !fate.TakenBack?
      ensures disk.on && answer == 1 ==> Made(sha, View(disk.fs), name, password, role)
      ensures disk.on && answer == 7 && RecordPath(name) !in View(old(disk.fs)) && RecordPath(name) in View(disk.fs) ==>
        Made(sha, View(disk.fs), name, password, role)
    {
      hide View, Secret, Made, RecordText, HomeRoom, RecordPath, HomeOf;
      PathFacts(name);
      ghost var v0 := View(disk.fs);
      var ok, left := WriteFresh(name, password, role);
      ghost var v1 := View(disk.fs);
      HomeStays(old(disk.fs), disk.fs, name);
      Wider(v0, v1, {RecordPath(name)}, {RecordPath(name), HomeOf(name), LOG});
      fate := NotWritten(left);
      if !ok { return 7, fate; }
      answer, left := MakeHome(name, role);
      fate := if answer == 1 then Kept else TakenBack(left);
      Then(v0, v1, View(disk.fs), {RecordPath(name)}, {RecordPath(name), HomeOf(name), LOG});
      assert {RecordPath(name)} + {RecordPath(name), HomeOf(name), LOG} == {RecordPath(name), HomeOf(name), LOG};
      if SameRecord(v1, View(disk.fs), name) { MadeStays(sha, v1, View(disk.fs), name, password, role); }
    }

    /** The record of a new person, under a new salt. */
    method WriteFresh(name: string, password: string, role: string) returns (ok: bool, ghost left: bool)
      requires Ok(disk.fs) && GoodHash(sha) && PersonName(name) && role in {"admin", "member"}
      modifies disk
      ensures Ok(disk.fs) && (disk.on ==> old(disk.on))
      ensures Grows(old(disk.refusals), disk.refusals, old(disk.denials), disk.denials)
      ensures OnlyAt(View(old(disk.fs)), View(disk.fs), {RecordPath(name)})
      ensures disk.on && ok ==> CanRemove(View(disk.fs), RecordPath(name))
      ensures disk.on && ok ==> Made(sha, View(disk.fs), name, password, role)
      ensures RecordPath(name) in View(old(disk.fs)) || disk.on ==>
        SameRecord(View(old(disk.fs)), View(disk.fs), name) || Made(sha, View(disk.fs), name, password, role)
      ensures disk.on && !ok && RecordPath(name) in View(old(disk.fs)) ==> View(disk.fs) == View(old(disk.fs))
      ensures left ==> disk.denials > old(disk.denials)
      ensures disk.on && !ok && RecordPath(name) !in View(old(disk.fs)) ==>
        (RecordPath(name) in View(disk.fs) <==> left)
      ensures forall k :: k in disk.fs && IsStage(k) && k != Stage(RecordPath(name)) ==> k in old(disk.fs)
      ensures !old(disk.on) ==> View(disk.fs) == View(old(disk.fs))
      ensures disk.on && disk.denials == old(disk.denials) && CanWrite(View(old(disk.fs)), RecordPath(name)) ==> ok
    {
      hide View, Secret, Made, RecordText, RecordPath;
      var salt := MakeSalt();
      var secret := Stretch(sha, salt, password, ROUNDS);
      var stamp := ClockStamp();
      ok, left := WriteRecord(Record(name, salt, secret, ROUNDS, SCHEME, role, stamp));
      MadeOrNot(sha, View(disk.fs), name, salt, password, role, stamp);
    }

    /** The home folder, unless something is there already; without it the record is
        taken back. */
    method MakeHome(name: string, role: string) returns (answer: int, ghost left: bool)
      requires Ok(disk.fs) && PersonName(name)
      modifies disk
      ensures Ok(disk.fs) && (disk.on ==> old(disk.on))
      ensures Grows(old(disk.refusals), disk.refusals, old(disk.denials), disk.denials)
      ensures OnlyAt(View(old(disk.fs)), View(disk.fs), {RecordPath(name), HomeOf(name), LOG})
      ensures answer in {1, 7}
      ensures disk.on && disk.denials == old(disk.denials) && HomeRoom(View(old(disk.fs)), name) ==> answer == 1
      ensures SameRecord(View(old(disk.fs)), View(disk.fs), name)
        || (answer == 7 && old(disk.on) && RecordPath(name) !in View(disk.fs))
      ensures left && CanRemove(View(old(disk.fs)), RecordPath(name)) ==> disk.denials > old(disk.denials)
      ensures disk.on && answer == 7 && RecordPath(name) in View(old(disk.fs)) ==>
        (RecordPath(name) in View(disk.fs) <==> left)
      ensures disk.on && HomeOf(name) in View(old(disk.fs)) && Stage(HomeOf(name)) !in old(disk.fs) ==> answer == 1
    {
      hide View, SafePath, IsStage;
      left := false;
      PathFacts(name);
      var home := HomeOf(name);
      var there := disk.Exists(home);
      ViewFolders(disk.fs, Parent(home));
      if !there {
        var made := disk.MakeFolder(home);
        if !made {
          var rolledBack := disk.RemoveFile(RecordPath(name));
          left := disk.on && !rolledBack;
          return 7, left;
        }
      }
      var noted := LogLine("note", "created account " + name + " with role " + role);
      answer := 1;
    }

    /** Do a name and a password match? The answer is right whenever recovery was not
        refused, and nothing happens to the record but a migration. */
    method Verify(name: string, password: string) returns (answer: bool)
      requires Ok(disk.fs) && GoodHash(sha)
      modifies disk
      ensures Ok(disk.fs) && (disk.on ==> old(disk.on))
      ensures Grows(old(disk.refusals), disk.refusals, old(disk.denials), disk.denials)
      ensures disk.on && answer ==> Accepts(sha, View(old(disk.fs)), name, password)
      ensures disk.on && answer && Collisionless(sha) ==> OnlyAccepts(sha, View(old(disk.fs)), name, password)
      ensures disk.on && (disk.refusals == old(disk.refusals) || Stage(RecordPath(name)) !in old(disk.fs)) ==>
        (answer <==> Accepts(sha, View(old(disk.fs)), name, password))
      ensures OnlyAt(View(old(disk.fs)), View(disk.fs), {RecordPath(name), LOG})
      ensures SameRecord(View(old(disk.fs)), View(disk.fs), name)
        || (HasAccount(View(old(disk.fs)), name) && HasAccount(View(disk.fs), name)
            && Migrated(sha, RecordIn(View(old(disk.fs)), name), RecordIn(View(disk.fs), name), password))
      ensures disk.on && disk.denials == old(disk.denials) && Accepts(sha, View(old(disk.fs)), name, password) ==>
        RecordField(RecordIn(View(disk.fs), name), "scheme") == SCHEME
    {
      hide OnlyAccepts, Collisionless, Accepted, RecordField, Migrated, View, Stage;
      OneWayIn(sha, View(disk.fs), name, password);
      var there := Exists(name);
      if !there { return false; }
      PathFacts(name);
      NoTextNoAccess(sha, password);
      ViewTreeOk(disk.fs);
      var record := disk.Read(RecordPath(name));
      answer := Judge(name, password, record);
    }

    /** Does this record accept the password? A good one of the old scheme is migrated. */
    method Judge(name: string, password: string, record: string) returns (answer: bool)
      requires Ok(disk.fs) && GoodHash(sha) && PersonName(name)
      requires disk.on ==> RecordPath(name) in View(disk.fs) && record == RecordIn(View(disk.fs), name)
      modifies disk
      ensures Ok(disk.fs) && (disk.on ==> old(disk.on)) && (answer <==> Accepted(sha, record, password))
      ensures Grows(old(disk.refusals), disk.refusals, old(disk.denials), disk.denials)
      ensures OnlyAt(View(old(disk.fs)), View(disk.fs), {RecordPath(name), LOG})
      ensures SameRecord(View(old(disk.fs)), View(disk.fs), name)
        || (HasAccount(View(disk.fs), name) && old(disk.on)
            && Migrated(sha, record, RecordIn(View(disk.fs), name), password))
      ensures disk.on && disk.denials == old(disk.denials) && answer
              && CanWrite(View(old(disk.fs)), RecordPath(name)) ==>
        RecordField(RecordIn(View(disk.fs), name), "scheme") == SCHEME
    {
      hide View, Secret, LegacySecret, RecordField, StringToInt, OnlyAt;
      OnlyAtItself(View(disk.fs), {RecordPath(name), LOG});
      var salt := ReadField(record, "salt");
      var stored := ReadField(record, "secret");
      var scheme := ReadField(record, "scheme");
      var written := ReadField(record, "rounds");
      var rounds := ParseInt(written);
      if |salt| == 0 { return false; }
      if |stored| == 0 { return false; }
      if rounds < 10000 || rounds > 1000000 { return false; }
      if scheme == SCHEME {
        var attempt := Stretch(sha, salt, password, rounds);
        answer := SecretsMatch(attempt, stored);
        return;
      }
      if scheme == LEGACY {
        var attempt := StretchLegacy(sha, salt, password, rounds);
        var same := SecretsMatch(attempt, stored);
        if !same { return false; }
        Migrate(name, password, record);
        return true;
      }
      return false;
    }

    method Migrate(name: string, password: string, record: string)
      requires Ok(disk.fs) && GoodHash(sha) && PersonName(name)
      requires Accepted(sha, record, password) && RecordField(record, "scheme") == LEGACY
      requires disk.on ==> RecordPath(name) in View(disk.fs) && record == RecordIn(View(disk.fs), name)
      modifies disk
      ensures Ok(disk.fs) && (disk.on ==> old(disk.on))
      ensures Grows(old(disk.refusals), disk.refusals, old(disk.denials), disk.denials)
      ensures OnlyAt(View(old(disk.fs)), View(disk.fs), {RecordPath(name), LOG})
      ensures SameRecord(View(old(disk.fs)), View(disk.fs), name)
        || (HasAccount(View(disk.fs), name) && old(disk.on)
            && Migrated(sha, record, RecordIn(View(disk.fs), name), password))
      ensures disk.on && disk.denials == old(disk.denials) && CanWrite(View(old(disk.fs)), RecordPath(name)) ==>
        Migrated(sha, record, RecordIn(View(disk.fs), name), password)
    {
      hide View, Secret, RecordText;
      PathFacts(name);
      var role := ReadField(record, "role");
      var created := ReadField(record, "created");
      var salt := MakeSalt();
      var secret := Stretch(sha, salt, password, ROUNDS);
      RecordFieldLacksLineFeed(record, "role");
      RecordFieldLacksLineFeed(record, "created");
      ghost var v0 := View(disk.fs);
      var ok, left := WriteRecord(Record(name, salt, secret, ROUNDS, SCHEME, role, created));
      ghost var v1 := View(disk.fs);
      MadeOrNot(sha, v1, name, salt, password, role, created);
      if !ok {
        var warned := LogLine("problem", "could not migrate password record for " + name);
      } else {
        var noted := LogLine("note", "migrated password record for " + name);
      }
      Then(v0, v1, View(disk.fs), {RecordPath(name)}, {LOG});
      assert {RecordPath(name)} + {LOG} == {RecordPath(name), LOG};
      assert SameRecord(v1, View(disk.fs), name);
    }

    /** 1 removed; 4 no such person; 7 when the disk would not. */
    method Delete(name: string) returns (answer: int)
      requires Ok(disk.fs)
      modifies disk
      ensures Ok(disk.fs) && (disk.on ==> old(disk.on))
      ensures Grows(old(disk.refusals), disk.refusals, old(disk.denials), disk.denials)
      ensures OnlyAt(View(old(disk.fs)), View(disk.fs), {RecordPath(name), LOG}) && answer in {1, 4, 7}
      ensures disk.on && answer == 1 ==> HasAccount(View(old(disk.fs)), name) && !HasAccount(View(disk.fs), name)
      ensures disk.on && disk.denials == old(disk.denials) && CanRemove(View(old(disk.fs)), RecordPath(name)) ==>
        (answer == 1 <==> PersonName(name))
      ensures answer != 1 ==> disk.on ==> SameRecord(View(old(disk.fs)), View(disk.fs), name)
      ensures disk.on && (disk.refusals == old(disk.refusals) || Stage(RecordPath(name)) !in old(disk.fs)) ==>
        (answer == 4 <==> !HasAccount(View(old(disk.fs)), name))
    {
      hide View, SafePath, IsStage;
      var there := Exists(name);
      if !there { return 4; }
      PathFacts(name);
      ghost var v0 := View(disk.fs);
      var gone := disk.RemoveFile(RecordPath(name));
      ghost var v1 := View(disk.fs);
      assert OnlyAt(v0, v1, {RecordPath(name)});
      if !gone {
        Wider(v0, v1, {RecordPath(name)}, {RecordPath(name), LOG});
        return 7;
      }
      var noted := LogLine("note", "account " + name + " removed");
      Then(v0, v1, View(disk.fs), {RecordPath(name)}, {LOG});
      assert {RecordPath(name)} + {LOG} == {RecordPath(name), LOG};
      return 1;
    }
  }

  /** An account with this password and role, of the current scheme. */
  ghost predicate Made(sha: Hash, v: Files, name: string, password: string, role: string) {
    && Accepts(sha, v, name, password)
    && RecordField(RecordIn(v, name), "role") == role && RecordField(RecordIn(v, name), "scheme") == SCHEME
  }

  lemma FreshIsMade(sha: Hash, v: Files, name: string, salt: string, password: string, role: string, created: string)
    requires GoodHash(sha) && PersonName(name) && salt != "" && '\n' !in salt + role + created
    requires At(v, RecordPath(name)) == Seen(File(RecordText(Fresh(sha, name, salt, password, role, created))))
    ensures Made(sha, v, name, password, role) && RecordField(RecordIn(v, name), "created") == created
  {
    assert '\n' !in name;
    FreshAccepts(sha, name, salt, password, role, created);
  }

  lemma MadeOrNot(sha: Hash, v: Files, name: string, salt: string, password: string, role: string, created: string)
    requires GoodHash(sha) && PersonName(name) && salt != "" && '\n' !in salt + role + created
    ensures At(v, RecordPath(name)) == Seen(File(RecordText(Fresh(sha, name, salt, password, role, created)))) ==>
      Made(sha, v, name, password, role) && RecordField(RecordIn(v, name), "created") == created
  {
    if At(v, RecordPath(name)) == Seen(File(RecordText(Fresh(sha, name, salt, password, role, created)))) {
      FreshIsMade(sha, v, name, salt, password, role, created);
    }
  }

  lemma MadeStays(sha: Hash, v0: Files, v1: Files, name: string, password: string, role: string)
    requires SameRecord(v0, v1, name)
    ensures Made(sha, v0, name, password, role) <==> Made(sha, v1, name, password, role)
  {
    assert RecordIn(v0, name) == RecordIn(v1, name);
  }

  /** The stamp of the clock: digits, dashes, colons and a space. */
  method ClockStamp() returns (stamp: string)
    ensures '\n' !in stamp
  {
    stamp := *;
    if '\n' in stamp { stamp := ""; }
  }

  // ---------- the life of an account ----------

  datatype Wish = NewAccount(name: string, password: string, role: string)
    | Login(name: string, password: string)
    | Removal(name: string)

  /** The record still accepts the password and keeps the role and the date of the text it
      began with; it is that text, or of the current scheme. */
  ghost predicate Lives(sha: Hash, v: Files, name: string, password: string, start: string) {
    && Accepts(sha, v, name, password)
    && RecordField(RecordIn(v, name), "role") == RecordField(start, "role")
    && RecordField(RecordIn(v, name), "created") == RecordField(start, "created")
    && (RecordIn(v, name) == start || RecordField(RecordIn(v, name), "scheme") == SCHEME)
  }

  /** A wish that is no removal of this person, nor a login that would migrate the record
      for another password that happens to have the same old fingerprint. */
  ghost predicate Harmless(sha: Hash, w: Wish, name: string, password: string, start: string) {
    match w
    case NewAccount(_, _, _) => true
    case Login(n, q) =>
      n != name || q == password || RecordField(start, "scheme") == SCHEME || !Accepted(sha, start, q)
    case Removal(n) => n != name
  }

  /** The wish is no creation under this name, or no stage stands beside the record. */
  ghost predicate Sheltered(fs: Files, w: Wish, name: string) {
    w.NewAccount? && w.name == name ==> Stage(RecordPath(name)) !in fs
  }

  lemma LivesOn(sha: Hash, v0: Files, v1: Files, name: string, password: string, start: string)
    requires Lives(sha, v0, name, password, start) && SameRecord(v0, v1, name)
    ensures Lives(sha, v1, name, password, start)
  {
    assert RecordIn(v0, name) == RecordIn(v1, name);
  }

  /** What happens to other people's records, homes or the diary leaves this record alone. */
  lemma OthersLeaveIt(v0: Files, v1: Files, name: string, other: string)
    requires PersonName(name) && name != other
    requires OnlyAt(v0, v1, {RecordPath(other), HomeOf(other), LOG}) || OnlyAt(v0, v1, {RecordPath(other), LOG})
    ensures SameRecord(v0, v1, name)
  {
    PathFacts(name);
    RecordPathsDiffer(name, other);
    assert RecordPath(name)[0] == 's' && HomeOf(other)[0] == 'h';
  }

  lemma LivesHasAccount(sha: Hash, v: Files, name: string, password: string, start: string)
    ensures Lives(sha, v, name, password, start) ==> HasAccount(v, name)
  {}

  lemma HarmlessRemoval(sha: Hash, n: string, name: string, password: string, start: string)
    ensures Harmless(sha, Removal(n), name, password, start) ==> n != name
  {}

  /** A login leaves the record, or migrates it for this password. */
  lemma LoginKeeps(sha: Hash, v0: Files, v1: Files, name: string, q: string, password: string, start: string)
    requires Lives(sha, v0, name, password, start) && Harmless(sha, Login(name, q), name, password, start)
    requires SameRecord(v0, v1, name)
      || (HasAccount(v1, name) && Migrated(sha, RecordIn(v0, name), RecordIn(v1, name), q))
    ensures Lives(sha, v1, name, password, start)
  {
    hide Accepted;
    if SameRecord(v0, v1, name) { LivesOn(sha, v0, v1, name, password, start); }
  }

  /** One wish, after a restart, perhaps cut off by the power. */
  method GrantWish(a: Accounts, w: Wish, ghost name: string, ghost password: string, ghost start: string)
    requires Ok(a.disk.fs) && GoodHash(a.sha)
    requires Harmless(a.sha, w, name, password, start)
    modifies a.disk
    ensures Ok(a.disk.fs) && a.disk.refusals >= old(a.disk.refusals)
    ensures Lives(a.sha, View(old(a.disk.fs)), name, password, start)
            && (a.disk.refusals == old(a.disk.refusals) || Sheltered(old(a.disk.fs), w, name)) ==>
      Lives(a.sha, View(a.disk.fs), name, password, start)
  {
    hide View, Lives, Migrated, Harmless, RecordIn, RecordPath, HomeOf, Accepts, Made;
    ghost var v0 := View(a.disk.fs);
    a.disk.Restart();
    match w {
      case NewAccount(n, q, role) =>
        var answer, fate := a.Create(n, q, role);
        if PersonName(name) && n != name { OthersLeaveIt(v0, View(a.disk.fs), name, n); }
      case Login(n, q) =>
        var answer := a.Verify(n, q);
        if PersonName(name) && n != name { OthersLeaveIt(v0, View(a.disk.fs), name, n); }
        if n == name && Lives(a.sha, v0, name, password, start) {
          LoginKeeps(a.sha, v0, View(a.disk.fs), name, q, password, start);
        }
      case Removal(n) =>
        var answer := a.Delete(n);
        HarmlessRemoval(a.sha, n, name, password, start);
        if PersonName(name) { OthersLeaveIt(v0, View(a.disk.fs), name, n); }
    }
    LivesHasAccount(a.sha, v0, name, password, start);
    if Lives(a.sha, v0, name, password, start) && SameRecord(v0, View(a.disk.fs), name) {
      LivesOn(a.sha, v0, View(a.disk.fs), name, password, start);
    }
  }

  /** In any run of creations, logins and removals, each perhaps refused by the disk or cut
      off by the power, an account goes on accepting its password and keeps its role and
      date, migrated or not, until it is removed, as long as no recovery is refused or no
      one asks for a new account of that name while a stage stands beside the record.
      states are the host's files before each wish. */
  method AccountRun(a: Accounts, wishes: seq<Wish>, ghost name: string, ghost password: string)
      returns (ghost states: seq<Files>)
    requires Ok(a.disk.fs) && GoodHash(a.sha) && Accepts(a.sha, View(a.disk.fs), name, password)
    requires forall w :: w in wishes ==> Harmless(a.sha, w, name, password, RecordIn(View(a.disk.fs), name))
    modifies a.disk
    ensures Ok(a.disk.fs) && a.disk.refusals >= old(a.disk.refusals)
    ensures |states| == |wishes| && (wishes != [] ==> states[0] == old(a.disk.fs))
    ensures a.disk.refusals == old(a.disk.refusals)
            || (forall i :: 0 <= i < |wishes| ==> Sheltered(states[i], wishes[i], name)) ==>
      Lives(a.sha, View(a.disk.fs), name, password, RecordIn(View(old(a.disk.fs)), name))
  {
    ghost var start := RecordIn(View(a.disk.fs), name);
    states := [];
    for i := 0 to |wishes|
      invariant Ok(a.disk.fs) && a.disk.refusals >= old(a.disk.refusals)
      invariant |states| == i && (i > 0 ==> states[0] == old(a.disk.fs)) && (i == 0 ==> a.disk.fs == old(a.disk.fs))
      invariant a.disk.refusals == old(a.disk.refusals)
                || (forall k :: 0 <= k < i ==> Sheltered(states[k], wishes[k], name)) ==>
        Lives(a.sha, View(a.disk.fs), name, password, start)
    {
      states := states + [a.disk.fs];
      GrantWish(a, wishes[i], name, password, start);
    }
  }
}
