/** system/shell/understand_command.ep: from a typed sentence to a small command. */
module UnderstandCommand {
  import opened Strings

  datatype Command = Command(action: string, target: string, extra: string)

  // ---------- words ----------

  predicate IsFiller(w: string) {
    w in {"please", "kindly", "just", "the", "a", "an", "my", "me", "some", "you", "can", "could", "would"}
  }

  predicate IsKindWord(w: string) {
    w in {"note", "notes", "file", "files", "folder", "folders", "everything", "service", "services", "app", "apps"}
  }

  datatype Verb = Look | Make | Go | Write | Read | Remove | Move | Help | Where | Who | What | Time | Start | Stop
    | Rebuild | Restart | Add | Logout | Shutdown | NoVerb

  function VerbAction(w: string): Verb {
    if w in {"look", "show", "list", "see", "ls"} then Look
    else if w in {"make", "create", "new"} then Make
    else if w in {"go", "enter", "cd", "visit"} then Go
    else if w in {"write", "save"} then Write
    else if w in {"read", "open"} then Read
    else if w in {"remove", "delete", "erase", "trash"} then Remove
    else if w in {"move", "rename"} then Move
    else if w == "help" then Help
    else if w == "where" then Where
    else if w == "who" then Who
    else if w == "what" then What
    else if w == "time" then Time
    else if w == "start" then Start
    else if w == "stop" then Stop
    else if w == "rebuild" then Rebuild
    else if w in {"restart", "reboot"} then Restart
    else if w in {"add", "invite"} then Add
    else if w in {"log", "logout", "sign"} then Logout
    else if w in {"shut", "shutdown", "quit", "exit", "power"} then Shutdown
    else NoVerb
  }

  /** The word at a spot, or "" past the end. */
  function WordAt(words: seq<string>, i: nat): string { if i < |words| then words[i] else "" }

  function IndexOfWord(words: seq<string>, w: string): (r: int)
    ensures -1 <= r < |words|
  {
    if words == [] then -1
    else if words[0] == w then 0
    else
      var r := IndexOfWord(words[1..], w);
      if r < 0 then -1 else r + 1
  }

  predicate Has(words: seq<string>, w: string) { IndexOfWord(words, w) >= 0 }

  predicate SpeaksOfPeople(words: seq<string>) {
    Has(words, "person") || Has(words, "people") || Has(words, "account") || Has(words, "accounts")
    || Has(words, "user") || Has(words, "users")
  }

  lemma {:induction false} IndexOfWordIs(words: seq<string>, w: string, i: nat)
    requires i < |words| && words[i] == w && forall k :: 0 <= k < i ==> words[k] != w
    ensures IndexOfWord(words, w) == i
  {
    if i > 0 { IndexOfWordIs(words[1..], w, i - 1); }
  }

  lemma {:induction false} IndexOfWordNone(words: seq<string>, w: string)
    ensures IndexOfWord(words, w) < 0 <==> w !in words
  {
    if words != [] { IndexOfWordNone(words[1..], w); }
  }

  method FindWord(words: seq<string>, w: string) returns (r: int)
    ensures r == IndexOfWord(words, w)
  {
    var i := 0;
    while i < |words|
      invariant 0 <= i <= |words| && forall k :: 0 <= k < i ==> words[k] != w
    {
      if words[i] == w {
        IndexOfWordIs(words, w, i);
        return i;
      }
      i := i + 1;
    }
    IndexOfWordNone(words, w);
    return -1;
  }

  /** The words that are not filler. */
  function Kept(words: seq<string>): seq<string> {
    if words == [] then []
    else if IsFiller(words[0]) then Kept(words[1..])
    else [words[0]] + Kept(words[1..])
  }

  /** The words from one spot up to, not including, another, without filler. */
  function Gathered(words: seq<string>, start: nat, stop: nat): seq<string> {
    var finish := if stop > |words| then |words| else stop;
    if start < finish then Kept(words[start..finish]) else []
  }

  function WordsBetween(words: seq<string>, start: nat, stop: nat): string { Join(Gathered(words, start, stop), " ") }

  function WordsFrom(words: seq<string>, start: nat): string { WordsBetween(words, start, |words|) }

  lemma {:induction false} KeptConcat(a: seq<string>, b: seq<string>)
    ensures Kept(a + b) == Kept(a) + Kept(b)
  {
    if a == [] {
      assert a + b == b;
    } else {
      KeptConcat(a[1..], b);
      assert (a + b)[1..] == a[1..] + b;
    }
  }

  lemma KeptSnoc(words: seq<string>, i: nat, j: nat)
    requires i <= j < |words|
    ensures Kept(words[i..j + 1]) == Kept(words[i..j]) + if IsFiller(words[j]) then [] else [words[j]]
  {
    assert words[i..j + 1] == words[i..j] + [words[j]];
    KeptConcat(words[i..j], [words[j]]);
  }

  method JoinBetween(words: seq<string>, start: nat, stop: nat) returns (r: string)
    ensures r == WordsBetween(words, start, stop)
  {
    var finish := stop;
    if finish > |words| { finish := |words|; }
    var picked, i := [], start;
    while i < finish
      invariant start <= i && (i <= finish || i == start)
      invariant picked == if start < i then Kept(words[start..i]) else []
    {
      KeptSnoc(words, start, i);
      if start == i { assert words[start..i] == []; }
      if !IsFiller(words[i]) { picked := picked + [words[i]]; }
      i := i + 1;
    }
    r := JoinStrings(picked, " ");
  }

  // ---------- the target ----------

  predicate Dropped(w: string) { IsFiller(w) || IsKindWord(w) || w in {"in", "to", "into"} }

  function Picked(words: seq<string>): seq<string> {
    if words == [] then []
    else if Dropped(words[0]) then Picked(words[1..])
    else [words[0]] + Picked(words[1..])
  }

  lemma {:induction false} PickedSnoc(words: seq<string>, w: string)
    ensures Picked(words + [w]) == Picked(words) + if Dropped(w) then [] else [w]
  {
    if words == [] {
      assert [w][1..] == [];
    } else {
      PickedSnoc(words[1..], w);
      assert (words + [w])[1..] == words[1..] + [w];
    }
  }

  /** Where a name was announced, or -1. */
  function CalledSpot(words: seq<string>): (r: int)
    ensures -1 <= r < |words|
  {
    var called := IndexOfWord(words, "called");
    if called < 0 then IndexOfWord(words, "named") else called
  }

  function PickTarget(words: seq<string>, verbSpot: nat): string
    requires verbSpot < |words|
  {
    var called := CalledSpot(words);
    if called >= 0 then WordsFrom(words, called + 1) else Join(Picked(words[verbSpot + 1..]), " ")
  }

  method PickTheTarget(words: seq<string>, verbSpot: nat) returns (r: string)
    requires verbSpot < |words|
    ensures r == PickTarget(words, verbSpot)
  {
    hide IsFiller, IsKindWord, Kept, Picked, IndexOfWord, WordsBetween, Join;
    var called := FindWord(words, "called");
    if called < 0 { called := FindWord(words, "named"); }
    if called >= 0 {
      r := JoinBetween(words, called + 1, |words|);
      return;
    }
    r := PickTheRest(words, verbSpot + 1);
  }

  method PickTheRest(words: seq<string>, start: nat) returns (r: string)
    requires start <= |words|
    ensures r == Join(Picked(words[start..]), " ")
  {
    var picked, i := [], start;
    while i < |words|
      invariant start <= i <= |words| && picked == Picked(words[start..i])
    {
      var w := words[i];
      PickedSnoc(words[start..i], w);
      assert words[start..i + 1] == words[start..i] + [w];
      var skip := IsFiller(w);
      if IsKindWord(w) { skip := true; }
      if w == "in" || w == "to" || w == "into" { skip := true; }
      if !skip { picked := picked + [w]; }
      i := i + 1;
    }
    assert words[start..i] == words[start..];
    r := JoinStrings(picked, " ");
  }

  // ---------- the command ----------

  /** What a sentence with this verb asks for; text is what followed "saying". */
  function Asked(words: seq<string>, verb: Verb, v: nat, text: string): Command
    requires v < |words|
  {
    var target := PickTarget(words, v);
    match verb
    case Help => Command("help", "", "")
    case Where => Command("where", "", "")
    case Who => Command("who", "", "")
    case Time => Command("time", "", "")
    case What =>
      if Has(words, "time") then Command("time", "", "")
      else if Has(words, "running") then Command("running", "", "")
      else Command("unknown", "what", "")
    case Logout => Command("logout", "", "")
    case Shutdown => Command("shutdown", "", "")
    case Restart => Command("restart", "", "")
    case Rebuild =>
      var toolchain := Has(words, "toolchain") || Has(words, "compiler");
      Command(if toolchain then "rebuild_toolchain" else "rebuild_system", "", "")
    case Add => Command("add_person", target, "")
    case Start => Command("start_service", target, "")
    case Stop => Command("stop_service", target, "")
    case Look => if SpeaksOfPeople(words) then Command("people", "", "") else AskedLook(words, target)
    case Go => AskedGo(words, v)
    case Make =>
      if SpeaksOfPeople(words) then Command("add_person", target, "")
      else if Has(words, "note") then Command("write", target, text)
      else Command("make_folder", target, "")
    case Write => Command("write", target, text)
    case Read => AskedRead(words, target)
    case Remove => Command(if SpeaksOfPeople(words) then "remove_person" else "remove", target, "")
    case Move => AskedMove(words, v)
    case NoVerb => Command("unknown", words[v], "")
  }

  function AskedLook(words: seq<string>, target: string): Command {
    var at := IndexOfWord(words, "in");
    Command("look", if at >= 0 then WordsFrom(words, at + 1) else target, "")
  }

  function AskedRead(words: seq<string>, target: string): Command {
    if target == "" && Has(words, "notes") then Command("read", "notes", "")
    else if target == "" && Has(words, "files") then Command("read", "files", "")
    else Command("read", target, "")
  }

  function AskedMove(words: seq<string>, v: nat): Command {
    var to := IndexOfWord(words, "to");
    if to < 0 then Command("move", WordsFrom(words, v + 1), "")
    else Command("move", WordsBetween(words, v + 1, to), WordsFrom(words, to + 1))
  }

  function AskedGo(words: seq<string>, v: nat): Command
    requires v < |words|
  {
    if WordAt(words, v + 1) in {"to", "into"} then Command("go", WordsFrom(words, v + 2), "")
    else Place(WordsFrom(words, v + 1))
  }

  function Place(place: string): Command {
    if place == "home" then Command("go_home", "", "")
    else if place in {"up", "back"} then Command("go_up", "", "")
    else Command("go", place, "")
  }

  /** The spot of the first word that is not filler, or the number of words. */
  function VerbSpot(words: seq<string>): (r: nat)
    ensures r <= |words|
  {
    if words == [] || !IsFiller(words[0]) then 0 else 1 + VerbSpot(words[1..])
  }

  const NOTHING := Command("nothing", "", "")

  function UnderstoodWords(words: seq<string>, text: string): Command {
    var v := VerbSpot(words);
    if v == |words| then NOTHING else Asked(words, VerbAction(words[v]), v, text)
  }

  function Cleaned(pieces: seq<string>): seq<string> {
    if pieces == [] then []
    else if Trim(pieces[0]) == "" then Cleaned(pieces[1..])
    else [Trim(pieces[0])] + Cleaned(pieces[1..])
  }

  function WordsOf(text: string): seq<string> { Cleaned(Split(text, " ")) }

  const SAYING := " saying "

  function Understood(line: string): Command {
    var raw := Trim(line);
    var saying := IndexOf(Lower(raw), SAYING);
    if raw == "" then NOTHING
    else if saying < 0 then UnderstoodWords(WordsOf(Lower(raw)), "")
    else UnderstoodWords(WordsOf(Lower(raw[..saying])), Trim(raw[saying + 8..]))
  }

  lemma {:induction false} CleanedSnoc(pieces: seq<string>, p: string)
    ensures Cleaned(pieces + [p]) == Cleaned(pieces) + if Trim(p) == "" then [] else [Trim(p)]
  {
    if pieces == [] {
      assert [p][1..] == [];
    } else {
      CleanedSnoc(pieces[1..], p);
      assert (pieces + [p])[1..] == pieces[1..] + [p];
    }
  }

  method SplitIntoWords(text: string) returns (words: seq<string>)
    ensures words == WordsOf(text)
  {
    var pieces := SplitString(text, " ");
    words := [];
    var i := 0;
    while i < |pieces|
      invariant 0 <= i <= |pieces| && words == Cleaned(pieces[..i])
    {
      var w := StringTrim(pieces[i]);
      CleanedSnoc(pieces[..i], pieces[i]);
      assert pieces[..i + 1] == pieces[..i] + [pieces[i]];
      if |w| > 0 { words := words + [w]; }
      i := i + 1;
    }
    assert pieces[..i] == pieces;
  }

  method UnderstandCommand(line: string) returns (c: Command)
    ensures c == Understood(line)
  {
    var raw := StringTrim(line);
    if |raw| == 0 { return NOTHING; }
    var text, head := "", raw;
    var lowered := StringToLower(raw);
    var saying := StringIndexOf(lowered, SAYING);
    if saying >= 0 {
      text := StringTrim(raw[saying + 8..]);
      head := raw[..saying];
    }
    lowered := StringToLower(head);
    var words := SplitIntoWords(lowered);
    c := UnderstandWords(words, text);
  }

  method UnderstandWords(words: seq<string>, text: string) returns (c: Command)
    ensures c == UnderstoodWords(words, text)
  {
    if |words| == 0 { return NOTHING; }
    var verb, verbSpot, i := NoVerb, -1, 0;
    while i < |words|
      invariant 0 <= i <= |words| && verbSpot == -1 && forall k :: 0 <= k < i ==> IsFiller(words[k])
    {
      var w := words[i];
      if !IsFiller(w) {
        VerbSpotIs(words, i);
        var found := VerbAction(w);
        if found != NoVerb {
          verb, verbSpot := found, i;
          break;
        }
        return Command("unknown", w, "");
      }
      i := i + 1;
    }
    if verbSpot < 0 {
      VerbSpotIs(words, |words|);
      return NOTHING;
    }
    if verb in {Help, Where, Who, Time, What, Logout, Shutdown, Restart, Rebuild} {
      c := AboutSystem(words, verb, verbSpot, text);
    } else {
      c := AboutThings(words, verb, verbSpot, text);
    }
  }

  lemma {:induction false} VerbSpotIs(words: seq<string>, i: nat)
    requires i <= |words| && (forall k :: 0 <= k < i ==> IsFiller(words[k])) && (i < |words| ==> !IsFiller(words[i]))
    ensures VerbSpot(words) == i
  {
    if i > 0 { VerbSpotIs(words[1..], i - 1); }
  }

  method AboutSystem(words: seq<string>, verb: Verb, v: nat, ghost text: string) returns (c: Command)
    requires v < |words| && verb in {Help, Where, Who, Time, What, Logout, Shutdown, Restart, Rebuild}
    ensures c == Asked(words, verb, v, text)
  {
    if verb == Help { return Command("help", "", ""); }
    if verb == Where { return Command("where", "", ""); }
    if verb == Who { return Command("who", "", ""); }
    if verb == Time { return Command("time", "", ""); }
    if verb == What {
      var time := FindWord(words, "time");
      if time >= 0 { return Command("time", "", ""); }
      var running := FindWord(words, "running");
      if running >= 0 { return Command("running", "", ""); }
      return Command("unknown", "what", "");
    }
    if verb == Logout { return Command("logout", "", ""); }
    if verb == Shutdown { return Command("shutdown", "", ""); }
    if verb == Restart { return Command("restart", "", ""); }
    var toolchain := FindWord(words, "toolchain");
    var compiler := FindWord(words, "compiler");
    if toolchain >= 0 || compiler >= 0 { return Command("rebuild_toolchain", "", ""); }
    return Command("rebuild_system", "", "");
  }

  method AboutThings(words: seq<string>, verb: Verb, v: nat, text: string) returns (c: Command)
    requires v < |words| && verb in {Add, Start, Stop, Look, Go, Make, Write, Read, Remove, Move}
    ensures c == Asked(words, verb, v, text)
  {
    var target := PickTheTarget(words, v);
    if SpeaksOfPeople(words) {
      if verb == Add || verb == Make { return Command("add_person", target, ""); }
      if verb == Look { return Command("people", "", ""); }
      if verb == Remove { return Command("remove_person", target, ""); }
    }
    if verb == Add { return Command("add_person", target, ""); }
    if verb == Start { return Command("start_service", target, ""); }
    if verb == Stop { return Command("stop_service", target, ""); }
    if verb == Look { c := Looking(words, target); return; }
    if verb == Go { c := Going(words, v); return; }
    if verb == Make {
      var note := FindWord(words, "note");
      if note >= 0 { return Command("write", target, text); }
      return Command("make_folder", target, "");
    }
    if verb == Write { return Command("write", target, text); }
    if verb == Read { c := Reading(words, target); return; }
    if verb == Remove { return Command("remove", target, ""); }
    c := Moving(words, v);
  }

  method Looking(words: seq<string>, target: string) returns (c: Command)
    ensures c == AskedLook(words, target)
  {
    var at := FindWord(words, "in");
    if at >= 0 {
      var place := JoinBetween(words, at + 1, |words|);
      return Command("look", place, "");
    }
    return Command("look", target, "");
  }

  method Reading(words: seq<string>, target: string) returns (c: Command)
    ensures c == AskedRead(words, target)
  {
    if |target| == 0 {
      var notes := FindWord(words, "notes");
      if notes >= 0 { return Command("read", "notes", ""); }
      var files := FindWord(words, "files");
      if files >= 0 { return Command("read", "files", ""); }
    }
    return Command("read", target, "");
  }

  method Moving(words: seq<string>, v: nat) returns (c: Command)
    ensures c == AskedMove(words, v)
  {
    var to := FindWord(words, "to");
    if to < 0 {
      var what := JoinBetween(words, v + 1, |words|);
      return Command("move", what, "");
    }
    var what := JoinBetween(words, v + 1, to);
    var destination := JoinBetween(words, to + 1, |words|);
    return Command("move", what, destination);
  }

  method Going(words: seq<string>, v: nat) returns (c: Command)
    requires v < |words|
    ensures c == AskedGo(words, v)
  {
    var next := WordAt(words, v + 1);
    if next == "to" || next == "into" {
      var place := JoinBetween(words, v + 2, |words|);
      return Command("go", place, "");
    }
    var place := JoinBetween(words, v + 1, |words|);
    if place == "home" { return Command("go_home", "", ""); }
    if place == "up" || place == "back" { return Command("go_up", "", ""); }
    return Command("go", place, "");
  }
}
