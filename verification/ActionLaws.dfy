/** What each sentence of system/shell/understand_command.ep asks for: polite words, a verb,
    the rest of the sentence and what follows "saying", one law per action. The words that
    matter are spelled out here, apart from the code. */
module ActionLaws {
  import opened Strings
  import opened UnderstandCommand
  import opened SentenceLaws

  const POLITE := {"please", "kindly", "just", "the", "a", "an", "my", "me", "some", "you", "can", "could", "would"}

  const KINDS :=
    {"note", "notes", "file", "files", "folder", "folders", "everything", "service", "services", "app", "apps"}

  const PEOPLE := {"person", "people", "account", "accounts", "user", "users"}

  const PADDING := POLITE + KINDS + {"in", "to", "into"}

  /** A word as it is typed in lower case; "saying" would end the sentence. */
  predicate Word(w: string) { Piece(w) && Lower(w) == w && w != "saying" }

  predicate Words(ws: seq<string>) { forall w :: w in ws ==> Word(w) }

  function Phrase(ws: seq<string>): string { Join(ws, " ") }

  function Without(ws: seq<string>, drop: set<string>): seq<string> {
    if ws == [] then [] else (if ws[0] in drop then [] else [ws[0]]) + Without(ws[1..], drop)
  }

  /** The words in front of the first w, all of them when there is none. */
  function Before(ws: seq<string>, w: string): seq<string> {
    if ws == [] || ws[0] == w then [] else [ws[0]] + Before(ws[1..], w)
  }

  /** The words behind the first w, none when there is none. */
  function Behind(ws: seq<string>, w: string): seq<string> {
    if ws == [] then [] else if ws[0] == w then ws[1..] else Behind(ws[1..], w)
  }

  /** The words of the name a sentence gives: what is announced, or else what is left. */
  function Named(rest: seq<string>): seq<string> {
    if "called" in rest then Without(Behind(rest, "called"), POLITE)
    else if "named" in rest then Without(Behind(rest, "named"), POLITE)
    else Without(rest, PADDING)
  }

  ghost predicate OfPeople(rest: seq<string>) { exists p :: p in PEOPLE && p in rest }

  predicate Begins(polite: seq<string>, verb: string, rest: seq<string>) {
    (forall w :: w in polite ==> w in POLITE) && Words(polite + [verb] + rest)
  }

  /** The line, as it is typed. */
  function Line(polite: seq<string>, verb: string, rest: seq<string>, text: string): string {
    Phrase(polite + [verb] + rest) + if text == "" then "" else " saying " + text
  }

  // ---------- the words of a line ----------

  lemma LineWords(ws: seq<string>)
    requires ws != [] && Words(ws)
    ensures WordsOf(Phrase(ws)) == ws && Lower(Phrase(ws)) == Phrase(ws) && Phrase(ws) != ""
    ensures !IsSpace(Phrase(ws)[0]) && !IsSpace(Phrase(ws)[|Phrase(ws)| - 1])
  {
    SplitOfJoin(ws, ' ');
    CleanedKeeps(ws);
    LowerJoin(ws);
    assert ws[0] in ws && ws[|ws| - 1] in ws;
    EndsAreSeen(ws);
  }

  /** What is understood of a line is what is understood of its words and its text. */
  lemma LineIs(ws: seq<string>, text: string)
    requires ws != [] && Words(ws) && Trimmed(text)
    ensures Understood(Phrase(ws) + if text == "" then "" else " saying " + text) == UnderstoodWords(ws, text)
  {
    hide UnderstoodWords, Understood, Join;
    if text == "" {
      WithoutText(ws);
      assert Phrase(ws) + "" == Phrase(ws);
    } else {
      WithText(ws, text);
      assert Phrase(ws) + (" saying " + text) == Phrase(ws) + " saying " + text;
    }
  }

  lemma WithoutText(ws: seq<string>)
    requires ws != [] && Words(ws)
    ensures Understood(Phrase(ws)) == UnderstoodWords(ws, "")
  {
    hide UnderstoodWords, WordsOf, Lower, IndexOf, Trim, Join;
    LineWords(ws);
    assert forall w :: w in ws ==> Word(w);
    NoSayingBetween(ws);
    TrimmedStays(Phrase(ws));
  }

  lemma WithText(ws: seq<string>, text: string)
    requires ws != [] && Words(ws) && Trimmed(text) && text != ""
    ensures Understood(Phrase(ws) + " saying " + text) == UnderstoodWords(ws, text)
  {
    hide UnderstoodWords, WordsOf, Lower, IndexOf, Trim, Join;
    var head := Phrase(ws);
    var raw := head + SAYING + text;
    LineWords(ws);
    SayingSpot(ws, Lower(text));
    LowerConcat(head + SAYING, text);
    LowerConcat(head, SAYING);
    SayingIsLower();
    assert raw[..|head|] == head && raw[|head| + 8..] == text;
    TrimmedStays(raw);
    TrimmedStays(text);
  }

  lemma SayingIsLower()
    ensures Lower(SAYING) == SAYING
  {}

  lemma TrimmedStays(s: string)
    requires Trimmed(s)
    ensures Trim(s) == s
  {}

  // ---------- the verbs ----------

  /** The words a sentence is searched for. */
  const MARKS := PEOPLE
    + {"called", "named", "in", "to", "note", "notes", "files", "time", "running", "toolchain", "compiler"}

  predicate NotPolite(w: string) { w !in POLITE }

  /** A word that is neither polite nor searched for. */
  predicate Ordinary(w: string) { w !in POLITE && w !in MARKS }

  lemma MarksAreNotPolite(w: string)
    requires w in MARKS
    ensures w !in POLITE
  {}

  lemma SystemVerb(verb: string)
    requires verb in {"help", "where", "who", "time"}
    ensures NotPolite(verb) && VerbAction(verb) ==
      if verb == "help" then Help else if verb == "where" then Where else if verb == "who" then Who else Time
  {}

  lemma LogoutVerb(verb: string)
    requires verb in {"log", "logout", "sign"}
    ensures NotPolite(verb) && VerbAction(verb) == Logout
  {}

  lemma RestartVerb(verb: string)
    requires verb in {"restart", "reboot"}
    ensures NotPolite(verb) && VerbAction(verb) == Restart
  {}

  lemma ShutdownVerb(verb: string)
    requires verb in {"shut", "shutdown", "quit", "exit", "power"}
    ensures NotPolite(verb) && VerbAction(verb) == Shutdown
  {}

  lemma WhatVerb(verb: string)
    requires verb in {"what"}
    ensures NotPolite(verb) && Ordinary(verb) && VerbAction(verb) == What
  {}

  lemma RebuildVerb(verb: string)
    requires verb in {"rebuild"}
    ensures NotPolite(verb) && Ordinary(verb) && VerbAction(verb) == Rebuild
  {}

  lemma AddVerb(verb: string)
    requires verb in {"add", "invite"}
    ensures NotPolite(verb) && Ordinary(verb) && VerbAction(verb) == Add
  {}

  lemma ServiceVerb(verb: string)
    requires verb in {"start", "stop"}
    ensures NotPolite(verb) && Ordinary(verb) && VerbAction(verb) == if verb == "start" then Start else Stop
  {}

  lemma LookVerb(verb: string)
    requires verb in {"look", "show", "list", "see", "ls"}
    ensures NotPolite(verb) && Ordinary(verb) && VerbAction(verb) == Look
  {}

  lemma MakeVerb(verb: string)
    requires verb in {"make", "create", "new"}
    ensures NotPolite(verb) && Ordinary(verb) && VerbAction(verb) == Make
  {}

  lemma SaveVerb(verb: string)
    requires verb in {"write", "save"}
    ensures NotPolite(verb) && Ordinary(verb) && VerbAction(verb) == Write
  {}

  lemma ReadVerb(verb: string)
    requires verb in {"read", "open"}
    ensures NotPolite(verb) && Ordinary(verb) && VerbAction(verb) == Read
  {}

  lemma RemoveVerb(verb: string)
    requires verb in {"remove", "delete", "erase", "trash"}
    ensures NotPolite(verb) && Ordinary(verb) && VerbAction(verb) == Remove
  {}

  lemma MoveVerb(verb: string)
    requires verb in {"move", "rename"}
    ensures NotPolite(verb) && Ordinary(verb) && VerbAction(verb) == Move
  {}

  lemma GoVerb(verb: string)
    requires verb in {"go", "enter", "cd", "visit"}
    ensures NotPolite(verb) && Ordinary(verb) && VerbAction(verb) == Go
  {}

  // ---------- spaces and capitals ----------

  /** The words of pieces between spaces, in lower case. */
  function Typed(pieces: seq<string>): seq<string> {
    if pieces == [] then [] else (if pieces[0] == "" then [] else [Lower(pieces[0])]) + Typed(pieces[1..])
  }

  function Lowered(pieces: seq<string>): seq<string> {
    if pieces == [] then [] else [Lower(pieces[0])] + Lowered(pieces[1..])
  }

  predicate Between(p: string) { ' ' !in p && Trimmed(p) && Lower(p) != "saying" }

  lemma {:induction false} LoweredPieces(pieces: seq<string>)
    requires forall p :: p in pieces ==> Between(p)
    ensures Cleaned(Lowered(pieces)) == Typed(pieces)
    ensures |Lowered(pieces)| == |pieces|
    ensures forall p :: p in Lowered(pieces) ==> ' ' !in p && p != "saying"
  {
    if pieces != [] {
      var p := pieces[0];
      assert p in pieces;
      LoweredPieces(pieces[1..]);
      LowerKeeps(p);
      assert Lowered(pieces)[1..] == Lowered(pieces[1..]);
    }
  }

  lemma {:induction false} LoweredPhrase(pieces: seq<string>)
    ensures Lower(Phrase(pieces)) == Phrase(Lowered(pieces)) && |Lowered(pieces)| == |pieces|
  {
    hide Lower;
    if pieces == [] {
      assert Lower("") == "" by { LowerNothing(); }
    } else {
      LoweredPhrase(pieces[1..]);
      assert Lowered(pieces)[1..] == Lowered(pieces[1..]);
      if |pieces| > 1 {
        LowerConcat(pieces[0] + " ", Phrase(pieces[1..]));
        LowerConcat(pieces[0], " ");
        LowerNothing();
      }
    }
  }

  lemma LowerNothing()
    ensures Lower("") == "" && Lower(" ") == " "
  {}

  lemma LowerKeeps(p: string)
    requires ' ' !in p && Trimmed(p)
    ensures ' ' !in Lower(p) && Trim(Lower(p)) == Lower(p) && (Lower(p) == "" <==> p == "")
  {
    if p != "" {
      assert Lower(p)[0] == LowerChar(p[0]) && Lower(p)[|p| - 1] == LowerChar(p[|p| - 1]);
    }
  }

  /** However many spaces stand between the words, and whatever capitals are typed, the line
      is understood as its words in lower case. */
  lemma TypedAnyhow(pieces: seq<string>)
    requires pieces != [] && (forall p :: p in pieces ==> Between(p))
    requires pieces[0] != "" && pieces[|pieces| - 1] != ""
    ensures Understood(Phrase(pieces)) == UnderstoodWords(Typed(pieces), "")
  {
    hide UnderstoodWords, IndexOf, Trim, Join, Lowered, Typed, Lower;
    LoweredPieces(pieces);
    LoweredPhrase(pieces);
    SplitOfJoin(Lowered(pieces), ' ');
    NoSayingBetween(Lowered(pieces));
    EndsAreSeen(pieces);
    TrimmedStays(Phrase(pieces));
  }

  lemma NoSayingBetween(pieces: seq<string>)
    requires pieces != [] && forall p :: p in pieces ==> ' ' !in p && p != "saying"
    ensures IndexOf(Phrase(pieces), SAYING) < 0
  {
    SplitOfJoin(pieces, ' ');
    var i := IndexOf(Phrase(pieces), SAYING);
    assert "saying" !in pieces;
    if i >= 0 {
      SayingIsAPiece(Phrase(pieces), i);
      assert false;
    }
  }

  lemma {:induction false} EndsAreSeen(pieces: seq<string>)
    requires pieces != [] && forall p :: p in pieces ==> Trimmed(p)
    requires pieces[|pieces| - 1] != ""
    ensures Phrase(pieces) != "" && !IsSpace(Phrase(pieces)[|Phrase(pieces)| - 1])
    ensures pieces[0] != "" ==> !IsSpace(Phrase(pieces)[0])
  {
    assert pieces[0] in pieces;
    if |pieces| > 1 { EndsAreSeen(pieces[1..]); }
  }

  // ---------- what the code looks for in the words ----------

  lemma {:induction false} KeptIs(ws: seq<string>)
    ensures Kept(ws) == Without(ws, POLITE)
  {
    if ws != [] { KeptIs(ws[1..]); }
  }

  lemma DroppedIs(w: string)
    ensures Dropped(w) <==> w in PADDING
  {}

  lemma {:induction false} PickedIs(ws: seq<string>)
    ensures Picked(ws) == Without(ws, PADDING)
  {
    hide Dropped;
    if ws != [] {
      DroppedIs(ws[0]);
      PickedIs(ws[1..]);
    }
  }

  lemma {:induction false} Around(ws: seq<string>, w: string)
    ensures w in ws ==> ws == Before(ws, w) + [w] + Behind(ws, w)
    ensures w !in Before(ws, w) && (w !in ws ==> Before(ws, w) == ws)
  {
    if ws != [] && ws[0] != w {
      Around(ws[1..], w);
      assert ws == [ws[0]] + ws[1..];
    }
  }

  /** Where a word stands that is not in the words in front. */
  lemma FoundAt(front: seq<string>, rest: seq<string>, w: string)
    requires w !in front
    ensures Has(front + rest, w) <==> w in rest
    ensures IndexOfWord(front + rest, w) == if w in rest then |front| + |Before(rest, w)| else -1
  {
    hide IndexOfWord, Before, Behind;
    var ws := front + rest;
    IndexOfWordNone(ws, w);
    assert w in ws <==> w in rest;
    if w in rest {
      var before := front + Before(rest, w);
      Around(rest, w);
      assert ws == before + [w] + Behind(rest, w);
      assert w !in before;
      assert ws[|before|] == w && forall k :: 0 <= k < |before| ==> ws[k] == before[k];
      IndexOfWordIs(ws, w, |before|);
    }
  }

  /** Where a word stands that is neither polite nor the verb. */
  lemma FoundBehind(polite: seq<string>, verb: string, rest: seq<string>, w: string)
    requires Begins(polite, verb, rest) && Ordinary(verb) && w in MARKS
    ensures Has(polite + [verb] + rest, w) <==> w in rest
    ensures IndexOfWord(polite + [verb] + rest, w) == if w in rest then |polite| + 1 + |Before(rest, w)| else -1
  {
    hide IndexOfWord, Before, Has, Word;
    MarksAreNotPolite(w);
    assert w !in polite + [verb];
    FoundAt(polite + [verb], rest, w);
  }

  lemma Slices(front: seq<string>, mid: seq<string>, w: string, behind: seq<string>)
    ensures var ws, i := front + (mid + [w] + behind), |front| + |mid|;
      i < |ws| && ws[i + 1..|ws|] == behind && ws[|front|..i] == mid
  {}

  /** The words behind such a word, and those between the verb and it. */
  lemma WordsBehind(polite: seq<string>, verb: string, rest: seq<string>, w: string)
    requires w in rest
    ensures var ws, v, i := polite + [verb] + rest, |polite|, |polite| + 1 + |Before(rest, w)|;
      && i < |ws| && WordsFrom(ws, i + 1) == Phrase(Without(Behind(rest, w), POLITE))
      && WordsBetween(ws, v + 1, i) == Phrase(Without(Before(rest, w), POLITE))
  {
    hide Before, Behind, Without, Join, Gathered, WordsBetween;
    Around(rest, w);
    var ws, v, i := polite + [verb] + rest, |polite|, |polite| + 1 + |Before(rest, w)|;
    Slices(polite + [verb], Before(rest, w), w, Behind(rest, w));
    BetweenIs(ws, i + 1, |ws|);
    BetweenIs(ws, v + 1, i);
  }

  lemma BetweenIs(ws: seq<string>, a: nat, b: nat)
    requires a <= b <= |ws|
    ensures WordsBetween(ws, a, b) == Phrase(Without(ws[a..b], POLITE))
  {
    KeptIs(ws[a..b]);
  }

  /** All the words from the verb on, or from the word behind it. */
  lemma WordsOn(polite: seq<string>, verb: string, rest: seq<string>)
    ensures var ws, v := polite + [verb] + rest, |polite|;
      && ws[v + 1..] == rest && WordsFrom(ws, v + 1) == Phrase(Without(rest, POLITE))
      && (rest != [] ==> WordsFrom(ws, v + 2) == Phrase(Without(rest[1..], POLITE)))
      && WordAt(ws, v + 1) == if rest == [] then "" else rest[0]
  {
    var ws, v := polite + [verb] + rest, |polite|;
    assert ws[v + 1..] == rest;
    FromIs(ws, v + 1);
    KeptIs(rest);
    if rest != [] {
      assert ws[v + 2..] == rest[1..];
      FromIs(ws, v + 2);
      KeptIs(rest[1..]);
    }
  }

  lemma CalledSpotIs(polite: seq<string>, verb: string, rest: seq<string>)
    requires Begins(polite, verb, rest) && Ordinary(verb)
    ensures CalledSpot(polite + [verb] + rest) ==
      if "called" in rest then |polite| + 1 + |Before(rest, "called")|
      else if "named" in rest then |polite| + 1 + |Before(rest, "named")|
      else -1
  {
    hide IndexOfWord, Before, Has, Word, Begins, Ordinary;
    FoundBehind(polite, verb, rest, "called");
    FoundBehind(polite, verb, rest, "named");
  }

  lemma TargetIs(polite: seq<string>, verb: string, rest: seq<string>)
    requires Begins(polite, verb, rest) && Ordinary(verb)
    ensures PickTarget(polite + [verb] + rest, |polite|) == Phrase(Named(rest))
  {
    hide CalledSpot, WordsFrom, Join, Without, Picked, Before, Behind, Begins, Ordinary;
    var ws := polite + [verb] + rest;
    CalledSpotIs(polite, verb, rest);
    if "called" in rest {
      WordsBehind(polite, verb, rest, "called");
    } else if "named" in rest {
      WordsBehind(polite, verb, rest, "named");
    } else {
      RestIsPicked(polite, verb, rest);
    }
  }

  lemma RestIsPicked(polite: seq<string>, verb: string, rest: seq<string>)
    ensures Join(Picked((polite + [verb] + rest)[|polite| + 1..]), " ") == Phrase(Without(rest, PADDING))
  {
    hide Join, Without, Picked;
    assert (polite + [verb] + rest)[|polite| + 1..] == rest;
    PickedIs(rest);
  }

  lemma PeopleAre(polite: seq<string>, verb: string, rest: seq<string>)
    requires Begins(polite, verb, rest) && Ordinary(verb)
    ensures SpeaksOfPeople(polite + [verb] + rest) <==> OfPeople(rest)
  {
    hide IndexOfWord, Has, Before, Begins, Ordinary;
    FoundBehind(polite, verb, rest, "person");
    FoundBehind(polite, verb, rest, "people");
    FoundBehind(polite, verb, rest, "account");
    FoundBehind(polite, verb, rest, "accounts");
    FoundBehind(polite, verb, rest, "user");
    FoundBehind(polite, verb, rest, "users");
    if p :| p in PEOPLE && p in rest {
      assert p == "person" || p == "people" || p == "account" || p == "accounts" || p == "user" || p == "users";
    }
  }

  /** The verb is the first word that is not polite. */
  lemma VerbIs(polite: seq<string>, verb: string, rest: seq<string>, text: string)
    requires Begins(polite, verb, rest) && NotPolite(verb) && Trimmed(text)
    ensures Understood(Line(polite, verb, rest, text)) ==
      Asked(polite + [verb] + rest, VerbAction(verb), |polite|, text)
  {
    hide Understood, Asked, VerbSpot, VerbAction, Word;
    var ws := polite + [verb] + rest;
    LineIs(ws, text);
    assert ws[|polite|] == verb;
    forall k | 0 <= k < |polite|
      ensures IsFiller(ws[k])
    {
      assert ws[k] == polite[k] && polite[k] in polite;
    }
    VerbSpotIs(ws, |polite|);
    AskedIs(ws, text);
  }

  lemma AskedIs(ws: seq<string>, text: string)
    requires VerbSpot(ws) < |ws|
    ensures UnderstoodWords(ws, text) == Asked(ws, VerbAction(ws[VerbSpot(ws)]), VerbSpot(ws), text)
  {}

  // ---------- one law per action ----------

  /** Sentences about the system: what else is said does not matter. */
  lemma SystemSentence(polite: seq<string>, verb: string, rest: seq<string>, text: string)
    requires Begins(polite, verb, rest) && Trimmed(text) && verb in {"help", "where", "who", "time"}
    ensures Understood(Line(polite, verb, rest, text)) == Command(verb, "", "")
  {
    hide Understood, Line, VerbAction, Begins, Ordinary, NotPolite, PickTarget, SpeaksOfPeople, Named, OfPeople, Join;
    hide IndexOfWord, Before, Behind, Without, WordsBetween, WordAt;
    SystemVerb(verb);
    VerbIs(polite, verb, rest, text);
  }

  lemma LogoutSentence(polite: seq<string>, verb: string, rest: seq<string>, text: string)
    requires Begins(polite, verb, rest) && Trimmed(text) && verb in {"log", "logout", "sign"}
    ensures Understood(Line(polite, verb, rest, text)) == Command("logout", "", "")
  {
    hide Understood, Line, VerbAction, Begins, Ordinary, NotPolite, PickTarget, SpeaksOfPeople, Named, OfPeople, Join;
    hide IndexOfWord, Before, Behind, Without, WordsBetween, WordAt;
    LogoutVerb(verb);
    VerbIs(polite, verb, rest, text);
  }

  lemma RestartSentence(polite: seq<string>, verb: string, rest: seq<string>, text: string)
    requires Begins(polite, verb, rest) && Trimmed(text) && verb in {"restart", "reboot"}
    ensures Understood(Line(polite, verb, rest, text)) == Command("restart", "", "")
  {
    hide Understood, Line, VerbAction, Begins, Ordinary, NotPolite, PickTarget, SpeaksOfPeople, Named, OfPeople, Join;
    hide IndexOfWord, Before, Behind, Without, WordsBetween, WordAt;
    RestartVerb(verb);
    VerbIs(polite, verb, rest, text);
  }

  lemma ShutdownSentence(polite: seq<string>, verb: string, rest: seq<string>, text: string)
    requires Begins(polite, verb, rest) && Trimmed(text) && verb in {"shut", "shutdown", "quit", "exit", "power"}
    ensures Understood(Line(polite, verb, rest, text)) == Command("shutdown", "", "")
  {
    hide Understood, Line, VerbAction, Begins, Ordinary, NotPolite, PickTarget, SpeaksOfPeople, Named, OfPeople, Join;
    hide IndexOfWord, Before, Behind, Without, WordsBetween, WordAt;
    ShutdownVerb(verb);
    VerbIs(polite, verb, rest, text);
  }

  lemma WhatSentence(polite: seq<string>, rest: seq<string>, text: string)
    requires Begins(polite, "what", rest) && Trimmed(text)
    ensures Understood(Line(polite, "what", rest, text)) ==
      if "time" in rest then Command("time", "", "")
      else if "running" in rest then Command("running", "", "")
      else Command("unknown", "what", "")
  {
    hide Understood, Line, VerbAction, Begins, Ordinary, NotPolite, PickTarget, SpeaksOfPeople, Named, OfPeople, Join;
    hide IndexOfWord, Before, Behind, Without, WordsBetween, WordAt;
    WhatVerb("what");
    VerbIs(polite, "what", rest, text);
    FoundBehind(polite, "what", rest, "time");
    FoundBehind(polite, "what", rest, "running");
  }

  lemma RebuildSentence(polite: seq<string>, rest: seq<string>, text: string)
    requires Begins(polite, "rebuild", rest) && Trimmed(text)
    ensures Understood(Line(polite, "rebuild", rest, text)) ==
      Command(if "toolchain" in rest || "compiler" in rest then "rebuild_toolchain" else "rebuild_system", "", "")
  {
    hide Understood, Line, VerbAction, Begins, Ordinary, NotPolite, PickTarget, SpeaksOfPeople, Named, OfPeople, Join;
    hide IndexOfWord, Before, Behind, Without, WordsBetween, WordAt;
    RebuildVerb("rebuild");
    VerbIs(polite, "rebuild", rest, text);
    FoundBehind(polite, "rebuild", rest, "toolchain");
    FoundBehind(polite, "rebuild", rest, "compiler");
  }

  lemma AddSentence(polite: seq<string>, verb: string, rest: seq<string>, text: string)
    requires Begins(polite, verb, rest) && Trimmed(text) && verb in {"add", "invite"}
    ensures Understood(Line(polite, verb, rest, text)) == Command("add_person", Phrase(Named(rest)), "")
  {
    hide Understood, Line, VerbAction, Begins, Ordinary, NotPolite, PickTarget, SpeaksOfPeople, Named, OfPeople, Join;
    hide IndexOfWord, Before, Behind, Without, WordsBetween, WordAt;
    AddVerb(verb);
    VerbIs(polite, verb, rest, text);
    TargetIs(polite, verb, rest);
  }

  lemma ServiceSentence(polite: seq<string>, verb: string, rest: seq<string>, text: string)
    requires Begins(polite, verb, rest) && Trimmed(text) && verb in {"start", "stop"}
    ensures Understood(Line(polite, verb, rest, text)) ==
      Command(if verb == "start" then "start_service" else "stop_service", Phrase(Named(rest)), "")
  {
    hide Understood, Line, VerbAction, Begins, Ordinary, NotPolite, PickTarget, SpeaksOfPeople, Named, OfPeople, Join;
    hide IndexOfWord, Before, Behind, Without, WordsBetween, WordAt;
    ServiceVerb(verb);
    VerbIs(polite, verb, rest, text);
    TargetIs(polite, verb, rest);
  }

  lemma LookSentence(polite: seq<string>, verb: string, rest: seq<string>, text: string)
    requires Begins(polite, verb, rest) && Trimmed(text) && verb in {"look", "show", "list", "see", "ls"}
    ensures Understood(Line(polite, verb, rest, text)) ==
      if OfPeople(rest) then Command("people", "", "")
      else if "in" in rest then Command("look", Phrase(Without(Behind(rest, "in"), POLITE)), "")
      else Command("look", Phrase(Named(rest)), "")
  {
    hide Understood, Line, VerbAction, Begins, Ordinary, NotPolite, PickTarget, SpeaksOfPeople, Named, OfPeople, Join;
    hide IndexOfWord, Before, Behind, Without, WordsBetween, WordAt;
    LookVerb(verb);
    VerbIs(polite, verb, rest, text);
    TargetIs(polite, verb, rest);
    PeopleAre(polite, verb, rest);
    FoundBehind(polite, verb, rest, "in");
    if "in" in rest { WordsBehind(polite, verb, rest, "in"); }
  }

  /** Making: an account, a note with the text, or else a folder. */
  lemma MakeSentence(polite: seq<string>, verb: string, rest: seq<string>, text: string)
    requires Begins(polite, verb, rest) && Trimmed(text) && verb in {"make", "create", "new"}
    ensures Understood(Line(polite, verb, rest, text)) ==
      if OfPeople(rest) then Command("add_person", Phrase(Named(rest)), "")
      else if "note" in rest then Command("write", Phrase(Named(rest)), text)
      else Command("make_folder", Phrase(Named(rest)), "")
  {
    hide Understood, Line, VerbAction, Begins, Ordinary, NotPolite, PickTarget, SpeaksOfPeople, Named, OfPeople, Join;
    hide IndexOfWord, Before, Behind, Without, WordsBetween, WordAt;
    MakeVerb(verb);
    VerbIs(polite, verb, rest, text);
    TargetIs(polite, verb, rest);
    PeopleAre(polite, verb, rest);
    FoundBehind(polite, verb, rest, "note");
  }

  lemma SaveSentence(polite: seq<string>, verb: string, rest: seq<string>, text: string)
    requires Begins(polite, verb, rest) && Trimmed(text) && verb in {"write", "save"}
    ensures Understood(Line(polite, verb, rest, text)) == Command("write", Phrase(Named(rest)), text)
  {
    hide Understood, Line, VerbAction, Begins, Ordinary, NotPolite, PickTarget, SpeaksOfPeople, Named, OfPeople, Join;
    hide IndexOfWord, Before, Behind, Without, WordsBetween, WordAt;
    SaveVerb(verb);
    VerbIs(polite, verb, rest, text);
    TargetIs(polite, verb, rest);
  }

  /** Reading: "notes" and "files" are names when nothing else is left. */
  lemma ReadSentence(polite: seq<string>, verb: string, rest: seq<string>, text: string)
    requires Begins(polite, verb, rest) && Trimmed(text) && verb in {"read", "open"}
    ensures Understood(Line(polite, verb, rest, text)) == Command("read",
      if Named(rest) == [] && "notes" in rest then "notes"
      else if Named(rest) == [] && "files" in rest then "files"
      else Phrase(Named(rest)), "")
  {
    hide Understood, Line, VerbAction, Begins, Ordinary, NotPolite, PickTarget, SpeaksOfPeople, Named, OfPeople, Join;
    hide IndexOfWord, Before, Behind, Without, WordsBetween, WordAt;
    ReadVerb(verb);
    VerbIs(polite, verb, rest, text);
    TargetIs(polite, verb, rest);
    FoundBehind(polite, verb, rest, "notes");
    FoundBehind(polite, verb, rest, "files");
    NamedWords(polite, verb, rest);
  }

  lemma RemoveSentence(polite: seq<string>, verb: string, rest: seq<string>, text: string)
    requires Begins(polite, verb, rest) && Trimmed(text) && verb in {"remove", "delete", "erase", "trash"}
    ensures Understood(Line(polite, verb, rest, text)) ==
      Command(if OfPeople(rest) then "remove_person" else "remove", Phrase(Named(rest)), "")
  {
    hide Understood, Line, VerbAction, Begins, Ordinary, NotPolite, PickTarget, SpeaksOfPeople, Named, OfPeople, Join;
    hide IndexOfWord, Before, Behind, Without, WordsBetween, WordAt;
    RemoveVerb(verb);
    VerbIs(polite, verb, rest, text);
    TargetIs(polite, verb, rest);
    PeopleAre(polite, verb, rest);
  }

  lemma MoveSentence(polite: seq<string>, verb: string, rest: seq<string>, text: string)
    requires Begins(polite, verb, rest) && Trimmed(text) && verb in {"move", "rename"}
    ensures Understood(Line(polite, verb, rest, text)) == Command("move",
      Phrase(Without(Before(rest, "to"), POLITE)), Phrase(Without(Behind(rest, "to"), POLITE)))
  {
    hide Understood, Line, VerbAction, Begins, Ordinary, NotPolite, PickTarget, SpeaksOfPeople, Named, OfPeople, Join;
    hide IndexOfWord, Before, Behind, Without, WordsBetween, WordAt;
    MoveVerb(verb);
    VerbIs(polite, verb, rest, text);
    FoundBehind(polite, verb, rest, "to");
    if "to" in rest {
      WordsBehind(polite, verb, rest, "to");
    } else {
      WordsOn(polite, verb, rest);
      Around(rest, "to");
      NoneBehind(rest, "to");
    }
  }

  lemma GoSentence(polite: seq<string>, verb: string, rest: seq<string>, text: string)
    requires Begins(polite, verb, rest) && Trimmed(text) && verb in {"go", "enter", "cd", "visit"}
    ensures Understood(Line(polite, verb, rest, text)) ==
      if rest != [] && rest[0] in {"to", "into"} then Command("go", Phrase(Without(rest[1..], POLITE)), "")
      else if Without(rest, POLITE) == ["home"] then Command("go_home", "", "")
      else if Without(rest, POLITE) in {["up"], ["back"]} then Command("go_up", "", "")
      else Command("go", Phrase(Without(rest, POLITE)), "")
  {
    hide Understood, Line, VerbAction, Begins, Ordinary, NotPolite, PickTarget, SpeaksOfPeople, Named, OfPeople, Join;
    hide IndexOfWord, Before, Behind, Without, WordsBetween, WordAt;
    GoVerb(verb);
    VerbIs(polite, verb, rest, text);
    WordsOn(polite, verb, rest);
    SubWords(polite, verb, rest);
    PhraseIsWord(Without(rest, POLITE), "home");
    PhraseIsWord(Without(rest, POLITE), "up");
    PhraseIsWord(Without(rest, POLITE), "back");
  }

  /** A line that begins with any other word is not understood. */
  lemma UnknownSentence(polite: seq<string>, verb: string, rest: seq<string>, text: string)
    requires Begins(polite, verb, rest) && Trimmed(text) && verb !in POLITE
    requires verb !in {"help", "where", "who", "time", "what", "rebuild", "start", "stop", "add", "invite"}
    requires verb !in {"log", "logout", "sign", "restart", "reboot", "shut", "shutdown", "quit", "exit", "power"}
    requires verb !in {"look", "show", "list", "see", "ls", "make", "create", "new", "go", "enter", "cd", "visit"}
    requires verb !in {"write", "save", "read", "open", "remove", "delete", "erase", "trash", "move", "rename"}
    ensures Understood(Line(polite, verb, rest, text)) == Command("unknown", verb, "")
  {
    hide Understood, Line, Begins;
    VerbIs(polite, verb, rest, text);
  }

  /** Nothing but polite words asks for nothing. */
  lemma PoliteNothing(polite: seq<string>)
    requires polite != [] && Words(polite) && forall w :: w in polite ==> w in POLITE
    ensures Understood(Phrase(polite)) == Command("nothing", "", "")
  {
    hide Understood, Word, VerbSpot, Asked;
    WithoutText(polite);
    forall k | 0 <= k < |polite|
      ensures IsFiller(polite[k])
    {
      assert polite[k] in polite;
    }
    VerbSpotIs(polite, |polite|);
    NoVerbIs(polite);
  }

  lemma NoVerbIs(ws: seq<string>)
    requires VerbSpot(ws) == |ws|
    ensures UnderstoodWords(ws, "") == Command("nothing", "", "")
  {}

  // ---------- names are words ----------

  lemma {:induction false} WithoutWords(ws: seq<string>, drop: set<string>)
    requires Words(ws)
    ensures Words(Without(ws, drop))
  {
    if ws != [] { WithoutWords(ws[1..], drop); }
  }

  lemma SubWords(polite: seq<string>, verb: string, rest: seq<string>)
    requires Begins(polite, verb, rest)
    ensures Words(rest) && Words(Without(rest, POLITE))
  {
    assert forall w :: w in rest ==> w in polite + [verb] + rest;
    WithoutWords(rest, POLITE);
  }

  lemma NamedWords(polite: seq<string>, verb: string, rest: seq<string>)
    requires Begins(polite, verb, rest)
    ensures Phrase(Named(rest)) == "" <==> Named(rest) == []
  {
    SubWords(polite, verb, rest);
    WithoutWords(rest, PADDING);
    if w :| w in {"called", "named"} && w in rest {
      Around(rest, w);
    }
    BehindWords(rest, "called");
    BehindWords(rest, "named");
    WithoutWords(Behind(rest, "called"), POLITE);
    WithoutWords(Behind(rest, "named"), POLITE);
    if Named(rest) != [] { LineWords(Named(rest)); }
  }

  lemma {:induction false} BehindWords(ws: seq<string>, w: string)
    requires Words(ws)
    ensures Words(Behind(ws, w))
  {
    if ws != [] { BehindWords(ws[1..], w); }
  }

  lemma {:induction false} NoneBehind(ws: seq<string>, w: string)
    requires w !in ws
    ensures Behind(ws, w) == [] && Phrase(Without(Behind(ws, w), POLITE)) == ""
  {
    if ws != [] { NoneBehind(ws[1..], w); }
  }

  /** A phrase is a single word only when it has one. */
  lemma PhraseIsWord(ws: seq<string>, w: string)
    requires Words(ws) && w != "" && ' ' !in w
    ensures Phrase(ws) == w <==> ws == [w]
  {
    if |ws| > 1 { assert ' ' in Phrase(ws) by { assert Phrase(ws)[|ws[0]|] == ' '; } }
  }
}
