/** What system/shell/understand_command.ep promises about whole sentences. */
module SentenceLaws {
  import opened Strings
  import opened UnderstandCommand

  // ---------- filler ----------

  lemma {:induction false} KeptLacksFiller(ws: seq<string>)
    ensures forall w :: w in Kept(ws) ==> !IsFiller(w)
  {
    if ws != [] { KeptLacksFiller(ws[1..]); }
  }

  lemma {:induction false} AllKept(ws: seq<string>)
    requires forall w :: w in ws ==> !IsFiller(w)
    ensures Kept(ws) == ws
  {
    if ws != [] { AllKept(ws[1..]); }
  }

  /** The words from a spot of a list without filler are just those words. */
  lemma KeptFrom(ws: seq<string>, i: nat)
    requires i <= |Kept(ws)|
    ensures Kept(Kept(ws)[i..]) == Kept(ws)[i..] && Kept(Kept(ws)[..i]) == Kept(ws)[..i]
  {
    KeptLacksFiller(ws);
    AllKept(Kept(ws)[i..]);
    AllKept(Kept(ws)[..i]);
  }

  lemma FromIs(ws: seq<string>, i: nat)
    requires i <= |ws|
    ensures Gathered(ws, i, |ws|) == Kept(ws[i..])
  {
    assert ws[i..|ws|] == ws[i..];
  }

  lemma {:induction false} HasKept(ws: seq<string>, w: string)
    requires !IsFiller(w)
    ensures Has(ws, w) <==> Has(Kept(ws), w)
  {
    if ws != [] {
      HasKept(ws[1..], w);
      if !IsFiller(ws[0]) { assert Kept(ws)[1..] == Kept(ws[1..]); }
    }
  }

  /** Around the first place of a word the same words are kept, with or without filler. */
  lemma {:induction false} AroundWord(ws: seq<string>, w: string)
    requires !IsFiller(w) && Has(ws, w)
    ensures Has(Kept(ws), w)
    ensures var i, k := IndexOfWord(ws, w), IndexOfWord(Kept(ws), w);
      Kept(ws[..i]) == Kept(ws)[..k] && Kept(ws[i + 1..]) == Kept(ws)[k + 1..]
  {
    if ws[0] == w {
      assert Kept(ws)[1..] == Kept(ws[1..]);
    } else {
      AroundWord(ws[1..], w);
      var i := IndexOfWord(ws, w);
      assert ws[..i][1..] == ws[1..][..i - 1] && ws[1..][i..] == ws[i + 1..];
      if !IsFiller(ws[0]) { assert Kept(ws)[1..] == Kept(ws[1..]); }
    }
  }

  /** Without the filler the word at v comes first, and what is kept behind it follows. */
  predicate Leads(ws: seq<string>, v: nat) { v < |ws| && Kept(ws) == [ws[v]] + Kept(ws[v + 1..]) }

  lemma {:induction false} VerbLeads(ws: seq<string>)
    ensures VerbSpot(ws) < |ws| ==> Leads(ws, VerbSpot(ws)) && !IsFiller(ws[VerbSpot(ws)])
    ensures VerbSpot(ws) == |ws| ==> Kept(ws) == []
    ensures forall w :: w in ws[..VerbSpot(ws)] ==> IsFiller(w)
  {
    if ws != [] && IsFiller(ws[0]) {
      VerbLeads(ws[1..]);
      var v := VerbSpot(ws);
      assert ws[..v] == [ws[0]] + ws[1..][..v - 1];
      if v < |ws| { assert ws[1..][v..] == ws[v + 1..]; }
    }
  }

  lemma {:induction false} PickedKept(ws: seq<string>)
    ensures Picked(Kept(ws)) == Picked(ws)
  {
    if ws != [] {
      PickedKept(ws[1..]);
      if !IsFiller(ws[0]) { assert Kept(ws)[1..] == Kept(ws[1..]); }
    }
  }

  lemma AfterWord(ws: seq<string>, w: string)
    requires !IsFiller(w) && Has(ws, w)
    ensures Has(Kept(ws), w)
    ensures Gathered(ws, IndexOfWord(ws, w) + 1, |ws|) == Gathered(Kept(ws), IndexOfWord(Kept(ws), w) + 1, |Kept(ws)|)
  {
    AroundWord(ws, w);
    var kept, i, k := Kept(ws), IndexOfWord(ws, w), IndexOfWord(Kept(ws), w);
    KeptFrom(ws, k + 1);
    FromIs(ws, i + 1);
    FromIs(kept, k + 1);
  }

  lemma TailIs(ws: seq<string>, v: nat)
    requires Leads(ws, v)
    ensures Kept(ws) != [] && Kept(ws)[1..] == Kept(ws[v + 1..])
  {}

  lemma TailGathered(ws: seq<string>, v: nat)
    requires Leads(ws, v)
    ensures Gathered(ws, v + 1, |ws|) == Kept(ws[v + 1..]) == Gathered(Kept(ws), 1, |Kept(ws)|)
  {
    TailIs(ws, v);
    FromIs(ws, v + 1);
    FromIs(Kept(ws), 1);
    KeptFrom(ws, 1);
  }

  /** A name is announced by the same words, filler or not. */
  lemma CalledSame(ws: seq<string>)
    ensures CalledSpot(ws) < 0 <==> CalledSpot(Kept(ws)) < 0
    ensures CalledSpot(ws) >= 0 ==>
      Gathered(ws, CalledSpot(ws) + 1, |ws|) == Gathered(Kept(ws), CalledSpot(Kept(ws)) + 1, |Kept(ws)|)
  {
    Announced(ws, "called");
    Announced(ws, "named");
    FirstAnnounced(ws, Kept(ws));
  }

  lemma FirstAnnounced(ws: seq<string>, kept: seq<string>)
    requires FollowedAlike(ws, kept, "called") && FollowedAlike(ws, kept, "named")
    ensures CalledSpot(ws) < 0 <==> CalledSpot(kept) < 0
    ensures CalledSpot(ws) >= 0 ==>
      Gathered(ws, CalledSpot(ws) + 1, |ws|) == Gathered(kept, CalledSpot(kept) + 1, |kept|)
  {
    hide IsFiller, Kept;
  }

  /** The word is in both lists or in none, and the same words follow it. */
  predicate FollowedAlike(ws: seq<string>, kept: seq<string>, w: string) {
    && (Has(ws, w) <==> Has(kept, w))
    && (Has(ws, w) ==>
          Gathered(ws, IndexOfWord(ws, w) + 1, |ws|) == Gathered(kept, IndexOfWord(kept, w) + 1, |kept|))
  }

  lemma Announced(ws: seq<string>, w: string)
    requires !IsFiller(w)
    ensures FollowedAlike(ws, Kept(ws), w)
  {
    HasKept(ws, w);
    if Has(ws, w) { AfterWord(ws, w); }
  }

  lemma PickedSame(ws: seq<string>, v: nat)
    requires Leads(ws, v)
    ensures Kept(ws) != [] && Picked(ws[v + 1..]) == Picked(Kept(ws)[1..])
  {
    TailIs(ws, v);
    PickedKept(ws[v + 1..]);
  }

  lemma TargetSame(ws: seq<string>, v: nat)
    requires Leads(ws, v)
    ensures Kept(ws) != [] && PickTarget(ws, v) == PickTarget(Kept(ws), 0)
  {
    CalledSame(ws);
    PickedSame(ws, v);
  }

  lemma PeopleSame(ws: seq<string>)
    ensures SpeaksOfPeople(ws) <==> SpeaksOfPeople(Kept(ws))
  {
    HasKept(ws, "person");
    HasKept(ws, "people");
    HasKept(ws, "account");
    HasKept(ws, "accounts");
    HasKept(ws, "user");
    HasKept(ws, "users");
  }

  lemma LookSame(ws: seq<string>, target: string)
    ensures AskedLook(ws, target) == AskedLook(Kept(ws), target)
  {
    HasKept(ws, "in");
    if Has(ws, "in") { AfterWord(ws, "in"); }
  }

  lemma ReadSame(ws: seq<string>, target: string)
    ensures AskedRead(ws, target) == AskedRead(Kept(ws), target)
  {
    HasKept(ws, "notes");
    HasKept(ws, "files");
  }

  lemma {:induction false} FoundLater(ws: seq<string>, n: nat, w: string)
    requires n <= |ws| && Has(ws, w) && forall k :: 0 <= k < n ==> ws[k] != w
    ensures Has(ws[n..], w) && IndexOfWord(ws, w) == n + IndexOfWord(ws[n..], w)
  {
    if n == 0 {
      assert ws[0..] == ws;
    } else {
      FoundLater(ws[1..], n - 1, w);
      assert ws[1..][n - 1..] == ws[n..];
    }
  }

  /** The words between the verb and "to" are kept alike. */
  lemma BetweenSame(ws: seq<string>, v: nat)
    requires Leads(ws, v) && "to" !in ws[..v + 1] && Has(ws, "to") && Has(Kept(ws), "to")
    ensures Gathered(ws, v + 1, IndexOfWord(ws, "to")) == Gathered(Kept(ws), 1, IndexOfWord(Kept(ws), "to"))
  {
    TailIs(ws, v);
    assert forall k :: 0 <= k < v + 1 ==> ws[k] == ws[..v + 1][k];
    assert ws[..v + 1][v] == ws[v];
    UpTo(ws, v + 1, "to");
    UpTo(Kept(ws), 1, "to");
    UpToSame(ws[v + 1..], "to");
  }

  /** From a spot up to the first place of a word that comes later. */
  lemma UpTo(ws: seq<string>, n: nat, w: string)
    requires n <= |ws| && Has(ws, w) && forall k :: 0 <= k < n ==> ws[k] != w
    ensures Has(ws[n..], w) && Gathered(ws, n, IndexOfWord(ws, w)) == Kept(ws[n..][..IndexOfWord(ws[n..], w)])
  {
    FoundLater(ws, n, w);
    TakeSame(ws, n, IndexOfWord(ws[n..], w));
  }

  lemma UpToSame(ws: seq<string>, w: string)
    requires !IsFiller(w) && Has(ws, w)
    ensures Has(Kept(ws), w)
    ensures Kept(ws[..IndexOfWord(ws, w)]) == Kept(Kept(ws)[..IndexOfWord(Kept(ws), w)])
  {
    AroundWord(ws, w);
    KeptFrom(ws, IndexOfWord(Kept(ws), w));
  }

  lemma TakeSame(ws: seq<string>, start: nat, n: nat)
    requires start + n <= |ws|
    ensures Gathered(ws, start, start + n) == Kept(ws[start..][..n])
  {
    assert ws[start..][..n] == ws[start..start + n];
    if n == 0 { assert ws[start..start + n] == []; }
  }

  lemma MoveSame(ws: seq<string>, v: nat)
    requires Leads(ws, v) && "to" !in ws[..v + 1]
    ensures AskedMove(ws, v) == AskedMove(Kept(ws), 0)
  {
    HasKept(ws, "to");
    if Has(ws, "to") {
      AfterWord(ws, "to");
      BetweenSame(ws, v);
    } else {
      TailGathered(ws, v);
    }
  }

  /** The first word behind the verb that is not filler is "to" or "into". */
  predicate ThenTo(ws: seq<string>, v: nat)
    requires v < |ws|
  {
    var tail := Kept(ws[v + 1..]);
    tail != [] && tail[0] in {"to", "into"}
  }

  /** Filler stands directly behind a verb of going, and "to" or "into" behind the filler. */
  predicate ToAfterFiller(ws: seq<string>) {
    var v := VerbSpot(ws);
    v + 1 < |ws| && VerbAction(ws[v]) == Go && IsFiller(ws[v + 1]) && ThenTo(ws, v)
  }

  /** The place a verb of going names when the filler is gone. */
  lemma GoKept(ws: seq<string>, v: nat)
    requires Leads(ws, v)
    ensures ThenTo(ws, v) ==> AskedGo(Kept(ws), 0) == Command("go", Join(Kept(ws[v + 1..])[1..], " "), "")
    ensures !ThenTo(ws, v) ==> AskedGo(Kept(ws), 0) == Place(Join(Kept(ws[v + 1..]), " "))
  {
    TailIs(ws, v);
    TailGathered(ws, v);
    if ThenTo(ws, v) {
      FromIs(Kept(ws), 2);
      KeptFrom(ws, 2);
      assert Kept(ws)[2..] == Kept(ws)[1..][1..];
    }
  }

  lemma GoWithFiller(ws: seq<string>, v: nat)
    requires Leads(ws, v) && (v + 1 < |ws| ==> IsFiller(ws[v + 1]))
    ensures AskedGo(ws, v) == Place(Join(Kept(ws[v + 1..]), " "))
  {
    TailGathered(ws, v);
  }

  lemma GoWithout(ws: seq<string>, v: nat)
    requires Leads(ws, v) && v + 1 < |ws| && !IsFiller(ws[v + 1])
    ensures AskedGo(ws, v) == AskedGo(Kept(ws), 0)
  {
    var tail := Kept(ws[v + 1..]);
    GoKept(ws, v);
    TailGathered(ws, v);
    FromIs(ws, v + 2);
    assert ws[v + 1..][1..] == ws[v + 2..];
    assert tail == [ws[v + 1]] + Kept(ws[v + 2..]);
  }

  lemma PlaceDiffers(tail: seq<string>)
    requires tail != [] && tail[0] != ""
    ensures Place(Join(tail, " ")) != Command("go", Join(tail[1..], " "), "")
  {
    assert |Join(tail, " ")| > |Join(tail[1..], " ")|;
  }

  lemma GoSame(ws: seq<string>, v: nat)
    requires Leads(ws, v)
    ensures Kept(ws) != []
    ensures AskedGo(ws, v) == AskedGo(Kept(ws), 0) <==> !(v + 1 < |ws| && IsFiller(ws[v + 1]) && ThenTo(ws, v))
  {
    if v + 1 < |ws| && !IsFiller(ws[v + 1]) {
      GoWithout(ws, v);
    } else {
      GoWithFiller(ws, v);
      GoKept(ws, v);
      if ThenTo(ws, v) { PlaceDiffers(Kept(ws[v + 1..])); }
    }
  }

  lemma FirstIsVerb(ws: seq<string>, v: nat, text: string)
    requires Leads(ws, v) && !IsFiller(ws[v])
    ensures Kept(ws) != [] && UnderstoodWords(Kept(ws), text) == Asked(Kept(ws), VerbAction(ws[v]), 0, text)
  {}

  lemma NotGoing(ws: seq<string>, v: nat, text: string)
    requires Leads(ws, v) && VerbAction(ws[v]) != Go && "to" !in ws[..v]
    ensures Kept(ws) != []
    ensures Asked(ws, VerbAction(ws[v]), v, text) == Asked(Kept(ws), VerbAction(ws[v]), 0, text)
  {
    assert ws[..v + 1] == ws[..v] + [ws[v]];
    OthersSame(ws, v, VerbAction(ws[v]), text);
  }

  /** A sentence asks for the same with its filler as without, except exactly where filler
      keeps a verb of going apart from "to" or "into". */
  lemma FillerDoesNotMatter(ws: seq<string>, text: string)
    ensures UnderstoodWords(ws, text) == UnderstoodWords(Kept(ws), text) <==> !ToAfterFiller(ws)
  {
    VerbLeads(ws);
    var v := VerbSpot(ws);
    if v < |ws| {
      FirstIsVerb(ws, v, text);
      if VerbAction(ws[v]) == Go { GoSame(ws, v); } else { NotGoing(ws, v, text); }
    }
  }

  lemma OthersSame(ws: seq<string>, v: nat, verb: Verb, text: string)
    requires Leads(ws, v) && verb != Go && (verb == Move ==> "to" !in ws[..v + 1])
    ensures Kept(ws) != [] && Asked(ws, verb, v, text) == Asked(Kept(ws), verb, 0, text)
  {
    TargetSame(ws, v);
    PeopleSame(ws);
    match verb
    case What =>
      HasKept(ws, "time");
      HasKept(ws, "running");
    case Rebuild =>
      HasKept(ws, "toolchain");
      HasKept(ws, "compiler");
    case Look => LookSame(ws, PickTarget(ws, v));
    case Read => ReadSame(ws, PickTarget(ws, v));
    case Make => HasKept(ws, "note");
    case Move => MoveSame(ws, v);
    case _ =>
  }

  // ---------- the sentence that writes a note ----------

  /** A word as a name may hold it: one piece between spaces. */
  predicate Piece(w: string) { w != "" && ' ' !in w && Trimmed(w) }

  /** Words a note's name may be made of. */
  predicate NameWords(names: seq<string>) {
    forall w :: w in names ==> Piece(w) && !IsFiller(w) && w != "saying" && Lower(w) == w
  }

  const OPENING := ["write", "a", "note", "called"]

  /** write a note called <name> saying <text>. */
  function Sentence(names: seq<string>, text: string): string {
    "write a note called " + Join(names, " ") + SAYING + text
  }

  /** The pieces between spaces up to "saying"; no name leaves one empty piece. */
  function Pieces(names: seq<string>): seq<string> { OPENING + (if names == [] then [""] else names) }

  lemma {:induction false} JoinConcat(a: seq<string>, b: seq<string>)
    requires a != [] && b != []
    ensures Join(a + b, " ") == Join(a, " ") + " " + Join(b, " ")
    decreases |b|
  {
    if |b| == 1 {
      JoinSnoc(a, b[0], " ");
      assert b == [b[0]];
    } else {
      var front, last := b[..|b| - 1], b[|b| - 1];
      JoinConcat(a, front);
      JoinSnoc(front, last, " ");
      JoinSnoc(a + front, last, " ");
      assert front + [last] == b && a + front + [last] == a + b;
    }
  }

  lemma OpeningJoins()
    ensures Join(OPENING, " ") == "write a note called"
  {
    assert OPENING[1..] == ["a", "note", "called"] && OPENING[1..][1..] == ["note", "called"]
        && OPENING[1..][1..][1..] == ["called"];
    assert Join(["called"], " ") == "called";
    assert Join(["note", "called"], " ") == "note" + " " + "called";
    assert Join(["a", "note", "called"], " ") == "a" + " " + "note called";
  }

  lemma PiecesJoin(names: seq<string>)
    ensures Join(Pieces(names), " ") == "write a note called " + Join(names, " ")
  {
    OpeningJoins();
    var ns := if names == [] then [""] else names;
    JoinConcat(OPENING, ns);
    assert Join([""], " ") == "";
  }

  /** A longer list joins to a longer text. */
  lemma JoinGrows(a: seq<string>, b: seq<string>)
    requires a != []
    ensures |Join(a, " ")| <= |Join(a + b, " ")|
  {
    if b == [] { assert a + b == a; } else { JoinConcat(a, b); }
  }

  /** Where " saying " stands, the pieces in front of it are followed by the piece "saying". */
  lemma SayingIsAPiece(s: string, i: nat)
    requires OccursAt(s, SAYING, i)
    ensures var k := |Split(s[..i], " ")|;
      k + 1 < |Split(s, " ")| && Split(s, " ")[k] == "saying" && Split(s, " ")[..k] == Split(s[..i], " ")
  {
    var front, back := s[..i], s[i + 8..];
    assert s == front + SAYING + back;
    assert SAYING == [' '] + "saying" + [' '];
    assert s == front + [' '] + ("saying" + [' '] + back);
    SplitOfConcat(front, "saying" + [' '] + back, ' ');
    SplitAtFirst("saying", back, ' ');
    assert Split(s, " ") == Split(front, " ") + ["saying"] + Split(back, " ");
  }

  /** So the first one stands behind all the pieces that are not "saying". */
  lemma FirstSaying(pieces: seq<string>, text: string, i: nat)
    requires pieces != [] && forall p :: p in pieces ==> ' ' !in p && p != "saying"
    requires OccursAt(Join(pieces, " ") + SAYING + text, SAYING, i)
    ensures i >= |Join(pieces, " ")|
  {
    var head := Join(pieces, " ");
    var s := head + SAYING + text;
    SayingIsAPiece(s, i);
    var before := Split(s[..i], " ");
    JoinOfSplit(s[..i], " ");
    SentencePieces(pieces, text);
    var all := Split(s, " ");
    assert forall k :: 0 <= k < |pieces| ==> all[k] == pieces[k] && pieces[k] in pieces;
    assert |before| >= |pieces|;
    assert before == all[..|before|] == pieces + all[|pieces|..|before|];
    JoinGrows(pieces, all[|pieces|..|before|]);
  }

  lemma SentencePieces(pieces: seq<string>, text: string)
    requires pieces != [] && forall p :: p in pieces ==> ' ' !in p
    ensures Split(Join(pieces, " ") + SAYING + text, " ") == pieces + (["saying"] + Split(text, " "))
  {
    var head := Join(pieces, " ");
    SplitOfJoin(pieces, ' ');
    assert head + SAYING + text == head + [' '] + ("saying" + [' '] + text);
    SplitOfConcat(head, "saying" + [' '] + text, ' ');
    SplitAtFirst("saying", text, ' ');
  }

  lemma SayingSpot(pieces: seq<string>, text: string)
    requires pieces != [] && forall p :: p in pieces ==> ' ' !in p && p != "saying"
    ensures IndexOf(Join(pieces, " ") + SAYING + text, SAYING) == |Join(pieces, " ")|
  {
    var head := Join(pieces, " ");
    var s := head + SAYING + text;
    assert s[|head|..|head| + 8] == SAYING;
    forall k | 0 <= k < |head|
      ensures !OccursAt(s, SAYING, k)
    {
      if OccursAt(s, SAYING, k) { FirstSaying(pieces, text, k); }
    }
    FirstOccurrence(s, SAYING, |head|);
  }

  lemma LowerConcat(a: string, b: string)
    ensures Lower(a + b) == Lower(a) + Lower(b)
  {}

  lemma {:induction false} LowerJoin(names: seq<string>)
    requires forall w :: w in names ==> Lower(w) == w
    ensures Lower(Join(names, " ")) == Join(names, " ")
  {
    if |names| > 1 {
      LowerJoin(names[1..]);
      LowerConcat(names[0] + " ", Join(names[1..], " "));
      LowerConcat(names[0], " ");
    }
  }

  lemma {:induction false} CleanedKeeps(pieces: seq<string>)
    requires forall p :: p in pieces ==> p != "" && Trimmed(p)
    ensures Cleaned(pieces) == pieces
  {
    if pieces != [] {
      var p, others := pieces[0], pieces[1..];
      assert forall q :: q in others ==> q in pieces;
      assert p in pieces && Trim(p) == p;
      CleanedKeeps(others);
    }
  }

  lemma {:induction false} CleanedConcat(a: seq<string>, b: seq<string>)
    ensures Cleaned(a + b) == Cleaned(a) + Cleaned(b)
    decreases |b|
  {
    if b == [] {
      assert a + b == a;
    } else {
      var front, last := b[..|b| - 1], b[|b| - 1];
      CleanedConcat(a, front);
      CleanedSnoc(a + front, last);
      CleanedSnoc(front, last);
      assert a + front + [last] == a + b && front + [last] == b;
    }
  }

  /** The words of the sentence up to "saying". */
  lemma HeadWords(names: seq<string>)
    requires NameWords(names)
    ensures WordsOf(Join(Pieces(names), " ")) == OPENING + names
  {
    SplitOfJoin(Pieces(names), ' ');
    CleanedKeeps(OPENING);
    CleanedConcat(OPENING, if names == [] then [""] else names);
    if names == [] {
      assert Cleaned([""]) == [];
    } else {
      CleanedKeeps(names);
    }
  }

  /** "write a note called <name>" is a wish to write under exactly that name. */
  lemma WriteWords(names: seq<string>, text: string)
    requires forall w :: w in names ==> !IsFiller(w)
    ensures UnderstoodWords(OPENING + names, text) == Command("write", Join(names, " "), text)
  {
    var words := OPENING + names;
    OpeningWords(names);
    FromIs(words, 4);
    assert words[4..] == names;
    AllKept(names);
    assert PickTarget(words, 0) == Join(names, " ");
  }

  lemma OpeningWords(names: seq<string>)
    ensures var words := OPENING + names;
      VerbSpot(words) == 0 && VerbAction(words[0]) == Write && IndexOfWord(words, "called") == 3
  {
    var words := OPENING + names;
    assert words[0] == "write" && words[1] == "a" && words[2] == "note" && words[3] == "called";
    IndexOfWordIs(words, "called", 3);
  }

  lemma SentenceIsTrimmed(names: seq<string>, text: string)
    requires text != "" && Trimmed(text)
    ensures Trim(Sentence(names, text)) == Sentence(names, text)
  {
    var s := Sentence(names, text);
    assert s[0] == 'w' && s[|s| - 1] == text[|text| - 1];
  }

  /** The sentence and what it asks for: the name as it was said, and the text exactly as it
      was typed, letter case and later "saying"s included. */
  lemma WriteSentence(names: seq<string>, text: string)
    requires NameWords(names) && text != "" && Trimmed(text)
    ensures Understood(Sentence(names, text)) == Command("write", Join(names, " "), text)
  {
    var raw, pieces := Sentence(names, text), Pieces(names);
    var head := Join(pieces, " ");
    SentenceIsTrimmed(names, text);
    PiecesJoin(names);
    assert raw == head + SAYING + text;
    LowerSentence(names, text);
    SayingSpot(pieces, Lower(text));
    assert raw[..|head|] == head && raw[|head| + 8..] == text;
    LowerHead(names);
    HeadWords(names);
    WriteWords(names, text);
  }

  lemma LowerHead(names: seq<string>)
    requires NameWords(names)
    ensures Lower(Join(Pieces(names), " ")) == Join(Pieces(names), " ")
  {
    PiecesJoin(names);
    LowerJoin(names);
    LowerConcat("write a note called ", Join(names, " "));
    assert Lower("write a note called ") == "write a note called ";
  }

  lemma LowerSentence(names: seq<string>, text: string)
    requires NameWords(names)
    ensures Lower(Join(Pieces(names), " ") + SAYING + text) == Join(Pieces(names), " ") + SAYING + Lower(text)
  {
    LowerHead(names);
    LowerConcat(Join(Pieces(names), " ") + SAYING, text);
    LowerConcat(Join(Pieces(names), " "), SAYING);
    assert Lower(SAYING) == SAYING;
  }
}
