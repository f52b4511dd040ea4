/** system/apps/notes.ep: the line editor of notes. */
module Notes {
  import opened Machine
  import opened Strings
  import opened Paths
  import opened HostFiles
  import opened TheDisk
  import opened Sessions
  import opened UnderstandCommand
  import VirtualFiles

  // ---------- the lines of a note ----------

  function NoteLines(content: string): seq<string> { if content == "" then [] else Split(content, "\n") }

  function Joined(lines: seq<string>): string { Join(lines, "\n") }

  method LinesOf(content: string) returns (lines: seq<string>)
    ensures lines == NoteLines(content)
  {
    lines := [];
    if |content| == 0 { return; }
    var pieces := SplitString(content, "\n");
    var i := 0;
    while i < |pieces|
      invariant 0 <= i <= |pieces| && lines == pieces[..i]
    {
      lines := lines + [pieces[i]];
      i := i + 1;
    }
  }

  /** Opening a note and joining its lines gives the note. */
  lemma LinesJoinBack(content: string)
    ensures Joined(NoteLines(content)) == content
  {
    if content != "" { JoinOfSplit(content, "\n"); }
  }

  // ---------- what is typed ----------

  /** What the question for a line came back with; once a shutdown is requested, what was
      typed does not matter. */
  datatype Input = Typed(raw: string) | ShutDown

  datatype Order = Leave | GoNow | Show | Hints | Save | Unclear
    | Append(text: string) | Change(spot: nat, text: string) | Take(spot: nat)

  /** The text from a spot to the end, trimmed; "" past the end. */
  function TextFrom(raw: string, start: nat): string { if start < |raw| then Trim(raw[start..]) else "" }

  /** What a typed line asks of an editor holding n lines. */
  function OrderOf(raw: string, n: nat): (o: Order)
    ensures o.Change? || o.Take? ==> o.spot < n
  {
    var lowered := Lower(raw);
    var words := WordsOf(lowered);
    var first, number := WordAt(words, 0), StringToInt(WordAt(words, 1));
    var to := IndexOf(lowered, " to ");
    if first in {"done", "quit"} then Leave
    else if first == "show" then Show
    else if first == "help" then Hints
    else if first == "save" then Save
    else if first == "add" then Append(TextFrom(raw, IndexOf(lowered, "add ") + 4))
    else if first == "change" then
      if number < 1 || number > n || to < 0 then Unclear else Change(number - 1, TextFrom(raw, to + 4))
    else if first == "remove" then if number < 1 || number > n then Unclear else Take(number - 1)
    else Unclear
  }

  function OrderFor(input: Input, n: nat): (o: Order)
    ensures o.Change? || o.Take? ==> o.spot < n
  {
    if input.ShutDown? then GoNow else OrderOf(input.raw, n)
  }

  method Listen(raw: string, n: nat) returns (o: Order)
    ensures o == OrderOf(raw, n)
  {
    var lowered := StringToLower(raw);
    var words := SplitIntoWords(lowered);
    var first := WordAt(words, 0);
    if first == "done" || first == "quit" { return Leave; }
    if first == "show" { return Show; }
    if first == "help" { return Hints; }
    if first == "save" { return Save; }
    if first == "add" {
      var spot := StringIndexOf(lowered, "add ");
      var text := TakeFrom(raw, spot + 4);
      return Append(text);
    }
    if first == "change" {
      var number := ParseInt(WordAt(words, 1));
      if number < 1 || number > n { return Unclear; }
      var to := StringIndexOf(lowered, " to ");
      if to < 0 { return Unclear; }
      var text := TakeFrom(raw, to + 4);
      return Change(number - 1, text);
    }
    if first == "remove" {
      var number := ParseInt(WordAt(words, 1));
      if number < 1 || number > n { return Unclear; }
      return Take(number - 1);
    }
    return Unclear;
  }

  method TakeFrom(raw: string, start: nat) returns (text: string)
    ensures text == TextFrom(raw, start)
  {
    var rest := if start < |raw| then raw[start..] else "";
    text := StringTrim(rest);
  }

  /** "add " and a trimmed text appends exactly that text. */
  lemma AddKeepsText(text: string, n: nat)
    requires Trimmed(text)
    ensures OrderOf("add " + text, n) == Append(text)
  {
    var raw := "add " + text;
    var lowered := Lower(raw);
    assert lowered == "add" + [' '] + Lower(text);
    SplitAtFirst("add", Lower(text), ' ');
    assert Trim("add") == "add";
    assert Split(lowered, " ")[1..] == Split(Lower(text), " ");
    assert WordsOf(lowered)[0] == "add";
    assert lowered[0..4] == "add ";
    FirstOccurrence(lowered, "add ", 0);
    assert raw[4..] == text;
    assert Trim("") == "";
  }

  /** The first two words of a line, and what follows them. */
  lemma TwoWords(a: string, b: string, rest: string)
    requires a != "" && b != "" && Trimmed(a) && Trimmed(b) && ' ' !in a + b && (rest != "" ==> rest[0] == ' ')
    ensures var words := WordsOf(a + " " + b + rest); WordAt(words, 0) == a && WordAt(words, 1) == b
  {
    var line := a + " " + b + rest;
    if rest == "" {
      assert line == a + [' '] + b;
      SplitAtFirst(a, b, ' ');
      SplitWithout(b, ' ');
      LeadingWord(a, [b]);
      LeadingWord(b, []);
      assert [b] + [] == [b];
    } else {
      assert line == a + [' '] + (b + [' '] + rest[1..]);
      SplitAtFirst(a, b + [' '] + rest[1..], ' ');
      SplitAtFirst(b, rest[1..], ' ');
      LeadingWord(a, [b] + Split(rest[1..], " "));
      LeadingWord(b, Split(rest[1..], " "));
    }
  }

  lemma LeadingWord(a: string, pieces: seq<string>)
    requires a != "" && Trimmed(a)
    ensures Cleaned([a] + pieces) == [a] + Cleaned(pieces)
  {
    assert ([a] + pieces)[1..] == pieces && Trim(a) == a;
  }

  /** The digits of a line number, as a word. */
  lemma NumberWord(k: nat)
    ensures Trimmed(Digits(k)) && Lower(Digits(k)) == Digits(k)
    ensures forall i :: 0 <= i < |Digits(k)| ==> IsDigit(Digits(k)[i])
  {
    var ds := Digits(k);
    forall i | 0 <= i < |ds|
      ensures IsDigit(ds[i])
    {
      assert ds[i] in ds;
    }
  }

  lemma TheTo(ds: string, text: string)
    requires forall i :: 0 <= i < |ds| ==> IsDigit(ds[i])
    requires ds != ""
    ensures IndexOf("change " + ds + " to " + text, " to ") == 7 + |ds|
  {
    var line := "change " + ds + " to " + text;
    var spot := 7 + |ds|;
    assert line[spot..spot + 4] == " to ";
    forall k | 0 <= k < spot
      ensures !OccursAt(line, " to ", k)
    {
      assert line[6] == ' ' && line[7] == ds[0];
      assert k >= 7 ==> line[k] == ds[k - 7];
      assert line[k..k + 4][0] == line[k] && line[k..k + 4][1] == line[k + 1];
    }
    FirstOccurrence(line, " to ", spot);
  }

  /** "change K to " and a trimmed text puts exactly that text in line K, when there is one. */
  lemma ChangeKeepsText(k: nat, text: string, n: nat)
    requires Trimmed(text) && k <= MAX
    ensures OrderOf("change " + Digits(k) + " to " + text, n) ==
      if 1 <= k <= n then Change(k - 1, text) else Unclear
  {
    hide WordsOf, Trim, IndexOf, WordAt, Digits;
    var raw, ds := "change " + Digits(k) + " to " + text, Digits(k);
    NumberWord(k);
    assert Lower(raw) == "change " + ds + " to " + Lower(text);
    assert Lower(raw) == "change" + " " + ds + (" to " + Lower(text));
    assert ' ' !in "change" + ds;
    TwoWords("change", ds, " to " + Lower(text));
    TheTo(ds, Lower(text));
    IntRoundTrip(k);
    assert IntToString(k) == ds;
    assert raw[7 + |ds| + 4..] == text;
    TrimOfTrimmed(text);
  }

  lemma TrimOfTrimmed(text: string)
    requires Trimmed(text)
    ensures Trim(text) == text && TextFrom(text, 0) == text
  {
    if text != "" { assert text[0..] == text; }
  }

  /** "remove K" takes line K away, when there is one. */
  lemma RemoveTakes(k: nat, n: nat)
    requires k <= MAX
    ensures OrderOf("remove " + Digits(k), n) == if 1 <= k <= n then Take(k - 1) else Unclear
  {
    hide WordsOf, Trim, IndexOf, WordAt, Digits;
    var ds := Digits(k);
    NumberWord(k);
    assert Lower("remove " + ds) == "remove" + " " + ds + "";
    assert ' ' !in "remove" + ds;
    TwoWords("remove", ds, "");
    IntRoundTrip(k);
    assert IntToString(k) == ds;
  }

  // ---------- the editor as a machine ----------

  /** The lines on the desk; unsaved is 0, 1 after an edit, and 2 after a warning. */
  datatype Desk = Desk(lines: seq<string>, unsaved: int, open: bool)

  /** An order, and whether a save went through. */
  datatype Step = Step(order: Order, saved: bool)

  function Obey(e: Desk, step: Step): Desk {
    match step.order
    case Leave => if e.unsaved == 1 then e.(unsaved := 2) else e.(open := false)
    case GoNow => e.(open := false)
    case Save => if step.saved then e.(unsaved := 0) else e
    case Append(text) => e.(lines := e.lines + [text], unsaved := 1)
    case Change(spot, text) => if spot < |e.lines| then e.(lines := e.lines[spot := text], unsaved := 1) else e
    case Take(spot) =>
      if spot < |e.lines| then e.(lines := e.lines[..spot] + e.lines[spot + 1..], unsaved := 1) else e
    case _ => e
  }

  // ---------- what a typed line leaves on the desk ----------

  /** The lines but one, in order. */
  predicate AllBut(after: seq<string>, before: seq<string>, spot: nat) {
    && spot < |before| == |after| + 1
    && (forall i :: 0 <= i < spot ==> after[i] == before[i])
    && (forall i :: spot <= i < |after| ==> after[i] == before[i + 1])
  }

  /** The desk after one line is typed; saved tells whether a save would go through. */
  function Then(e: Desk, typed: string, saved: bool): Desk { Obey(e, Step(OrderOf(typed, |e.lines|), saved)) }

  /** "add " and a trimmed text puts that text behind all the lines. */
  lemma AddedLine(e: Desk, text: string, saved: bool)
    requires Trimmed(text)
    ensures var after := Then(e, "add " + text, saved);
      && after.open == e.open && after.unsaved == 1 && |after.lines| == |e.lines| + 1
      && after.lines[|e.lines|] == text && forall i :: 0 <= i < |e.lines| ==> after.lines[i] == e.lines[i]
  {
    hide OrderOf;
    AddKeepsText(text, |e.lines|);
  }

  /** "change K to " and a trimmed text changes line K and no other. */
  lemma ChangedLine(e: Desk, k: nat, text: string, saved: bool)
    requires 1 <= k <= |e.lines| && k <= MAX && Trimmed(text)
    ensures var after := Then(e, "change " + Digits(k) + " to " + text, saved);
      && after.open == e.open && after.unsaved == 1 && |after.lines| == |e.lines|
      && after.lines[k - 1] == text
      && forall i :: 0 <= i < |e.lines| && i != k - 1 ==> after.lines[i] == e.lines[i]
  {
    hide OrderOf;
    ChangeKeepsText(k, text, |e.lines|);
  }

  /** "remove K" leaves all the lines but line K, in order. */
  lemma RemovedLine(e: Desk, k: nat, saved: bool)
    requires 1 <= k <= |e.lines| && k <= MAX
    ensures var after := Then(e, "remove " + Digits(k), saved);
      after.open == e.open && after.unsaved == 1 && AllBut(after.lines, e.lines, k - 1)
  {
    hide OrderOf;
    RemoveTakes(k, |e.lines|);
  }

  /** The words that stand alone, and what each leaves as it is. */
  lemma LoneWords(e: Desk, saved: bool)
    ensures Then(e, "save", saved) == if saved then e.(unsaved := 0) else e
    ensures Then(e, "show", saved) == e && Then(e, "help", saved) == e
    ensures forall w :: w in {"done", "quit"} ==>
      Then(e, w, saved) == if e.unsaved == 1 then e.(unsaved := 2) else e.(open := false)
  {
    hide OrderOf;
    LoneWord("save", |e.lines|);
    LoneWord("show", |e.lines|);
    LoneWord("help", |e.lines|);
    LoneWord("done", |e.lines|);
    LoneWord("quit", |e.lines|);
  }

  lemma LoneWord(w: string, n: nat)
    requires w in {"save", "show", "help", "done", "quit"}
    ensures OrderOf(w, n) == if w == "save" then Save else if w == "show" then Show else if w == "help" then Hints
                             else Leave
  {
    hide WordsOf, WordAt, StringToInt, IndexOf;
    assert Trimmed(w) && ' ' !in w && Lower(w) == w;
    WordAlone(w);
  }

  lemma WordAlone(w: string)
    requires w != "" && Trimmed(w) && ' ' !in w
    ensures WordAt(WordsOf(w), 0) == w
  {
    SplitWithout(w, ' ');
    LeadingWord(w, []);
    assert [w] + [] == [w];
  }

  /** Any other word is not followed. */
  lemma OtherWord(w: string, n: nat)
    requires w != "" && Trimmed(w) && ' ' !in w && Lower(w) == w
    requires w !in {"add", "change", "remove", "save", "show", "help", "done", "quit"}
    ensures OrderOf(w, n) == Unclear
  {
    hide WordsOf, WordAt, StringToInt, IndexOf;
    WordAlone(w);
  }

  /** The desk after these steps, the note having been opened on content. */
  function Edited(content: string, steps: seq<Step>): Desk {
    if steps == [] then Desk(NoteLines(content), 0, true)
    else Obey(Edited(content, steps[..|steps| - 1]), steps[|steps| - 1])
  }

  /** What the note holds then, when no one else writes: the lines as they stood at the
      last save that went through. */
  function Stored(content: string, steps: seq<Step>): string {
    if steps == [] then content
    else
      var k := |steps| - 1;
      if steps[k] == Step(Save, true) then Joined(Edited(content, steps[..k]).lines) else Stored(content, steps[..k])
  }

  /** Nothing is lost without a word: with nothing unsaved, the joined lines are the note. */
  lemma {:induction false} SavedIsStored(content: string, steps: seq<Step>)
    requires Edited(content, steps).unsaved == 0
    ensures Joined(Edited(content, steps).lines) == Stored(content, steps)
    decreases |steps|
  {
    if steps == [] {
      LinesJoinBack(content);
    } else {
      var front := steps[..|steps| - 1];
      if Edited(content, front).unsaved == 0 { SavedIsStored(content, front); }
    }
  }

  /** At step i the person asked to leave, was warned, and has not edited up to step k. */
  predicate WarnedAt(content: string, steps: seq<Step>, i: nat, k: nat)
    requires i < k <= |steps|
  {
    var before := Edited(content, steps[..i]);
    && before.open && before.unsaved == 1 && steps[i].order == Leave
    && forall j :: i < j <= k ==>
         Edited(content, steps[..j]).unsaved == 2 && Edited(content, steps[..j]).lines == before.lines
  }

  lemma {:induction false} TwoMeansWarned(content: string, steps: seq<Step>, k: nat) returns (i: nat)
    requires k <= |steps| && Edited(content, steps[..k]).unsaved == 2 && Edited(content, steps[..k]).open
    ensures i < k && WarnedAt(content, steps, i, k)
    decreases k
  {
    var j := k - 1;
    assert steps[..k][..j] == steps[..j];
    if Edited(content, steps[..j]).unsaved == 2 {
      i := TwoMeansWarned(content, steps, j);
    } else {
      i := j;
    }
  }

  /** Whoever left with something unsaved, and not because of a shutdown, had been warned,
      and had asked to leave again without an edit in between. */
  lemma LeavesKnowingly(content: string, steps: seq<Step>) returns (warned: nat)
    requires steps != [] && Edited(content, steps[..|steps| - 1]).open && !Edited(content, steps).open
    requires Edited(content, steps).unsaved != 0 && steps[|steps| - 1].order != GoNow
    ensures warned < |steps| - 1 && WarnedAt(content, steps, warned, |steps| - 1)
    ensures steps[|steps| - 1].order == Leave
  {
    var k := |steps| - 1;
    UnsavedIsOneOfThree(content, steps[..k]);
    warned := TwoMeansWarned(content, steps, k);
  }

  lemma {:induction false} UnsavedIsOneOfThree(content: string, steps: seq<Step>)
    ensures Edited(content, steps).unsaved in {0, 1, 2}
    decreases |steps|
  {
    if steps != [] { UnsavedIsOneOfThree(content, steps[..|steps| - 1]); }
  }

  // ---------- the editor on the disk ----------

  /** The text a person standing at this place finds under this name. */
  ghost function NoteText(v: Files, path: string): string { if SafePath(path) then Bytes(v, path) else "" }

  method OpenNote(d: Disk, s: Session, name: string) returns (e: Editor, ghost content: string)
    requires Ok(d.fs) && !IsStage(Resolved(s, name))
    modifies d
    ensures Ok(d.fs) && (d.on ==> old(d.on)) && d.refusals >= old(d.refusals)
    ensures fresh(e) && e.Now() == Edited(content, [])
    ensures d.on && (d.refusals == old(d.refusals) || Stage(Resolved(s, name)) !in old(d.fs)) ==>
      content == NoteText(View(old(d.fs)), Resolved(s, name)) && e.True(View(d.fs), Resolved(s, name))
  {
    var text := VirtualFiles.Read(d, s, name);
    content := text;
    LinesJoinBack(text);
    var lines := LinesOf(text);
    e := new Editor(lines);
    var there := VirtualFiles.Exists(d, s, name);
  }

  /** Step j of the editor obeys the line typed then. */
  ghost predicate Heard(content: string, steps: seq<Step>, inputs: seq<Input>) {
    |steps| <= |inputs| && forall j :: 0 <= j < |steps| ==>
      steps[j].order == OrderFor(inputs[j], |Edited(content, steps[..j]).lines|)
  }

  lemma NothingHeard(content: string, inputs: seq<Input>)
    ensures Heard(content, [], inputs) && Edited(content, []).open
  {}

  lemma HeardOneMore(content: string, steps: seq<Step>, inputs: seq<Input>, step: Step)
    requires Heard(content, steps, inputs) && |steps| < |inputs|
    requires step.order == OrderFor(inputs[|steps|], |Edited(content, steps).lines|)
    ensures Heard(content, steps + [step], inputs)
    ensures Edited(content, steps + [step]) == Obey(Edited(content, steps), step)
  {
    var longer := steps + [step];
    assert longer[..|steps|] == steps;
    forall j | 0 <= j < |steps|
      ensures longer[j] == steps[j] && longer[..j] == steps[..j]
    {}
  }

  ghost function Resolved(s: Session, name: string): string
    reads s
  {
    VirtualFiles.Resolve(s.place, name)
  }

  ghost predicate SavedOrSame(v0: Files, v1: Files, path: string, text: string) {
    NoteText(v1, path) == NoteText(v0, path) || NoteText(v1, path) == text
  }

  /** A save that goes through leaves the joined lines in the note; one that does not
      leaves the note, or, when there was none, may leave the joined lines. */
  method SaveLines(d: Disk, s: Session, name: string, lines: seq<string>) returns (saved: bool)
    requires Ok(d.fs) && !IsStage(Resolved(s, name))
    modifies d
    ensures Ok(d.fs) && (d.on ==> old(d.on)) && d.refusals >= old(d.refusals)
    ensures d.on && d.denials == old(d.denials) ==>
      (saved <==> VirtualFiles.WriteAnswer(View(old(d.fs)), MayWrite(s.role, s.person, Resolved(s, name)),
                                           Resolved(s, name)) == VirtualFiles.Worked)
    ensures d.on && saved ==> NoteText(View(d.fs), Resolved(s, name)) == Joined(lines)
    ensures d.on ==> SavedOrSame(View(old(d.fs)), View(d.fs), Resolved(s, name), Joined(lines))
  {
    var text := JoinStrings(lines, "\n");
    var answer := VirtualFiles.Write(d, s, name, text);
    saved := answer == VirtualFiles.Worked;
  }

  class Editor {
    var lines: seq<string>
    var unsaved: int
    var open: bool

    constructor (start: seq<string>)
      ensures Now() == Desk(start, 0, true)
    {
      lines, unsaved, open := start, 0, true;
    }

    ghost function Now(): Desk reads this { Desk(lines, unsaved, open) }

    /** When nothing is unsaved, the note is the lines. */
    ghost predicate True(v: Files, path: string)
      reads this
    {
      unsaved == 0 ==> Joined(lines) == NoteText(v, path)
    }

    ghost predicate LeftDiffering(v: Files, path: string)
      reads this
    {
      !open && Joined(lines) != NoteText(v, path)
    }

    /** One question for a line. */
    method Heed(input: Input, d: Disk, s: Session, name: string) returns (ghost step: Step)
      requires Ok(d.fs) && !IsStage(Resolved(s, name))
      modifies this, d
      ensures Ok(d.fs) && (d.on ==> old(d.on)) && d.refusals >= old(d.refusals)
      ensures step.order == OrderFor(input, |old(lines)|) && Now() == Obey(old(Now()), step)
      ensures d.on && old(True(View(d.fs), Resolved(s, name))) ==> True(View(d.fs), Resolved(s, name))
    {
      var saved := false;
      if input.ShutDown? {
        open := false;
        return Step(GoNow, saved);
      }
      var o := Listen(input.raw, |lines|);
      match o {
        case Leave =>
          if unsaved == 1 { unsaved := 2; } else { open := false; }
        case Save =>
          saved := SaveLines(d, s, name, lines);
          if saved { unsaved := 0; }
        case Append(text) =>
          lines := lines + [text];
          unsaved := 1;
        case Change(spot, text) =>
          lines := lines[spot := text];
          unsaved := 1;
        case Take(spot) =>
          lines := lines[..spot] + lines[spot + 1..];
          unsaved := 1;
        case _ =>
      }
      step := Step(o, saved);
    }
  }

  /** The editor follows the machine, order by order. As long as the power is on, and
      recovery is not refused or no stage is beside the note, nothing unsaved means the note
      on the disk is the lines; so whoever left while they differ, and was not shut down, had
      been warned at a step and edited nothing since. */
  method EditNote(d: Disk, s: Session, name: string, inputs: seq<Input>)
      returns (e: Editor, ghost content: string, ghost steps: seq<Step>, ghost warned: nat)
    requires Ok(d.fs) && !IsStage(Resolved(s, name))
    modifies d
    ensures Ok(d.fs) && (d.on ==> old(d.on)) && d.refusals >= old(d.refusals)
    ensures Heard(content, steps, inputs) && e.Now() == Edited(content, steps)
    ensures e.open ==> |steps| == |inputs|
    ensures d.on && (d.refusals == old(d.refusals) || Stage(Resolved(s, name)) !in old(d.fs)) ==>
      content == NoteText(View(old(d.fs)), Resolved(s, name)) && e.True(View(d.fs), Resolved(s, name))
    ensures d.on && (d.refusals == old(d.refusals) || Stage(Resolved(s, name)) !in old(d.fs))
            && e.LeftDiffering(View(d.fs), Resolved(s, name)) ==>
      |steps| > 0 && (steps[|steps| - 1].order == GoNow
                      || (warned + 1 < |steps| && WarnedAt(content, steps, warned, |steps| - 1)))
  {
    hide Obey, OrderOf, OrderFor, View, WarnedAt, NoteText, Joined, NoteLines, Heard, Edited, Resolved, Ok, Stage;
    e, content := OpenNote(d, s, name);
    NothingHeard(content, inputs);
    steps := [];
    var i := 0;
    while i < |inputs| && e.open
      invariant fresh(e) && 0 <= i == |steps| <= |inputs| && Ok(d.fs)
      invariant Heard(content, steps, inputs) && e.Now() == Edited(content, steps)
      invariant (d.on ==> old(d.on)) && d.refusals >= old(d.refusals)
      invariant d.on && (d.refusals == old(d.refusals) || Stage(Resolved(s, name)) !in old(d.fs)) ==>
        content == NoteText(View(old(d.fs)), Resolved(s, name)) && e.True(View(d.fs), Resolved(s, name))
      invariant !e.open ==> i > 0 && Edited(content, steps[..i - 1]).open
    {
      ghost var step := e.Heed(inputs[i], d, s, name);
      HeardOneMore(content, steps, inputs, step);
      assert (steps + [step])[..i] == steps;
      steps := steps + [step];
      i := i + 1;
    }
    warned := 0;
    if !e.open && e.unsaved != 0 && steps[|steps| - 1].order != GoNow { warned := LeavesKnowingly(content, steps); }
  }
}
