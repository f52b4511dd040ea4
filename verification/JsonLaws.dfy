/** What the printer and parser of stdlib/json.ep promise together. */
module JsonLaws {
  import opened Strings
  import opened Utf8
  import opened Json

  // ---------- what survives ----------

  predicate NoNul(s: string) { '\0' !in s }

  /** A tree the parser can hold, its root at nesting level depth. */
  predicate Fits(n: Node, depth: nat)
    decreases n
  {
    depth <= MAX_DEPTH &&
    match n
    case Null => true
    case Int(k) => -MAX_INT <= k <= MAX_INT
    case Str(s) => NoNul(s)
    case List(items) => |items| <= MAX_ENTRIES && forall i :: 0 <= i < |items| ==> Fits(items[i], depth + 1)
    case Obj(keys, values) =>
      && |keys| == |values| <= MAX_ENTRIES && (forall i :: 0 <= i < |keys| ==> NoNul(keys[i]))
      && forall i :: 0 <= i < |values| ==> Fits(values[i], depth + 1)
  }

  predicate Stands(s: string, pos: nat, t: string) { pos + |t| <= |s| && s[pos..pos + |t|] == t }

  /** What comes after a value: the end, blanks, or what can follow an item. */
  predicate Closed(s: string, p: nat) { p < |s| ==> Blank(s[p]) || ClosesItem(s, p) }

  predicate ClosesItem(s: string, p: nat) { p < |s| && s[p] in {',', ']', '}'} }

  predicate Blanks(t: string) { forall c :: c in t ==> Blank(c) }

  lemma {:induction false} SkipOver(s: string, pos: nat, t: string)
    requires Stands(s, pos, t) && Blanks(t) && (pos + |t| < |s| ==> !Blank(s[pos + |t|]))
    ensures SkipBlank(s, pos) == pos + |t|
    decreases |t|
  {
    if t != "" {
      StandsHead(s, pos, t);
      assert t[0] in t && t == [t[0]] + t[1..];
      StandsParts(s, pos, [t[0]], t[1..]);
      SkipOver(s, pos + 1, t[1..]);
    }
  }

  lemma StandsParts(s: string, pos: nat, a: string, b: string)
    requires Stands(s, pos, a + b)
    ensures Stands(s, pos, a) && Stands(s, pos + |a|, b)
  {
    assert s[pos..pos + |a|] == s[pos..pos + |a + b|][..|a|];
    assert s[pos + |a|..pos + |a| + |b|] == s[pos..pos + |a + b|][|a|..];
  }

  /** A separator stands between two texts. */
  lemma StandsAround(s: string, pos: nat, a: string, c: char, b: string)
    requires Stands(s, pos, a + [c] + b)
    ensures Stands(s, pos, a) && pos + |a| < |s| && s[pos + |a|] == c && Stands(s, pos + |a| + 1, b)
  {
    StandsParts(s, pos, a + [c], b);
    StandsParts(s, pos, a, [c]);
    StandsHead(s, pos + |a|, [c]);
  }

  lemma StandsHead(s: string, pos: nat, t: string)
    requires Stands(s, pos, t) && t != ""
    ensures s[pos] == t[0]
  {
    assert s[pos] == s[pos..pos + |t|][0];
  }

  // ---------- strings ----------

  lemma ScanStep(s: string, pos: nat, piece: Piece, rest: Piece)
    requires pos < |s| && s[pos] != '\"' && PieceAt(s, pos) == piece && Scan(s, piece.next) == rest
    ensures Scan(s, pos) == Piece(piece.text + rest.text, rest.next)
  {}

  lemma QuoteEnds(s: string, pos: nat)
    requires Stands(s, pos, "\"")
    ensures Scan(s, pos) == Piece("", pos + 1)
  {
    StandsHead(s, pos, "\"");
  }

  lemma {:induction false} ScanEscaped(text: string, s: string, pos: nat)
    requires Stands(s, pos, Escape(text) + "\"")
    ensures Scan(s, pos) == Piece(text, pos + |Escape(text)| + 1)
  {
    hide Scan, PieceAt, EscapeChar, Stands;
    if text == "" {
      assert Escape(text) + "\"" == "\"";
      QuoteEnds(s, pos);
    } else {
      var c, rest := text[0], text[1..];
      var e := EscapeChar(c);
      assert Escape(text) + "\"" == e + (Escape(rest) + "\"");
      StandsParts(s, pos, e, Escape(rest) + "\"");
      ScanEscaped(rest, s, pos + |e|);
      EscapedChar(c, s, pos);
      ScanStep(s, pos, Piece([c], pos + |e|), Piece(rest, pos + |e| + |Escape(rest)| + 1));
      assert [c] + rest == text;
    }
  }

  lemma EscapedChar(c: char, s: string, pos: nat)
    requires Stands(s, pos, EscapeChar(c))
    ensures pos < |s| && s[pos] != '\"' && PieceAt(s, pos) == Piece([c], pos + |EscapeChar(c)|)
  {
    var e := EscapeChar(c);
    StandsHead(s, pos, e);
    if |e| == 2 { assert s[pos + 1] == s[pos..pos + |e|][1]; }
  }

  lemma {:induction false} CutNothing(s: string)
    requires NoNul(s)
    ensures CutAtNul(s) == s
  {
    if s != "" { CutNothing(s[1..]); }
  }

  lemma StringRoundTrip(text: string, s: string, pos: nat)
    requires NoNul(text) && Stands(s, pos, Quoted(text))
    ensures pos < |s| && ParseString(s, pos) == Piece(text, pos + |Quoted(text)|)
  {
    assert Quoted(text) == "\"" + (Escape(text) + "\"");
    StandsParts(s, pos, "\"", Escape(text) + "\"");
    ScanEscaped(text, s, pos + 1);
    CutNothing(text);
  }

  // ---------- numbers ----------

  lemma {:induction false} ClampedBound(digits: string)
    ensures Clamped(digits) <= MAX_INT
  {
    if digits != "" { ClampedBound(digits[..|digits| - 1]); }
  }

  /** Digits read back as their number exactly up to the largest one the clamp lets grow. */
  lemma {:induction false} ClampedDigits(n: nat)
    ensures n <= MAX_INT ==> Clamped(Digits(n)) == n
    ensures n > MAX_INT ==> Clamped(Digits(n)) != n
  {
    ClampedBound(Digits(n));
    if n >= 10 {
      ClampedDigits(n / 10);
      assert Digits(n)[..|Digits(n)| - 1] == Digits(n / 10);
    }
  }

  lemma {:induction false} DigitsStand(s: string, pos: nat, t: string)
    requires Stands(s, pos, t) && (forall c :: c in t ==> IsDigit(c))
    requires pos + |t| < |s| ==> !IsDigit(s[pos + |t|])
    ensures DigitsEnd(s, pos) == pos + |t|
    decreases |t|
  {
    if t != "" {
      StandsHead(s, pos, t);
      assert t[0] in t;
      assert t == [t[0]] + t[1..];
      StandsParts(s, pos, [t[0]], t[1..]);
      DigitsStand(s, pos + 1, t[1..]);
    }
  }

  lemma NumberStands(k: int, s: string, pos: nat)
    requires Stands(s, pos, IntToString(k)) && Closed(s, pos + |IntToString(k)|)
    ensures pos < |s| && (IsDigit(s[pos]) || s[pos] == '-')
    ensures ParseNumber(s, pos).next == pos + |IntToString(k)|
    ensures ParseNumber(s, pos).node == Int(k) <==> -MAX_INT <= k <= MAX_INT
  {
    hide Clamped, DigitsEnd, ParseNumber, Stands, Closed, Digits;
    var m := if k < 0 then -k else k;
    var start := if k < 0 then pos + 1 else pos;
    if pos + |IntToString(k)| < |s| { ClosedIsNoDigit(s, pos + |IntToString(k)|); }
    StandsHead(s, pos, IntToString(k));
    if k < 0 { StandsParts(s, pos, "-", Digits(m)); }
    assert Digits(m)[0] in Digits(m);
    DigitsStand(s, start, Digits(m));
    ClampedDigits(m);
    NumberAt(s, pos, start, Digits(m));
  }

  lemma ClosedIsNoDigit(s: string, p: nat)
    requires Closed(s, p) && p < |s|
    ensures !IsDigit(s[p]) && s[p] !in {'.', 'e', 'E'}
  {}

  lemma NumberAt(s: string, pos: nat, start: nat, digits: string)
    requires pos < |s| && start == (if s[pos] == '-' then pos + 1 else pos)
    requires Stands(s, start, digits) && DigitsEnd(s, start) == start + |digits| && Closed(s, start + |digits|)
    ensures ParseNumber(s, pos) ==
      Parsed(Int(if s[pos] == '-' then 0 - Clamped(digits) as int else Clamped(digits) as int), start + |digits|)
  {
  }

  /** An integer printed on its own reads back exactly when its magnitude is in bounds;
      a larger 64-bit one comes back smaller. */
  lemma IntReadsBackExactly(k: int)
    ensures Parse(Text(Int(k))) == Int(k) <==> -MAX_INT <= k <= MAX_INT
  {
    var s := Text(Int(k));
    assert s[0..|s|] == s;
    NumberStands(k, s, 0);
    assert ParseValue(s, 0, 0) == ParseNumber(s, 0);
  }

  // ---------- trees ----------

  // The parse functions, total in the cursor: what is read from pos on.

  ghost function ReadValue(s: string, pos: nat, depth: nat): Parsed {
    if pos <= |s| then ParseValue(s, pos, depth) else Parsed(Null, pos)
  }

  ghost function ReadItems(s: string, pos: nat, depth: nat, count: nat): ParsedItems {
    if pos <= |s| then ParseItems(s, pos, depth, count) else ParsedItems([], pos)
  }

  ghost function ReadFields(s: string, pos: nat, depth: nat, count: nat): ParsedFields {
    if pos <= |s| then ParseFields(s, pos, depth, count) else ParsedFields([], [], pos)
  }

  /** Wherever the text t stands as a value at this depth, the parser reads n and stops
      behind it. */
  ghost predicate ReadsAs(n: Node, t: string, depth: nat) {
    && t != "" && !Blank(t[0]) && t[0] !in {']', '}'}
    && forall s, pos: nat :: Stands(s, pos, t) && Closed(s, pos + |t|) ==>
         ReadValue(s, pos, depth) == Parsed(n, pos + |t|)
  }

  lemma FirstOfText(n: Node)
    ensures Text(n) != "" && !Blank(Text(n)[0]) && Text(n)[0] !in {']', '}'}
  {
    if n.Int? && n.n >= 0 { assert Digits(n.n)[0] in Digits(n.n); }
  }

  /** Every tree that fits at a depth is read back there. */
  lemma {:induction false} TextReadsBack(n: Node, depth: nat)
    requires Fits(n, depth)
    ensures ReadsAs(n, Text(n), depth)
    decreases n
  {
    FirstOfText(n);
    match n
    case List(items) =>
      forall i | 0 <= i < |items|
        ensures ReadsAs(items[i], Text(items[i]), depth + 1)
      {
        TextReadsBack(items[i], depth + 1);
      }
      ListReadsBack(items, depth);
    case Obj(keys, values) =>
      forall i | 0 <= i < |values|
        ensures ReadsAs(values[i], Text(values[i]), depth + 1)
      {
        TextReadsBack(values[i], depth + 1);
      }
      ObjectReadsBack(keys, values, depth);
    case _ =>
      forall s, pos: nat | Stands(s, pos, Text(n)) && Closed(s, pos + |Text(n)|)
        ensures ReadValue(s, pos, depth) == Parsed(n, pos + |Text(n)|)
      {
        LeafReadsBack(n, s, pos, depth);
      }
  }

  lemma LeafReadsBack(n: Node, s: string, pos: nat, depth: nat)
    requires Fits(n, depth) && Stands(s, pos, Text(n)) && Closed(s, pos + |Text(n)|)
    requires n.Null? || n.Int? || n.Str?
    ensures ReadValue(s, pos, depth) == Parsed(n, pos + |Text(n)|)
  {
    FirstOfText(n);
    StandsHead(s, pos, Text(n));
    if n.Int? { NumberStands(n.n, s, pos); }
    if n.Str? { StringRoundTrip(n.s, s, pos); }
    LeafAt(n, s, pos, depth);
  }

  lemma LeafAt(n: Node, s: string, pos: nat, depth: nat)
    requires pos < |s| && depth <= MAX_DEPTH && SkipBlank(s, pos) == pos
    ensures n.Null? && WordAt(s, pos, "null") ==> ReadValue(s, pos, depth) == Parsed(n, pos + 4)
    ensures IsDigit(s[pos]) || s[pos] == '-' ==>
      ReadValue(s, pos, depth) == Parsed(ParseNumber(s, pos).node, ParseNumber(s, pos).next)
    ensures s[pos] == '\"' ==>
      ReadValue(s, pos, depth) == Parsed(Str(ParseString(s, pos).text), ParseString(s, pos).next)
  {
    assert ParseValue(s, pos, depth) == ParseAt(s, pos, depth);
    if WordAt(s, pos, "null") { assert s[pos] == s[pos..pos + 4][0]; }
  }

  /** Texts joined by commas stand from pos to end, where the closing bracket is. */
  ghost predicate JoinStands(ts: seq<string>, s: string, pos: nat, end: nat, close: char) {
    pos + |Join(ts, ",")| == end < |s| && s[end] == close && Stands(s, pos, Join(ts, ","))
  }

  lemma FirstStands(ts: seq<string>, s: string, pos: nat, end: nat, close: char)
    requires ts != [] && JoinStands(ts, s, pos, end, close)
    ensures Stands(s, pos, ts[0]) && pos + |ts[0]| <= end
    ensures if |ts| == 1 then pos + |ts[0]| == end
            else s[pos + |ts[0]|] == ',' && JoinStands(ts[1..], s, pos + |ts[0]| + 1, end, close)
  {
    if |ts| > 1 { StandsAround(s, pos, ts[0], ',', Join(ts[1..], ",")); }
  }

  // ---------- lists ----------

  ghost function Texts(items: seq<Node>): (ts: seq<string>)
    ensures |ts| == |items| && forall i :: 0 <= i < |items| ==> ts[i] == Text(items[i])
  {
    seq(|items|, i requires 0 <= i < |items| => Text(items[i]))
  }

  lemma {:induction false} ItemsTextIsJoin(items: seq<Node>, ts: seq<string>)
    requires |ts| == |items| && forall i :: 0 <= i < |items| ==> ts[i] == Text(items[i])
    ensures ItemsText(items) == Join(ts, ",")
    decreases |items|
  {
    if |items| > 1 { ItemsTextIsJoin(items[1..], ts[1..]); }
  }

  /** An item is read from pos on, blanks around it included, and ends at q. */
  ghost predicate ItemAt(s: string, pos: nat, depth: nat, item: Node, q: nat) {
    var p := SkipBlank(s, pos);
    && p < |s| && s[p] !in {']', '}'} && p <= q
    && ReadValue(s, p, depth).node == item && SkipBlank(s, ReadValue(s, p, depth).next) == q
  }

  /** Wherever the text t stands as an item at this depth, it is read as that node. */
  ghost predicate ItemReads(item: Node, t: string, depth: nat) {
    forall s, pos: nat :: Stands(s, pos, t) && ClosesItem(s, pos + |t|) ==> ItemAt(s, pos, depth, item, pos + |t|)
  }

  /** A value with blanks around it is an item. */
  lemma PaddedItem(item: Node, t: string, before: string, after: string, depth: nat)
    requires ReadsAs(item, t, depth) && Blanks(before) && Blanks(after)
    ensures ItemReads(item, before + t + after, depth)
  {
    var e := before + t + after;
    forall s, pos: nat | Stands(s, pos, e) && ClosesItem(s, pos + |e|)
      ensures ItemAt(s, pos, depth, item, pos + |e|)
    {
      PaddedAt(item, t, before, after, depth, s, pos);
    }
  }

  lemma PaddedAt(item: Node, t: string, before: string, after: string, depth: nat, s: string, pos: nat)
    requires ReadsAs(item, t, depth) && Blanks(before) && Blanks(after)
    requires Stands(s, pos, before + t + after) && ClosesItem(s, pos + |before + t + after|)
    ensures ItemAt(s, pos, depth, item, pos + |before + t + after|)
  {
    hide ReadValue, Stands, SkipBlank, Blanks, Closed, ClosesItem;
    var p := pos + |before|;
    assert before + t + after == before + (t + after);
    BlanksBefore(s, pos, before, t + after);
    StandsParts(s, p, t, after);
    BlanksAfter(s, p + |t|, after);
    FirstItemReadsBack(item, t, s, p, depth);
  }

  lemma BlanksBefore(s: string, pos: nat, before: string, t: string)
    requires Blanks(before) && t != "" && !Blank(t[0]) && Stands(s, pos, before + t)
    ensures SkipBlank(s, pos) == pos + |before| && Stands(s, pos + |before|, t)
  {
    StandsParts(s, pos, before, t);
    StandsHead(s, pos + |before|, t);
    SkipOver(s, pos, before);
  }

  lemma BlanksAfter(s: string, pos: nat, after: string)
    requires Blanks(after) && Stands(s, pos, after) && ClosesItem(s, pos + |after|)
    ensures Closed(s, pos) && SkipBlank(s, pos) == pos + |after|
  {
    SkipOver(s, pos, after);
    if after != "" {
      StandsHead(s, pos, after);
      assert after[0] in after;
    }
  }

  lemma ListReadsBack(items: seq<Node>, depth: nat)
    requires |items| <= MAX_ENTRIES && depth <= MAX_DEPTH
    requires forall i :: 0 <= i < |items| ==> ReadsAs(items[i], Text(items[i]), depth + 1)
    ensures ReadsAs(List(items), Text(List(items)), depth)
  {
    var ts := Texts(items);
    ItemsTextIsJoin(items, ts);
    forall i | 0 <= i < |items|
      ensures ItemReads(items[i], ts[i], depth + 1)
    {
      PaddedItem(items[i], ts[i], "", "", depth + 1);
      assert "" + ts[i] + "" == ts[i];
    }
    GatherItems(items, ts, depth + 1);
    ItemTextsReadBack(items, ts, depth);
  }

  lemma ItemTextsReadBack(items: seq<Node>, ts: seq<string>, depth: nat)
    requires |items| == |ts| <= MAX_ENTRIES && depth <= MAX_DEPTH && AllRead(items, ts, depth + 1)
    ensures ReadsAs(List(items), "[" + Join(ts, ",") + "]", depth)
  {
    var t := "[" + Join(ts, ",") + "]";
    forall s, pos: nat | Stands(s, pos, t) && Closed(s, pos + |t|)
      ensures ReadValue(s, pos, depth) == Parsed(List(items), pos + |t|)
    {
      ItemTextsAt(items, ts, s, pos, depth);
    }
  }

  lemma ItemTextsAt(items: seq<Node>, ts: seq<string>, s: string, pos: nat, depth: nat)
    requires |items| == |ts| <= MAX_ENTRIES && depth <= MAX_DEPTH
    requires AllRead(items, ts, depth + 1) && Stands(s, pos, "[" + Join(ts, ",") + "]")
    ensures ReadValue(s, pos, depth) == Parsed(List(items), pos + |Join(ts, ",")| + 2)
  {
    var end := pos + |Join(ts, ",")| + 1;
    Bracketed(s, pos, "[", Join(ts, ","), "]");
    ItemsReadBack(items, ts, s, pos + 1, end, depth + 1, 0);
    ListAt(items, s, pos, end + 1, depth);
  }

  lemma ListAt(items: seq<Node>, s: string, pos: nat, next: nat, depth: nat)
    requires pos < |s| && s[pos] == '[' && depth <= MAX_DEPTH
    requires ReadItems(s, pos + 1, depth + 1, 0) == ParsedItems(items, next)
    ensures ReadValue(s, pos, depth) == Parsed(List(items), next)
  {
    assert ParseValue(s, pos, depth) == ParseAt(s, pos, depth);
  }

  lemma Bracketed(s: string, pos: nat, open: string, t: string, close: string)
    requires Stands(s, pos, open + t + close) && |open| == |close| == 1
    ensures pos < |s| && s[pos] == open[0]
    ensures Stands(s, pos + 1, t) && pos + 1 + |t| < |s| && s[pos + 1 + |t|] == close[0]
  {
    StandsParts(s, pos, open + t, close);
    StandsParts(s, pos, open, t);
    StandsHead(s, pos, open);
    StandsHead(s, pos + 1 + |t|, close);
  }

  /** Each text is read as its item. */
  ghost predicate AllRead(items: seq<Node>, ts: seq<string>, depth: nat)
    requires |items| == |ts|
  {
    items == [] || (ItemReads(items[0], ts[0], depth) && AllRead(items[1..], ts[1..], depth))
  }

  lemma {:induction false} GatherItems(items: seq<Node>, ts: seq<string>, depth: nat)
    requires |items| == |ts| && forall i :: 0 <= i < |items| ==> ItemReads(items[i], ts[i], depth)
    ensures AllRead(items, ts, depth)
    decreases |items|
  {
    if items != [] { GatherItems(items[1..], ts[1..], depth); }
  }

  /** The list loop, over any texts that are read as the items. */
  lemma {:induction false} ItemsReadBack(items: seq<Node>, ts: seq<string>, s: string, pos: nat, end: nat,
                                         depth: nat, count: nat)
    requires |ts| == |items| && count + |items| <= MAX_ENTRIES && JoinStands(ts, s, pos, end, ']')
    requires AllRead(items, ts, depth)
    ensures ReadItems(s, pos, depth, count) == ParsedItems(items, end + 1)
    decreases |items|
  {
    hide ReadItems, ItemReads;
    if items == [] {
      NoItem(s, pos, depth, count);
    } else {
      if |items| > 1 {
        FirstStands(ts, s, pos, end, ']');
        ItemsReadBack(items[1..], ts[1..], s, pos + |ts[0]| + 1, end, depth, count + 1);
      }
      FirstItemStep(items, ts, s, pos, end, depth, count);
    }
  }

  lemma NoItem(s: string, pos: nat, depth: nat, count: nat)
    requires pos < |s| && s[pos] == ']'
    ensures ReadItems(s, pos, depth, count) == ParsedItems([], pos + 1)
  {}

  /** The first item, when the items behind it are read. */
  lemma FirstItemStep(items: seq<Node>, ts: seq<string>, s: string, pos: nat, end: nat, depth: nat, count: nat)
    requires 0 < |items| == |ts| && count + |items| <= MAX_ENTRIES && JoinStands(ts, s, pos, end, ']')
    requires ItemReads(items[0], ts[0], depth)
    requires |items| > 1 ==>
      ReadItems(s, pos + |ts[0]| + 1, depth, count + 1) == ParsedItems(items[1..], end + 1)
    ensures ReadItems(s, pos, depth, count) == ParsedItems(items, end + 1)
  {
    FirstStands(ts, s, pos, end, ']');
    assert ItemAt(s, pos, depth, items[0], pos + |ts[0]|);
    FirstItemThenRest(items, s, pos, pos + |ts[0]|, end, depth, count);
  }

  lemma FirstItemReadsBack(item: Node, t: string, s: string, pos: nat, depth: nat)
    requires ReadsAs(item, t, depth) && Stands(s, pos, t) && Closed(s, pos + |t|)
    ensures ReadValue(s, pos, depth) == Parsed(item, pos + |t|)
    ensures pos < pos + |t| <= |s| && !Blank(s[pos]) && s[pos] != ']'
  {
    StandsHead(s, pos, t);
  }

  /** One turn of the list loop, for a first item ending at q. */
  lemma FirstItemThenRest(items: seq<Node>, s: string, pos: nat, q: nat, end: nat, depth: nat, count: nat)
    requires items != [] && count + |items| <= MAX_ENTRIES
    requires pos <= q <= end < |s| && ItemAt(s, pos, depth, items[0], q)
    requires |items| == 1 ==> q == end && s[end] == ']'
    requires |items| > 1 ==>
      s[q] == ',' && ReadItems(s, q + 1, depth, count + 1) == ParsedItems(items[1..], end + 1)
    ensures ReadItems(s, pos, depth, count) == ParsedItems(items, end + 1)
  {
    assert items == [items[0]] + items[1..];
  }

  // ---------- objects ----------

  lemma {:induction false} FieldsTextIsJoin(keys: seq<string>, values: seq<Node>, fs: seq<string>)
    requires |keys| == |values| == |fs|
    requires forall i :: 0 <= i < |keys| ==> fs[i] == Quoted(keys[i]) + ":" + Text(values[i])
    ensures FieldsText(keys, values) == Join(fs, ",")
    decreases |keys|
  {
    if |keys| > 1 { FieldsTextIsJoin(keys[1..], values[1..], fs[1..]); }
  }

  lemma ObjectReadsBack(keys: seq<string>, values: seq<Node>, depth: nat)
    requires |keys| == |values| <= MAX_ENTRIES && depth <= MAX_DEPTH
    requires forall i :: 0 <= i < |keys| ==> NoNul(keys[i])
    requires forall i :: 0 <= i < |values| ==> ReadsAs(values[i], Text(values[i]), depth + 1)
    ensures ReadsAs(Obj(keys, values), Text(Obj(keys, values)), depth)
  {
    var fs := seq(|keys|, i requires 0 <= i < |keys| => Quoted(keys[i]) + ":" + Text(values[i]));
    forall i | 0 <= i < |keys|
      ensures FieldReadsAs(keys[i], values[i], fs[i], depth + 1)
    {
      FieldReadsBack(keys[i], values[i], Text(values[i]), depth + 1);
    }
    FieldsTextIsJoin(keys, values, fs);
    GatherFields(keys, values, fs, depth + 1);
    FieldTextsReadBack(keys, values, fs, depth);
  }

  /** Each text is read as its key and value. */
  ghost predicate AllFieldsRead(keys: seq<string>, values: seq<Node>, fs: seq<string>, depth: nat)
    requires |keys| == |values| == |fs|
  {
    keys != [] ==>
      FieldReadsAs(keys[0], values[0], fs[0], depth) && AllFieldsRead(keys[1..], values[1..], fs[1..], depth)
  }

  lemma {:induction false} GatherFields(keys: seq<string>, values: seq<Node>, fs: seq<string>, depth: nat)
    requires |keys| == |values| == |fs|
    requires forall i :: 0 <= i < |keys| ==> FieldReadsAs(keys[i], values[i], fs[i], depth)
    ensures AllFieldsRead(keys, values, fs, depth)
    decreases |keys|
  {
    if keys != [] { GatherFields(keys[1..], values[1..], fs[1..], depth); }
  }

  lemma FieldTextsReadBack(keys: seq<string>, values: seq<Node>, fs: seq<string>, depth: nat)
    requires |keys| == |values| == |fs| <= MAX_ENTRIES && depth <= MAX_DEPTH
    requires AllFieldsRead(keys, values, fs, depth + 1)
    ensures ReadsAs(Obj(keys, values), "{" + Join(fs, ",") + "}", depth)
  {
    var t := "{" + Join(fs, ",") + "}";
    forall s, pos: nat | Stands(s, pos, t) && Closed(s, pos + |t|)
      ensures ReadValue(s, pos, depth) == Parsed(Obj(keys, values), pos + |t|)
    {
      FieldTextsAt(keys, values, fs, s, pos, depth);
    }
  }

  lemma FieldTextsAt(keys: seq<string>, values: seq<Node>, fs: seq<string>, s: string, pos: nat, depth: nat)
    requires |keys| == |values| == |fs| <= MAX_ENTRIES && depth <= MAX_DEPTH
    requires AllFieldsRead(keys, values, fs, depth + 1) && Stands(s, pos, "{" + Join(fs, ",") + "}")
    ensures ReadValue(s, pos, depth) == Parsed(Obj(keys, values), pos + |Join(fs, ",")| + 2)
  {
    var end := pos + |Join(fs, ",")| + 1;
    Bracketed(s, pos, "{", Join(fs, ","), "}");
    FieldsReadBack(keys, values, fs, s, pos + 1, end, depth + 1, 0);
    ObjectAt(keys, values, s, pos, end + 1, depth);
  }

  /** A key is read from pos, its colon at k, and the value behind it up to q, blanks
      around each of them included. */
  ghost predicate FieldReads(s: string, pos: nat, key: string, k: nat, value: Node, q: nat, depth: nat) {
    && pos < k < q <= |s| && SkipBlank(s, pos) < |s| && s[SkipBlank(s, pos)] == '\"' && s[k] == ':'
    && ParseString(s, SkipBlank(s, pos)).text == key && SkipBlank(s, ParseString(s, SkipBlank(s, pos)).next) == k
    && ReadValue(s, k + 1, depth).node == value && SkipBlank(s, ReadValue(s, k + 1, depth).next) == q
  }

  ghost predicate FieldReadsTo(s: string, pos: nat, key: string, value: Node, q: nat, depth: nat) {
    exists k: nat :: FieldReads(s, pos, key, k, value, q, depth)
  }

  /** Wherever the text f stands as a field at this depth, it is read as key and value. */
  ghost predicate FieldReadsAs(key: string, value: Node, f: string, depth: nat) {
    forall s, pos: nat :: Stands(s, pos, f) && ClosesItem(s, pos + |f|) ==>
      FieldReadsTo(s, pos, key, value, pos + |f|, depth)
  }

  /** Wherever the text t stands, it is read as this string. */
  ghost predicate KeyReads(key: string, t: string) {
    t != "" && forall s, pos: nat :: Stands(s, pos, t) ==>
      pos < |s| && s[pos] == '\"' && ParseString(s, pos) == Piece(key, pos + |t|)
  }

  /** A key and an item with a colon between, and blanks around the key, are a field. */
  lemma PaddedField(key: string, kt: string, before: string, mid: string, value: Node, e: string, depth: nat)
    requires KeyReads(key, kt) && Blanks(before) && Blanks(mid) && ItemReads(value, e, depth)
    ensures FieldReadsAs(key, value, before + kt + mid + ":" + e, depth)
  {
    var f := before + kt + mid + ":" + e;
    forall s, pos: nat | Stands(s, pos, f) && ClosesItem(s, pos + |f|)
      ensures FieldReadsTo(s, pos, key, value, pos + |f|, depth)
    {
      PaddedFieldAt(key, kt, before, mid, value, e, depth, s, pos);
      assert FieldReads(s, pos, key, pos + |before + kt + mid|, value, pos + |f|, depth);
    }
  }

  lemma PaddedFieldAt(key: string, kt: string, before: string, mid: string, value: Node, e: string, depth: nat,
                      s: string, pos: nat)
    requires KeyReads(key, kt) && Blanks(before) && Blanks(mid) && ItemReads(value, e, depth)
    requires var f := before + kt + mid + ":" + e; Stands(s, pos, f) && ClosesItem(s, pos + |f|)
    ensures FieldReads(s, pos, key, pos + |before + kt + mid|, value, pos + |before + kt + mid + ":" + e|, depth)
  {
    hide Stands, ReadValue, ParseString, SkipBlank, Blanks;
    var k := pos + |before + kt + mid|;
    StandsAround(s, pos, before + kt + mid, ':', e);
    KeyStands(key, kt, before, mid, s, pos);
    assert ItemAt(s, k + 1, depth, value, k + 1 + |e|);
    ValueSkips(s, k + 1, depth);
  }

  lemma KeyStands(key: string, kt: string, before: string, mid: string, s: string, pos: nat)
    requires KeyReads(key, kt) && Blanks(before) && Blanks(mid)
    requires Stands(s, pos, before + kt + mid) && pos + |before + kt + mid| < |s|
    requires s[pos + |before + kt + mid|] == ':'
    ensures var p := SkipBlank(s, pos);
      && p == pos + |before| && p < |s| && s[p] == '\"' && ParseString(s, p) == Piece(key, p + |kt|)
      && SkipBlank(s, p + |kt|) == pos + |before + kt + mid|
  {
    hide Stands, ParseString, SkipBlank, Blanks;
    var p := pos + |before|;
    StandsParts(s, pos, before + kt, mid);
    StandsParts(s, pos, before, kt);
    assert s[p] == '\"';
    SkipOver(s, pos, before);
    SkipOver(s, p + |kt|, mid);
  }

  /** A value is looked for behind the blanks. */
  lemma ValueSkips(s: string, pos: nat, depth: nat)
    ensures ReadValue(s, pos, depth) == ReadValue(s, SkipBlank(s, pos), depth)
  {
    if pos <= |s| { SkipTwice(s, pos); }
  }

  lemma {:induction false} SkipTwice(s: string, pos: nat)
    requires pos <= |s|
    ensures SkipBlank(s, SkipBlank(s, pos)) == SkipBlank(s, pos)
    decreases |s| - pos
  {
    if pos < |s| && Blank(s[pos]) { SkipTwice(s, pos + 1); }
  }

  lemma FieldReadsBack(key: string, value: Node, t: string, depth: nat)
    requires NoNul(key) && ReadsAs(value, t, depth)
    ensures FieldReadsAs(key, value, Quoted(key) + ":" + t, depth)
  {
    hide ReadsAs, ItemReads, KeyReads, FieldReadsAs, Quoted;
    QuotedReads(key);
    PaddedItem(value, t, "", "", depth);
    assert "" + t + "" == t;
    PaddedField(key, Quoted(key), "", "", value, t, depth);
    assert "" + Quoted(key) + "" + ":" + t == Quoted(key) + ":" + t;
  }

  lemma QuotedReads(key: string)
    requires NoNul(key)
    ensures KeyReads(key, Quoted(key))
  {
    forall s, pos: nat | Stands(s, pos, Quoted(key))
      ensures pos < |s| && s[pos] == '\"' && ParseString(s, pos) == Piece(key, pos + |Quoted(key)|)
    {
      StringRoundTrip(key, s, pos);
      StandsHead(s, pos, Quoted(key));
    }
  }

  lemma ObjectAt(keys: seq<string>, values: seq<Node>, s: string, pos: nat, next: nat, depth: nat)
    requires pos < |s| && s[pos] == '{' && depth <= MAX_DEPTH
    requires ReadFields(s, pos + 1, depth + 1, 0) == ParsedFields(keys, values, next)
    ensures ReadValue(s, pos, depth) == Parsed(Obj(keys, values), next)
  {
    assert ParseValue(s, pos, depth) == ParseAt(s, pos, depth);
  }

  /** The object loop, over any texts that are read as the fields. */
  lemma {:induction false} FieldsReadBack(keys: seq<string>, values: seq<Node>, fs: seq<string>, s: string, pos: nat,
                                          end: nat, depth: nat, count: nat)
    requires |keys| == |values| == |fs| && count + |keys| <= MAX_ENTRIES && JoinStands(fs, s, pos, end, '}')
    requires AllFieldsRead(keys, values, fs, depth)
    ensures ReadFields(s, pos, depth, count) == ParsedFields(keys, values, end + 1)
    decreases |keys|
  {
    hide ReadFields, FieldReadsAs;
    if keys == [] {
      NoField(s, pos, depth, count);
    } else {
      if |keys| > 1 {
        FirstStands(fs, s, pos, end, '}');
        FieldsReadBack(keys[1..], values[1..], fs[1..], s, pos + |fs[0]| + 1, end, depth, count + 1);
      }
      FirstFieldStep(keys, values, fs, s, pos, end, depth, count);
    }
  }

  lemma NoField(s: string, pos: nat, depth: nat, count: nat)
    requires pos < |s| && s[pos] == '}'
    ensures ReadFields(s, pos, depth, count) == ParsedFields([], [], pos + 1)
  {}

  /** The first field, when the fields behind it are read. */
  lemma FirstFieldStep(keys: seq<string>, values: seq<Node>, fs: seq<string>, s: string, pos: nat, end: nat,
                       depth: nat, count: nat)
    requires 0 < |keys| == |values| == |fs| && count + |keys| <= MAX_ENTRIES && JoinStands(fs, s, pos, end, '}')
    requires FieldReadsAs(keys[0], values[0], fs[0], depth)
    requires |keys| > 1 ==>
      ReadFields(s, pos + |fs[0]| + 1, depth, count + 1) == ParsedFields(keys[1..], values[1..], end + 1)
    ensures ReadFields(s, pos, depth, count) == ParsedFields(keys, values, end + 1)
  {
    hide Stands, FieldReads, ReadFields, FieldReadsAs, Join;
    FirstStands(fs, s, pos, end, '}');
    var k := FirstFieldReadsBack(keys[0], values[0], fs[0], s, pos, depth);
    FirstFieldThenRest(keys, values, s, pos, k, pos + |fs[0]|, end, depth, count);
  }

  lemma FirstFieldReadsBack(key: string, value: Node, f: string, s: string, pos: nat, depth: nat) returns (k: nat)
    requires FieldReadsAs(key, value, f, depth) && Stands(s, pos, f) && ClosesItem(s, pos + |f|)
    ensures FieldReads(s, pos, key, k, value, pos + |f|, depth)
  {
    var q := pos + |f|;
    assert FieldReadsTo(s, pos, key, value, q, depth);
    k :| FieldReads(s, pos, key, k, value, q, depth);
  }

  /** One turn of the object loop, for a first key ending at k and its value ending at q. */
  lemma FirstFieldThenRest(keys: seq<string>, values: seq<Node>, s: string, pos: nat, k: nat, q: nat, end: nat,
                           depth: nat, count: nat)
    requires 0 < |keys| == |values| && count + |keys| <= MAX_ENTRIES
    requires q <= end < |s| && FieldReads(s, pos, keys[0], k, values[0], q, depth)
    requires |keys| == 1 ==> q == end && s[end] == '}'
    requires |keys| > 1 ==>
      s[q] == ',' && ReadFields(s, q + 1, depth, count + 1) == ParsedFields(keys[1..], values[1..], end + 1)
    ensures ReadFields(s, pos, depth, count) == ParsedFields(keys, values, end + 1)
  {
    FieldTurn(s, pos, keys[0], k, values[0], q, depth, count);
    OneMoreIsAll(keys, values, end + 1);
  }

  lemma FieldTurn(s: string, pos: nat, key: string, k: nat, value: Node, q: nat, depth: nat, count: nat)
    requires q < |s| && FieldReads(s, pos, key, k, value, q, depth)
    ensures s[q] == '}' ==> ReadFields(s, pos, depth, count) == OneMore(key, value, ParsedFields([], [], q + 1))
    ensures s[q] == ',' && count + 1 < MAX_ENTRIES ==>
      ReadFields(s, pos, depth, count) == OneMore(key, value, ReadFields(s, q + 1, depth, count + 1))
  {
    assert [key] + [] == [key] && [value] + [] == [value];
  }

  ghost function OneMore(key: string, value: Node, rest: ParsedFields): ParsedFields {
    ParsedFields([key] + rest.keys, [value] + rest.values, rest.next)
  }

  lemma OneMoreIsAll(keys: seq<string>, values: seq<Node>, next: nat)
    requires 0 < |keys| == |values|
    ensures OneMore(keys[0], values[0], ParsedFields(keys[1..], values[1..], next)) == ParsedFields(keys, values, next)
  {
    assert keys == [keys[0]] + keys[1..] && values == [values[0]] + values[1..];
  }

  /** The round trip: every tree that fits is read back from what is printed for it, and
      the whole text is consumed. */
  lemma RoundTrip(n: Node)
    requires Fits(n, 0)
    ensures Parse(Text(n)) == n && ParseValue(Text(n), 0, 0).next == |Text(n)|
  {
    var s := Text(n);
    assert s[0..|s|] == s;
    TextReadsBack(n, 0);
    assert Stands(s, 0, s);
  }
}
