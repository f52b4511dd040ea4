/** The texts of RFC 8259, as they may be written, and the nodes stdlib/json.ep reads them
    as. Nothing here is defined by the parser. */
module JsonForms {
  import opened Strings
  import opened Utf8
  import opened Json
  import opened JsonLaws
  import opened JsonEscapes

  // ---------- forms ----------

  /** A piece of a string: a character as it is, a one-letter escape, or a scalar value
      spelled by \u escapes. */
  datatype AnyPart = Raw(c: char) | Short(c: char) | Point(x: string, cp: CodePoint)

  predicate GoodPart(p: AnyPart) {
    match p
    case Raw(c) => c != '\"' && c != '\\' && Code(c) >= 0x20
    case Short(c) => c in {'\"', '\\', '/', 'b', 'f', 'n', 'r', 't'}
    case Point(x, cp) => Scalar(cp) && Spells(x, cp)
  }

  type Part = p: AnyPart | GoodPart(p) witness Raw('a')

  datatype Form =
    | NullWord | TrueWord | FalseWord
    | Number(negative: bool, digits: string, fraction: string, exponent: string)
    | Chars(parts: seq<Part>)
    | Array(cells: seq<Cell>, gap: string)
    | Object(members: seq<Member>, gap: string)

  /** A value with the blanks around it. */
  datatype Cell = Cell(before: string, form: Form, after: string)

  datatype Member = Member(before: string, key: seq<Part>, mid: string, cell: Cell)

  predicate AllDigits(t: string) { t != "" && forall c :: c in t ==> IsDigit(c) }

  predicate GoodFraction(t: string) { t != "" ==> t[0] == '.' && AllDigits(t[1..]) }

  predicate GoodExponent(t: string) {
    t != "" ==> t[0] in {'e', 'E'} && (AllDigits(t[1..]) || (|t| > 1 && t[1] in {'+', '-'} && AllDigits(t[2..])))
  }

  /** Section 2 to 7 of RFC 8259. */
  ghost predicate Lawful(f: Form) {
    match f
    case Number(_, digits, fraction, exponent) =>
      AllDigits(digits) && (digits[0] == '0' ==> |digits| == 1) && GoodFraction(fraction) && GoodExponent(exponent)
    case Array(cells, gap) => Blanks(gap) && forall i :: 0 <= i < |cells| ==> LawfulCell(cells[i])
    case Object(members, gap) =>
      && Blanks(gap)
      && forall i :: 0 <= i < |members| ==>
           Blanks(members[i].before) && Blanks(members[i].mid) && LawfulCell(members[i].cell)
    case _ => true
  }

  ghost predicate LawfulCell(c: Cell) { Blanks(c.before) && Blanks(c.after) && Lawful(c.form) }

  // ---------- as they are written ----------

  function PartText(p: Part): string {
    match p
    case Raw(c) => [c]
    case Short(c) => ['\\', c]
    case Point(x, _) => x
  }

  function PartsText(parts: seq<Part>): string {
    if parts == [] then "" else PartText(parts[0]) + PartsText(parts[1..])
  }

  function CharsText(parts: seq<Part>): string { "\"" + PartsText(parts) + "\"" }

  function Written(f: Form): string
    decreases f, 1
  {
    match f
    case NullWord => "null"
    case TrueWord => "true"
    case FalseWord => "false"
    case Number(negative, digits, fraction, exponent) =>
      (if negative then "-" else "") + digits + fraction + exponent
    case Chars(parts) => CharsText(parts)
    case Array(cells, gap) => if cells == [] then "[" + gap + "]" else "[" + Join(CellTexts(cells), ",") + "]"
    case Object(members, gap) =>
      if members == [] then "{" + gap + "}" else "{" + Join(MemberTexts(members), ",") + "}"
  }

  function CellTexts(cells: seq<Cell>): (ts: seq<string>)
    ensures |ts| == |cells|
    decreases cells, 0
  {
    seq(|cells|, i requires 0 <= i < |cells| => CellText(cells[i]))
  }

  function CellText(c: Cell): string
    decreases c, 0
  {
    c.before + Written(c.form) + c.after
  }

  function MemberTexts(members: seq<Member>): (ts: seq<string>)
    ensures |ts| == |members|
    decreases members, 0
  {
    seq(|members|, i requires 0 <= i < |members| => MemberText(members[i]))
  }

  function MemberText(m: Member): string
    decreases m, 0
  {
    m.before + CharsText(m.key) + m.mid + ":" + CellText(m.cell)
  }

  // ---------- and what they mean ----------

  function PartMeans(p: Part): string {
    match p
    case Raw(c) => [c]
    case Short('b') => [8 as char]
    case Short('f') => [12 as char]
    case Short('n') => "\n"
    case Short('r') => "\r"
    case Short('t') => "\t"
    case Short(c) => [c]
    case Point(_, cp) => Encode(cp)
  }

  function PartsMean(parts: seq<Part>): string {
    if parts == [] then "" else PartMeans(parts[0]) + PartsMean(parts[1..])
  }

  /** true and false are the numbers 1 and 0, a number is its whole part, and a string ends
      at its first zero byte. */
  function Meant(f: Form): Node
    decreases f, 1
  {
    match f
    case NullWord => Null
    case TrueWord => Int(1)
    case FalseWord => Int(0)
    case Number(negative, digits, _, _) => Int(if negative then 0 - DigitsValue(digits) as int else DigitsValue(digits))
    case Chars(parts) => Str(CutAtNul(PartsMean(parts)))
    case Array(cells, _) => List(CellsMean(cells))
    case Object(members, _) => Obj(Keys(members), ValuesMean(members))
  }

  function CellsMean(cells: seq<Cell>): (ns: seq<Node>)
    ensures |ns| == |cells|
    decreases cells, 0
  {
    seq(|cells|, i requires 0 <= i < |cells| => Meant(cells[i].form))
  }

  function Keys(members: seq<Member>): (ks: seq<string>)
    ensures |ks| == |members|
  {
    seq(|members|, i requires 0 <= i < |members| => CutAtNul(PartsMean(members[i].key)))
  }

  function ValuesMean(members: seq<Member>): (ns: seq<Node>)
    ensures |ns| == |members|
    decreases members, 0
  {
    seq(|members|, i requires 0 <= i < |members| => Meant(members[i].cell.form))
  }

  /** Within the bounds of the parser, the outermost value at nesting level depth. */
  ghost predicate InBounds(f: Form, depth: nat)
    decreases f
  {
    depth <= 100 &&
    match f
    case Number(_, digits, _, _) => DigitsValue(digits) <= 9223372036854775799
    case Array(cells, _) =>
      |cells| <= 1000000 && forall i :: 0 <= i < |cells| ==> InBounds(cells[i].form, depth + 1)
    case Object(members, _) =>
      |members| <= 1000000 && forall i :: 0 <= i < |members| ==> InBounds(members[i].cell.form, depth + 1)
    case _ => true
  }

  // ---------- strings ----------

  lemma PartReads(p: Part, s: string, pos: nat)
    requires Stands(s, pos, PartText(p))
    ensures pos < |s| && s[pos] != '\"' && PieceAt(s, pos) == Piece(PartMeans(p), pos + |PartText(p)|)
  {
    hide Encode, Spells;
    match p
    case Point(x, cp) => SpelledPiece(s, pos, x, cp);
    case Raw(c) => StandsHead(s, pos, [c]);
    case Short(c) =>
      StandsHead(s, pos, ['\\', c]);
      assert s[pos + 1] == s[pos..pos + 2][1];
  }

  lemma {:induction false} PartsRead(parts: seq<Part>, s: string, pos: nat)
    requires Stands(s, pos, PartsText(parts) + "\"")
    ensures Scan(s, pos) == Piece(PartsMean(parts), pos + |PartsText(parts)| + 1)
    decreases |parts|
  {
    hide Scan, PieceAt, PartText, PartMeans, Stands;
    if parts == [] {
      assert PartsText(parts) + "\"" == "\"";
      QuoteEnds(s, pos);
    } else {
      var t, rest := PartText(parts[0]), PartsText(parts[1..]);
      assert PartsText(parts) + "\"" == t + (rest + "\"");
      StandsParts(s, pos, t, rest + "\"");
      PartsRead(parts[1..], s, pos + |t|);
      PartReads(parts[0], s, pos);
      ScanStep(s, pos, Piece(PartMeans(parts[0]), pos + |t|), Scan(s, pos + |t|));
    }
  }

  lemma CharsRead(parts: seq<Part>)
    ensures KeyReads(CutAtNul(PartsMean(parts)), CharsText(parts))
  {
    var t := CharsText(parts);
    forall s, pos: nat | Stands(s, pos, t)
      ensures pos < |s| && s[pos] == '\"' && ParseString(s, pos) == Piece(CutAtNul(PartsMean(parts)), pos + |t|)
    {
      assert t == "\"" + (PartsText(parts) + "\"");
      StandsParts(s, pos, "\"", PartsText(parts) + "\"");
      StandsHead(s, pos, "\"");
      PartsRead(parts, s, pos + 1);
    }
  }

  // ---------- numbers ----------

  /** Digits whose number is in bounds are never clamped. */
  lemma {:induction false} NotClamped(digits: string)
    requires DigitsValue(digits) <= MAX_INT
    ensures Clamped(digits) == DigitsValue(digits)
  {
    if digits != "" { NotClamped(digits[..|digits| - 1]); }
  }

  lemma FourStand(a: string, b: string, c: string, d: string, s: string, pos: nat)
    requires Stands(s, pos, a + b + c + d)
    ensures Stands(s, pos, a) && Stands(s, pos + |a|, b) && Stands(s, pos + |a| + |b|, c)
    ensures Stands(s, pos + |a| + |b| + |c|, d) && pos + |a| + |b| + |c| + |d| <= |s|
  {
    StandsParts(s, pos, a + b + c, d);
    StandsParts(s, pos, a + b, c);
    StandsParts(s, pos, a, b);
  }

  /** The parts of a number, one behind the other, are found. */
  lemma NumberParts(sign: string, digits: string, fraction: string, exponent: string, s: string, pos: nat)
    requires sign in {"", "-"} && AllDigits(digits) && GoodFraction(fraction) && GoodExponent(exponent)
    requires Stands(s, pos, sign + digits + fraction + exponent)
    requires Closed(s, pos + |sign| + |digits| + |fraction| + |exponent|)
    ensures var start, a, b := pos + |sign|, pos + |sign| + |digits|, pos + |sign| + |digits| + |fraction|;
      && a <= |s| && b <= |s| && start < |s| && IsDigit(s[start]) && (sign == "-" ==> s[pos] == '-')
      && DigitsEnd(s, start) == a && s[start..a] == digits
      && AfterFraction(s, a) == b && AfterExponent(s, b) == b + |exponent|
  {
    hide Closed, Stands, DigitsEnd, GoodFraction, GoodExponent, AllDigits, AfterFraction, AfterExponent;
    FourStand(sign, digits, fraction, exponent, s, pos);
    ExponentReads(exponent, s, pos + |sign| + |digits| + |fraction|);
    FractionReads(fraction, s, pos + |sign| + |digits|);
    WholeReads(digits, s, pos + |sign|);
    if sign == "-" { StandsHead(s, pos, sign); }
  }

  lemma NumberReads(f: Form, s: string, pos: nat)
    requires f.Number? && Lawful(f) && DigitsValue(f.digits) <= MAX_INT
    requires Stands(s, pos, Written(f)) && Closed(s, pos + |Written(f)|)
    ensures pos < |s| && (IsDigit(s[pos]) || s[pos] == '-')
    ensures ParseNumber(s, pos) == Parsed(Meant(f), pos + |Written(f)|)
  {
    hide Stands, Closed, DigitsEnd, Clamped, DigitsValue, GoodFraction, GoodExponent, AllDigits, AfterFraction;
    hide AfterExponent, ParseNumber, Meant;
    var sign := if f.negative then "-" else "";
    NumberParts(sign, f.digits, f.fraction, f.exponent, s, pos);
    NumberIs(f, s, pos, pos + |sign|);
  }

  /** The number, its parts having been found. */
  lemma NumberIs(f: Form, s: string, pos: nat, start: nat)
    requires f.Number? && DigitsValue(f.digits) <= MAX_INT
    requires pos <= start < |s| && start == (if f.negative then pos + 1 else pos)
    requires (s[pos] == '-') == f.negative && start + |f.digits| <= |s|
    requires DigitsEnd(s, start) == start + |f.digits| && s[start..start + |f.digits|] == f.digits
    requires AfterFraction(s, start + |f.digits|) == start + |f.digits| + |f.fraction| <= |s|
    requires AfterExponent(s, start + |f.digits| + |f.fraction|) == pos + |Written(f)|
    ensures ParseNumber(s, pos) == Parsed(Meant(f), pos + |Written(f)|)
  {
    hide DigitsEnd, AfterFraction, AfterExponent, Clamped, DigitsValue;
    NotClamped(f.digits);
  }

  lemma WholeReads(digits: string, s: string, start: nat)
    requires AllDigits(digits) && Stands(s, start, digits)
    requires start + |digits| < |s| ==> !IsDigit(s[start + |digits|])
    ensures start < |s| && IsDigit(s[start]) && DigitsEnd(s, start) == start + |digits|
    ensures s[start..start + |digits|] == digits
  {
    StandsHead(s, start, digits);
    assert digits[0] in digits;
    DigitsStand(s, start, digits);
  }

  lemma ExponentReads(t: string, s: string, p: nat)
    requires GoodExponent(t) && Stands(s, p, t) && Closed(s, p + |t|) && p <= |s|
    ensures AfterExponent(s, p) == p + |t|
    ensures p < |s| ==> !IsDigit(s[p]) && s[p] != '.'
  {
    hide DigitsEnd;
    if p + |t| < |s| { ClosedIsNoDigit(s, p + |t|); }
    if t != "" {
      StandsHead(s, p, t);
      var n := if AllDigits(t[1..]) then 1 else 2;
      assert t == t[..n] + t[n..];
      StandsParts(s, p, t[..n], t[n..]);
      WholeReads(t[n..], s, p + n);
      if n == 2 { assert s[p + 1] == s[p..p + 2][1]; }
    }
  }

  lemma FractionReads(t: string, s: string, p: nat)
    requires GoodFraction(t) && Stands(s, p, t) && p <= |s|
    requires p + |t| < |s| ==> !IsDigit(s[p + |t|]) && s[p + |t|] != '.'
    ensures AfterFraction(s, p) == p + |t|
    ensures p < |s| ==> !IsDigit(s[p])
  {
    hide DigitsEnd;
    if t != "" {
      StandsHead(s, p, t);
      assert t == t[..1] + t[1..];
      StandsParts(s, p, t[..1], t[1..]);
      WholeReads(t[1..], s, p + 1);
    }
  }

  // ---------- values ----------

  lemma WordReads(word: string, n: Node, depth: nat)
    requires depth <= MAX_DEPTH
    requires (word == "null" && n == Null) || (word == "true" && n == Int(1)) || (word == "false" && n == Int(0))
    ensures ReadsAs(n, word, depth)
  {
    forall s, pos: nat | Stands(s, pos, word) && Closed(s, pos + |word|)
      ensures ReadValue(s, pos, depth) == Parsed(n, pos + |word|)
    {
      StandsHead(s, pos, word);
      assert ParseValue(s, pos, depth) == ParseAt(s, pos, depth);
    }
  }

  lemma NumberFormReads(f: Form, depth: nat)
    requires f.Number? && Lawful(f) && InBounds(f, depth)
    ensures ReadsAs(Meant(f), Written(f), depth)
  {
    hide Stands, Closed, ReadValue, Meant, DigitsValue, ParseNumber;
    NumberOpens(f);
    forall s, pos: nat | Stands(s, pos, Written(f)) && Closed(s, pos + |Written(f)|)
      ensures ReadValue(s, pos, depth) == Parsed(Meant(f), pos + |Written(f)|)
    {
      NumberReads(f, s, pos);
      LeafAt(Null, s, pos, depth);
    }
  }

  lemma NumberOpens(f: Form)
    requires f.Number? && Lawful(f)
    ensures Written(f) != "" && (IsDigit(Written(f)[0]) || Written(f)[0] == '-')
  {
    assert f.digits[0] in f.digits;
  }

  lemma CharsOpen(parts: seq<Part>)
    ensures CharsText(parts) != "" && CharsText(parts)[0] == '\"'
  {}

  lemma CharsFormReads(parts: seq<Part>, depth: nat)
    requires depth <= MAX_DEPTH
    ensures ReadsAs(Meant(Chars(parts)), CharsText(parts), depth)
  {
    hide Stands, Closed, ReadValue, ParseString, PartsMean, CutAtNul, CharsText;
    assert CharsText(parts) != "" && CharsText(parts)[0] == '\"' by { CharsOpen(parts); }
    var key, t := CutAtNul(PartsMean(parts)), CharsText(parts);
    CharsRead(parts);
    forall s, pos: nat | Stands(s, pos, t) && Closed(s, pos + |t|)
      ensures ReadValue(s, pos, depth) == Parsed(Str(key), pos + |t|)
    {
      LeafAt(Null, s, pos, depth);
    }
  }

  lemma EmptyArrayReads(gap: string, depth: nat)
    requires depth <= MAX_DEPTH && Blanks(gap)
    ensures ReadsAs(List([]), "[" + gap + "]", depth)
  {
    var t := "[" + gap + "]";
    forall s, pos: nat | Stands(s, pos, t) && Closed(s, pos + |t|)
      ensures ReadValue(s, pos, depth) == Parsed(List([]), pos + |t|)
    {
      Bracketed(s, pos, "[", gap, "]");
      SkipOver(s, pos + 1, gap);
      assert ReadItems(s, pos + 1, depth + 1, 0) == ParsedItems([], pos + |t|);
      ListAt([], s, pos, pos + |t|, depth);
    }
  }

  lemma EmptyObjectReads(gap: string, depth: nat)
    requires depth <= MAX_DEPTH && Blanks(gap)
    ensures ReadsAs(Obj([], []), "{" + gap + "}", depth)
  {
    var t := "{" + gap + "}";
    forall s, pos: nat | Stands(s, pos, t) && Closed(s, pos + |t|)
      ensures ReadValue(s, pos, depth) == Parsed(Obj([], []), pos + |t|)
    {
      Bracketed(s, pos, "{", gap, "}");
      SkipOver(s, pos + 1, gap);
      assert ReadFields(s, pos + 1, depth + 1, 0) == ParsedFields([], [], pos + |t|);
      ObjectAt([], [], s, pos, pos + |t|, depth);
    }
  }

  lemma CellTextIs(c: Cell)
    ensures CellText(c) == c.before + Written(c.form) + c.after
  {}

  lemma ArrayReads(cells: seq<Cell>, gap: string, depth: nat)
    requires Lawful(Array(cells, gap)) && depth <= MAX_DEPTH && |cells| <= MAX_ENTRIES
    requires forall i :: 0 <= i < |cells| ==> ReadsAs(Meant(cells[i].form), Written(cells[i].form), depth + 1)
    ensures ReadsAs(Meant(Array(cells, gap)), Written(Array(cells, gap)), depth)
  {
    hide ReadsAs, ItemReads, Blanks;
    if cells == [] {
      EmptyArrayReads(gap, depth);
      assert CellsMean(cells) == [];
    } else {
      var items, ts := CellsMean(cells), CellTexts(cells);
      forall i | 0 <= i < |cells|
        ensures ItemReads(items[i], ts[i], depth + 1)
      {
        PaddedItem(items[i], Written(cells[i].form), cells[i].before, cells[i].after, depth + 1);
        CellTextIs(cells[i]);
      }
      GatherItems(items, ts, depth + 1);
      ItemTextsReadBack(items, ts, depth);
    }
  }

  lemma ObjectReads(members: seq<Member>, gap: string, depth: nat)
    requires Lawful(Object(members, gap)) && depth <= MAX_DEPTH && |members| <= MAX_ENTRIES
    requires forall i :: 0 <= i < |members| ==>
      ReadsAs(Meant(members[i].cell.form), Written(members[i].cell.form), depth + 1)
    ensures ReadsAs(Meant(Object(members, gap)), Written(Object(members, gap)), depth)
  {
    hide ReadsAs, ItemReads, Blanks, KeyReads, FieldReadsAs;
    var keys, values, fs := Keys(members), ValuesMean(members), MemberTexts(members);
    if members == [] {
      EmptyObjectReads(gap, depth);
      assert keys == [] && values == [];
    } else {
      forall i | 0 <= i < |members|
        ensures FieldReadsAs(keys[i], values[i], fs[i], depth + 1)
      {
        MemberReads(members[i], depth + 1);
      }
      GatherFields(keys, values, fs, depth + 1);
      FieldTextsReadBack(keys, values, fs, depth);
    }
  }

  lemma MemberReads(m: Member, depth: nat)
    requires Blanks(m.before) && Blanks(m.mid) && LawfulCell(m.cell)
    requires ReadsAs(Meant(m.cell.form), Written(m.cell.form), depth)
    ensures FieldReadsAs(CutAtNul(PartsMean(m.key)), Meant(m.cell.form), MemberText(m), depth)
  {
    hide ReadsAs, ItemReads, Blanks, KeyReads, FieldReadsAs, CharsText;
    CharsRead(m.key);
    PaddedItem(Meant(m.cell.form), Written(m.cell.form), m.cell.before, m.cell.after, depth);
    var key, value := CutAtNul(PartsMean(m.key)), Meant(m.cell.form);
    PaddedField(key, CharsText(m.key), m.before, m.mid, value, CellText(m.cell), depth);
  }

  /** Every lawful form within the bounds is read as what it means, wherever a value may
      stand. */
  lemma {:induction false} FormReads(f: Form, depth: nat)
    requires Lawful(f) && InBounds(f, depth)
    ensures ReadsAs(Meant(f), Written(f), depth)
    decreases f
  {
    hide ReadsAs;
    match f
    case NullWord => WordReads("null", Null, depth);
    case TrueWord => WordReads("true", Int(1), depth);
    case FalseWord => WordReads("false", Int(0), depth);
    case Number(_, _, _, _) => NumberFormReads(f, depth);
    case Chars(parts) => CharsFormReads(parts, depth);
    case Array(cells, gap) =>
      forall i | 0 <= i < |cells|
        ensures ReadsAs(Meant(cells[i].form), Written(cells[i].form), depth + 1)
      {
        FormReads(cells[i].form, depth + 1);
      }
      ArrayReads(cells, gap, depth);
    case Object(members, gap) =>
      forall i | 0 <= i < |members|
        ensures ReadsAs(Meant(members[i].cell.form), Written(members[i].cell.form), depth + 1)
      {
        FormReads(members[i].cell.form, depth + 1);
      }
      ObjectReads(members, gap, depth);
  }

  /** Every text of RFC 8259 within the bounds of the parser, any blanks, escapes, fractions
      and exponents in it: it is read as what it means, and to its end but for blanks. */
  lemma LawfulTextReads(before: string, f: Form, after: string)
    requires Blanks(before) && Blanks(after) && Lawful(f) && InBounds(f, 0)
    ensures var s := before + Written(f) + after;
      Parse(s) == Meant(f) && ParseValue(s, 0, 0).next == |before + Written(f)|
  {
    hide ReadValue, Stands, SkipBlank, Written, Meant;
    var t := Written(f);
    var s := before + t + after;
    FormReads(f, 0);
    WholeStands(before, t, after);
    if after != "" { assert s[|before + t|] == after[0] && after[0] in after; }
    BlanksBefore(s, 0, before, t);
    ValueSkips(s, 0, 0);
    AsRead(s, 0);
  }

  lemma WholeStands(before: string, t: string, after: string)
    ensures Stands(before + t + after, 0, before + t)
  {
    assert (before + t + after)[0..|before + t|] == before + t;
  }

  lemma AsRead(s: string, depth: nat)
    ensures ReadValue(s, 0, depth) == ParseValue(s, 0, depth)
  {}

  // ---------- what is printed ----------

  predicate NoControls(t: string) { forall c :: c in t ==> Code(c) >= 0x20 }

  /** No control character but line feed, carriage return and tab. */
  predicate Printable(t: string) { forall c :: c in t ==> Code(c) >= 0x20 || c in {'\n', '\r', '\t'} }

  ghost predicate AllPrintable(n: Node)
    decreases n
  {
    match n
    case Str(t) => Printable(t)
    case List(items) => forall i :: 0 <= i < |items| ==> AllPrintable(items[i])
    case Obj(keys, values) =>
      && (forall i :: 0 <= i < |keys| ==> Printable(keys[i]))
      && forall i :: 0 <= i < |values| && i < |keys| ==> AllPrintable(values[i])
    case _ => true
  }

  lemma ControlsOfBoth(a: string, b: string)
    ensures NoControls(a + b) <==> NoControls(a) && NoControls(b)
  {
    assert forall c :: c in a + b <==> c in a || c in b;
  }

  lemma {:induction false} EscapedControls(t: string)
    ensures NoControls(Escape(t)) <==> Printable(t)
  {
    if t != "" {
      EscapedControls(t[1..]);
      ControlsOfBoth(EscapeChar(t[0]), Escape(t[1..]));
      assert NoControls(EscapeChar(t[0])) <==> Code(t[0]) >= 0x20 || t[0] in {'\n', '\r', '\t'} by {
        assert EscapeChar(t[0]) == [t[0]] ==> t[0] in EscapeChar(t[0]);
      }
      assert t == [t[0]] + t[1..];
    }
  }

  lemma QuotedControls(t: string)
    ensures NoControls(Quoted(t)) <==> Printable(t)
  {
    EscapedControls(t);
    ControlsOfBoth("\"" + Escape(t), "\"");
    ControlsOfBoth("\"", Escape(t));
  }

  /** A printed text holds no control character, as section 7 asks, exactly when no string
      in it held one besides line feeds, carriage returns and tabs, which are escaped. */
  lemma {:induction false} TextControls(n: Node)
    ensures NoControls(Text(n)) <==> AllPrintable(n)
    decreases n, 1
  {
    match n
    case Null =>
    case Int(k) => assert forall c :: c in IntToString(k) ==> IsDigit(c) || c == '-';
    case Str(t) => QuotedControls(t);
    case List(items) =>
      ItemsControls(items);
      ControlsOfBoth("[" + ItemsText(items), "]");
      ControlsOfBoth("[", ItemsText(items));
    case Obj(keys, values) =>
      FieldsControls(keys, values);
      ControlsOfBoth("{" + FieldsText(keys, values), "}");
      ControlsOfBoth("{", FieldsText(keys, values));
  }

  lemma {:induction false} ItemsControls(items: seq<Node>)
    ensures NoControls(ItemsText(items)) <==> forall i :: 0 <= i < |items| ==> AllPrintable(items[i])
    decreases items, 0
  {
    if items != [] {
      TextControls(items[0]);
      if |items| > 1 {
        ItemsControls(items[1..]);
        ControlsOfBoth(Text(items[0]) + ",", ItemsText(items[1..]));
        ControlsOfBoth(Text(items[0]), ",");
        assert forall i :: 0 < i < |items| ==> items[1..][i - 1] == items[i];
      }
    }
  }

  lemma {:induction false} FieldsControls(keys: seq<string>, values: seq<Node>)
    ensures NoControls(FieldsText(keys, values)) <==>
      && (forall i :: 0 <= i < |keys| ==> Printable(keys[i]))
      && forall i :: 0 <= i < |values| && i < |keys| ==> AllPrintable(values[i])
    decreases values, 0, |keys|
  {
    if keys != [] {
      var value := if values == [] then "null" else Text(values[0]);
      if values != [] { TextControls(values[0]); }
      QuotedControls(keys[0]);
      var field := Quoted(keys[0]) + ":" + value;
      ControlsOfBoth(Quoted(keys[0]) + ":", value);
      ControlsOfBoth(Quoted(keys[0]), ":");
      if |keys| > 1 {
        var others := if values == [] then [] else values[1..];
        FieldsControls(keys[1..], others);
        ControlsOfBoth(field + ",", FieldsText(keys[1..], others));
        ControlsOfBoth(field, ",");
        assert forall i :: 0 < i < |keys| ==> keys[1..][i - 1] == keys[i];
        assert forall i :: 0 < i < |values| ==> others[i - 1] == values[i];
      }
    }
  }
}
