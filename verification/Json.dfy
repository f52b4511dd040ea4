/** stdlib/json.ep: the printer and the recursive-descent parser.

    The parser's loops and mutual recursion over one mutable state are methods of Parser;
    each is proved to compute the function of the same part of the grammar below it, and
    the laws are proved about the functions. */
module Json {
  import opened Strings
  import opened Utf8

  /** A list node keeps its values by position, an object two lists side by side; Null is
      the address zero. */
  datatype Node = Null | Int(n: int) | Str(s: string) | List(items: seq<Node>)
    | Obj(keys: seq<string>, values: seq<Node>)

  const MAX_DEPTH: nat := 100
  const MAX_ENTRIES: nat := 1000000
  const CLAMP: int := 922337203685477580
  const MAX_INT: int := 9223372036854775799

  // ---------- printing ----------

  function EscapeChar(c: char): string {
    match c
    case '\"' => "\\\""
    case '\\' => "\\\\"
    case '\n' => "\\n"
    case '\r' => "\\r"
    case '\t' => "\\t"
    case _ => [c]
  }

  function Escape(s: string): string {
    if s == "" then "" else EscapeChar(s[0]) + Escape(s[1..])
  }

  function Quoted(s: string): string { "\"" + Escape(s) + "\"" }

  function Text(n: Node): string
    decreases n, 1
  {
    match n
    case Null => "null"
    case Int(k) => IntToString(k)
    case Str(s) => Quoted(s)
    case List(items) => "[" + ItemsText(items) + "]"
    case Obj(keys, values) => "{" + FieldsText(keys, values) + "}"
  }

  function ItemsText(items: seq<Node>): string
    decreases items, 0
  {
    if items == [] then ""
    else if |items| == 1 then Text(items[0])
    else Text(items[0]) + "," + ItemsText(items[1..])
  }

  /** A key without a value prints null, as reading past the end of a list gives 0. */
  function FieldsText(keys: seq<string>, values: seq<Node>): string
    decreases values, 0, |keys|
  {
    if keys == [] then ""
    else
      var value := if values == [] then "null" else Text(values[0]);
      var field := Quoted(keys[0]) + ":" + value;
      if |keys| == 1 then field
      else field + "," + FieldsText(keys[1..], if values == [] then [] else values[1..])
  }

  // ---------- parsing, as functions of text and cursor ----------

  predicate Blank(c: char) { c in {' ', '\t', '\n', '\r'} }

  function SkipBlank(s: string, pos: nat): (r: nat)
    ensures r >= pos && (pos <= |s| ==> r <= |s|)
    decreases |s| - pos
  {
    if pos < |s| && Blank(s[pos]) then SkipBlank(s, pos + 1) else pos
  }

  function HexVal(c: char): int {
    if '0' <= c <= '9' then Code(c) - 48
    else if 'a' <= c <= 'f' then Code(c) - 87
    else if 'A' <= c <= 'F' then Code(c) - 55
    else -1
  }

  /** Four hex digits at p, or -1. */
  function Hex4(s: string, p: nat): (r: int)
    ensures -1 <= r < 65536 && (r >= 0 ==> p + 4 <= |s|)
  {
    if p + 3 >= |s| then -1
    else
      var h0, h1, h2, h3 := HexVal(s[p]), HexVal(s[p + 1]), HexVal(s[p + 2]), HexVal(s[p + 3]);
      if h0 < 0 || h1 < 0 || h2 < 0 || h3 < 0 then -1
      else (h0 * 4096 + h1 * 256) + (h2 * 16 + h3)
  }

  datatype Piece = Piece(text: string, next: nat)

  /** A \u escape whose hex digits start at p: a low surrogate right behind a high one
      joins it. */
  function Unicode(s: string, p: nat, cp: int): (r: Piece)
    requires 0 <= cp < 65536 && p + 4 <= |s|
    ensures p + 4 <= r.next <= |s|
  {
    var q := p + 4;
    if 0xD800 <= cp <= 0xDBFF && q + 1 < |s| && s[q] == '\\' && s[q + 1] == 'u'
       && 0xDC00 <= Hex4(s, q + 2) <= 0xDFFF then
      Piece(Encode(65536 + ((cp - 0xD800) * 1024 + (Hex4(s, q + 2) - 0xDC00))), q + 6)
    else Piece(Encode(cp), q)
  }

  /** What the character or escape at pos stands for, and the cursor after it. */
  function PieceAt(s: string, pos: nat): (r: Piece)
    requires pos < |s|
    ensures pos < r.next <= |s|
  {
    if s[pos] != '\\' then Piece([s[pos]], pos + 1)
    else if pos + 1 >= |s| then Piece("", pos + 1)
    else
      match s[pos + 1]
      case 'n' => Piece("\n", pos + 2)
      case 't' => Piece("\t", pos + 2)
      case 'r' => Piece("\r", pos + 2)
      case 'b' => Piece([8 as char], pos + 2)
      case 'f' => Piece([12 as char], pos + 2)
      case 'u' => if Hex4(s, pos + 2) < 0 then Piece("u", pos + 2) else Unicode(s, pos + 2, Hex4(s, pos + 2))
      case c => Piece([c], pos + 2)
  }

  /** The text up to the closing quote or the end. */
  function Scan(s: string, pos: nat): (r: Piece)
    requires pos <= |s|
    ensures pos <= r.next <= |s|
    decreases |s| - pos
  {
    if pos == |s| then Piece("", pos)
    else if s[pos] == '\"' then Piece("", pos + 1)
    else
      var piece := PieceAt(s, pos);
      var rest := Scan(s, piece.next);
      Piece(piece.text + rest.text, rest.next)
  }

  /** A C string ends at its first zero byte. */
  function CutAtNul(s: string): string {
    if s == "" || s[0] == '\0' then "" else [s[0]] + CutAtNul(s[1..])
  }

  function ParseString(s: string, pos: nat): (r: Piece)
    requires pos < |s|
    ensures pos < r.next <= |s|
  {
    var scanned := Scan(s, pos + 1);
    Piece(CutAtNul(scanned.text), scanned.next)
  }

  function DigitsEnd(s: string, pos: nat): (r: nat)
    requires pos <= |s|
    ensures pos <= r <= |s|
    ensures forall i :: pos <= i < r ==> IsDigit(s[i])
    ensures r < |s| ==> !IsDigit(s[r])
    decreases |s| - pos
  {
    if pos < |s| && IsDigit(s[pos]) then DigitsEnd(s, pos + 1) else pos
  }

  /** The value of digits, no longer growing once it reaches CLAMP. */
  function Clamped(digits: string): nat {
    if digits == "" then 0
    else
      var v := Clamped(digits[..|digits| - 1]);
      var c := digits[|digits| - 1];
      if v < CLAMP && IsDigit(c) then v * 10 + (Code(c) - 48) else v
  }

  function AfterFraction(s: string, pos: nat): (r: nat)
    requires pos <= |s|
    ensures pos <= r <= |s|
  {
    if pos < |s| && s[pos] == '.' then DigitsEnd(s, pos + 1) else pos
  }

  function AfterExponent(s: string, pos: nat): (r: nat)
    requires pos <= |s|
    ensures pos <= r <= |s|
  {
    if pos < |s| && s[pos] in {'e', 'E'} then
      DigitsEnd(s, if pos + 1 < |s| && s[pos + 1] in {'+', '-'} then pos + 2 else pos + 1)
    else pos
  }

  datatype Parsed = Parsed(node: Node, next: nat)

  function ParseNumber(s: string, pos: nat): (r: Parsed)
    requires pos < |s|
    ensures pos <= r.next <= |s|
    ensures IsDigit(s[pos]) || s[pos] == '-' ==> pos < r.next
  {
    var negative := s[pos] == '-';
    var start := if negative then pos + 1 else pos;
    var end := DigitsEnd(s, start);
    var v := Clamped(s[start..end]);
    Parsed(Int(if negative then 0 - v as int else v as int), AfterExponent(s, AfterFraction(s, end)))
  }

  predicate WordAt(s: string, pos: nat, word: string) { pos + |word| <= |s| && s[pos..pos + |word|] == word }

  /** null, true and false; true and false are the numbers 1 and 0. Anything else is
      taken for null and not consumed. */
  function ParseWord(s: string, p: nat): (r: Parsed)
    requires p < |s|
    ensures p <= r.next <= |s|
  {
    if s[p] == 'n' && WordAt(s, p, "null") then Parsed(Null, p + 4)
    else if s[p] == 't' && WordAt(s, p, "true") then Parsed(Int(1), p + 4)
    else if s[p] == 'f' && WordAt(s, p, "false") then Parsed(Int(0), p + 5)
    else Parsed(Null, p)
  }

  function ParseValue(s: string, pos: nat, depth: nat): (r: Parsed)
    requires pos <= |s|
    ensures pos <= r.next <= |s|
    decreases |s| - pos, 1
  {
    var p := SkipBlank(s, pos);
    if p >= |s| || depth > MAX_DEPTH then Parsed(Null, p) else ParseAt(s, p, depth)
  }

  /** A value whose first character is at p. */
  function ParseAt(s: string, p: nat, depth: nat): (r: Parsed)
    requires p < |s|
    ensures p <= r.next <= |s|
    decreases |s| - p, 0
  {
    if s[p] == '{' then
      var f := ParseFields(s, p + 1, depth + 1, 0);
      Parsed(Obj(f.keys, f.values), f.next)
    else if s[p] == '[' then
      var l := ParseItems(s, p + 1, depth + 1, 0);
      Parsed(List(l.items), l.next)
    else if s[p] == '\"' then
      var t := ParseString(s, p);
      Parsed(Str(t.text), t.next)
    else if IsDigit(s[p]) || s[p] == '-' then ParseNumber(s, p)
    else ParseWord(s, p)
  }

  datatype ParsedItems = ParsedItems(items: seq<Node>, next: nat)

  /** The items from pos on, count of them having been read. */
  function ParseItems(s: string, pos: nat, depth: nat, count: nat): (r: ParsedItems)
    requires pos <= |s|
    ensures pos <= r.next <= |s|
    decreases |s| - pos, 2
  {
    var p := SkipBlank(s, pos);
    if p >= |s| then ParsedItems([], p)
    else if s[p] == ']' then ParsedItems([], p + 1)
    else
      var v := ParseValue(s, p, depth);
      var q := SkipBlank(s, v.next);
      if q >= |s| then ParsedItems([v.node], q)
      else if s[q] == ',' && count + 1 < MAX_ENTRIES then
        var rest := ParseItems(s, q + 1, depth, count + 1);
        ParsedItems([v.node] + rest.items, rest.next)
      else ParsedItems([v.node], if s[q] in {',', ']'} then q + 1 else q)
  }

  datatype ParsedFields = ParsedFields(keys: seq<string>, values: seq<Node>, next: nat)

  function ParseFields(s: string, pos: nat, depth: nat, count: nat): (r: ParsedFields)
    requires pos <= |s|
    ensures pos <= r.next <= |s|
    decreases |s| - pos, 2
  {
    var p := SkipBlank(s, pos);
    if p >= |s| then ParsedFields([], [], p)
    else if s[p] == '}' then ParsedFields([], [], p + 1)
    else
      var key := ParseString(s, p);
      var k := SkipBlank(s, key.next);
      if k >= |s| then ParsedFields([], [], k)
      else
        var v := ParseValue(s, if s[k] == ':' then k + 1 else k, depth);
        var q := SkipBlank(s, v.next);
        if q >= |s| then ParsedFields([key.text], [v.node], q)
        else if s[q] == ',' && count + 1 < MAX_ENTRIES then
          var rest := ParseFields(s, q + 1, depth, count + 1);
          ParsedFields([key.text] + rest.keys, [v.node] + rest.values, rest.next)
        else ParsedFields([key.text], [v.node], if s[q] in {',', '}'} then q + 1 else q)
  }

  function Parse(s: string): Node { ParseValue(s, 0, 0).node }

  // ---------- the parser itself ----------

  /** The state list of the parser: the text, its length, the cursor and the depth. */
  class Parser {
    const s: string
    var pos: nat
    var depth: nat

    constructor (text: string)
      ensures s == text && pos == 0 && depth == 0
    {
      s, pos, depth := text, 0, 0;
    }

    method SkipWhitespace()
      modifies this
      ensures pos == SkipBlank(s, old(pos)) && depth == old(depth)
    {
      var p, loop := pos, true;
      while p < |s| && loop
        invariant SkipBlank(s, p) == SkipBlank(s, pos) && (!loop ==> SkipBlank(s, p) == p)
        decreases |s| - p, loop
      {
        if Blank(s[p]) { p := p + 1; } else { loop := false; }
      }
      pos := p;
    }

    method StringNode() returns (value: string)
      requires pos < |s|
      modifies this
      ensures Piece(value, pos) == ParseString(s, old(pos)) && depth == old(depth)
    {
      var p, lst, loop := pos + 1, "", true;
      ghost var whole := Scan(s, p);
      while p < |s| && loop
        invariant p <= |s|
        invariant loop ==> whole == Piece(lst + Scan(s, p).text, Scan(s, p).next)
        invariant !loop ==> whole == Piece(lst, p)
        decreases |s| - p, loop
      {
        if s[p] == '\"' {
          assert lst + "" == lst;
          p, loop := p + 1, false;
        } else {
          var piece := PieceAt(s, p);
          ghost var rest := Scan(s, piece.next);
          assert lst + (piece.text + rest.text) == (lst + piece.text) + rest.text;
          lst := lst + piece.text;
          p := piece.next;
        }
      }
      assert lst + "" == lst;
      pos := p;
      value := StringFromList(lst);
    }

    /** Copying a list of codes into a C string. */
    method StringFromList(lst: string) returns (r: string)
      ensures r == CutAtNul(lst)
    {
      r := "";
      var i := 0;
      while i < |lst| && lst[i] != '\0'
        invariant 0 <= i <= |lst|
        invariant CutAtNul(lst) == r + CutAtNul(lst[i..])
      {
        assert lst[i..][1..] == lst[i + 1..];
        r := r + [lst[i]];
        i := i + 1;
      }
    }

    method SkipDigits(start: nat) returns (p: nat)
      requires start <= |s|
      ensures p == DigitsEnd(s, start)
    {
      p := start;
      var loop := true;
      while p < |s| && loop
        invariant p <= |s| && DigitsEnd(s, p) == DigitsEnd(s, start) && (!loop ==> DigitsEnd(s, p) == p)
        decreases |s| - p, loop
      {
        if IsDigit(s[p]) { p := p + 1; } else { loop := false; }
      }
    }

    /** Digits accumulate only while the value is below CLAMP, so it never leaves the
        64-bit range, whatever the number of digits. */
    method DigitsNode(start: nat) returns (p: nat, val: nat)
      requires start <= |s|
      ensures p == DigitsEnd(s, start) && val == Clamped(s[start..p]) && val <= MAX_INT
    {
      p, val := start, 0;
      var loop := true;
      while p < |s| && loop
        invariant start <= p <= |s| && DigitsEnd(s, p) == DigitsEnd(s, start)
        invariant !loop ==> DigitsEnd(s, p) == p
        invariant val == Clamped(s[start..p]) && val <= MAX_INT
        decreases |s| - p, loop
      {
        var ch := s[p];
        if IsDigit(ch) {
          assert s[start..p + 1][..p - start] == s[start..p];
          if val < CLAMP { val := val * 10 + (Code(ch) - 48); }
          p := p + 1;
        } else {
          loop := false;
        }
      }
    }

    method NumberNode() returns (node: Node)
      requires pos < |s|
      modifies this
      ensures Parsed(node, pos) == ParseNumber(s, old(pos)) && depth == old(depth)
    {
      var negative := s[pos] == '-';
      var p, val := DigitsNode(if negative then pos + 1 else pos);
      node := Int(if negative then 0 - val as int else val as int);
      pos := SkipNumberTail(p);
    }

    /** A fraction and an exponent are stepped over; the value stays whole. */
    method SkipNumberTail(start: nat) returns (p: nat)
      requires start <= |s|
      ensures p == AfterExponent(s, AfterFraction(s, start))
    {
      p := start;
      if p < |s| && s[p] == '.' { p := SkipDigits(p + 1); }
      if p < |s| && s[p] in {'e', 'E'} {
        p := p + 1;
        if p < |s| && s[p] in {'+', '-'} { p := p + 1; }
        p := SkipDigits(p);
      }
    }

    /** The mutual recursion ends: the text left, with the loop flag, always shrinks. The
        depth counter is as before on return. */
    method ValueNode() returns (node: Node)
      requires pos <= |s|
      modifies this
      ensures Parsed(node, pos) == ParseValue(s, old(pos), depth) && depth == old(depth)
      decreases |s| - pos, 1
    {
      SkipWhitespace();
      if pos > |s| - 1 { return Null; }
      if depth > MAX_DEPTH { return Null; }
      depth := depth + 1;
      var ch := s[pos];
      if ch == '{' { node := ObjectNode(); }
      else if ch == '[' { node := ListNode(); }
      else if ch == '\"' {
        var text := StringNode();
        node := Str(text);
      }
      else if IsDigit(ch) || ch == '-' { node := NumberNode(); }
      else { node := WordNode(); }
      depth := depth - 1;
    }

    method WordNode() returns (node: Node)
      requires pos < |s|
      modifies this
      ensures Parsed(node, pos) == ParseWord(s, old(pos)) && depth == old(depth)
    {
      var ch := s[pos];
      node := Null;
      if ch == 'n' {
        if pos + 4 <= |s| && s[pos..pos + 4] == "null" { pos := pos + 4; }
      } else if ch == 't' {
        if pos + 4 <= |s| && s[pos..pos + 4] == "true" {
          pos := pos + 4;
          node := Int(1);
        }
      } else if ch == 'f' {
        if pos + 5 <= |s| && s[pos..pos + 5] == "false" {
          pos := pos + 5;
          node := Int(0);
        }
      }
    }

    method ListNode() returns (node: Node)
      requires pos < |s|
      modifies this
      ensures depth == old(depth)
      ensures var l := ParseItems(s, old(pos) + 1, depth, 0); node == List(l.items) && pos == l.next
      decreases |s| - pos, 0
    {
      pos := pos + 1;
      var items: seq<Node>, count, loop := [], 0, true;
      ghost var whole := ParseItems(s, pos, depth, 0);
      while loop
        invariant pos <= |s| && depth == old(depth) && pos > old(pos)
        invariant loop ==> whole == MoreItems(items, ParseItems(s, pos, depth, count))
        invariant !loop ==> whole == ParsedItems(items, pos)
        decreases |s| - pos, loop
      {
        var got: seq<Node>;
        loop, got := ItemNode(count);
        if loop { MoreItemsJoin(items, got, ParseItems(s, pos, depth, count + 1)); }
        items := items + got;
        count := count + 1;
      }
      node := List(items);
    }

    /** One turn of the list loop: at most one item, and whether to go on. */
    method ItemNode(count: nat) returns (loop: bool, got: seq<Node>)
      requires pos <= |s|
      modifies this
      ensures old(pos) <= pos <= |s| && depth == old(depth)
      ensures loop ==> pos > old(pos)
      ensures loop ==> ParseItems(s, old(pos), depth, count) == MoreItems(got, ParseItems(s, pos, depth, count + 1))
      ensures !loop ==> ParseItems(s, old(pos), depth, count) == ParsedItems(got, pos)
      decreases |s| - pos, 2
    {
      loop, got := true, [];
      SkipWhitespace();
      if pos > |s| - 1 { return false, got; }
      if s[pos] == ']' {
        pos := pos + 1;
        return false, got;
      }
      var item := ValueNode();
      got := [item];
      if count + 1 >= MAX_ENTRIES { loop := false; }
      SkipWhitespace();
      if pos > |s| - 1 {
        loop := false;
      } else if s[pos] == ',' {
        pos := pos + 1;
      } else {
        if s[pos] == ']' { pos := pos + 1; }
        loop := false;
      }
    }

    method ObjectNode() returns (node: Node)
      requires pos < |s|
      modifies this
      ensures depth == old(depth)
      ensures var f := ParseFields(s, old(pos) + 1, depth, 0); node == Obj(f.keys, f.values) && pos == f.next
      decreases |s| - pos, 0
    {
      pos := pos + 1;
      var keys: seq<string>, values: seq<Node>, count, loop := [], [], 0, true;
      ghost var whole := ParseFields(s, pos, depth, 0);
      while loop
        invariant pos <= |s| && depth == old(depth) && pos > old(pos)
        invariant loop ==> whole == MoreFields(keys, values, ParseFields(s, pos, depth, count))
        invariant !loop ==> whole == ParsedFields(keys, values, pos)
        decreases |s| - pos, loop
      {
        var key: seq<string>, value: seq<Node>;
        loop, key, value := FieldNode(count);
        if loop { MoreFieldsJoin(keys, values, key, value, ParseFields(s, pos, depth, count + 1)); }
        keys := keys + key;
        values := values + value;
        count := count + 1;
      }
      node := Obj(keys, values);
    }

    /** One turn of the object loop: at most one field, and whether to go on. */
    method FieldNode(count: nat) returns (loop: bool, keys: seq<string>, values: seq<Node>)
      requires pos <= |s|
      modifies this
      ensures old(pos) <= pos <= |s| && depth == old(depth)
      ensures loop ==> pos > old(pos)
      ensures loop ==>
        ParseFields(s, old(pos), depth, count) == MoreFields(keys, values, ParseFields(s, pos, depth, count + 1))
      ensures !loop ==> ParseFields(s, old(pos), depth, count) == ParsedFields(keys, values, pos)
      decreases |s| - pos, 2
    {
      loop, keys, values := true, [], [];
      SkipWhitespace();
      if pos > |s| - 1 { return false, keys, values; }
      if s[pos] == '}' {
        pos := pos + 1;
        return false, keys, values;
      }
      var key := StringNode();
      SkipWhitespace();
      if pos > |s| - 1 { return false, keys, values; }
      if s[pos] == ':' { pos := pos + 1; }
      var value := ValueNode();
      keys, values := [key], [value];
      if count + 1 >= MAX_ENTRIES { loop := false; }
      SkipWhitespace();
      if pos > |s| - 1 {
        loop := false;
      } else if s[pos] == ',' {
        pos := pos + 1;
      } else {
        if s[pos] == '}' { pos := pos + 1; }
        loop := false;
      }
    }
  }

  ghost function MoreItems(items: seq<Node>, rest: ParsedItems): ParsedItems {
    ParsedItems(items + rest.items, rest.next)
  }

  lemma MoreItemsJoin(items: seq<Node>, got: seq<Node>, rest: ParsedItems)
    ensures MoreItems(items, MoreItems(got, rest)) == MoreItems(items + got, rest)
  {
    assert items + (got + rest.items) == (items + got) + rest.items;
  }

  ghost function MoreFields(keys: seq<string>, values: seq<Node>, rest: ParsedFields): ParsedFields {
    ParsedFields(keys + rest.keys, values + rest.values, rest.next)
  }

  lemma MoreFieldsJoin(keys: seq<string>, values: seq<Node>, key: seq<string>, value: seq<Node>, rest: ParsedFields)
    ensures MoreFields(keys, values, MoreFields(key, value, rest)) == MoreFields(keys + key, values + value, rest)
  {
    assert keys + (key + rest.keys) == (keys + key) + rest.keys;
    assert values + (value + rest.values) == (values + value) + rest.values;
  }

  method ParseText(text: string) returns (node: Node)
    ensures node == Parse(text)
  {
    var parser := new Parser(text);
    node := parser.ValueNode();
  }

  // ---------- the printer itself ----------

  method EscapeString(s: string) returns (out: string)
    ensures out == Escape(s)
  {
    out := "";
    var i := 0;
    while i < |s|
      invariant 0 <= i <= |s|
      invariant Escape(s) == out + Escape(s[i..])
    {
      assert s[i..][1..] == s[i + 1..];
      assert out + (EscapeChar(s[i]) + Escape(s[i + 1..])) == (out + EscapeChar(s[i])) + Escape(s[i + 1..]);
      out := out + EscapeChar(s[i]);
      i := i + 1;
    }
  }

  method Stringify(node: Node) returns (res: string)
    ensures res == Text(node)
    decreases node, 1
  {
    match node
    case Null => return "null";
    case Int(k) => return IntToString(k);
    case Str(s) =>
      var escaped := EscapeString(s);
      return "\"" + escaped + "\"";
    case List(items) =>
      res := StringifyItems(items);
      return "[" + res + "]";
    case Obj(keys, values) =>
      res := StringifyFields(keys, values);
      return "{" + res + "}";
  }

  method StringifyItems(items: seq<Node>) returns (res: string)
    ensures res == ItemsText(items)
    decreases items, 0
  {
    res := "";
    var idx := 0;
    while idx < |items|
      invariant 0 <= idx <= |items|
      invariant ItemsText(items) == res + ItemsText(items[idx..])
    {
      var item := Stringify(items[idx]);
      assert items[idx..][1..] == items[idx + 1..];
      ghost var rest := ItemsText(items[idx + 1..]);
      ghost var was := res;
      res := res + item;
      if idx < |items| - 1 { res := res + ","; }
      assert idx < |items| - 1 ==> was + (item + "," + rest) == res + rest;
      assert idx == |items| - 1 ==> was + item == res + rest;
      idx := idx + 1;
    }
  }

  method StringifyFields(keys: seq<string>, values: seq<Node>) returns (res: string)
    ensures res == FieldsText(keys, values)
    decreases values, 0
  {
    res := "";
    var idx := 0;
    ghost var ks, vs := keys, values;
    while idx < |keys|
      invariant 0 <= idx <= |keys| && ks == keys[idx..] && vs == DropValues(values, idx)
      invariant FieldsText(keys, values) == res + FieldsText(ks, vs)
    {
      var value := "null";
      if idx < |values| { value := Stringify(values[idx]); }
      var key := EscapeString(keys[idx]);
      ghost var was := res;
      res := res + ("\"" + key + "\":" + value);
      if idx < |keys| - 1 { res := res + ","; }
      FieldsTextStep(ks, vs, was);
      ks, vs := ks[1..], DropValues(values, idx + 1);
      idx := idx + 1;
    }
  }

  ghost function DropValues(values: seq<Node>, n: nat): seq<Node> { if n < |values| then values[n..] else [] }

  lemma FieldsTextStep(ks: seq<string>, vs: seq<Node>, was: string)
    requires ks != []
    ensures var field := "\"" + Escape(ks[0]) + "\":" + if vs == [] then "null" else Text(vs[0]);
      was + FieldsText(ks, vs) ==
        (if |ks| == 1 then was + field else was + field + ",") + FieldsText(ks[1..], if vs == [] then [] else vs[1..])
  {
    var value := if vs == [] then "null" else Text(vs[0]);
    var field := "\"" + Escape(ks[0]) + "\":" + value;
    assert field == Quoted(ks[0]) + ":" + value;
    var rest := FieldsText(ks[1..], if vs == [] then [] else vs[1..]);
    if |ks| == 1 {
      assert was + field + rest == was + field;
    } else {
      assert FieldsText(ks, vs) == field + "," + rest;
      assert was + (field + "," + rest) == was + field + "," + rest;
    }
  }
}
