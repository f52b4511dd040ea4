/** The trees the parser of stdlib/json.ep can return, and so exactly those that survive
    printing and parsing. */
module JsonLimits {
  import opened Strings
  import opened Json
  import opened JsonLaws

  // ---------- what the parser can ever return ----------

  /** Fits, except that a null may stand one level deeper, where the depth check cut. */
  predicate Holds(n: Node, depth: nat)
    decreases n
  {
    (depth <= MAX_DEPTH || (depth == MAX_DEPTH + 1 && n.Null?)) &&
    match n
    case Null => true
    case Int(k) => -MAX_INT <= k <= MAX_INT
    case Str(s) => NoNul(s)
    case List(items) => |items| <= MAX_ENTRIES && forall i :: 0 <= i < |items| ==> Holds(items[i], depth + 1)
    case Obj(keys, values) =>
      && |keys| == |values| <= MAX_ENTRIES && (forall i :: 0 <= i < |keys| ==> NoNul(keys[i]))
      && forall i :: 0 <= i < |values| ==> Holds(values[i], depth + 1)
  }

  lemma {:induction false} CutLacksNul(s: string)
    ensures NoNul(CutAtNul(s))
  {
    if s != "" { CutLacksNul(s[1..]); }
  }

  /** Whatever the text, what is parsed stays within the nesting, entry, integer and
      string bounds. */
  lemma {:induction false} ValueHolds(s: string, pos: nat, depth: nat)
    requires pos <= |s| && depth <= MAX_DEPTH + 1
    ensures Holds(ParseValue(s, pos, depth).node, depth)
    decreases |s| - pos, 1
  {
    var p := SkipBlank(s, pos);
    if p < |s| && depth <= MAX_DEPTH {
      if s[p] == '{' {
        FieldsHold(s, p + 1, depth + 1, 0);
      } else if s[p] == '[' {
        ItemsHold(s, p + 1, depth + 1, 0);
      } else if s[p] == '\"' {
        CutLacksNul(Scan(s, p + 1).text);
      } else if IsDigit(s[p]) || s[p] == '-' {
        NumberBound(s, p);
      }
    }
  }

  lemma NumberBound(s: string, p: nat)
    requires p < |s|
    ensures ParseNumber(s, p).node.Int? && -MAX_INT <= ParseNumber(s, p).node.n <= MAX_INT
  {
    var start := if s[p] == '-' then p + 1 else p;
    ClampedBound(s[start..DigitsEnd(s, start)]);
  }

  lemma {:induction false} ItemsHold(s: string, pos: nat, depth: nat, count: nat)
    requires pos <= |s| && 0 < depth <= MAX_DEPTH + 1 && count < MAX_ENTRIES
    ensures var items := ParseItems(s, pos, depth, count).items;
      count + |items| <= MAX_ENTRIES && forall i :: 0 <= i < |items| ==> Holds(items[i], depth)
    decreases |s| - pos, 2
  {
    var p := SkipBlank(s, pos);
    if p < |s| && s[p] != ']' {
      ValueHolds(s, p, depth);
      var q := SkipBlank(s, ParseValue(s, p, depth).next);
      if q < |s| && s[q] == ',' && count + 1 < MAX_ENTRIES { ItemsHold(s, q + 1, depth, count + 1); }
    }
  }

  ghost predicate HeldFields(f: ParsedFields, depth: nat, room: int) {
    && |f.keys| == |f.values| <= room
    && (forall i :: 0 <= i < |f.keys| ==> NoNul(f.keys[i]))
    && forall i :: 0 <= i < |f.values| ==> Holds(f.values[i], depth)
  }

  lemma FieldsCases(s: string, pos: nat, depth: nat, count: nat, key: Piece, v: Parsed, q: nat)
    requires pos <= |s| && SkipBlank(s, pos) < |s| && s[SkipBlank(s, pos)] != '}'
    requires key == ParseString(s, SkipBlank(s, pos)) && SkipBlank(s, key.next) < |s|
    requires var k := SkipBlank(s, key.next);
      v == ParseValue(s, if s[k] == ':' then k + 1 else k, depth) && q == SkipBlank(s, v.next)
    ensures q < |s| && s[q] == ',' && count + 1 < MAX_ENTRIES ==>
      ReadFields(s, pos, depth, count) == OneMore(key.text, v.node, ReadFields(s, q + 1, depth, count + 1))
    ensures !(q < |s| && s[q] == ',' && count + 1 < MAX_ENTRIES) ==>
      exists next :: ReadFields(s, pos, depth, count) == OneMore(key.text, v.node, ParsedFields([], [], next))
  {
    assert [key.text] + [] == [key.text] && [v.node] + [] == [v.node];
    var f := ReadFields(s, pos, depth, count);
    if !(q < |s| && s[q] == ',' && count + 1 < MAX_ENTRIES) {
      assert f == OneMore(key.text, v.node, ParsedFields([], [], f.next));
    }
  }

  lemma OneMoreHeld(key: string, value: Node, rest: ParsedFields, depth: nat, room: int)
    requires NoNul(key) && Holds(value, depth) && HeldFields(rest, depth, room - 1)
    ensures HeldFields(OneMore(key, value, rest), depth, room)
  {}

  /** Where no field starts, or the text ends behind a key, none is read. */
  lemma NoMoreFields(s: string, pos: nat, depth: nat, count: nat, room: nat) returns (next: nat)
    requires pos <= |s|
    requires var p := SkipBlank(s, pos);
      p == |s| || s[p] == '}' || SkipBlank(s, ParseString(s, p).next) == |s|
    ensures ReadFields(s, pos, depth, count) == ParsedFields([], [], next)
    ensures HeldFields(ParsedFields([], [], next), depth, room)
  {
    next := ReadFields(s, pos, depth, count).next;
  }

  lemma {:induction false} FieldsHold(s: string, pos: nat, depth: nat, count: nat)
    requires pos <= |s| && 0 < depth <= MAX_DEPTH + 1 && count < MAX_ENTRIES
    ensures HeldFields(ReadFields(s, pos, depth, count), depth, MAX_ENTRIES - count)
    decreases |s| - pos, 2
  {
    hide *;
    var room := MAX_ENTRIES - count;
    var p := SkipBlank(s, pos);
    if p == |s| || s[p] == '}' || SkipBlank(s, ParseString(s, p).next) == |s| {
      var next := NoMoreFields(s, pos, depth, count, room);
    } else {
      var key := ParseString(s, p);
      KeyLacksNul(s, p);
      var k := SkipBlank(s, key.next);
      var at := if s[k] == ':' then k + 1 else k;
      ValueHolds(s, at, depth);
      var v := ParseValue(s, at, depth);
      var q := SkipBlank(s, v.next);
      FieldsCases(s, pos, depth, count, key, v, q);
      if q < |s| && s[q] == ',' && count + 1 < MAX_ENTRIES {
        FieldsHold(s, q + 1, depth, count + 1);
        OneMoreHeld(key.text, v.node, ReadFields(s, q + 1, depth, count + 1), depth, room);
      } else {
        var next :| ReadFields(s, pos, depth, count) == OneMore(key.text, v.node, ParsedFields([], [], next));
        NoneHeld(next, depth, room - 1);
        OneMoreHeld(key.text, v.node, ParsedFields([], [], next), depth, room);
      }
    }
  }

  lemma KeyLacksNul(s: string, p: nat)
    requires p < |s|
    ensures NoNul(ParseString(s, p).text)
  {
    CutLacksNul(Scan(s, p + 1).text);
  }

  lemma NoneHeld(next: nat, depth: nat, room: nat)
    ensures HeldFields(ParsedFields([], [], next), depth, room)
  {}

  /** So only a tree within these bounds can survive printing and parsing. */
  lemma OnlyHeldTreesReadBack(n: Node)
    requires Parse(Text(n)) == n
    ensures Holds(n, 0)
  {
    ValueHolds(Text(n), 0, 0);
  }

  // ---------- a null one level too deep ----------

  /** Reading ended inside a text of this length, at the n of a null. */
  ghost predicate StopsShort(s: string, pos: nat, next: nat, length: nat) {
    pos <= next < pos + length && next < |s| && s[next] == 'n'
  }

  /** Wherever the text t stands as a value at this depth, reading it stops short. */
  ghost predicate StopsAs(t: string, depth: nat) {
    && t != "" && !Blank(t[0]) && t[0] !in {']', '}'}
    && forall s, pos: nat :: Stands(s, pos, t) ==> StopsShort(s, pos, ReadValue(s, pos, depth).next, |t|)
  }

  /** What holds but does not fit has a null one level too deep: the parser leaves the
      leftmost one unread, and no list or object around it reads on. */
  lemma {:induction false} DeepNullStops(n: Node, depth: nat)
    requires Holds(n, depth) && !Fits(n, depth)
    ensures StopsAs(Text(n), depth)
    decreases n
  {
    match n
    case Null => NullStops(depth);
    case List(items) =>
      forall i | 0 <= i < |items|
        ensures if Fits(items[i], depth + 1) then ReadsAs(items[i], Text(items[i]), depth + 1)
                else StopsAs(Text(items[i]), depth + 1)
      {
        if Fits(items[i], depth + 1) { TextReadsBack(items[i], depth + 1); }
        if !Fits(items[i], depth + 1) { DeepNullStops(items[i], depth + 1); }
      }
      var i :| 0 <= i < |items| && !Fits(items[i], depth + 1);
      ListStops(items, depth, i);
    case Obj(keys, values) =>
      forall i | 0 <= i < |values|
        ensures if Fits(values[i], depth + 1) then ReadsAs(values[i], Text(values[i]), depth + 1)
                else StopsAs(Text(values[i]), depth + 1)
      {
        if Fits(values[i], depth + 1) { TextReadsBack(values[i], depth + 1); }
        if !Fits(values[i], depth + 1) { DeepNullStops(values[i], depth + 1); }
      }
      var i :| 0 <= i < |values| && !Fits(values[i], depth + 1);
      ObjectStops(keys, values, depth, i);
    case _ =>
  }

  lemma NullStops(depth: nat)
    requires depth > MAX_DEPTH
    ensures StopsAs("null", depth)
  {
    forall s, pos: nat | Stands(s, pos, "null")
      ensures StopsShort(s, pos, ReadValue(s, pos, depth).next, 4)
    {
      StandsHead(s, pos, "null");
    }
  }

  lemma FirstOfJoin(ts: seq<string>, s: string, pos: nat)
    requires ts != [] && Stands(s, pos, Join(ts, ","))
    ensures Stands(s, pos, ts[0]) && |ts[0]| <= |Join(ts, ",")|
    ensures |ts| > 1 ==>
      && pos + |ts[0]| < |s| && s[pos + |ts[0]|] == ',' && Stands(s, pos + |ts[0]| + 1, Join(ts[1..], ","))
      && |Join(ts, ",")| == |ts[0]| + 1 + |Join(ts[1..], ",")|
  {
    if |ts| > 1 { StandsAround(s, pos, ts[0], ',', Join(ts[1..], ",")); }
  }

  // ---------- in a list ----------

  /** Items are read up to one whose text stops short. */
  ghost predicate SomeStops(items: seq<Node>, ts: seq<string>, depth: nat)
    requires |items| == |ts|
  {
    && items != []
    && (StopsAs(ts[0], depth) || (ReadsAs(items[0], ts[0], depth) && SomeStops(items[1..], ts[1..], depth)))
  }

  lemma {:induction false} FindStop(items: seq<Node>, ts: seq<string>, depth: nat, i: nat)
    requires |items| == |ts| && i < |ts| && StopsAs(ts[i], depth)
    requires forall k :: 0 <= k < i ==> ReadsAs(items[k], ts[k], depth) || StopsAs(ts[k], depth)
    ensures SomeStops(items, ts, depth)
    decreases i
  {
    hide ReadsAs, StopsAs;
    if i > 0 { FindStop(items[1..], ts[1..], depth, i - 1); }
  }

  lemma ListStops(items: seq<Node>, depth: nat, i: nat)
    requires i < |items| <= MAX_ENTRIES && depth <= MAX_DEPTH && StopsAs(Text(items[i]), depth + 1)
    requires forall k :: 0 <= k < |items| ==>
      ReadsAs(items[k], Text(items[k]), depth + 1) || StopsAs(Text(items[k]), depth + 1)
    ensures StopsAs(Text(List(items)), depth)
  {
    hide ReadsAs, ReadValue, ReadItems, StopsShort, Stands;
    var ts := Texts(items);
    ItemsTextIsJoin(items, ts);
    FindStop(items, ts, depth + 1, i);
    FirstOfText(List(items));
    var t := Join(ts, ",");
    forall s, pos: nat | Stands(s, pos, Text(List(items)))
      ensures StopsShort(s, pos, ReadValue(s, pos, depth).next, |Text(List(items))|)
    {
      ListStopsAt(items, ts, s, pos, depth);
    }
  }

  lemma ListStopsAt(items: seq<Node>, ts: seq<string>, s: string, pos: nat, depth: nat)
    requires |items| == |ts| <= MAX_ENTRIES && depth <= MAX_DEPTH && SomeStops(items, ts, depth + 1)
    requires Stands(s, pos, "[" + Join(ts, ",") + "]")
    ensures StopsShort(s, pos, ReadValue(s, pos, depth).next, |Join(ts, ",")| + 2)
  {
    hide ReadValue, ReadItems, SomeStops;
    Bracketed(s, pos, "[", Join(ts, ","), "]");
    ItemsStop(items, ts, s, pos + 1, depth + 1, 0);
    var l := ReadItems(s, pos + 1, depth + 1, 0);
    ListAt(l.items, s, pos, l.next, depth);
  }

  lemma {:induction false} ItemsStop(items: seq<Node>, ts: seq<string>, s: string, pos: nat, depth: nat, count: nat)
    requires |items| == |ts| && count + |items| <= MAX_ENTRIES && SomeStops(items, ts, depth)
    requires Stands(s, pos, Join(ts, ","))
    ensures StopsShort(s, pos, ReadItems(s, pos, depth, count).next, |Join(ts, ",")|)
    decreases |items|
  {
    hide ReadItems, ReadValue, ReadsAs, StopsAs, Join, Stands;
    FirstOfJoin(ts, s, pos);
    if StopsAs(ts[0], depth) {
      ItemStops(ts[0], s, pos, depth, count);
    } else {
      var q := pos + |ts[0]|;
      ItemsStop(items[1..], ts[1..], s, q + 1, depth, count + 1);
      FirstItemReadsBack(items[0], ts[0], s, pos, depth);
      ItemComma(s, pos, q, depth, count);
    }
  }

  lemma ItemStops(t: string, s: string, pos: nat, depth: nat, count: nat)
    requires StopsAs(t, depth) && Stands(s, pos, t)
    ensures StopsShort(s, pos, ReadItems(s, pos, depth, count).next, |t|)
  {
    StandsHead(s, pos, t);
    assert StopsShort(s, pos, ReadValue(s, pos, depth).next, |t|);
  }

  lemma ItemComma(s: string, pos: nat, q: nat, depth: nat, count: nat)
    requires pos < q < |s| && !Blank(s[pos]) && s[pos] != ']' && count + 1 < MAX_ENTRIES
    requires ReadValue(s, pos, depth).next == q && s[q] == ','
    ensures ReadItems(s, pos, depth, count).next == ReadItems(s, q + 1, depth, count + 1).next
  {}

  // ---------- in an object ----------

  /** Wherever the text f stands as a field at this depth, its key is read, and reading its
      value stops short. */
  ghost predicate FieldStopsAs(f: string, depth: nat) {
    forall s, pos: nat :: Stands(s, pos, f) ==> FieldStops(s, pos, f, depth)
  }

  ghost predicate FieldStops(s: string, pos: nat, f: string, depth: nat) {
    && pos < |s| && s[pos] == '\"'
    && var k := ParseString(s, pos).next;
       k < |s| && s[k] == ':' && StopsShort(s, pos, ReadValue(s, k + 1, depth).next, |f|)
  }

  ghost predicate SomeFieldStops(keys: seq<string>, values: seq<Node>, fs: seq<string>, depth: nat)
    requires |keys| == |values| == |fs|
  {
    && keys != []
    && (FieldStopsAs(fs[0], depth)
        || (FieldReadsAs(keys[0], values[0], fs[0], depth) && SomeFieldStops(keys[1..], values[1..], fs[1..], depth)))
  }

  lemma {:induction false} FindFieldStop(keys: seq<string>, values: seq<Node>, fs: seq<string>, depth: nat, i: nat)
    requires |keys| == |values| == |fs| && i < |fs| && FieldStopsAs(fs[i], depth)
    requires forall k :: 0 <= k < i ==> FieldReadsAs(keys[k], values[k], fs[k], depth) || FieldStopsAs(fs[k], depth)
    ensures SomeFieldStops(keys, values, fs, depth)
    decreases i
  {
    hide FieldReadsAs, FieldStopsAs;
    if i > 0 { FindFieldStop(keys[1..], values[1..], fs[1..], depth, i - 1); }
  }

  lemma FieldStopsShort(key: string, t: string, depth: nat)
    requires NoNul(key) && StopsAs(t, depth)
    ensures FieldStopsAs(Quoted(key) + ":" + t, depth)
  {
    hide StopsAs;
    var f := Quoted(key) + ":" + t;
    forall s, pos: nat | Stands(s, pos, f)
      ensures FieldStops(s, pos, f, depth)
    {
      FieldStopsThere(key, t, s, pos, depth);
    }
  }

  lemma FieldStopsThere(key: string, t: string, s: string, pos: nat, depth: nat)
    requires NoNul(key) && StopsAs(t, depth) && Stands(s, pos, Quoted(key) + ":" + t)
    ensures FieldStops(s, pos, Quoted(key) + ":" + t, depth)
  {
    hide ReadValue, ParseString, Quoted;
    StandsAround(s, pos, Quoted(key), ':', t);
    StringRoundTrip(key, s, pos);
    QuotedOpens(key);
    StandsHead(s, pos, Quoted(key));
  }

  lemma QuotedOpens(key: string)
    ensures |Quoted(key)| > 1 && Quoted(key)[0] == '\"'
  {}

  lemma ObjectStops(keys: seq<string>, values: seq<Node>, depth: nat, i: nat)
    requires i < |keys| == |values| <= MAX_ENTRIES && depth <= MAX_DEPTH && StopsAs(Text(values[i]), depth + 1)
    requires forall k :: 0 <= k < |keys| ==> NoNul(keys[k])
    requires forall k :: 0 <= k < |values| ==>
      ReadsAs(values[k], Text(values[k]), depth + 1) || StopsAs(Text(values[k]), depth + 1)
    ensures StopsAs(Text(Obj(keys, values)), depth)
  {
    hide ReadsAs, ReadValue, StopsShort, Stands, Quoted, FieldReadsAs, FieldStopsAs;
    var fs := seq(|keys|, k requires 0 <= k < |keys| => Quoted(keys[k]) + ":" + Text(values[k]));
    forall k | 0 <= k < |keys|
      ensures FieldReadsAs(keys[k], values[k], fs[k], depth + 1) || FieldStopsAs(fs[k], depth + 1)
      ensures StopsAs(Text(values[k]), depth + 1) ==> FieldStopsAs(fs[k], depth + 1)
    {
      if StopsAs(Text(values[k]), depth + 1) {
        FieldStopsShort(keys[k], Text(values[k]), depth + 1);
      } else {
        FieldReadsBack(keys[k], values[k], Text(values[k]), depth + 1);
      }
    }
    FieldsTextIsJoin(keys, values, fs);
    FindFieldStop(keys, values, fs, depth + 1, i);
    FirstOfText(Obj(keys, values));
    forall s, pos: nat | Stands(s, pos, Text(Obj(keys, values)))
      ensures StopsShort(s, pos, ReadValue(s, pos, depth).next, |Text(Obj(keys, values))|)
    {
      ObjectStopsAt(keys, values, fs, s, pos, depth);
    }
  }

  lemma ObjectStopsAt(keys: seq<string>, values: seq<Node>, fs: seq<string>, s: string, pos: nat, depth: nat)
    requires |keys| == |values| == |fs| <= MAX_ENTRIES && depth <= MAX_DEPTH
    requires SomeFieldStops(keys, values, fs, depth + 1) && Stands(s, pos, "{" + Join(fs, ",") + "}")
    ensures StopsShort(s, pos, ReadValue(s, pos, depth).next, |Join(fs, ",")| + 2)
  {
    hide ReadValue, ReadFields, SomeFieldStops;
    Bracketed(s, pos, "{", Join(fs, ","), "}");
    FieldsStop(keys, values, fs, s, pos + 1, depth + 1, 0);
    var f := ReadFields(s, pos + 1, depth + 1, 0);
    ObjectAt(f.keys, f.values, s, pos, f.next, depth);
  }

  lemma {:induction false} FieldsStop(keys: seq<string>, values: seq<Node>, fs: seq<string>, s: string, pos: nat,
                                      depth: nat, count: nat)
    requires |keys| == |values| == |fs| && count + |keys| <= MAX_ENTRIES && SomeFieldStops(keys, values, fs, depth)
    requires Stands(s, pos, Join(fs, ","))
    ensures StopsShort(s, pos, ReadFields(s, pos, depth, count).next, |Join(fs, ",")|)
    decreases |keys|
  {
    hide ReadFields, ReadValue, FieldReadsAs, FieldStopsAs, Join, Stands, FieldReads, OneMore;
    FirstOfJoin(fs, s, pos);
    if FieldStopsAs(fs[0], depth) {
      FieldStopsFields(fs[0], s, pos, depth, count);
    } else {
      var q := pos + |fs[0]|;
      FieldsStop(keys[1..], values[1..], fs[1..], s, q + 1, depth, count + 1);
      var k := FirstFieldReadsBack(keys[0], values[0], fs[0], s, pos, depth);
      FieldTurn(s, pos, keys[0], k, values[0], q, depth, count);
      OneMoreEnds(keys[0], values[0], ReadFields(s, q + 1, depth, count + 1));
    }
  }

  lemma OneMoreEnds(key: string, value: Node, rest: ParsedFields)
    ensures OneMore(key, value, rest).next == rest.next
  {}

  lemma FieldStopsFields(f: string, s: string, pos: nat, depth: nat, count: nat)
    requires FieldStopsAs(f, depth) && Stands(s, pos, f)
    ensures StopsShort(s, pos, ReadFields(s, pos, depth, count).next, |f|)
  {
    assert FieldStops(s, pos, f, depth);
  }

  /** The exact law of printing and parsing: a tree comes back, its whole text read,
      exactly when it fits. */
  lemma ReadsBackExactly(n: Node)
    ensures Parse(Text(n)) == n && ParseValue(Text(n), 0, 0).next == |Text(n)| <==> Fits(n, 0)
  {
    hide ParseValue, Text, Fits, Holds;
    if Fits(n, 0) {
      RoundTrip(n);
    } else if Parse(Text(n)) == n {
      OnlyHeldTreesReadBack(n);
      DeepNullStops(n, 0);
      assert Text(n)[0..|Text(n)|] == Text(n);
      assert Stands(Text(n), 0, Text(n));
    }
  }
}
