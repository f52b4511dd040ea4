/** stdlib/string.ep: searching, trimming, splitting, joining and decimal numbers.

    Each loop of the library is a method here, proved to return a function of its
    arguments; the laws other modules rest on are lemmas about those functions.
    A string is a sequence of characters; Code gives the number get_character returns. */
module Strings {
  import opened Machine

  function Code(c: char): int { c as int }

  predicate IsDigit(c: char) { '0' <= c <= '9' }

  predicate IsAlpha(c: char) { 'A' <= c <= 'Z' || 'a' <= c <= 'z' }

  predicate IsAlphanumeric(c: char) { IsAlpha(c) || IsDigit(c) }

  predicate IsSpace(c: char) { c in {' ', '\t', '\n', '\r'} }

  function LowerChar(c: char): char {
    if 'A' <= c <= 'Z' then (Code(c) + 32) as char else c
  }

  function Lower(s: string): string { seq(|s|, i requires 0 <= i < |s| => LowerChar(s[i])) }

  /** No capital letter is left, every other character stays, and a capital becomes the
      letter at its place among the small ones. */
  lemma LowerMeans(s: string, i: nat)
    requires i < |s|
    ensures |Lower(s)| == |s| && !('A' <= Lower(s)[i] <= 'Z')
    ensures 'A' <= s[i] <= 'Z' ==> 'a' <= Lower(s)[i] <= 'z' && Code(Lower(s)[i]) - Code('a') == Code(s[i]) - Code('A')
    ensures !('A' <= s[i] <= 'Z') ==> Lower(s)[i] == s[i]
  {}

  method StringToLower(s: string) returns (r: string)
    ensures r == Lower(s)
  {
    r := "";
    var i := 0;
    while i < |s|
      invariant 0 <= i <= |s| && r == Lower(s)[..i]
    {
      r := r + [LowerChar(s[i])];
      i := i + 1;
    }
  }

  // ---------- trimming ----------

  function TrimLeft(s: string): string {
    if s == "" then "" else if IsSpace(s[0]) then TrimLeft(s[1..]) else s
  }

  function TrimRight(s: string): string {
    if s == "" then "" else if IsSpace(s[|s| - 1]) then TrimRight(s[..|s| - 1]) else s
  }

  function Trim(s: string): string { TrimRight(TrimLeft(s)) }

  predicate Trimmed(s: string) { s != "" ==> !IsSpace(s[0]) && !IsSpace(s[|s| - 1]) }

  method StringTrim(s: string) returns (r: string)
    ensures r == Trim(s)
  {
    var start := 0;
    while start < |s| && IsSpace(s[start])
      invariant 0 <= start <= |s|
      invariant TrimLeft(s[start..]) == TrimLeft(s)
    {
      assert s[start..][1..] == s[start + 1..];
      start := start + 1;
    }
    var rest := s[start..];
    assert rest == TrimLeft(s);
    var end := |rest|;
    assert rest[..end] == rest;
    while end > 0 && IsSpace(rest[end - 1])
      invariant 0 <= end <= |rest|
      invariant TrimRight(rest[..end]) == TrimRight(rest)
      decreases end
    {
      assert rest[..end][..end - 1] == rest[..end - 1];
      end := end - 1;
    }
    r := rest[..end];
  }

  /** Trimming removes exactly a blank front and a blank back. */
  lemma TrimIsMiddle(s: string) returns (front: string, back: string)
    ensures s == front + Trim(s) + back
    ensures forall c :: c in front || c in back ==> IsSpace(c)
    ensures Trimmed(Trim(s))
  {
    front := TrimLeftFront(s);
    back := TrimRightBack(TrimLeft(s));
    assert s == front + (Trim(s) + back);
    if Trim(s) != "" { assert Trim(s)[0] == TrimLeft(s)[0]; }
  }

  /** What stands between blanks is what trimming leaves. */
  lemma {:induction false} TrimOfPadded(front: string, x: string, back: string)
    requires (forall c :: c in front + back ==> IsSpace(c)) && Trimmed(x)
    ensures Trim(front + x + back) == x
    decreases |front| + |back|
  {
    var s := front + x + back;
    if front != "" {
      assert s[0] == front[0] && front[0] in front + back;
      assert s[1..] == front[1..] + x + back;
      TrimOfPadded(front[1..], x, back);
    } else if back != "" {
      var shorter := back[..|back| - 1];
      assert back[|back| - 1] in front + back;
      TrimOfPadded(front, x, shorter);
      if x != "" {
        assert s[..|s| - 1] == front + x + shorter;
        assert TrimLeft(s) == s && TrimLeft(front + x + shorter) == front + x + shorter;
      } else {
        AllBlankTrims(s);
      }
    } else {
      assert s == x;
    }
  }

  lemma {:induction false} AllBlankTrims(s: string)
    requires forall c :: c in s ==> IsSpace(c)
    ensures Trim(s) == ""
  {
    if s != "" {
      assert s[0] in s;
      AllBlankTrims(s[1..]);
    }
  }

  lemma {:induction false} TrimLeftFront(s: string) returns (front: string)
    ensures s == front + TrimLeft(s)
    ensures forall c :: c in front ==> IsSpace(c)
    ensures TrimLeft(s) != "" ==> !IsSpace(TrimLeft(s)[0])
  {
    front := "";
    if s != "" && IsSpace(s[0]) {
      var f := TrimLeftFront(s[1..]);
      front := [s[0]] + f;
    }
  }

  lemma {:induction false} TrimRightBack(s: string) returns (back: string)
    ensures s == TrimRight(s) + back
    ensures forall c :: c in back ==> IsSpace(c)
    ensures TrimRight(s) != "" ==> !IsSpace(TrimRight(s)[|TrimRight(s)| - 1])
  {
    back := "";
    if s != "" && IsSpace(s[|s| - 1]) {
      var b := TrimRightBack(s[..|s| - 1]);
      back := b + [s[|s| - 1]];
      assert s == s[..|s| - 1] + [s[|s| - 1]];
    }
  }

  // ---------- searching ----------

  predicate OccursAt(s: string, sub: string, i: int) {
    0 <= i && i + |sub| <= |s| && s[i..i + |sub|] == sub
  }

  /** The first place sub occurs at or after i, or -1. */
  function IndexFrom(s: string, sub: string, i: nat): (r: int)
    ensures r == -1 ==> forall k :: i <= k ==> !OccursAt(s, sub, k)
    ensures r != -1 ==> r >= i && OccursAt(s, sub, r) && forall k :: i <= k < r ==> !OccursAt(s, sub, k)
    decreases |s| - i
  {
    if i + |sub| > |s| then -1
    else if OccursAt(s, sub, i) then i
    else IndexFrom(s, sub, i + 1)
  }

  function IndexOf(s: string, sub: string): int { IndexFrom(s, sub, 0) }

  method StringIndexOf(s: string, sub: string) returns (r: int)
    ensures r == IndexOf(s, sub)
  {
    if |sub| > |s| { return -1; }
    var i := 0;
    var limit := |s| - |sub| + 1;
    while i < limit
      invariant 0 <= i <= limit
      invariant IndexOf(s, sub) == IndexFrom(s, sub, i)
    {
      if s[i..i + |sub|] == sub { return i; }
      i := i + 1;
    }
    return -1;
  }

  /** The last place c occurs, or -1. */
  method StringLastIndexOf(s: string, sub: string) returns (r: int)
    ensures r == -1 ==> forall k :: !OccursAt(s, sub, k)
    ensures r != -1 ==> OccursAt(s, sub, r) && forall k :: r < k ==> !OccursAt(s, sub, k)
  {
    if |sub| > |s| { return -1; }
    var i := |s| - |sub|;
    while i > -1
      invariant -1 <= i <= |s| - |sub|
      invariant forall k :: i < k ==> !OccursAt(s, sub, k)
    {
      if s[i..i + |sub|] == sub { return i; }
      i := i - 1;
    }
    return -1;
  }

  lemma FirstOccurrence(s: string, sub: string, i: nat)
    requires OccursAt(s, sub, i) && forall k :: 0 <= k < i ==> !OccursAt(s, sub, k)
    ensures IndexOf(s, sub) == i
  {
  }

  // ---------- splitting and joining ----------

  /** Put cur in front of the first part. */
  function Attach(cur: string, parts: seq<string>): (r: seq<string>)
    requires |parts| > 0
    ensures |r| == |parts|
  {
    [cur + parts[0]] + parts[1..]
  }

  function Split(s: string, d: string): (r: seq<string>)
    requires |d| > 0
    ensures |r| > 0
    decreases |s|
  {
    if |s| < |d| then [s]
    else if s[..|d|] == d then [""] + Split(s[|d|..], d)
    else Attach([s[0]], Split(s[1..], d))
  }

  function Join(parts: seq<string>, sep: string): string {
    if |parts| == 0 then ""
    else if |parts| == 1 then parts[0]
    else parts[0] + sep + Join(parts[1..], sep)
  }

  method SplitString(s: string, d: string) returns (result: seq<string>)
    requires |d| > 0
    ensures result == Split(s, d)
  {
    result := [];
    var current := "";
    var i := 0;
    ghost var rest := s;
    AttachNothing(Split(s, d));
    while i < |s|
      invariant 0 <= i <= |s| && rest == s[i..]
      invariant SplitSoFar(s, d, result, current, rest)
    {
      SplitStep(s, d, result, current, rest);
      if i + |d| <= |s| && s[i..i + |d|] == d {
        assert rest[..|d|] == d;
        result := result + [current];
        current := "";
        i := i + |d|;
        rest := rest[|d|..];
      } else {
        assert |d| <= |rest| ==> rest[..|d|] == s[i..i + |d|];
        current := current + [s[i]];
        i := i + 1;
        rest := rest[1..];
      }
    }
    assert rest == "" && current + "" == current;
    result := result + [current];
  }

  /** The scanning loop's invariant: result and current are what the scanned front gave. */
  ghost predicate SplitSoFar(s: string, d: string, result: seq<string>, current: string, rest: string)
    requires |d| > 0
  {
    Split(s, d) == result + Attach(current, Split(rest, d))
  }

  lemma SplitStep(s: string, d: string, result: seq<string>, current: string, rest: string)
    requires |d| > 0 && rest != "" && SplitSoFar(s, d, result, current, rest)
    ensures if |d| <= |rest| && rest[..|d|] == d
      then SplitSoFar(s, d, result + [current], "", rest[|d|..])
      else SplitSoFar(s, d, result, current + [rest[0]], rest[1..])
  {
    if |d| <= |rest| && rest[..|d|] == d {
      AttachNothing(Split(rest[|d|..], d));
      assert current + "" == current;
    } else if |d| <= |rest| {
      AttachTwice(current, [rest[0]], Split(rest[1..], d));
    } else {
      assert current + rest == (current + [rest[0]]) + rest[1..];
    }
  }

  lemma AttachNothing(parts: seq<string>)
    requires |parts| > 0
    ensures Attach("", parts) == parts
  {
    assert "" + parts[0] == parts[0];
  }

  lemma AttachTwice(a: string, b: string, parts: seq<string>)
    requires |parts| > 0
    ensures Attach(a, Attach(b, parts)) == Attach(a + b, parts)
  {
    assert a + (b + parts[0]) == (a + b) + parts[0];
  }

  method JoinStrings(parts: seq<string>, sep: string) returns (result: string)
    ensures result == Join(parts, sep)
  {
    if |parts| == 0 { return ""; }
    result := parts[0];
    var i := 1;
    while i < |parts|
      invariant 1 <= i <= |parts|
      invariant result == Join(parts[..i], sep)
    {
      JoinSnoc(parts[..i], parts[i], sep);
      assert parts[..i] + [parts[i]] == parts[..i + 1];
      result := result + sep + parts[i];
      i := i + 1;
    }
    assert parts[..i] == parts;
  }

  lemma {:induction false} JoinSnoc(parts: seq<string>, last: string, sep: string)
    requires |parts| > 0
    ensures Join(parts + [last], sep) == Join(parts, sep) + sep + last
  {
    if |parts| > 1 {
      JoinSnoc(parts[1..], last, sep);
      assert (parts + [last])[1..] == parts[1..] + [last];
      assert Join(parts + [last], sep) == parts[0] + sep + (Join(parts[1..], sep) + sep + last);
    } else {
      assert (parts + [last])[1..] == [last];
    }
  }

  /** Joining what split gave returns the text, for every text and delimiter. */
  lemma {:induction false} JoinOfSplit(s: string, d: string)
    requires |d| > 0
    ensures Join(Split(s, d), d) == s
    decreases |s|
  {
    if |s| >= |d| {
      if s[..|d|] == d {
        JoinOfSplit(s[|d|..], d);
        JoinCons(Split(s[|d|..], d), d);
        assert s == d + s[|d|..];
      } else {
        JoinOfSplit(s[1..], d);
        JoinAttach([s[0]], Split(s[1..], d), d);
        assert s == [s[0]] + s[1..];
      }
    }
  }

  lemma JoinCons(rest: seq<string>, d: string)
    requires |rest| > 0
    ensures Join([""] + rest, d) == d + Join(rest, d)
  {
    assert ([""] + rest)[1..] == rest && "" + d == d;
  }

  lemma JoinAttach(cur: string, parts: seq<string>, d: string)
    requires |parts| > 0
    ensures Join(Attach(cur, parts), d) == cur + Join(parts, d)
  {
    assert Attach(cur, parts)[1..] == parts[1..];
    if |parts| > 1 {
      assert cur + parts[0] + d + Join(parts[1..], d) == cur + (parts[0] + d + Join(parts[1..], d));
    }
  }

  /** Splitting what join gave returns the parts, when no part holds the delimiter. */
  lemma {:induction false} SplitOfJoin(parts: seq<string>, c: char)
    requires |parts| > 0
    requires forall p :: p in parts ==> c !in p
    ensures Split(Join(parts, [c]), [c]) == parts
  {
    if |parts| == 1 {
      assert parts == [parts[0]];
      SplitWithout(parts[0], c);
    } else {
      var tail := Join(parts[1..], [c]);
      SplitOfJoin(parts[1..], c);
      SplitAtFirst(parts[0], tail, c);
      assert Join(parts, [c]) == parts[0] + [c] + tail;
    }
  }

  lemma {:induction false} SplitWithout(s: string, c: char)
    requires c !in s
    ensures Split(s, [c]) == [s]
  {
    if s != "" {
      assert s[..1] == [s[0]] && s[0] != c;
      SplitWithout(s[1..], c);
      assert [s[0]] + s[1..] == s;
    }
  }

  lemma SplitAtFirst(p: string, rest: string, c: char)
    requires c !in p
    ensures Split(p + [c] + rest, [c]) == [p] + Split(rest, [c])
  {
    SplitWithout(p, c);
    SplitOfConcat(p, rest, c);
  }

  /** A delimiter between two texts splits them apart, whatever they hold. */
  lemma {:induction false} SplitOfConcat(a: string, b: string, c: char)
    ensures Split(a + [c] + b, [c]) == Split(a, [c]) + Split(b, [c])
  {
    var s := a + [c] + b;
    if a == "" {
      assert s[..1] == [c] && s[1..] == b;
    } else {
      assert s[1..] == a[1..] + [c] + b;
      assert s[..1] == a[..1];
      SplitOfConcat(a[1..], b, c);
    }
  }

  function StretchLast(parts: seq<string>, t: string): seq<string>
    requires |parts| > 0
  {
    parts[|parts| - 1 := parts[|parts| - 1] + t]
  }

  /** Text without the delimiter, added at the end, lengthens the last part. */
  lemma {:induction false} SplitStretch(s: string, t: string, c: char)
    requires c !in t
    ensures Split(s + t, [c]) == StretchLast(Split(s, [c]), t)
  {
    if s == "" {
      assert s + t == t;
      SplitWithout(t, c);
    } else {
      assert (s + t)[1..] == s[1..] + t && (s + t)[..1] == s[..1];
      SplitStretch(s[1..], t, c);
      StretchLater(s[0], Split(s[1..], [c]), t);
    }
  }

  lemma StretchLater(c: char, rest: seq<string>, t: string)
    requires |rest| > 0
    ensures StretchLast([""] + rest, t) == [""] + StretchLast(rest, t)
    ensures StretchLast(Attach([c], rest), t) == Attach([c], StretchLast(rest, t))
  {
    assert [c] + (rest[0] + t) == [c] + rest[0] + t;
  }

  /** No part of a split holds the one-character delimiter. */
  lemma {:induction false} PartsLackDelimiter(s: string, c: char)
    ensures forall p :: p in Split(s, [c]) ==> c !in p
  {
    if s != "" {
      PartsLackDelimiter(s[1..], c);
      var rest := Split(s[1..], [c]);
      if s[..1] != [c] {
        assert rest[0] in rest;
        assert s[0] != c by { assert s[..1] == [s[0]]; }
      }
    }
  }

  // ---------- decimal numbers ----------

  function DigitChar(d: int): char
    requires 0 <= d < 10
  {
    (48 + d) as char
  }

  /** The canonical decimal digits of n. */
  function Digits(n: nat): (r: string)
    ensures |r| > 0 && forall c :: c in r ==> IsDigit(c)
  {
    if n < 10 then [DigitChar(n)] else Digits(n / 10) + [DigitChar(n % 10)]
  }

  function IntToString(n: int): string {
    if n < 0 then "-" + Digits(-n) else Digits(n)
  }

  /** What the digits of s spell, other characters skipped. */
  function DigitsValue(s: string): nat {
    if s == "" then 0
    else
      var before := DigitsValue(s[..|s| - 1]);
      var c := s[|s| - 1];
      if IsDigit(c) then before * 10 + (Code(c) - 48) else before
  }

  /** What a text spells, in 64 bits. */
  function StringToInt(s: string): int {
    Wrap(if s != "" && s[0] == '-' then 0 - DigitsValue(s[1..]) as int else DigitsValue(s))
  }

  method ParseInt(s: string) returns (r: int)
    ensures r == StringToInt(s)
  {
    var negative, i, result := false, 0, 0;
    if |s| > 0 && s[0] == '-' {
      negative, i := true, 1;
    }
    ghost var start := i;
    while i < |s|
      invariant start <= i <= |s|
      invariant result == Wrap(DigitsValue(s[start..i]))
    {
      assert s[start..i + 1][..i - start] == s[start..i];
      if IsDigit(s[i]) {
        WrapEarly(DigitsValue(s[start..i]), 10, Code(s[i]) - 48);
        result := Wrap(result * 10 + Code(s[i]) - 48);
      }
      i := i + 1;
    }
    assert s[start..i] == s[start..];
    assert s[0..] == s;
    WrapEarly(DigitsValue(s[start..]), -1, 0);
    return if negative then Wrap(0 - result) else result;
  }

  lemma {:induction false} DigitsSpell(n: nat)
    ensures DigitsValue(Digits(n)) == n
  {
    if n >= 10 {
      DigitsSpell(n / 10);
      assert Digits(n)[..|Digits(n)| - 1] == Digits(n / 10);
    }
  }

  /** Reading a printed number back gives what is left of it in 64 bits: the number itself
      exactly when it is one of these. */
  lemma IntRoundTrip(n: int)
    ensures StringToInt(IntToString(n)) == Wrap(n)
    ensures StringToInt(IntToString(n)) == n <==> MIN <= n <= MAX
  {
    WrapKeeps(n);
    if n < 0 {
      DigitsSpell(-n);
      assert IntToString(n)[1..] == Digits(-n);
    } else {
      DigitsSpell(n);
      assert Digits(n)[0] in Digits(n);
    }
  }
}
