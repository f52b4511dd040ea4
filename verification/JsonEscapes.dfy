/** The \u escapes of stdlib/json.ep. */
module JsonEscapes {
  import opened Strings
  import opened Utf8
  import opened Json
  import opened JsonLaws

  // ---------- \u escapes ----------

  /** The UTF-16 unit a \u escape at the front of x names, or -1. */
  function UnitOf(x: string): int {
    if |x| >= 6 && x[0] == '\\' && x[1] == 'u' then Hex4(x, 2) else -1
  }

  /** A hex digit, in either case, and its value. */
  predicate HexDigit(c: char, v: int) {
    0 <= v < 16 && (c == "0123456789abcdef"[v] || c == "0123456789ABCDEF"[v])
  }

  /** A \u escape with four hex digits that spell the unit, the highest first. */
  predicate HexEscape(x: string, unit: int) {
    && |x| == 6 && x[0] == '\\' && x[1] == 'u' && 0 <= unit < 65536
    && HexDigit(x[2], unit / 4096) && HexDigit(x[3], unit / 256 % 16)
    && HexDigit(x[4], unit / 16 % 16) && HexDigit(x[5], unit % 16)
  }

  lemma HexValIs(c: char, v: int)
    requires 0 <= v < 16
    ensures HexVal(c) == v <==> HexDigit(c, v)
  {}

  /** The unit the parser finds is the one that is spelled. */
  lemma UnitIsSpelled(x: string, unit: int)
    requires |x| == 6 && 0 <= unit < 65536
    ensures UnitOf(x) == unit <==> HexEscape(x, unit)
  {
    hide HexVal, HexDigit;
    HexValRange(x[2]);
    HexValRange(x[3]);
    HexValRange(x[4]);
    HexValRange(x[5]);
    if HexVal(x[2]) >= 0 && HexVal(x[3]) >= 0 && HexVal(x[4]) >= 0 && HexVal(x[5]) >= 0 {
      Base16(HexVal(x[2]), HexVal(x[3]), HexVal(x[4]), HexVal(x[5]), unit);
    }
    HexValIs(x[2], unit / 4096);
    HexValIs(x[3], unit / 256 % 16);
    HexValIs(x[4], unit / 16 % 16);
    HexValIs(x[5], unit % 16);
  }

  lemma Base16(h0: int, h1: int, h2: int, h3: int, unit: int)
    requires 0 <= h0 < 16 && 0 <= h1 < 16 && 0 <= h2 < 16 && 0 <= h3 < 16 && 0 <= unit < 65536
    ensures (h0 * 4096 + h1 * 256) + (h2 * 16 + h3) == unit <==>
      h0 == unit / 4096 && h1 == unit / 256 % 16 && h2 == unit / 16 % 16 && h3 == unit % 16
  {
    var a, b := h0 * 16 + h1, h2 * 16 + h3;
    TwoDigits(h0, h1, unit / 256);
    TwoDigits(h2, h3, unit % 256);
    assert a * 256 + b == unit <==> a == unit / 256 && b == unit % 256;
  }

  lemma TwoDigits(h: int, l: int, b: int)
    requires 0 <= h < 16 && 0 <= l < 16 && 0 <= b < 256
    ensures h * 16 + l == b <==> h == b / 16 && l == b % 16
  {}

  lemma HexValRange(c: char)
    ensures -1 <= HexVal(c) < 16
  {}

  /** x is a scalar value written as one \u escape, or above FFFF as a surrogate pair of
      two, hex digits in either case (section 7 of RFC 8259). */
  predicate Spells(x: string, cp: CodePoint) {
    if cp < 65536 then HexEscape(x, cp)
    else
      && |x| == 12 && HexEscape(x[..6], 0xD800 + (cp - 65536) / 1024)
      && HexEscape(x[6..], 0xDC00 + (cp - 65536) % 1024)
  }

  function Concat(xs: seq<string>): string { if xs == [] then "" else xs[0] + Concat(xs[1..]) }

  lemma StandsAt(s: string, pos: nat, x: string, i: nat)
    requires Stands(s, pos, x) && i < |x|
    ensures s[pos + i] == x[i]
  {
    assert s[pos + i] == s[pos..pos + |x|][i];
  }

  /** An escape of x, standing in s: its first two characters and its unit. */
  lemma UnitStands(s: string, pos: nat, x: string, i: nat)
    requires Stands(s, pos, x) && i + 6 <= |x|
    ensures s[pos + i] == x[i] && s[pos + i + 1] == x[i + 1] && Hex4(s, pos + i + 2) == Hex4(x, i + 2)
  {
    StandsAt(s, pos, x, i);
    StandsAt(s, pos, x, i + 1);
    StandsAt(s, pos, x, i + 2);
    StandsAt(s, pos, x, i + 3);
    StandsAt(s, pos, x, i + 4);
    StandsAt(s, pos, x, i + 5);
  }

  lemma PairPiece(s: string, pos: nat, cp: CodePoint)
    requires cp >= 65536 && pos + 12 <= |s|
    requires s[pos] == '\\' && s[pos + 1] == 'u' && Hex4(s, pos + 2) == 0xD800 + (cp - 65536) / 1024
    requires s[pos + 6] == '\\' && s[pos + 7] == 'u' && Hex4(s, pos + 8) == 0xDC00 + (cp - 65536) % 1024
    ensures PieceAt(s, pos) == Piece(Encode(cp), pos + 12)
  {
    var high, low := (cp - 65536) / 1024, (cp - 65536) % 1024;
    assert cp == 65536 + (high * 1024 + low) && high < 1024;
    assert Unicode(s, pos + 2, 0xD800 + high) == Piece(Encode(cp), pos + 12);
  }

  lemma UnitPiece(s: string, pos: nat, cp: CodePoint)
    requires Scalar(cp) && cp < 65536 && pos + 6 <= |s|
    requires s[pos] == '\\' && s[pos + 1] == 'u' && Hex4(s, pos + 2) == cp
    ensures PieceAt(s, pos) == Piece(Encode(cp), pos + 6)
  {
    assert Unicode(s, pos + 2, cp) == Piece(Encode(cp), pos + 6);
  }

  /** One spelled scalar value, surrogate pairs included, is decoded to its UTF-8. */
  lemma SpelledPiece(s: string, pos: nat, x: string, cp: CodePoint)
    requires Scalar(cp) && Spells(x, cp) && Stands(s, pos, x)
    ensures pos < |s| && s[pos] == '\\' && PieceAt(s, pos) == Piece(Encode(cp), pos + |x|)
  {
    hide Encode, PieceAt, Stands;
    if cp < 65536 {
      EscapeStands(s, pos, x, cp);
      UnitPiece(s, pos, cp);
    } else {
      assert x == x[..6] + x[6..];
      StandsParts(s, pos, x[..6], x[6..]);
      EscapeStands(s, pos, x[..6], 0xD800 + (cp - 65536) / 1024);
      EscapeStands(s, pos + 6, x[6..], 0xDC00 + (cp - 65536) % 1024);
      PairPiece(s, pos, cp);
    }
  }

  lemma EscapeStands(s: string, pos: nat, x: string, unit: int)
    requires HexEscape(x, unit) && Stands(s, pos, x)
    ensures pos + 6 <= |s| && s[pos] == '\\' && s[pos + 1] == 'u' && Hex4(s, pos + 2) == unit
  {
    hide Hex4;
    UnitIsSpelled(x, unit);
    UnitStands(s, pos, x, 0);
  }

  predicate AllSpell(xs: seq<string>, cps: seq<CodePoint>) {
    |xs| == |cps| && forall i :: 0 <= i < |xs| ==> Scalar(cps[i]) && Spells(xs[i], cps[i])
  }

  lemma {:induction false} ScanSpelled(s: string, pos: nat, xs: seq<string>, cps: seq<CodePoint>)
    requires AllSpell(xs, cps)
    requires Stands(s, pos, Concat(xs)) && pos + |Concat(xs)| < |s| && s[pos + |Concat(xs)|] == '\"'
    ensures Scan(s, pos) == Piece(EncodeAll(cps), pos + |Concat(xs)| + 1)
    decreases |xs|
  {
    hide Spells, Stands, PieceAt, Encode;
    if xs != [] {
      var rest := Concat(xs[1..]);
      StandsParts(s, pos, xs[0], rest);
      ScanSpelled(s, pos + |xs[0]|, xs[1..], cps[1..]);
      SpelledPiece(s, pos, xs[0], cps[0]);
      ScanStep(s, pos, Piece(Encode(cps[0]), pos + |xs[0]|), Piece(EncodeAll(cps[1..]), pos + |xs[0]| + |rest| + 1));
    }
  }

  lemma {:induction false} EncodedLacksNul(cps: seq<CodePoint>)
    requires 0 !in cps
    ensures NoNul(EncodeAll(cps))
  {
    if cps != [] { EncodedLacksNul(cps[1..]); }
  }

  /** Any scalar values but U+0000, written as escapes between quotes, parse to exactly
      their UTF-8, which decodes back to them. */
  lemma EscapesDecode(xs: seq<string>, cps: seq<CodePoint>)
    requires AllSpell(xs, cps) && 0 !in cps
    ensures var s := "\"" + Concat(xs) + "\"";
      ParseString(s, 0) == Piece(EncodeAll(cps), |s|) && DecodeAll(EncodeAll(cps)) == Good(cps)
  {
    var s := "\"" + Concat(xs) + "\"";
    assert s[0..|s|] == s;
    Bracketed(s, 0, "\"", Concat(xs), "\"");
    ScanSpelled(s, 1, xs, cps);
    EncodedLacksNul(cps);
    CutNothing(EncodeAll(cps));
    EncodeAllGood(cps);
  }

  // ---------- surrogates, paired and lone ----------

  /** One piece of a JSON string: an escape of a nonzero UTF-16 unit, or a plain character. */
  predicate Token(x: string) {
    || (|x| == 6 && UnitOf(x) > 0)
    || (|x| == 1 && 0 < Code(x[0]) < 128 && x[0] != '\"' && x[0] != '\\')
  }

  /** The UTF-16 unit it stands for. */
  function Unit(x: string): CodePoint
    requires Token(x)
  {
    if |x| == 6 then UnitOf(x) else Code(x[0])
  }

  predicate High(x: string) { Token(x) && 0xD800 <= Unit(x) <= 0xDBFF }

  predicate Low(x: string) { Token(x) && 0xDC00 <= Unit(x) <= 0xDFFF }

  predicate Tokens(xs: seq<string>) { forall i :: 0 <= i < |xs| ==> Token(xs[i]) }

  /** Every high surrogate stands right before a low one, and every low one behind a high
      one. */
  predicate Paired(xs: seq<string>) {
    && (forall i :: 0 <= i < |xs| && High(xs[i]) ==> i + 1 < |xs| && Low(xs[i + 1]))
    && (forall i :: 0 <= i < |xs| && Low(xs[i]) ==> 0 < i && High(xs[i - 1]))
  }

  /** The code points the parser makes of the tokens: a pair is one, a lone surrogate
      stays what it is. */
  function Points(xs: seq<string>): seq<CodePoint>
    requires Tokens(xs)
  {
    if xs == [] then []
    else if |xs| > 1 && High(xs[0]) && Low(xs[1]) then
      [65536 + ((Unit(xs[0]) - 0xD800) * 1024 + (Unit(xs[1]) - 0xDC00))] + Points(xs[2..])
    else [Unit(xs[0])] + Points(xs[1..])
  }

  predicate AllScalar(cps: seq<CodePoint>) { forall i :: 0 <= i < |cps| ==> Scalar(cps[i]) }

  lemma AllScalarCons(cp: CodePoint, cps: seq<CodePoint>)
    ensures AllScalar([cp] + cps) <==> Scalar(cp) && AllScalar(cps)
  {
    var all := [cp] + cps;
    assert all[0] == cp;
    forall i | 0 <= i < |cps| ensures all[i + 1] == cps[i] {}
  }

  lemma SurrogatesAreNoScalars(x: string)
    requires Token(x)
    ensures Scalar(Unit(x)) <==> !High(x) && !Low(x)
    ensures !(High(x) && Low(x))
  {}

  /** All code points are scalar values exactly when the surrogates are paired. */
  lemma {:induction false} PointsScalar(xs: seq<string>)
    requires Tokens(xs)
    ensures AllScalar(Points(xs)) <==> Paired(xs)
    decreases |xs|
  {
    hide Token, Unit, High, Low;
    if xs != [] {
      SurrogatesAreNoScalars(xs[0]);
      if |xs| > 1 && High(xs[0]) && Low(xs[1]) {
        PointsScalar(xs[2..]);
        SurrogatesAreNoScalars(xs[1]);
        PairLeads(xs);
        PairIsScalar(xs[0], xs[1]);
        AllScalarCons(65536 + ((Unit(xs[0]) - 0xD800) * 1024 + (Unit(xs[1]) - 0xDC00)), Points(xs[2..]));
      } else {
        PointsScalar(xs[1..]);
        AllScalarCons(Unit(xs[0]), Points(xs[1..]));
        if !High(xs[0]) && !Low(xs[0]) { PlainLeads(xs); }
      }
    }
  }

  lemma PairIsScalar(x: string, y: string)
    requires High(x) && Low(y)
    ensures 65536 <= 65536 + ((Unit(x) - 0xD800) * 1024 + (Unit(y) - 0xDC00)) <= 0x10FFFF
  {}

  lemma PairLeads(xs: seq<string>)
    requires |xs| > 1 && High(xs[0]) && Low(xs[1]) && !Low(xs[0]) && (High(xs[1]) ==> !Low(xs[1]))
    ensures Paired(xs) <==> Paired(xs[2..])
  {}

  lemma PlainLeads(xs: seq<string>)
    requires xs != [] && !High(xs[0]) && !Low(xs[0])
    ensures Paired(xs) <==> Paired(xs[1..])
  {}

  /** A token, standing before the rest: what its first piece is. */
  lemma TokenPiece(s: string, pos: nat, x: string, next: string)
    requires Token(x) && Stands(s, pos, x) && pos + |x| < |s|
    requires if next == "" then s[pos + |x|] == '\"' else Token(next) && Stands(s, pos + |x|, next)
    ensures s[pos] != '\"'
    ensures PieceAt(s, pos) ==
      if High(x) && next != "" && Low(next) then
        Piece(Encode(65536 + ((Unit(x) - 0xD800) * 1024 + (Unit(next) - 0xDC00))), pos + 12)
      else Piece(Encode(Unit(x)), pos + |x|)
  {
    StandsHead(s, pos, x);
    if |x| == 6 {
      UnitStands(s, pos, x, 0);
      if next != "" {
        StandsHead(s, pos + |x|, next);
        if |next| == 6 { UnitStands(s, pos + |x|, next, 0); }
      }
      EscapePiece(s, pos, x, next);
    } else {
      PlainPiece(s, pos, x);
    }
  }

  lemma PlainPiece(s: string, pos: nat, x: string)
    requires pos < |s| && |x| == 1 && Token(x) && s[pos] == x[0]
    ensures PieceAt(s, pos) == Piece(Encode(Unit(x)), pos + 1)
  {
    assert [x[0]] == Encode(Unit(x));
  }

  lemma EscapePiece(s: string, pos: nat, x: string, next: string)
    requires pos + 6 < |s| && |x| == 6 && Token(x)
    requires s[pos] == '\\' && s[pos + 1] == 'u' && Hex4(s, pos + 2) == Unit(x)
    requires next == "" ==> s[pos + 6] == '\"'
    requires next != "" ==> Token(next) && s[pos + 6] == next[0]
    requires |next| == 6 ==> pos + 12 <= |s| && s[pos + 7] == next[1] && Hex4(s, pos + 8) == Unit(next)
    ensures PieceAt(s, pos) ==
      if High(x) && next != "" && Low(next) then
        Piece(Encode(65536 + ((Unit(x) - 0xD800) * 1024 + (Unit(next) - 0xDC00))), pos + 12)
      else Piece(Encode(Unit(x)), pos + 6)
  {
    hide Hex4, Encode;
    assert PieceAt(s, pos) == Unicode(s, pos + 2, Unit(x));
  }

  lemma ConcatCons(xs: seq<string>)
    requires xs != []
    ensures Concat(xs) == xs[0] + Concat(xs[1..])
    ensures |xs| > 1 ==> Concat(xs) == xs[0] + xs[1] + Concat(xs[2..])
  {
    if |xs| > 1 {
      assert xs[1..][1..] == xs[2..];
      assert xs[0] + (xs[1] + Concat(xs[2..])) == xs[0] + xs[1] + Concat(xs[2..]);
    }
  }

  predicate PairFirst(xs: seq<string>) { |xs| > 1 && High(xs[0]) && Low(xs[1]) }

  /** Where tokens stand between quotes, the first piece, and where the others stand. */
  lemma FirstToken(s: string, pos: nat, xs: seq<string>)
    requires xs != [] && Tokens(xs)
    requires Stands(s, pos, Concat(xs)) && pos + |Concat(xs)| < |s| && s[pos + |Concat(xs)|] == '\"'
    ensures s[pos] != '\"'
    ensures if PairFirst(xs) then
        && Stands(s, pos + 12, Concat(xs[2..])) && |Concat(xs)| == 12 + |Concat(xs[2..])|
        && PieceAt(s, pos) ==
           Piece(Encode(65536 + ((Unit(xs[0]) - 0xD800) * 1024 + (Unit(xs[1]) - 0xDC00))), pos + 12)
      else
        && Stands(s, pos + |xs[0]|, Concat(xs[1..])) && |Concat(xs)| == |xs[0]| + |Concat(xs[1..])|
        && |xs[0]| > 0 && PieceAt(s, pos) == Piece(Encode(Unit(xs[0])), pos + |xs[0]|)
  {
    hide Token, Unit, High, Low, Stands, PieceAt, Encode;
    ConcatCons(xs);
    TokensLength(xs[0]);
    StandsParts(s, pos, xs[0], Concat(xs[1..]));
    if |xs| == 1 {
      assert xs[1..] == [];
      TokenPiece(s, pos, xs[0], "");
    } else {
      ConcatCons(xs[1..]);
      TokensLength(xs[1]);
      StandsParts(s, pos + |xs[0]|, xs[1], Concat(xs[2..]));
      TokenPiece(s, pos, xs[0], xs[1]);
      if PairFirst(xs) {
        PairIsScalar(xs[0], xs[1]);
        PairLength(xs[0], xs[1]);
      }
    }
  }

  lemma {:induction false} ScanTokens(s: string, pos: nat, xs: seq<string>)
    requires Tokens(xs)
    requires Stands(s, pos, Concat(xs)) && pos + |Concat(xs)| < |s| && s[pos + |Concat(xs)|] == '\"'
    ensures Scan(s, pos) == Piece(EncodeAll(Points(xs)), pos + |Concat(xs)| + 1)
    decreases |xs|
  {
    hide Token, Unit, High, Low, Stands, PieceAt, Scan, Encode, EncodeAll, Concat;
    if xs == [] {
      NothingToScan(s, pos, xs);
    } else {
      FirstToken(s, pos, xs);
      if PairFirst(xs) {
        PairIsScalar(xs[0], xs[1]);
        ScanTokens(s, pos + 12, xs[2..]);
        var pair := 65536 + ((Unit(xs[0]) - 0xD800) * 1024 + (Unit(xs[1]) - 0xDC00));
        PointFirst(s, pos, pair, Points(xs[2..]), pos + 12);
      } else {
        ScanTokens(s, pos + |xs[0]|, xs[1..]);
        PointFirst(s, pos, Unit(xs[0]), Points(xs[1..]), pos + |xs[0]|);
      }
    }
  }

  /** A piece that is the UTF-8 of one code point goes before that of the others. */
  lemma PointFirst(s: string, pos: nat, cp: CodePoint, cps: seq<CodePoint>, next: nat)
    requires pos < next <= |s| && s[pos] != '\"' && PieceAt(s, pos) == Piece(Encode(cp), next)
    requires Scan(s, next).text == EncodeAll(cps)
    ensures Scan(s, pos) == Piece(EncodeAll([cp] + cps), Scan(s, next).next)
  {
    hide PieceAt, Encode, Scan;
    assert ([cp] + cps)[1..] == cps;
    ScanStep(s, pos, PieceAt(s, pos), Scan(s, next));
  }

  lemma NothingToScan(s: string, pos: nat, xs: seq<string>)
    requires xs == [] && pos + |Concat(xs)| < |s| && s[pos + |Concat(xs)|] == '\"'
    ensures Scan(s, pos) == Piece(EncodeAll(Points(xs)), pos + |Concat(xs)| + 1)
  {}

  lemma TokensLength(x: string)
    requires Token(x)
    ensures x != "" && Unit(x) > 0
  {}

  lemma PairLength(x: string, y: string)
    requires High(x) && Low(y)
    ensures |x| == |y| == 6
  {}

  lemma {:induction false} PointsNotZero(xs: seq<string>)
    requires Tokens(xs)
    ensures 0 !in Points(xs)
    decreases |xs|
  {
    if xs != [] {
      TokensLength(xs[0]);
      if |xs| > 1 && High(xs[0]) && Low(xs[1]) { PointsNotZero(xs[2..]); } else { PointsNotZero(xs[1..]); }
    }
  }

  /** Any nonzero \u escapes and plain characters between quotes parse to the UTF-8 of
      their code points; that is well-formed exactly when every surrogate among the
      escapes is one of a pair. */
  lemma SurrogatesMustPair(xs: seq<string>)
    requires Tokens(xs)
    ensures var s := "\"" + Concat(xs) + "\"";
      && ParseString(s, 0) == Piece(EncodeAll(Points(xs)), |s|)
      && (DecodeAll(EncodeAll(Points(xs))).Good? <==> Paired(xs))
      && (Paired(xs) ==> DecodeAll(EncodeAll(Points(xs))) == Good(Points(xs)))
  {
    var s := "\"" + Concat(xs) + "\"";
    assert s[0..|s|] == s;
    Bracketed(s, 0, "\"", Concat(xs), "\"");
    ScanTokens(s, 1, xs);
    PointsNotZero(xs);
    EncodedLacksNul(Points(xs));
    CutNothing(EncodeAll(Points(xs)));
    PointsScalar(xs);
    EncodeAllGood(Points(xs));
  }
}
