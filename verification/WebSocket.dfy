/** stdlib/websocket.ep: the frames of section 5 of RFC 6455, written and read as bytes. */
module WebSocket {

  type Byte = b: int | 0 <= b < 256

  const MAX_PAYLOAD := 10485760

  // ---------- the mask ----------

  /** Exclusive or, from the lowest bit up. */
  function Xor(a: nat, b: nat): nat
    decreases a + b
  {
    if a == 0 && b == 0 then 0 else Xor(a / 2, b / 2) * 2 + (if a % 2 != b % 2 then 1 else 0)
  }

  lemma XorHalves(a: nat, b: nat)
    ensures Xor(a, b) / 2 == Xor(a / 2, b / 2) && Xor(a, b) % 2 == if a % 2 != b % 2 then 1 else 0
  {}

  lemma XorFromHalves(x: nat, a: nat, b: nat)
    requires x / 2 == Xor(a / 2, b / 2) && x % 2 == if a % 2 != b % 2 then 1 else 0
    ensures x == Xor(a, b)
  {
    XorHalves(a, b);
  }

  lemma {:induction false} XorUndone(a: nat, b: nat)
    ensures Xor(Xor(a, b), b) == a
    decreases a + b
  {
    var x := Xor(a, b);
    XorHalves(a, b);
    if a != 0 || b != 0 {
      XorUndone(a / 2, b / 2);
      XorFromHalves(a, x, b);
    }
  }

  predicate BitValue(v: nat) { v in {1, 2, 4, 8, 16, 32, 64, 128} }

  /** The highest bit can be split off. */
  lemma {:induction false} XorFromTheTop(v: nat, d: nat, m: nat)
    requires BitValue(v) && d < 2 * v && m < 2 * v
    ensures Xor(d, m) == (if d / v != m / v then v else 0) + Xor(d % v, m % v)
    decreases v
  {
    if v == 1 {
      XorHalves(d, m);
    } else {
      var w := v / 2;
      XorFromTheTop(w, d / 2, m / 2);
      Halves(d, w);
      Halves(m, w);
      var low := Xor(d % v, m % v);
      XorHalves(d % v, m % v);
      XorFromHalves((if d / v != m / v then v else 0) + low, d, m);
    }
  }

  lemma Halves(d: nat, w: nat)
    requires w in {1, 2, 4, 8, 16, 32, 64}
    ensures d / 2 / w == d / (2 * w) && d / 2 % w == d % (2 * w) / 2 && d % (2 * w) % 2 == d % 2
  {}

  lemma {:induction false} XorBound(v: nat, d: nat, m: nat)
    requires BitValue(v) && d < 2 * v && m < 2 * v
    ensures Xor(d, m) < 2 * v
    decreases v
  {
    XorHalves(d, m);
    if v > 1 { XorBound(v / 2, d / 2, m / 2); }
  }

  /** The loop that finds the exclusive or of two bytes by division, highest bit first. */
  method XorByDivision(data: Byte, mask: Byte) returns (r: Byte)
    ensures r == Xor(data, mask)
  {
    var result: nat, v: nat, d: nat, m: nat := 0, 128, data, mask;
    while v >= 1
      invariant v == 0 || BitValue(v)
      invariant if v == 0 then d == 0 && m == 0 else d < 2 * v && m < 2 * v
      invariant result + Xor(d, m) == Xor(data, mask)
      decreases v
    {
      XorFromTheTop(v, d, m);
      var dBit, mBit := d / v, m / v;
      d, m := d % v, m % v;
      if dBit != mBit { result := result + v; }
      v := v / 2;
    }
    XorOfBytes(data, mask);
    r := result;
  }

  lemma XorOfBytes(a: Byte, b: Byte)
    ensures Xor(a, b) < 256
  {
    XorBound(128, a, b);
  }

  function XorByte(a: Byte, b: Byte): (r: Byte)
    ensures r == Xor(a, b)
  {
    XorOfBytes(a, b);
    Xor(a, b)
  }

  /** Section 5.3: byte i of the data under byte i mod 4 of the key. */
  function Masked(data: seq<Byte>, key: seq<Byte>): (r: seq<Byte>)
    requires |key| == 4
    ensures |r| == |data|
  {
    seq(|data|, i requires 0 <= i < |data| => XorByte(data[i], key[i % 4]))
  }

  lemma MaskUndone(data: seq<Byte>, key: seq<Byte>)
    requires |key| == 4
    ensures Masked(Masked(data, key), key) == data
  {
    forall i | 0 <= i < |data|
      ensures Masked(Masked(data, key), key)[i] == data[i]
    {
      XorUndone(data[i], key[i % 4]);
    }
  }

  /** What a C string holds of these bytes. */
  function CutAtNul(s: seq<Byte>): seq<Byte> {
    if s == [] || s[0] == 0 then [] else [s[0]] + CutAtNul(s[1..])
  }

  // ---------- writing ----------

  function Big(n: nat): (r: seq<Byte>)
    ensures |r| == 4
  {
    [n / 16777216 % 256, n / 65536 % 256, n / 256 % 256, n % 256]
  }

  /** The bytes after the first: the mask bit with a length of seven bits, or with a mark
      and a length of two or of eight bytes. The upper half of the eight is never read. */
  datatype Form = Seven | Sixteen | SixtyFour(upper: seq<Byte>)

  predicate Suits(f: Form, n: nat) {
    match f
    case Seven => n < 126
    case Sixteen => n < 65536
    case SixtyFour(upper) => |upper| == 4
  }

  function Lengths(f: Form, masked: bool, n: nat): seq<Byte>
    requires Suits(f, n)
  {
    var bit := if masked then 128 else 0;
    match f
    case Seven => [bit + n]
    case Sixteen => [bit + 126, n / 256, n % 256]
    case SixtyFour(upper) => [bit + 127] + upper + Big(n)
  }

  datatype Mask = NoMask | Key(key: seq<Byte>)

  predicate GoodMask(m: Mask) { m.Key? ==> |m.key| == 4 }

  /** Section 5.2: one frame, masked or not. */
  function Frame(byte1: Byte, f: Form, m: Mask, payload: seq<Byte>): seq<Byte>
    requires Suits(f, |payload|) && GoodMask(m)
  {
    [byte1] + Lengths(f, m.Key?, |payload|) + (if m.Key? then m.key + Masked(payload, m.key) else payload)
  }

  /** The form the sender chooses. */
  function Shortest(n: nat): (f: Form)
    ensures Suits(f, n)
  {
    if n < 126 then Seven else if n < 65536 then Sixteen else SixtyFour([0, 0, 0, 0])
  }

  function ServerFrame(opcode: nat, message: seq<Byte>): seq<Byte>
    requires opcode < 16
  {
    Frame(128 + opcode, Shortest(|message|), NoMask, message)
  }

  method BuildHeaderList(opcode: nat, n: nat) returns (bytes: seq<Byte>)
    requires opcode < 16
    ensures bytes == [128 + opcode] + Lengths(Shortest(n), false, n)
  {
    bytes := [];
    bytes := bytes + [128 + opcode];
    if n < 126 {
      bytes := bytes + [n];
    } else if n < 65536 {
      bytes := bytes + [126];
      bytes := bytes + [n / 256];
      bytes := bytes + [n % 256];
    } else {
      bytes := bytes + [127];
      bytes := bytes + [0];
      bytes := bytes + [0];
      bytes := bytes + [0];
      bytes := bytes + [0];
      bytes := bytes + [n / 16777216 % 256];
      bytes := bytes + [n / 65536 % 256];
      bytes := bytes + [n / 256 % 256];
      bytes := bytes + [n % 256];
    }
  }

  // ---------- reading, as a function of the bytes to come ----------

  /** What one call to the reader does: its answer, how many bytes it takes and what it
      sends back. Cut when the peer closes inside the frame. */
  datatype Reading = Cut | Reading(answer: seq<Byte>, used: nat, reply: Reply)

  datatype Reply = Silence | PongWith(data: seq<Byte>)

  function Sends(r: Reply): seq<Byte> {
    match r case Silence => [] case PongWith(data) => ServerFrame(10, data)
  }

  const PING_HANDLED: seq<Byte> := [80, 73, 78, 71, 95, 72, 65, 78, 68, 76, 69, 68]
  const PONG_IGNORED: seq<Byte> := [80, 79, 78, 71, 95, 73, 71, 78, 79, 82, 69, 68]

  /** The second byte is read out of a C string: behind a zero byte it reads as zero. */
  function SecondByte(s: seq<Byte>): Byte
    requires |s| >= 2
  {
    if s[0] == 0 then 0 else s[1]
  }

  /** A body of n bytes behind the first `at`, under a mask key when there is one. */
  function Body(s: seq<Byte>, at: nat, masked: bool, n: nat): seq<Byte>
    requires |s| >= at + (if masked then 4 else 0) + n
  {
    if masked then Masked(s[at + 4..at + 4 + n], s[at..at + 4]) else s[at..at + n]
  }

  lemma BodySlices(s: seq<Byte>, at: nat, masked: bool, n: nat)
    requires |s| >= at + (if masked then 4 else 0) + n
    ensures !masked ==> Body(s, at, masked, n) == s[at..][..n] && s[at..][n..] == s[at + n..]
    ensures masked ==> Body(s, at, masked, n) == Masked(s[at..][4..][..n], s[at..][..4])
    ensures masked ==> s[at..][4..][n..] == s[at + 4 + n..]
  {
    assert s[at..][..n] == s[at..at + n];
    if masked {
      assert s[at..][4..] == s[at + 4..] && s[at..][..4] == s[at..at + 4];
      assert s[at + 4..][..n] == s[at + 4..at + 4 + n];
    }
  }

  function ReadControl(s: seq<Byte>, ping: bool): Reading
    requires |s| >= 2
  {
    var masked, n := SecondByte(s) >= 128, SecondByte(s) % 128;
    var end := 2 + (if masked then 4 else 0) + n;
    if |s| < end then Cut
    else if ping then Reading(PING_HANDLED, end, PongWith(CutAtNul(Body(s, 2, masked, n))))
    else Reading(PONG_IGNORED, end, Silence)
  }

  function LengthAt(s: seq<Byte>, short: nat): nat
    requires |s| >= (if short == 126 then 4 else if short == 127 then 10 else 2)
  {
    if short == 126 then s[2] as nat * 256 + s[3]
    else if short == 127 then s[6] as nat * 16777216 + s[7] as nat * 65536 + s[8] as nat * 256 + s[9]
    else short
  }

  function ReadData(s: seq<Byte>): Reading
    requires |s| >= 2
  {
    var masked, short := SecondByte(s) >= 128, SecondByte(s) % 128;
    var at := if short == 126 then 4 else if short == 127 then 10 else 2;
    if |s| < at then Cut
    else
      var n := LengthAt(s, short);
      if n > MAX_PAYLOAD then Reading([], at, Silence) else BodyReading(s, at, masked, n)
  }

  function BodyReading(s: seq<Byte>, at: nat, masked: bool, n: nat): Reading {
    var end := at + (if masked then 4 else 0) + n;
    if |s| < end then Cut else Reading(Body(s, at, masked, n), end, Silence)
  }

  function Read(s: seq<Byte>): Reading {
    if |s| < 2 then Cut
    else
      var opcode := s[0] % 16;
      if opcode == 8 then Reading([], 2, Silence)
      else if opcode == 9 then ReadControl(s, true)
      else if opcode == 10 then ReadControl(s, false)
      else ReadData(s)
  }

  // ---------- the connection ----------

  /** A socket: what the peer has sent and not been read, and what was sent to it. */
  class Connection {
    var incoming: seq<Byte>
    var sent: seq<Byte>

    constructor (bytes: seq<Byte>)
      ensures incoming == bytes && sent == []
    {
      incoming, sent := bytes, [];
    }

    /** A buffer of count bytes. When the peer closes early it is not filled: one zero
        byte stands behind what came and the rest is whatever the memory held. */
    method Receive(count: nat) returns (buffer: seq<Byte>)
      modifies this`incoming
      ensures |buffer| == count
      ensures count <= |old(incoming)| ==> buffer == old(incoming)[..count] && incoming == old(incoming)[count..]
      ensures count > |old(incoming)| ==>
        incoming == [] && buffer[..|old(incoming)|] == old(incoming) && buffer[|old(incoming)|] == 0
    {
      if count <= |incoming| {
        buffer := incoming[..count];
        incoming := incoming[count..];
      } else {
        var memory: seq<Byte> := *;
        var missing := count - |incoming|;
        buffer := incoming + [0];
        while |buffer| < count
          invariant |incoming| < |buffer| <= count
          invariant buffer[..|incoming|] == incoming && buffer[|incoming|] == 0
        {
          var b: Byte := *;
          buffer := buffer + [b];
        }
        incoming := [];
      }
    }

    method SendRaw(bytes: array<Byte>)
      modifies this`sent
      ensures sent == old(sent) + bytes[..]
    {
      sent := sent + bytes[..];
    }

    /** The whole frame is laid out in one raw buffer and sent by its length. */
    method SendFrameRaw(opcode: nat, message: seq<Byte>)
      requires opcode < 16
      modifies this`sent
      ensures sent == old(sent) + ServerFrame(opcode, message)
    {
      var header := BuildHeaderList(opcode, |message|);
      var buffer := new Byte[|header| + |message|];
      CopyInto(buffer, 0, header);
      CopyInto(buffer, |header|, message);
      assert buffer[..] == buffer[..|header|] + buffer[|header|..|header| + |message|];
      SendRaw(buffer);
    }

    static method CopyInto(buffer: array<Byte>, at: nat, bytes: seq<Byte>)
      requires at + |bytes| <= buffer.Length
      modifies buffer
      ensures buffer[..at] == old(buffer[..at]) && buffer[at..at + |bytes|] == bytes
    {
      var i := 0;
      while i < |bytes|
        invariant 0 <= i <= |bytes|
        invariant buffer[..at] == old(buffer[..at]) && buffer[at..at + i] == bytes[..i]
      {
        buffer[at + i] := bytes[i];
        i := i + 1;
      }
    }

    method SendPong(data: seq<Byte>)
      modifies this`sent
      ensures sent == old(sent) + ServerFrame(10, CutAtNul(data))
    {
      var text := StringOf(data);
      SendFrameRaw(10, text);
    }

    /** strlen: the message is as long as its text up to the first zero byte. */
    method StringOf(data: seq<Byte>) returns (text: seq<Byte>)
      ensures text == CutAtNul(data)
    {
      var n := 0;
      assert data[0..] == data;
      while n < |data| && data[n] != 0
        invariant 0 <= n <= |data|
        invariant CutAtNul(data) == data[..n] + CutAtNul(data[n..])
      {
        assert data[n..][1..] == data[n + 1..];
        assert data[..n] + ([data[n]] + CutAtNul(data[n + 1..])) == data[..n + 1] + CutAtNul(data[n + 1..]);
        n := n + 1;
      }
      assert CutAtNul(data[n..]) == [];
      assert data[..n] + [] == data[..n];
      return data[..n];
    }

    method Unmask(data: seq<Byte>, key: seq<Byte>) returns (bytes: seq<Byte>)
      requires |key| == 4
      ensures bytes == Masked(data, key)
    {
      bytes := [];
      var i := 0;
      while i < |data|
        invariant 0 <= i <= |data|
        invariant bytes == Masked(data, key)[..i]
      {
        var b := XorByDivision(data[i], key[i % 4]);
        bytes := bytes + [b];
        i := i + 1;
      }
    }

    /** What every reading promises about the bytes that were to come. */
    ghost predicate Took(input: seq<Byte>, sentBefore: seq<Byte>, answer: seq<Byte>, r: Reading)
      reads this
    {
      match r
      case Cut => incoming == [] && sentBefore <= sent
      case Reading(a, used, reply) =>
        answer == a && used <= |input| && incoming == input[used..] && sent == sentBefore + Sends(reply)
    }

    method ReadFrame() returns (answer: seq<Byte>)
      modifies this
      ensures Took(old(incoming), old(sent), answer, Read(old(incoming)))
    {
      ghost var input := incoming;
      var header := Receive(2);
      var byte1 := header[0];
      var byte2 := if byte1 == 0 then 0 else header[1];
      assert |input| >= 2 ==> byte2 == SecondByte(input);
      var opcode := byte1 % 16;
      if opcode == 8 { return []; }
      if opcode == 9 { answer := ReadPing(byte2, input); return; }
      if opcode == 10 { answer := ReadPong(byte2, input); return; }
      answer := ReadPayload(byte2, input);
    }

    method ReadPing(byte2: Byte, ghost input: seq<Byte>) returns (answer: seq<Byte>)
      requires if |input| < 2 then incoming == [] else incoming == input[2..] && byte2 == SecondByte(input)
      modifies this
      ensures Took(input, old(sent), answer, if |input| < 2 then Cut else ReadControl(input, true))
    {
      var masked, n := byte2 >= 128, byte2 % 128;
      ghost var whole := |input| >= 2 + (if masked then 4 else 0) + n;
      if whole { BodySlices(input, 2, masked, n); }
      var key: seq<Byte> := [];
      if masked { key := Receive(4); }
      if n > 0 {
        var data := Receive(n);
        if masked { data := Unmask(data, key); }
        SendPong(data);
      } else {
        SendPong([]);
      }
      answer := PING_HANDLED;
    }

    method ReadPong(byte2: Byte, ghost input: seq<Byte>) returns (answer: seq<Byte>)
      requires if |input| < 2 then incoming == [] else incoming == input[2..] && byte2 == SecondByte(input)
      modifies this
      ensures Took(input, old(sent), answer, if |input| < 2 then Cut else ReadControl(input, false))
    {
      var masked, n := byte2 >= 128, byte2 % 128;
      if masked { var key := Receive(4); }
      if n > 0 { var data := Receive(n); }
      answer := PONG_IGNORED;
    }

    method ReadPayload(byte2: Byte, ghost input: seq<Byte>) returns (answer: seq<Byte>)
      requires if |input| < 2 then incoming == [] else incoming == input[2..] && byte2 == SecondByte(input)
      modifies this
      ensures Took(input, old(sent), answer, if |input| < 2 then Cut else ReadData(input))
    {
      hide LengthAt, Body, Masked;
      var masked, n := false, byte2 as nat;
      if byte2 >= 128 { masked, n := true, byte2 - 128; }
      ghost var at := if n == 126 then 4 else if n == 127 then 10 else 2;
      n := ReadExtended(n, input);
      if n > MAX_PAYLOAD { return []; }
      answer := ReadBody(masked, n, input, at);
    }

    /** The longer lengths, behind their marks. */
    method ReadExtended(short: nat, ghost input: seq<Byte>) returns (n: nat)
      requires short < 128 && if |input| < 2 then incoming == [] else incoming == input[2..]
      modifies this`incoming
      ensures var at := if short == 126 then 4 else if short == 127 then 10 else 2;
        if |input| < at then incoming == [] else incoming == input[at..] && n == LengthAt(input, short)
    {
      n := short;
      if short == 126 {
        var ext := Receive(2);
        n := ext[0] as nat * 256 + ext[1];
      } else if short == 127 {
        var ext := Receive(8);
        n := ext[4] as nat * 16777216 + ext[5] as nat * 65536 + ext[6] as nat * 256 + ext[7];
      }
    }

    /** The mask key and the payload. */
    method ReadBody(masked: bool, n: nat, ghost input: seq<Byte>, ghost at: nat) returns (answer: seq<Byte>)
      requires if |input| < at then incoming == [] else incoming == input[at..]
      modifies this
      ensures Took(input, old(sent), answer, BodyReading(input, at, masked, n))
    {
      ghost var whole := |input| >= at + (if masked then 4 else 0) + n;
      if whole { BodySlices(input, at, masked, n); }
      var key: seq<Byte> := [];
      if masked { key := Receive(4); }
      if n < 1 { return []; }
      var payload := Receive(n);
      if masked { payload := Unmask(payload, key); }
      answer := payload;
    }
  }

  // ---------- what frames and readings have to do with each other ----------

  lemma Middle(a: seq<Byte>, b: seq<Byte>, c: seq<Byte>)
    ensures (a + b + c)[|a|..|a| + |b|] == b && (a + b + c)[|a + b|..] == c
  {}

  lemma BigReads(n: nat)
    ensures var b := Big(n); b[0] as nat * 16777216 + b[1] as nat * 65536 + b[2] as nat * 256 + b[3] == n % 4294967296
  {
    var c1, c2, c3, c4 := n / 256, n / 65536, n / 16777216, n / 4294967296;
    assert n == 256 * c1 + n % 256;
    assert c1 == 256 * c2 + c1 % 256;
    assert c2 == 256 * c3 + c2 % 256;
    assert c3 == 256 * c4 + c3 % 256;
    assert n == 4294967296 * c4 + n % 4294967296;
  }

  /** Where the payload length of a frame ends, and what length is read there. */
  function Start(f: Form): nat { match f case Seven => 2 case Sixteen => 4 case SixtyFour(_) => 10 }

  function ReadLength(f: Form, n: nat): nat { if f.SixtyFour? then n % 4294967296 else n }

  lemma LengthsRead(byte1: Byte, f: Form, masked: bool, n: nat, rest: seq<Byte>)
    requires Suits(f, n) && byte1 != 0
    ensures var s := [byte1] + Lengths(f, masked, n) + rest;
      && Start(f) == 1 + |Lengths(f, masked, n)| <= |s| && (SecondByte(s) >= 128 <==> masked)
      && SecondByte(s) % 128 == (match f case Seven => n case Sixteen => 126 case SixtyFour(_) => 127)
      && LengthAt(s, SecondByte(s) % 128) == ReadLength(f, n)
  {
    BigReads(n);
  }

  predicate DataByte(byte1: Byte) { byte1 != 0 && byte1 % 16 !in {8, 9, 10} }

  /** The reading of a frame that is all there, whatever follows it. */
  lemma DataFrameReading(byte1: Byte, f: Form, m: Mask, payload: seq<Byte>, rest: seq<Byte>)
    requires DataByte(byte1) && Suits(f, |payload|) && GoodMask(m)
    ensures var s := Frame(byte1, f, m, payload) + rest;
      var n := ReadLength(f, |payload|);
      Read(s) == if n > MAX_PAYLOAD then Reading([], Start(f), Silence) else BodyReading(s, Start(f), m.Key?, n)
  {
    var body := if m.Key? then m.key + Masked(payload, m.key) else payload;
    LengthsRead(byte1, f, m.Key?, |payload|, body + rest);
    assert Frame(byte1, f, m, payload) + rest == [byte1] + Lengths(f, m.Key?, |payload|) + (body + rest);
  }

  lemma FrameBody(byte1: Byte, f: Form, m: Mask, payload: seq<Byte>, rest: seq<Byte>)
    requires Suits(f, |payload|) && GoodMask(m)
    ensures var s := Frame(byte1, f, m, payload) + rest;
      var end := Start(f) + (if m.Key? then 4 else 0) + |payload|;
      && |Frame(byte1, f, m, payload)| == end <= |s| && s[end..] == rest
      && Body(s, Start(f), m.Key?, |payload|) == payload
  {
    var head := [byte1] + Lengths(f, m.Key?, |payload|);
    assert |head| == Start(f);
    if m.Key? {
      var masked := Masked(payload, m.key);
      var s := head + m.key + masked + rest;
      assert s == Frame(byte1, f, m, payload) + rest;
      assert s[|head|..|head| + 4] == m.key;
      Middle(head + m.key, masked, rest);
      MaskUndone(payload, m.key);
    } else {
      Middle(head, payload, rest);
    }
  }

  /** Framing: whatever the first byte of a data frame, the form of its length and its
      mask, the reader gives back the payload and leaves exactly the rest, if and only if
      the payload is no longer than the limit. */
  lemma DataFrameReadsBack(byte1: Byte, f: Form, m: Mask, payload: seq<Byte>, rest: seq<Byte>)
    requires DataByte(byte1) && Suits(f, |payload|) && GoodMask(m)
    ensures var frame := Frame(byte1, f, m, payload);
      Read(frame + rest) == Reading(payload, |frame|, Silence) <==> |payload| <= 10485760
  {
    if |payload| <= MAX_PAYLOAD {
      ShortEnoughReads(byte1, f, m, payload, rest);
    } else {
      TooLongFails(byte1, f, m, payload, rest);
    }
  }

  lemma ShortEnoughReads(byte1: Byte, f: Form, m: Mask, payload: seq<Byte>, rest: seq<Byte>)
    requires DataByte(byte1) && Suits(f, |payload|) && GoodMask(m) && |payload| <= MAX_PAYLOAD
    ensures var frame := Frame(byte1, f, m, payload);
      Read(frame + rest) == Reading(payload, |frame|, Silence)
  {
    hide Frame, Read, Body, BodyReading;
    var frame := Frame(byte1, f, m, payload);
    FrameBody(byte1, f, m, payload, rest);
    WholeBody(frame + rest, Start(f), m.Key?, payload, |frame|);
    DataFrameReading(byte1, f, m, payload, rest);
    assert ReadLength(f, |payload|) == |payload|;
  }

  lemma WholeBody(s: seq<Byte>, at: nat, masked: bool, payload: seq<Byte>, end: nat)
    requires at + (if masked then 4 else 0) + |payload| == end <= |s| && Body(s, at, masked, |payload|) == payload
    ensures BodyReading(s, at, masked, |payload|) == Reading(payload, end, Silence)
  {}

  lemma TooLongFails(byte1: Byte, f: Form, m: Mask, payload: seq<Byte>, rest: seq<Byte>)
    requires DataByte(byte1) && Suits(f, |payload|) && GoodMask(m) && |payload| > MAX_PAYLOAD
    ensures var r := Read(Frame(byte1, f, m, payload) + rest); r.Reading? ==> r.answer != payload
  {
    DataFrameReading(byte1, f, m, payload, rest);
    AnswerLength(Frame(byte1, f, m, payload) + rest, Start(f), m.Key?, ReadLength(f, |payload|));
  }

  lemma AnswerLength(s: seq<Byte>, at: nat, masked: bool, n: nat)
    ensures BodyReading(s, at, masked, n).Reading? ==> |BodyReading(s, at, masked, n).answer| == n
  {}

  /** What the server itself sends reads back the same way. */
  lemma ServerFrameReadsBack(opcode: nat, message: seq<Byte>, rest: seq<Byte>)
    requires opcode < 16 && opcode !in {8, 9, 10}
    ensures var frame := ServerFrame(opcode, message);
      Read(frame + rest) == Reading(message, |frame|, Silence) <==> |message| <= 10485760
  {
    DataFrameReadsBack(128 + opcode, Shortest(|message|), NoMask, message, rest);
  }

  /** A first byte of zero, the middle of a message sent in pieces, hides the second: only
      a frame of two bytes is then read whole. */
  lemma ZeroFirstByteLosesStep(f: Form, m: Mask, payload: seq<Byte>, rest: seq<Byte>)
    requires Suits(f, |payload|) && GoodMask(m)
    ensures var frame := Frame(0, f, m, payload);
      && Read(frame + rest) == Reading([], 2, Silence)
      && (Read(frame + rest) == Reading(payload, |frame|, Silence) <==> |frame| == 2)
  {
    FrameBody(0, f, m, payload, rest);
  }

  // ---------- ping and pong ----------

  lemma {:induction false} CutKeepsAll(s: seq<Byte>)
    ensures CutAtNul(s) == s <==> 0 !in s
    ensures |CutAtNul(s)| <= |s|
  {
    if s != [] {
      CutKeepsAll(s[1..]);
      if s[0] != 0 { assert s == [s[0]] + s[1..]; }
    }
  }

  /** A ping of at most 125 bytes, which is all section 5.5 allows, is taken whole and
      answered with a pong. */
  lemma PingIsAnswered(byte1: Byte, m: Mask, data: seq<Byte>, rest: seq<Byte>)
    requires byte1 % 16 == 9 && |data| <= 125 && GoodMask(m)
    ensures var frame := Frame(byte1, Seven, m, data);
      Read(frame + rest) == Reading(PING_HANDLED, |frame|, PongWith(CutAtNul(data)))
  {
    ControlReading(byte1, m, data, rest);
    ReadsControl(Frame(byte1, Seven, m, data) + rest, byte1);
  }

  /** The pong carries the bytes of the ping, as section 5.5.3 asks, if and only if none of
      them is zero. */
  lemma PongCarriesTheSame(data: seq<Byte>)
    requires |data| <= 125
    ensures ServerFrame(10, CutAtNul(data)) == ServerFrame(10, data) <==> 0 !in data
  {
    CutKeepsAll(data);
    FrameBody(138, Seven, NoMask, CutAtNul(data), []);
    FrameBody(138, Seven, NoMask, data, []);
  }

  lemma ControlHeader(byte1: Byte, m: Mask, data: seq<Byte>, rest: seq<Byte>)
    requires byte1 != 0 && |data| <= 125 && GoodMask(m)
    ensures var s := Frame(byte1, Seven, m, data) + rest;
      |s| >= 2 && s[0] == byte1 && (SecondByte(s) >= 128 <==> m.Key?) && SecondByte(s) % 128 == |data|
  {}

  lemma ControlReading(byte1: Byte, m: Mask, data: seq<Byte>, rest: seq<Byte>)
    requires byte1 != 0 && |data| <= 125 && GoodMask(m)
    ensures var frame := Frame(byte1, Seven, m, data);
      var s := frame + rest;
      && |s| >= 2 && s[0] == byte1
      && ReadControl(s, true) == Reading(PING_HANDLED, |frame|, PongWith(CutAtNul(data)))
      && ReadControl(s, false) == Reading(PONG_IGNORED, |frame|, Silence)
  {
    var frame := Frame(byte1, Seven, m, data);
    var s := frame + rest;
    ControlHeader(byte1, m, data, rest);
    FrameBody(byte1, Seven, m, data, rest);
    ControlOf(s, m.Key?, data, |frame|);
  }

  lemma ReadsControl(s: seq<Byte>, byte1: Byte)
    requires |s| >= 2 && s[0] == byte1
    ensures byte1 % 16 == 9 ==> Read(s) == ReadControl(s, true)
    ensures byte1 % 16 == 10 ==> Read(s) == ReadControl(s, false)
  {}

  lemma ControlOf(s: seq<Byte>, masked: bool, data: seq<Byte>, end: nat)
    requires 2 <= end <= |s| && end == 2 + (if masked then 4 else 0) + |data|
    requires (SecondByte(s) >= 128 <==> masked) && SecondByte(s) % 128 == |data| && Body(s, 2, masked, |data|) == data
    ensures ReadControl(s, true) == Reading(PING_HANDLED, end, PongWith(CutAtNul(data)))
    ensures ReadControl(s, false) == Reading(PONG_IGNORED, end, Silence)
  {}

  lemma PongIsSkipped(byte1: Byte, m: Mask, data: seq<Byte>, rest: seq<Byte>)
    requires byte1 % 16 == 10 && |data| <= 125 && GoodMask(m)
    ensures var frame := Frame(byte1, Seven, m, data);
      Read(frame + rest) == Reading(PONG_IGNORED, |frame|, Silence)
  {
    ControlReading(byte1, m, data, rest);
    ReadsControl(Frame(byte1, Seven, m, data) + rest, byte1);
  }

  /** A close frame, section 5.5.1, is answered with "" after two bytes: its key and its
      reason stay unread, so that the stream is in step only behind an empty one. */
  lemma CloseIsEmpty(byte1: Byte, m: Mask, data: seq<Byte>, rest: seq<Byte>)
    requires byte1 % 16 == 8 && |data| <= 125 && GoodMask(m)
    ensures var frame := Frame(byte1, Seven, m, data);
      && Read(frame + rest) == Reading([], 2, Silence)
      && ((frame + rest)[2..] == rest <==> m == NoMask && data == [])
  {
    ControlHeader(byte1, m, data, rest);
    var frame := Frame(byte1, Seven, m, data);
    assert |(frame + rest)[2..]| == |frame| - 2 + |rest|;
    if m == NoMask && data == [] { assert (frame + rest)[2..] == rest; }
  }

  // ---------- a whole conversation ----------

  datatype Sent = Data(byte1: Byte, form: Form, mask: Mask, payload: seq<Byte>)
    | Ping(byte1: Byte, mask: Mask, payload: seq<Byte>)
    | Pong(byte1: Byte, mask: Mask, payload: seq<Byte>)

  predicate Lawful(x: Sent) {
    GoodMask(x.mask) &&
    match x
    case Data(byte1, form, _, payload) => DataByte(byte1) && Suits(form, |payload|) && |payload| <= 10485760
    case Ping(byte1, _, payload) => byte1 % 16 == 9 && |payload| <= 125
    case Pong(byte1, _, payload) => byte1 % 16 == 10 && |payload| <= 125
  }

  type LawfulFrame = x: Sent | Lawful(x) witness Pong(138, NoMask, [])

  function Bytes(x: LawfulFrame): seq<Byte> {
    match x
    case Data(byte1, form, mask, payload) => Frame(byte1, form, mask, payload)
    case Ping(byte1, mask, payload) => Frame(byte1, Seven, mask, payload)
    case Pong(byte1, mask, payload) => Frame(byte1, Seven, mask, payload)
  }

  function AllBytes(xs: seq<LawfulFrame>): seq<Byte> {
    if xs == [] then [] else Bytes(xs[0]) + AllBytes(xs[1..])
  }

  function Answer(x: Sent): seq<Byte> {
    match x case Data(_, _, _, payload) => payload case Ping(_, _, _) => PING_HANDLED case Pong(_, _, _) => PONG_IGNORED
  }

  function ReplyTo(x: Sent): Reply { if x.Ping? then PongWith(CutAtNul(x.payload)) else Silence }

  function Replies(xs: seq<LawfulFrame>): seq<Byte> {
    if xs == [] then [] else Sends(ReplyTo(xs[0])) + Replies(xs[1..])
  }

  lemma OneInStep(x: LawfulFrame, rest: seq<Byte>)
    ensures Read(Bytes(x) + rest) == Reading(Answer(x), |Bytes(x)|, ReplyTo(x))
  {
    match x
    case Data(byte1, form, mask, payload) => DataFrameReadsBack(byte1, form, mask, payload, rest);
    case Ping(byte1, mask, payload) => PingIsAnswered(byte1, mask, payload, rest);
    case Pong(byte1, mask, payload) => PongIsSkipped(byte1, mask, payload, rest);
  }

  lemma Started(sent: seq<Byte>, xs: seq<LawfulFrame>, rest: seq<Byte>)
    ensures Underway(AllBytes(xs) + rest, sent, xs, 0, rest, sent + Replies(xs))
  {
    assert xs[0..] == xs;
  }

  /** The server reads any run of lawful frames one by one and never falls out of step: the
      answers are what was sent, in order, every ping has its pong, and exactly what came
      behind the last frame is left. */
  method ReadConversation(c: Connection, ghost xs: seq<LawfulFrame>, ghost rest: seq<Byte>, count: nat)
      returns (answers: seq<seq<Byte>>)
    requires count == |xs| && c.incoming == AllBytes(xs) + rest
    modifies c
    ensures |answers| == count && forall i :: 0 <= i < count ==> answers[i] == Answer(xs[i])
    ensures c.incoming == rest && c.sent == old(c.sent) + Replies(xs)
  {
    hide Underway, AllBytes, Replies, Answer;
    answers := [];
    ghost var owed := old(c.sent) + Replies(xs);
    Started(c.sent, xs, rest);
    var k := 0;
    while k < count
      invariant 0 <= k == |answers| <= count && forall i :: 0 <= i < k ==> answers[i] == Answer(xs[i])
      invariant Underway(c.incoming, c.sent, xs, k, rest, owed)
    {
      var answer := ReadNext(c, xs, k, rest, owed);
      answers := answers + [answer];
      k := k + 1;
    }
    Finished(c.incoming, c.sent, xs, rest, owed);
  }

  /** k of the frames were read; what is still owed is the replies to the others. */
  ghost predicate Underway(incoming: seq<Byte>, sent: seq<Byte>, xs: seq<LawfulFrame>, k: nat, rest: seq<Byte>,
                           owed: seq<Byte>)
  {
    k <= |xs| && incoming == AllBytes(xs[k..]) + rest && sent + Replies(xs[k..]) == owed
  }

  lemma Finished(incoming: seq<Byte>, sent: seq<Byte>, xs: seq<LawfulFrame>, rest: seq<Byte>, owed: seq<Byte>)
    requires Underway(incoming, sent, xs, |xs|, rest, owed)
    ensures incoming == rest && sent == owed
  {
    assert xs[|xs|..] == [];
    assert sent + [] == sent && [] + rest == rest;
  }

  method ReadNext(c: Connection, ghost xs: seq<LawfulFrame>, ghost k: nat, ghost rest: seq<Byte>, ghost owed: seq<Byte>)
      returns (answer: seq<Byte>)
    requires k < |xs| && Underway(c.incoming, c.sent, xs, k, rest, owed)
    modifies c
    ensures answer == Answer(xs[k]) && Underway(c.incoming, c.sent, xs, k + 1, rest, owed)
  {
    ghost var later := AllBytes(xs[k + 1..]) + rest;
    NextUp(c.incoming, c.sent, xs, k, rest, owed);
    answer := ReadOne(c, xs[k], later);
  }

  lemma NextUp(incoming: seq<Byte>, sent: seq<Byte>, xs: seq<LawfulFrame>, k: nat, rest: seq<Byte>, owed: seq<Byte>)
    requires k < |xs| && Underway(incoming, sent, xs, k, rest, owed)
    ensures incoming == Bytes(xs[k]) + (AllBytes(xs[k + 1..]) + rest)
    ensures Underway(AllBytes(xs[k + 1..]) + rest, sent + Sends(ReplyTo(xs[k])), xs, k + 1, rest, owed)
  {
    assert xs[k..][1..] == xs[k + 1..];
    Regroup(Bytes(xs[k]), AllBytes(xs[k + 1..]), rest);
    Regroup(sent, Sends(ReplyTo(xs[k])), Replies(xs[k + 1..]));
  }

  lemma Regroup(a: seq<Byte>, b: seq<Byte>, c: seq<Byte>)
    ensures a + b + c == a + (b + c)
  {}

  method ReadOne(c: Connection, ghost x: LawfulFrame, ghost later: seq<Byte>) returns (answer: seq<Byte>)
    requires c.incoming == Bytes(x) + later
    modifies c
    ensures answer == Answer(x) && c.incoming == later && c.sent == old(c.sent) + Sends(ReplyTo(x))
  {
    ghost var input, frame := c.incoming, Bytes(x);
    assert input[|frame|..] == later;
    OneInStep(x, later);
    answer := c.ReadFrame();
  }
}
