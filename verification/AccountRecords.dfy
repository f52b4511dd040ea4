/** The record files of system/kernel/user_accounts.ep: their text, the stretched secrets in
    them, and which passwords they accept. SHA-256 is any function whose results hold no
    line feed and are not empty. */
module AccountRecords {
  import opened Machine
  import opened Strings

  type Hash = string -> string

  ghost predicate GoodHash(sha: Hash) { forall x :: sha(x) != "" && '\n' !in sha(x) }

  const ROUNDS := 200000
  const SCHEME := "ernos-stretched-sha256-v2"
  const LEGACY := "stretched-sha256"

  // ---------- stretching ----------

  function LegacyRounds(sha: Hash, fingerprint: string, n: nat): string {
    if n == 0 then fingerprint else sha(LegacyRounds(sha, fingerprint, n - 1))
  }

  function LegacySecret(sha: Hash, salt: string, password: string, rounds: int): string {
    LegacyRounds(sha, sha(salt + password), if rounds < 0 then 0 else rounds)
  }

  /** The salt goes into every round. */
  function SaltedRounds(sha: Hash, salt: string, fingerprint: string, n: nat): string {
    if n == 0 then fingerprint else sha(salt + "|" + SaltedRounds(sha, salt, fingerprint, n - 1))
  }

  function Secret(sha: Hash, salt: string, password: string, rounds: int): string {
    SaltedRounds(sha, salt, sha("ern-os-v2|" + salt + "|" + password), if rounds < 0 then 0 else rounds)
  }

  method StretchLegacy(sha: Hash, salt: string, password: string, rounds: int) returns (fingerprint: string)
    ensures fingerprint == LegacySecret(sha, salt, password, rounds)
  {
    var mixed := salt + password;
    fingerprint := sha(mixed);
    var i := 0;
    while i < rounds
      invariant 0 <= i && (rounds >= 0 ==> i <= rounds) && (rounds < 0 ==> i == 0)
      invariant fingerprint == LegacyRounds(sha, sha(mixed), i)
    {
      fingerprint := sha(fingerprint);
      i := i + 1;
    }
  }

  method Stretch(sha: Hash, salt: string, password: string, rounds: int) returns (fingerprint: string)
    ensures fingerprint == Secret(sha, salt, password, rounds)
  {
    var mixed := "ern-os-v2|" + salt;
    mixed := mixed + "|";
    mixed := mixed + password;
    fingerprint := sha(mixed);
    var i := 0;
    while i < rounds
      invariant 0 <= i && (rounds >= 0 ==> i <= rounds) && (rounds < 0 ==> i == 0)
      invariant fingerprint == SaltedRounds(sha, salt, sha(mixed), i)
    {
      var folded := salt + "|";
      folded := folded + fingerprint;
      fingerprint := sha(folded);
      i := i + 1;
    }
  }

  lemma SecretIsPrintable(sha: Hash, salt: string, password: string, rounds: int)
    requires GoodHash(sha)
    ensures Secret(sha, salt, password, rounds) != "" && '\n' !in Secret(sha, salt, password, rounds)
  {}

  /** Compares every place, and finds two texts equal exactly when they are. */
  method SecretsMatch(left: string, right: string) returns (same: bool)
    ensures same <==> left == right
  {
    same := true;
    if |left| != |right| { same := false; }
    var count := |left|;
    if |right| < count { count := |right|; }
    var i := 0;
    while i < count
      invariant 0 <= i <= count
      invariant same <==> |left| == |right| && left[..i] == right[..i]
    {
      assert left[..i + 1] == left[..i] + [left[i]] && right[..i + 1] == right[..i] + [right[i]];
      if left[i] != right[i] { same := false; }
      i := i + 1;
    }
    if |left| == |right| { assert left[..i] == left && right[..i] == right; }
  }

  function HexDigit(d: nat): char
    requires d < 16
  {
    if d < 10 then (d + 48) as char else (d + 87) as char
  }

  /** Sixteen random bytes as thirty-two hex digits. */
  method MakeSalt() returns (salt: string)
    ensures |salt| == 32 && '\n' !in salt
  {
    salt := "";
    var i := 0;
    while i < 16
      invariant 0 <= i <= 16 && |salt| == 2 * i && '\n' !in salt
    {
      var random: int := *;
      var b := random % 256;
      salt := salt + [HexDigit(b / 16), HexDigit(b % 16)];
      i := i + 1;
    }
  }

  // ---------- the text of a record ----------

  datatype Record = Record(name: string, salt: string, secret: string, rounds: int, scheme: string, role: string,
                           created: string)

  const KEYS := ["name", "salt", "secret", "rounds", "scheme", "role", "created"]

  function Values(r: Record): seq<string> {
    [r.name, r.salt, r.secret, IntToString(r.rounds), r.scheme, r.role, r.created]
  }

  function LinesText(keys: seq<string>, values: seq<string>): string
    requires |keys| == |values|
  {
    if keys == [] then "" else keys[0] + " is " + values[0] + "\n" + LinesText(keys[1..], values[1..])
  }

  function RecordText(r: Record): string { LinesText(KEYS, Values(r)) }

  lemma {:induction false} LinesSnoc(keys: seq<string>, values: seq<string>, key: string, value: string)
    requires |keys| == |values|
    ensures LinesText(keys + [key], values + [value]) == LinesText(keys, values) + (key + " is " + value) + "\n"
  {
    if keys == [] {
      assert [key][1..] == [] && [value][1..] == [];
    } else {
      LinesSnoc(keys[1..], values[1..], key, value);
      assert (keys + [key])[1..] == keys[1..] + [key] && (values + [value])[1..] == values[1..] + [value];
    }
  }

  /** The first n lines of a record. */
  function Opening(r: Record, n: nat): string
    requires n <= 7
  {
    LinesText(KEYS[..n], Values(r)[..n])
  }

  lemma NextLine(r: Record, n: nat)
    requires n < 7
    ensures Opening(r, n + 1) == Opening(r, n) + (KEYS[n] + " is " + Values(r)[n]) + "\n"
  {
    LinesSnoc(KEYS[..n], Values(r)[..n], KEYS[n], Values(r)[n]);
    assert KEYS[..n] + [KEYS[n]] == KEYS[..n + 1] && Values(r)[..n] + [Values(r)[n]] == Values(r)[..n + 1];
  }

  method AddLine(record: string, line: string, ghost r: Record, ghost n: nat) returns (longer: string)
    requires n < 7 && record == Opening(r, n) && line == KEYS[n] + " is " + Values(r)[n]
    ensures longer == Opening(r, n + 1)
  {
    NextLine(r, n);
    longer := record + line;
    longer := longer + "\n";
  }

  /** The text of a record, put together line by line. */
  method BuildRecord(r: Record) returns (record: string)
    ensures record == RecordText(r)
  {
    record := AddLine("", "name is " + r.name, r, 0);
    record := AddLine(record, "salt is " + r.salt, r, 1);
    record := AddLine(record, "secret is " + r.secret, r, 2);
    record := AddLine(record, "rounds is " + IntToString(r.rounds), r, 3);
    record := AddLine(record, "scheme is " + r.scheme, r, 4);
    record := AddLine(record, "role is " + r.role, r, 5);
    record := AddLine(record, "created is " + r.created, r, 6);
    assert KEYS[..7] == KEYS && Values(r)[..7] == Values(r);
  }

  function Field(lines: seq<string>, marker: string): string {
    if lines == [] then ""
    else if marker <= lines[0] then lines[0][|marker|..]
    else Field(lines[1..], marker)
  }

  function RecordField(content: string, key: string): string { Field(Split(content, "\n"), key + " is ") }

  method ReadField(content: string, key: string) returns (value: string)
    ensures value == RecordField(content, key)
  {
    var marker := key + " is ";
    var lines := SplitString(content, "\n");
    var i := 0;
    assert lines[0..] == lines;
    while i < |lines|
      invariant 0 <= i <= |lines| && Field(lines[i..], marker) == Field(lines, marker)
    {
      assert lines[i..][0] == lines[i] && lines[i..][1..] == lines[i + 1..];
      if marker <= lines[i] { return lines[i][|marker|..]; }
      i := i + 1;
    }
    return "";
  }

  /** A line carries the marker of a key exactly when it is the line of that key. */
  lemma MarkerBelongs(key: string, other: string, value: string)
    requires ' ' !in key && ' ' !in other
    ensures key + " is " <= other + " is " + value <==> key == other
  {
    var marker, line := key + " is ", other + " is " + value;
    assert marker[|key|] == ' ' && line[|other|] == ' ';
    assert forall i :: 0 <= i < |key| ==> marker[i] == key[i] && key[i] in key;
    assert forall i :: 0 <= i < |other| ==> line[i] == other[i] && other[i] in other;
    if marker <= line {
      assert |key| == |other|;
      assert key == marker[..|key|] == line[..|key|] == other;
    }
    if key == other { assert line[..|marker|] == marker; }
  }

  /** Every value without a line feed reads back under its key, when the keys are distinct
      words. */
  lemma {:induction false} FieldReadsBack(keys: seq<string>, values: seq<string>, i: nat)
    requires i < |keys| == |values|
    requires forall k :: k in keys ==> ' ' !in k && '\n' !in k
    requires forall j, k :: 0 <= j < k < |keys| ==> keys[j] != keys[k]
    requires forall v :: v in values ==> '\n' !in v
    ensures RecordField(LinesText(keys, values), keys[i]) == values[i]
    decreases i
  {
    var line, rest := keys[0] + " is " + values[0], LinesText(keys[1..], values[1..]);
    var marker := keys[i] + " is ";
    assert keys[0] in keys && values[0] in values && keys[i] in keys;
    assert LinesText(keys, values) == line + ['\n'] + rest;
    SplitAtFirst(line, rest, '\n');
    var lines := Split(LinesText(keys, values), "\n");
    assert lines[0] == line && lines[1..] == Split(rest, "\n");
    if i == 0 {
      assert line[..|marker|] == marker && line[|marker|..] == values[0];
    } else {
      MarkerBelongs(keys[i], keys[0], values[0]);
      FieldReadsBack(keys[1..], values[1..], i - 1);
    }
  }

  predicate Printable(r: Record) { '\n' !in r.name + r.salt + r.secret + r.scheme + r.role + r.created }

  /** A whole record reads back, field by field. */
  lemma RecordReadsBack(r: Record, i: nat)
    requires Printable(r) && i < 7
    ensures RecordField(RecordText(r), KEYS[i]) == Values(r)[i]
  {
    ValuesLackLineFeeds(r);
    KeysAreWords();
    FieldReadsBack(KEYS, Values(r), i);
  }

  lemma KeysAreWords()
    ensures forall k :: k in KEYS ==> ' ' !in k && '\n' !in k
    ensures forall j, k :: 0 <= j < k < |KEYS| ==> KEYS[j] != KEYS[k]
  {}

  lemma ValuesLackLineFeeds(r: Record)
    requires Printable(r)
    ensures forall v :: v in Values(r) ==> '\n' !in v
  {
    IntLacksLineFeed(r.rounds);
  }

  lemma IntLacksLineFeed(n: int)
    ensures '\n' !in IntToString(n)
  {}

  /** What is read out of a record never holds a line feed. */
  lemma {:induction false} FieldLacksLineFeed(lines: seq<string>, marker: string)
    requires forall l :: l in lines ==> '\n' !in l
    ensures '\n' !in Field(lines, marker)
  {
    if lines != [] {
      assert lines[0] in lines;
      FieldLacksLineFeed(lines[1..], marker);
    }
  }

  lemma RecordFieldLacksLineFeed(content: string, key: string)
    ensures '\n' !in RecordField(content, key)
  {
    PartsLackDelimiter(content, '\n');
    FieldLacksLineFeed(Split(content, "\n"), key + " is ");
  }

  // ---------- which passwords a record accepts ----------

  predicate Accepted(sha: Hash, text: string, password: string) {
    var salt, stored, scheme := RecordField(text, "salt"), RecordField(text, "secret"), RecordField(text, "scheme");
    var rounds := StringToInt(RecordField(text, "rounds"));
    && salt != "" && stored != "" && 10000 <= rounds <= 1000000
    && ((scheme == SCHEME && Secret(sha, salt, password, rounds) == stored)
        || (scheme == LEGACY && LegacySecret(sha, salt, password, rounds) == stored))
  }

  lemma NoTextNoAccess(sha: Hash, password: string)
    ensures RecordField("", "salt") == "" && !Accepted(sha, "", password)
  {
    assert Split("", "\n") == [""] && "salt" + " is " == "salt is ";
    assert !("salt is " <= [""][0]) && [""][1..] == [];
    assert Field([""], "salt is ") == "";
  }

  /** A record of the current scheme, as create_account and the migration write it. */
  function Fresh(sha: Hash, name: string, salt: string, password: string, role: string, created: string): Record {
    Record(name, salt, Secret(sha, salt, password, ROUNDS), ROUNDS, SCHEME, role, created)
  }

  /** A fresh record accepts a password exactly when its fingerprint is the one stored. */
  lemma FreshAccepts(sha: Hash, name: string, salt: string, password: string, role: string, created: string)
    requires GoodHash(sha) && salt != "" && '\n' !in name + salt + role + created
    ensures var text := RecordText(Fresh(sha, name, salt, password, role, created));
      && (forall p :: Accepted(sha, text, p) <==> Secret(sha, salt, p, ROUNDS) == Secret(sha, salt, password, ROUNDS))
      && RecordField(text, "scheme") == SCHEME
      && RecordField(text, "role") == role && RecordField(text, "created") == created
  {
    hide Secret, RecordText, RecordField, StringToInt, IntToString, Accepted;
    var r := Fresh(sha, name, salt, password, role, created);
    SecretIsPrintable(sha, salt, password, ROUNDS);
    AllFieldsReadBack(r);
    IntRoundTrip(ROUNDS);
    forall p
      ensures Accepted(sha, RecordText(r), p) <==> Secret(sha, salt, p, ROUNDS) == r.secret
    {
      AcceptsWhen(sha, RecordText(r), p);
    }
  }

  lemma AcceptsWhen(sha: Hash, text: string, p: string)
    requires RecordField(text, "salt") != "" && RecordField(text, "secret") != ""
    requires RecordField(text, "scheme") == SCHEME && StringToInt(RecordField(text, "rounds")) == ROUNDS
    ensures Accepted(sha, text, p) <==>
      Secret(sha, RecordField(text, "salt"), p, ROUNDS) == RecordField(text, "secret")
  {
    hide RecordField, Secret, LegacySecret, StringToInt;
    TwoSchemes();
  }

  lemma AllFieldsReadBack(r: Record)
    requires Printable(r)
    ensures var text := RecordText(r);
      && RecordField(text, "salt") == r.salt && RecordField(text, "secret") == r.secret
      && RecordField(text, "rounds") == IntToString(r.rounds) && RecordField(text, "scheme") == r.scheme
      && RecordField(text, "role") == r.role && RecordField(text, "created") == r.created
  {
    RecordReadsBack(r, 1);
    RecordReadsBack(r, 2);
    RecordReadsBack(r, 3);
    RecordReadsBack(r, 4);
    RecordReadsBack(r, 5);
    RecordReadsBack(r, 6);
  }

  // ---------- one password a record ----------

  ghost predicate Collisionless(sha: Hash) { forall x, y :: sha(x) == sha(y) ==> x == y }

  lemma {:induction false} LegacyRoundsApart(sha: Hash, a: string, b: string, n: nat)
    requires Collisionless(sha)
    ensures LegacyRounds(sha, a, n) == LegacyRounds(sha, b, n) <==> a == b
  {
    if n > 0 { LegacyRoundsApart(sha, a, b, n - 1); }
  }

  lemma {:induction false} SaltedRoundsApart(sha: Hash, salt: string, a: string, b: string, n: nat)
    requires Collisionless(sha)
    ensures SaltedRounds(sha, salt, a, n) == SaltedRounds(sha, salt, b, n) <==> a == b
  {
    if n > 0 {
      SaltedRoundsApart(sha, salt, a, b, n - 1);
      SameBehind(salt + "|", SaltedRounds(sha, salt, a, n - 1), SaltedRounds(sha, salt, b, n - 1));
    }
  }

  lemma SameBehind(front: string, a: string, b: string)
    ensures front + a == front + b <==> a == b
  {
    assert (front + a)[|front|..] == a && (front + b)[|front|..] == b;
  }

  /** Without collisions the old fingerprint tells any two passwords apart. */
  lemma LegacySecretsApart(sha: Hash, salt: string, p: string, q: string, rounds: int)
    requires Collisionless(sha)
    ensures LegacySecret(sha, salt, p, rounds) == LegacySecret(sha, salt, q, rounds) <==> p == q
  {
    SameBehind(salt, p, q);
    LegacyRoundsApart(sha, sha(salt + p), sha(salt + q), if rounds < 0 then 0 else rounds);
  }

  /** And so does the current one. */
  lemma SecretsApart(sha: Hash, salt: string, p: string, q: string, rounds: int)
    requires Collisionless(sha)
    ensures Secret(sha, salt, p, rounds) == Secret(sha, salt, q, rounds) <==> p == q
  {
    OpenedApart(sha, "ern-os-v2|" + salt + "|", p, q, salt, if rounds < 0 then 0 else rounds);
  }

  lemma OpenedApart(sha: Hash, opening: string, p: string, q: string, salt: string, n: nat)
    requires Collisionless(sha)
    ensures SaltedRounds(sha, salt, sha(opening + p), n) == SaltedRounds(sha, salt, sha(opening + q), n) <==> p == q
  {
    SameBehind(opening, p, q);
    SaltedRoundsApart(sha, salt, sha(opening + p), sha(opening + q), n);
  }

  /** So whatever a record says, of either scheme, it accepts at most one password. */
  lemma OnePassword(sha: Hash, text: string, p: string, q: string)
    requires Collisionless(sha) && Accepted(sha, text, p) && Accepted(sha, text, q)
    ensures p == q
  {
    var salt, rounds := RecordField(text, "salt"), StringToInt(RecordField(text, "rounds"));
    SecretsApart(sha, salt, p, q, rounds);
    LegacySecretsApart(sha, salt, p, q, rounds);
  }

  /** A record of the old scheme, for any number of rounds. */
  function Old(sha: Hash, name: string, salt: string, password: string, rounds: int, role: string, created: string)
      : Record {
    Record(name, salt, LegacySecret(sha, salt, password, rounds), rounds, "stretched-sha256", role, created)
  }

  /** A record of the current scheme, for any number of rounds. */
  function Current(sha: Hash, name: string, salt: string, password: string, rounds: int, role: string,
                   created: string): Record {
    Record(name, salt, Secret(sha, salt, password, rounds), rounds, "ernos-stretched-sha256-v2", role, created)
  }

  /** A record of the old scheme accepts the password it was made with and no other, exactly
      while its rounds are from 10000 to 1000000, and none at all otherwise. */
  lemma OldAcceptsItsOwn(sha: Hash, name: string, salt: string, password: string, rounds: Int64, role: string,
                         created: string, p: string)
    requires GoodHash(sha) && Collisionless(sha) && salt != "" && '\n' !in name + salt + role + created
    ensures Accepted(sha, RecordText(Old(sha, name, salt, password, rounds, role, created)), p) <==>
      p == password && 10000 <= rounds <= 1000000
  {
    hide Secret, LegacySecret, RecordText, RecordField, StringToInt, IntToString, Collisionless;
    OldIsPrintable(sha, salt, password, rounds);
    AllFieldsReadBack(Old(sha, name, salt, password, rounds, role, created));
    IntRoundTrip(rounds);
    LegacySecretsApart(sha, salt, p, password, rounds);
    TwoSchemes();
  }

  lemma TwoSchemes()
    ensures SCHEME != LEGACY
  {
    assert SCHEME[0] == 'e' && LEGACY[0] == 's';
  }

  /** And so does a record of the current scheme. */
  lemma CurrentAcceptsItsOwn(sha: Hash, name: string, salt: string, password: string, rounds: Int64, role: string,
                             created: string, p: string)
    requires GoodHash(sha) && Collisionless(sha) && salt != "" && '\n' !in name + salt + role + created
    ensures Accepted(sha, RecordText(Current(sha, name, salt, password, rounds, role, created)), p) <==>
      p == password && 10000 <= rounds <= 1000000
  {
    hide Secret, LegacySecret, RecordText, RecordField, StringToInt, IntToString, Collisionless;
    SecretIsPrintable(sha, salt, password, rounds);
    AllFieldsReadBack(Current(sha, name, salt, password, rounds, role, created));
    IntRoundTrip(rounds);
    SecretsApart(sha, salt, p, password, rounds);
    TwoSchemes();
  }

  lemma OldIsPrintable(sha: Hash, salt: string, password: string, rounds: int)
    requires GoodHash(sha)
    ensures LegacySecret(sha, salt, password, rounds) != "" && '\n' !in LegacySecret(sha, salt, password, rounds)
  {}

  /** What create_account and the migration write is such a record, of 200000 rounds. */
  lemma FreshIsCurrent(sha: Hash, name: string, salt: string, password: string, role: string, created: string)
    ensures Fresh(sha, name, salt, password, role, created)
         == Current(sha, name, salt, password, 200000, role, created)
  {}

  // ---------- counting the rounds ----------

  /** A hash that only adds a letter, so that the length of a fingerprint tells how often
      it was applied. */
  function Counting(x: string): string { x + "x" }

  lemma {:induction false} RoundsAreCounted(salt: string, f: string, n: nat)
    ensures |LegacyRounds(Counting, f, n)| == |f| + n
    ensures |SaltedRounds(Counting, salt, f, n)| == |f| + n * (|salt| + 2)
  {
    if n > 0 {
      RoundsAreCounted(salt, f, n - 1);
      assert n * (|salt| + 2) == (n - 1) * (|salt| + 2) + (|salt| + 2);
    }
  }

  /** The hash is applied once and then once a round, in the current scheme to the salt, a
      bar and the fingerprint so far. */
  lemma SecretsAreCounted(salt: string, password: string, rounds: nat)
    ensures |LegacySecret(Counting, salt, password, rounds)| == |salt| + |password| + 1 + rounds
    ensures |Secret(Counting, salt, password, rounds)| == 12 + |salt| + |password| + rounds * (|salt| + 2)
  {
    RoundsAreCounted(salt, Counting(salt + password), rounds);
    RoundsAreCounted(salt, Counting("ern-os-v2|" + salt + "|" + password), rounds);
  }
}
