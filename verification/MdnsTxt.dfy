/** The TXT record of a SHIP service announcement: length-prefixed `key=value` strings, after
    section 6 of RFC 6763. */
module MdnsTxt {

  type byte = b: int | 0 <= b < 256

  const ASSIGN: byte := '=' as int

  function Ascii(s: string): (r: seq<byte>)
    requires forall i | 0 <= i < |s| :: s[i] as int < 128
    ensures |r| == |s| && forall i | 0 <= i < |s| :: r[i] == s[i] as int
  {
    seq(|s|, i requires 0 <= i < |s| => s[i] as int)
  }

  datatype Field = TxtVers | Id | Path | Ski | Register | Brand | DeviceType | Model

  /** The lookup table, in the order it is searched. */
  const KEYS: seq<(seq<byte>, Field)> := [
    (Ascii("txtvers"), TxtVers), (Ascii("id"), Id), (Ascii("path"), Path), (Ascii("ski"), Ski),
    (Ascii("register"), Register), (Ascii("brand"), Brand), (Ascii("type"), DeviceType), (Ascii("model"), Model)]

  type Entry = map<Field, seq<byte>>
  type Table = seq<(seq<byte>, Field)>

  /** `strncmp` of a table key with the first `|key|` bytes found: equal up to that many bytes or
      up to a NUL that both have. */
  predicate SameKey(known: seq<byte>, key: seq<byte>) {
    if key == [] then true
    else
      var c: byte := if known == [] then 0 else known[0];
      c == key[0] && (c == 0 || SameKey(known[1..], key[1..]))
  }

  /** First table entry the key agrees with: a prefix of a key is enough. */
  function FindKey(table: Table, key: seq<byte>, i: nat := 0): (k: nat)
    requires i <= |table|
    ensures i <= k <= |table| && (k < |table| ==> SameKey(table[k].0, key))
    ensures forall j | i <= j < k :: !SameKey(table[j].0, key)
    decreases |table| - i
  {
    if i == |table| || SameKey(table[i].0, key) then i else FindKey(table, key, i + 1)
  }

  /** The stored copy stops at a NUL. */
  function UpToNul(s: seq<byte>): seq<byte> {
    if s == [] || s[0] == 0 then [] else [s[0]] + UpToNul(s[1..])
  }

  /** Unknown keys change nothing. */
  function SetValue(table: Table, entry: Entry, key: seq<byte>, value: seq<byte>): Entry {
    var k := FindKey(table, key);
    if k == |table| then entry else entry[table[k].1 := UpToNul(value)]
  }

  function IndexOf(s: seq<byte>, b: byte): (i: nat)
    ensures i <= |s| && (i < |s| ==> s[i] == b)
    ensures forall j | 0 <= j < i :: s[j] != b
  {
    if s == [] || s[0] == b then 0 else 1 + IndexOf(s[1..], b)
  }

  /** The first record of the text, or why there is none. */
  datatype Cut = Bad | Good(key: seq<byte>, value: seq<byte>, rest: seq<byte>)

  function CutRecord(txt: seq<byte>): (c: Cut)
    requires txt != []
    ensures c.Good? ==> |c.rest| < |txt|
  {
    var size := txt[0];
    if size >= |txt| || size < 3 then Bad
    else
      var record := txt[1..size + 1];
      var a := IndexOf(record, ASSIGN);
      if a == size || a == 0 || a == size - 1 then Bad else Good(record[..a], record[a + 1..], txt[size + 1..])
  }

  datatype Result = Parsed(entry: Entry) | Malformed(entry: Entry)

  /** One record after another; a malformed one stops the parse with what was set so far. */
  function ParseRecords(table: Table, txt: seq<byte>, entry: Entry): Result
    decreases |txt|
  {
    if txt == [] then Parsed(entry)
    else
      match CutRecord(txt)
      case Bad => Malformed(entry)
      case Good(key, value, rest) => ParseRecords(table, rest, SetValue(table, entry, key, value))
  }

  /** `memchr`: distance from `from` to the first `b`, or `n`. */
  method Memchr(txt: array<byte>, from: nat, n: nat, b: byte) returns (a: nat)
    requires from + n <= txt.Length
    ensures a == IndexOf(txt[from..from + n], b)
  {
    ghost var s := txt[from..from + n];
    a := 0;
    while a < n && txt[from + a] != b
      invariant a <= n && forall j | 0 <= j < a :: s[j] != b
    {
      assert s[a] == txt[from + a];
      a := a + 1;
    }
    assert a < n ==> s[a] == txt[from + a];
  }

  lemma SliceOfTail(s: seq<byte>, at: nat, i: nat, j: nat)
    requires at <= |s| && i <= j <= |s| - at
    ensures s[at..][i..j] == s[at + i..at + j] && s[at..][j..] == s[at + j..]
  {
    assert forall k | 0 <= k < j - i :: s[at..][i..j][k] == s[at + i..at + j][k];
  }

  lemma SplitSlice(s: seq<byte>, from: nat, end: nat, a: nat)
    requires from <= end <= |s| && a <= end - from
    ensures s[from..end][..a] == s[from..from + a] && s[from..end][a..] == s[from + a..end]
  {
    assert forall k | 0 <= k < a :: s[from..end][..a][k] == s[from..from + a][k];
  }

  lemma CutPieces(txt: seq<byte>, size: byte, record: seq<byte>, rest: seq<byte>, a: nat)
    requires 3 <= size < |txt| && size == txt[0]
    requires record == txt[1..size + 1] && rest == txt[size + 1..] && a == IndexOf(record, ASSIGN)
    ensures
      CutRecord(txt) ==
        if a == size || a == 0 || a == size - 1 then Bad else Good(record[..a], record[a + 1..], rest)
  {
  }

  lemma CutInside(txt: seq<byte>, at: nat, size: byte, a: nat, text: seq<byte>, record: seq<byte>)
    requires at < |txt| && size == txt[at] && 3 <= size < |txt| - at
    requires text == txt[at..] && record == txt[at + 1..at + 1 + size] && a == IndexOf(record, ASSIGN)
    ensures
      CutRecord(text) ==
        if a == size || a == 0 || a == size - 1 then Bad
        else Good(txt[at + 1..at + 1 + a], txt[at + a + 2..at + 1 + size], txt[at + 1 + size..])
  {
    var end := at + 1 + size;
    assert text[1..size + 1] == record && text[size + 1..] == txt[end..] by {
      SliceOfTail(txt, at, 1, size + 1);
    }
    CutPieces(text, size, record, txt[end..], a);
    if a != size && a != 0 && a != size - 1 {
      assert record[..a] == txt[at + 1..at + 1 + a] by {
        SplitSlice(txt, at + 1, end, a);
      }
      assert record[a + 1..] == txt[at + a + 2..end] by {
        SplitSlice(txt, at + 1, end, a + 1);
      }
    }
  }

  /** The record that starts at `at`, every access inside the buffer. */
  method NextRecord(txt: array<byte>, at: nat) returns (ok: bool, key: seq<byte>, value: seq<byte>, end: nat)
    requires at < txt.Length
    ensures ok ==> at < end <= txt.Length
    ensures CutRecord(txt[at..]) == if ok then Good(key, value, txt[end..]) else Bad
  {
    ok, key, value, end := false, [], [], at;
    ghost var whole := txt[..];
    assert txt[at..] == whole[at..];
    var size := txt[at];
    if size < txt.Length - at && size >= 3 {
      var a := Memchr(txt, at + 1, size, ASSIGN);
      assert txt[at + 1..at + 1 + size] == whole[at + 1..at + 1 + size];
      CutInside(whole, at, size, a, whole[at..], whole[at + 1..at + 1 + size]);
      if a != size && a != 0 && a != size - 1 {
        ok, key, value, end := true, txt[at + 1..at + 1 + a], txt[at + a + 2..at + 1 + size], at + 1 + size;
      }
    }
  }

  /** The parser's loop. */
  method ParseTxtRecord(table: Table, txt: array<byte>, initial: Entry) returns (r: Result)
    ensures r == ParseRecords(table, txt[..], initial)
  {
    var at: nat, entry := 0, initial;
    assert txt[0..] == txt[..];
    while at < txt.Length
      invariant at <= txt.Length
      invariant ParseRecords(table, txt[at..], entry) == ParseRecords(table, txt[..], initial)
    {
      var ok, key, value, end := NextRecord(txt, at);
      if !ok {
        return Malformed(entry);
      }
      entry := SetValue(table, entry, key, value);
      at := end;
    }
    return Parsed(entry);
  }

  // ---------------------------------------------------------------- encoded records

  /** A record to encode: which key, and its value. */
  datatype Setting = Setting(key: nat, value: seq<byte>)

  /** A supported key in full, a non-empty value without NUL, and room for the length byte. */
  predicate Encodable(table: Table, s: Setting) {
    && s.key < |table| && s.value != [] && 0 !in s.value
    && |table[s.key].0| + 1 + |s.value| <= 255
  }

  function EncodeOne(table: Table, s: Setting): seq<byte>
    requires Encodable(table, s)
  {
    var key := table[s.key].0;
    var size: byte := |key| + 1 + |s.value|;
    [size] + (key + ([ASSIGN] + s.value))
  }

  function Encode(table: Table, settings: seq<Setting>): seq<byte>
    requires forall i | 0 <= i < |settings| :: Encodable(table, settings[i])
  {
    if settings == [] then [] else EncodeOne(table, settings[0]) + Encode(table, settings[1..])
  }

  /** Settings taken in order: each overwrites its field. */
  function Apply(table: Table, settings: seq<Setting>, entry: Entry): Entry
    requires forall i | 0 <= i < |settings| :: settings[i].key < |table|
  {
    if settings == [] then entry
    else Apply(table, settings[1..], entry[table[settings[0].key].1 := settings[0].value])
  }

  /** Every key of the table is found as itself and can be told from its value. */
  ghost predicate Searchable(table: Table) {
    forall k | 0 <= k < |table| ::
      FindKey(table, table[k].0) == k && table[k].0 != [] && ASSIGN !in table[k].0
  }

  lemma {:induction false} UpToNulKeepsAll(s: seq<byte>)
    requires 0 !in s
    ensures UpToNul(s) == s
  {
    if s != [] {
      UpToNulKeepsAll(s[1..]);
      assert s == [s[0]] + s[1..];
    }
  }

  lemma KeysAreSearchable()
    ensures Searchable(KEYS)
  {
    forall k | 0 <= k < |KEYS|
      ensures FindKey(KEYS, KEYS[k].0) == k && KEYS[k].0 != [] && ASSIGN !in KEYS[k].0
    {
      FullKeyIsFound(k);
    }
  }

  lemma KeyShape(k: nat)
    requires k < |KEYS|
    ensures KEYS[k].0 != [] && ASSIGN !in KEYS[k].0
  {
  }

  lemma EarlierKeyDiffers(j: nat, k: nat)
    requires j < k < |KEYS|
    ensures !SameKey(KEYS[j].0, KEYS[k].0)
  {
    var key := KEYS[k].0;
    assert KEYS[j].0[0] != key[0] || KEYS[j].0[1..][0] != key[1..][0];
  }

  /** A full key is found in the table as itself and as nothing before. */
  lemma FullKeyIsFound(k: nat)
    requires k < |KEYS|
    ensures FindKey(KEYS, KEYS[k].0) == k && KEYS[k].0 != [] && ASSIGN !in KEYS[k].0
  {
    var key := KEYS[k].0;
    KeyShape(k);
    SameKeyItself(key);
    forall j | 0 <= j < k ensures !SameKey(KEYS[j].0, key) {
      EarlierKeyDiffers(j, k);
    }
    FirstKeyIsFound(KEYS, key, k);
  }

  lemma FirstKeyIsFound(table: Table, key: seq<byte>, k: nat)
    requires k < |table| && SameKey(table[k].0, key) && forall j | 0 <= j < k :: !SameKey(table[j].0, key)
    ensures FindKey(table, key) == k
  {
    var f := FindKey(table, key);
    assert !(f < k) && !(k < f);
  }

  lemma {:induction false} SameKeyItself(key: seq<byte>)
    ensures SameKey(key, key)
  {
    if key != [] {
      SameKeyItself(key[1..]);
    }
  }

  lemma CutOne(size: byte, key: seq<byte>, value: seq<byte>, rest: seq<byte>)
    requires key != [] && ASSIGN !in key && value != []
    requires size == |key| + 1 + |value|
    ensures CutRecord([size] + (key + ([ASSIGN] + value)) + rest) == Good(key, value, rest)
  {
    var record := key + ([ASSIGN] + value);
    var txt := [size] + record + rest;
    assert txt[1..size + 1] == record && txt[size + 1..] == rest;
    assert record[|key|] == ASSIGN;
    assert IndexOf(record, ASSIGN) == |key| by {
      assert forall j | 0 <= j < |key| :: record[j] == key[j];
    }
    assert record[..|key|] == key && record[|key| + 1..] == value;
  }

  /** The text falls apart into exactly these settings. */
  ghost predicate Holds(table: Table, settings: seq<Setting>, txt: seq<byte>)
    requires forall i | 0 <= i < |settings| :: Encodable(table, settings[i])
    decreases |settings|
  {
    if |settings| == 0 then txt == []
    else
      && Encodable(table, settings[0]) && txt != []
      && var c := CutRecord(txt);
      && c.Good? && c.key == table[settings[0].key].0 && c.value == settings[0].value
      && Holds(table, settings[1..], c.rest)
  }

  lemma RecordHolds(table: Table, settings: seq<Setting>, txt: seq<byte>, rest: seq<byte>)
    requires settings != [] && forall i | 0 <= i < |settings| :: Encodable(table, settings[i])
    requires Encodable(table, settings[0]) && txt != []
    requires CutRecord(txt) == Good(table[settings[0].key].0, settings[0].value, rest)
    requires Holds(table, settings[1..], rest)
    ensures Holds(table, settings, txt)
  {
  }

  lemma OneMoreHolds(table: Table, settings: seq<Setting>, rest: seq<byte>)
    requires Searchable(table)
    requires settings != [] && forall i | 0 <= i < |settings| :: Encodable(table, settings[i])
    requires Holds(table, settings[1..], rest)
    ensures Holds(table, settings, EncodeOne(table, settings[0]) + rest)
  {
    var key, value := table[settings[0].key].0, settings[0].value;
    CutOne(|key| + 1 + |value|, key, value, rest);
    RecordHolds(table, settings, EncodeOne(table, settings[0]) + rest, rest);
  }

  lemma {:induction false} EncodingHolds(table: Table, settings: seq<Setting>)
    requires Searchable(table)
    requires forall i | 0 <= i < |settings| :: Encodable(table, settings[i])
    ensures Holds(table, settings, Encode(table, settings))
    decreases |settings|
  {
    if settings != [] {
      EncodingHolds(table, settings[1..]);
      OneMoreHolds(table, settings, Encode(table, settings[1..]));
    }
  }

  lemma {:induction false} ParseAppliesSettings(table: Table, settings: seq<Setting>, txt: seq<byte>, entry: Entry)
    requires Searchable(table)
    requires forall i | 0 <= i < |settings| :: Encodable(table, settings[i])
    requires Holds(table, settings, txt)
    ensures ParseRecords(table, txt, entry) == Parsed(Apply(table, settings, entry))
    decreases |settings|
  {
    if settings != [] {
      var s := settings[0];
      UpToNulKeepsAll(s.value);
      ParseAppliesSettings(table, settings[1..], CutRecord(txt).rest, entry[table[s.key].1 := s.value]);
    }
  }

  /** Parsing the encoding of any list of settings succeeds and applies them in order. */
  lemma TxtRoundTrip(settings: seq<Setting>, entry: Entry)
    requires forall i | 0 <= i < |settings| :: Encodable(KEYS, settings[i])
    ensures ParseRecords(KEYS, Encode(KEYS, settings), entry) == Parsed(Apply(KEYS, settings, entry))
  {
    KeysAreSearchable();
    EncodingHolds(KEYS, settings);
    ParseAppliesSettings(KEYS, settings, Encode(KEYS, settings), entry);
  }

  /** The value a field ends up with is the last one given. */
  lemma {:induction false} LastSettingWins(table: Table, settings: seq<Setting>, entry: Entry, i: nat)
    requires forall j | 0 <= j < |settings| :: settings[j].key < |table|
    requires i < |settings|
    requires forall j | i < j < |settings| :: table[settings[j].key].1 != table[settings[i].key].1
    ensures
      var f := table[settings[i].key].1;
      f in Apply(table, settings, entry) && Apply(table, settings, entry)[f] == settings[i].value
    decreases |settings|
  {
    var next := entry[table[settings[0].key].1 := settings[0].value];
    if i > 0 {
      LastSettingWins(table, settings[1..], next, i - 1);
    } else {
      Unmentioned(table, settings[1..], next, table[settings[0].key].1);
    }
  }

  /** A field no setting names keeps what it had, set or unset. */
  lemma {:induction false} Unmentioned(table: Table, settings: seq<Setting>, entry: Entry, f: Field)
    requires forall j | 0 <= j < |settings| :: settings[j].key < |table| && table[settings[j].key].1 != f
    ensures
      var after := Apply(table, settings, entry);
      (f in after <==> f in entry) && (f in entry ==> after[f] == entry[f])
    decreases |settings|
  {
    if settings != [] {
      Unmentioned(table, settings[1..], entry[table[settings[0].key].1 := settings[0].value], f);
    }
  }

  /** What the length-limited comparison accepts as a known key: a prefix of it, or all of it with
      a NUL and anything behind. */
  predicate Accepted(known: seq<byte>, key: seq<byte>) {
    if 0 in key then UpToNul(key) == known else key <= known
  }

  lemma {:induction false} AcceptedMatches(known: seq<byte>, key: seq<byte>)
    requires 0 !in known
    ensures SameKey(known, key) <==> Accepted(known, key)
    decreases |key|
  {
    if key != [] {
      var rest := key[1..];
      assert key == [key[0]] + rest;
      if known == [] {
        assert SameKey(known, key) <==> key[0] == 0;
      } else {
        assert known == [known[0]] + known[1..];
        if key[0] == known[0] {
          AcceptedMatches(known[1..], rest);
          AcceptedCons(key[0], known[1..], rest);
        }
      }
    }
  }

  lemma AcceptedCons(b: byte, known: seq<byte>, key: seq<byte>)
    requires b != 0
    ensures Accepted([b] + known, [b] + key) <==> Accepted(known, key)
  {
    var longer := [b] + key;
    assert longer[1..] == key && 0 in longer <==> 0 in key;
    if 0 in key {
      assert UpToNul(longer) == [b] + UpToNul(key);
      assert ([b] + UpToNul(key))[1..] == UpToNul(key) && ([b] + known)[1..] == known;
    } else {
      assert [b] + key <= [b] + known <==> key <= known;
    }
  }

  /** Table keys hold no NUL. */
  predicate PlainKeys(table: Table) {
    forall k | 0 <= k < |table| :: 0 !in table[k].0
  }

  /** A key is unknown exactly when no table key accepts it, and then the entry stays as it is;
      otherwise the first that does names the field. */
  lemma SetValueIsExact(table: Table, entry: Entry, key: seq<byte>, value: seq<byte>)
    requires PlainKeys(table)
    ensures
      (forall k | 0 <= k < |table| :: !Accepted(table[k].0, key)) ==> SetValue(table, entry, key, value) == entry
    ensures
      forall k | 0 <= k < |table| ::
        Accepted(table[k].0, key) && (forall j | 0 <= j < k :: !Accepted(table[j].0, key)) ==>
          SetValue(table, entry, key, value) == entry[table[k].1 := UpToNul(value)]
  {
    forall k | 0 <= k < |table| ensures SameKey(table[k].0, key) <==> Accepted(table[k].0, key) {
      AcceptedMatches(table[k].0, key);
    }
  }

  /** In the parser's own table: a key that no known key accepts changes nothing, and the first
      known key that accepts it names the field. */
  lemma KnownKeysAreExact(entry: Entry, key: seq<byte>, value: seq<byte>)
    ensures
      (forall k | 0 <= k < |KEYS| :: !Accepted(KEYS[k].0, key)) ==> SetValue(KEYS, entry, key, value) == entry
    ensures
      forall k | 0 <= k < |KEYS| ::
        Accepted(KEYS[k].0, key) && (forall j | 0 <= j < k :: !Accepted(KEYS[j].0, key)) ==>
          SetValue(KEYS, entry, key, value) == entry[KEYS[k].1 := UpToNul(value)]
  {
    assert PlainKeys(KEYS);
    SetValueIsExact(KEYS, entry, key, value);
  }

  /** Everything before the first NUL. */
  lemma {:induction false} UpToNulIsPrefix(s: seq<byte>)
    ensures
      var r := UpToNul(s);
      r <= s && 0 !in r && (|r| == |s| || s[|r|] == 0)
  {
    if s != [] && s[0] != 0 {
      UpToNulIsPrefix(s[1..]);
      var r := UpToNul(s[1..]);
      assert s == [s[0]] + s[1..] && [s[0]] + r <= [s[0]] + s[1..];
    }
  }

  const NAMES := ["txtvers", "id", "path", "ski", "register", "brand", "type", "model"]
  const FIELDS := [TxtVers, Id, Path, Ski, Register, Brand, DeviceType, Model]

  predicate IsAscii(s: string) {
    forall i | 0 <= i < |s| :: s[i] as int < 128
  }

  lemma KeyIsNamed(k: nat)
    requires k < 8
    ensures k < |KEYS| && IsAscii(NAMES[k]) && KEYS[k] == (Ascii(NAMES[k]), FIELDS[k])
  {
  }

  lemma FoundKeySets(table: Table, entry: Entry, k: nat, key: seq<byte>, field: Field, value: seq<byte>)
    requires k < |table| && table[k] == (key, field) && FindKey(table, key) == k
    ensures SetValue(table, entry, key, value) == entry[field := UpToNul(value)]
  {
  }

  /** Each key, given in full, sets its own field to the value up to a NUL. */
  lemma FullKeySetsItsField(entry: Entry, k: nat, value: seq<byte>)
    requires k < 8
    ensures IsAscii(NAMES[k]) && SetValue(KEYS, entry, Ascii(NAMES[k]), value) == entry[FIELDS[k] := UpToNul(value)]
  {
    KeyIsNamed(k);
    FullKeyIsFound(k);
    FoundKeySets(KEYS, entry, k, Ascii(NAMES[k]), FIELDS[k], value);
  }

  /** A single letter is taken for the first key that starts with it. */
  lemma PrefixIsTakenForKey()
    ensures KEYS[FindKey(KEYS, Ascii("t"))].1 == TxtVers
  {
    assert SameKey(KEYS[0].0[1..], Ascii("t")[1..]);
  }
}
