/** The JSON tree form of schema values: a sequence is an array of one-member objects, a choice
    shows only the alternative it holds. */
module Json {
  import opened Chrono
  import opened DurationText
  import opened MomentText
  import opened Schema
  import opened Elements

  datatype Json =
    | JNull
    | JBool(b: bool)
    | JNumber(r: real)
    | JString(s: string)
    | JArray(items: seq<Json>)
    | JObject(members: seq<(string, Json)>)

  // ---------------------------------------------------------------- lookup by name

  function LowerChar(c: char): char {
    if 'A' <= c <= 'Z' then (c as int + 32) as char else c
  }

  function Lower(s: string): string {
    seq(|s|, i requires 0 <= i < |s| => LowerChar(s[i]))
  }

  datatype Lookup = Missing | Found(json: Json)

  /** Capitals become small letters and nothing else changes. */
  lemma LowerIsSmall(i: nat, c: char)
    ensures i < 26 ==> LowerChar("ABCDEFGHIJKLMNOPQRSTUVWXYZ"[i]) == "abcdefghijklmnopqrstuvwxyz"[i]
    ensures !('A' <= c <= 'Z') ==> LowerChar(c) == c
  {
  }

  /** First member whose name agrees ignoring case. */
  function GetMember(members: seq<(string, Json)>, name: string): (r: Lookup)
    ensures r.Missing? <==> forall k | 0 <= k < |members| :: Lower(members[k].0) != Lower(name)
    ensures forall k | 0 <= k < |members| && Lower(members[k].0) == Lower(name) ::
      (forall j | 0 <= j < k :: Lower(members[j].0) != Lower(name)) ==> r == Found(members[k].1)
  {
    if members == [] then Missing
    else if Lower(members[0].0) == Lower(name) then Found(members[0].1)
    else GetMember(members[1..], name)
  }

  /** First such member of any object in the array. */
  function GetItem(items: seq<Json>, name: string): Lookup {
    if items == [] then Missing
    else
      var here := if items[0].JObject? then GetMember(items[0].members, name) else Missing;
      if here.Found? then here else GetItem(items[1..], name)
  }

  // ---------------------------------------------------------------- numbers

  const TWO_53 := 0x20_0000_0000_0000

  /** Distance between neighbouring doubles at the magnitude `n`, at least one. */
  function Ulp(n: nat): (u: nat)
    ensures u > 0
  {
    if n < TWO_53 then 1 else 2 * Ulp(n / 2)
  }

  /** The multiple of `u` nearest to `n`, ties to the even one. */
  function Rounded(n: nat, u: nat): nat
    requires u > 0
  {
    var q, r := n / u, n % u;
    if 2 * r < u || (2 * r == u && q % 2 == 0) then q * u else (q + 1) * u
  }

  /** The double nearest to `n`. */
  function NearestDouble(n: nat): int {
    Rounded(n, Ulp(n))
  }

  lemma {:induction false} UlpScale(n: nat)
    ensures n < TWO_53 * Ulp(n) && (n >= TWO_53 ==> TWO_53 / 2 * Ulp(n) <= n)
    decreases n
  {
    if n >= TWO_53 {
      UlpScale(n / 2);
      if n / 2 < TWO_53 {
        assert Ulp(n / 2) == 1;
      }
    }
  }

  /** A multiple `k`, no more than half a spacing away, and the even one of two equally near. */
  lemma RoundedIsNearest(n: nat, u: nat) returns (k: nat)
    requires u > 0
    ensures
      var d := k * u;
      && Rounded(n, u) == d && 2 * n - u <= 2 * d <= 2 * n + u
      && (2 * d == 2 * n - u || 2 * d == 2 * n + u ==> k % 2 == 0)
  {
    var q, r := n / u, n % u;
    assert n == q * u + r;
    k := q;
    if !(2 * r < u || (2 * r == u && q % 2 == 0)) {
      k := q + 1;
      assert (q + 1) * u == q * u + u;
    }
  }

  /** So is the double, at the spacing of 53 significant bits that `UlpScale` gives. */
  lemma NearestDoubleIsNearest(n: nat) returns (k: nat)
    ensures
      var d := k * Ulp(n);
      && NearestDouble(n) == d && 2 * n - Ulp(n) <= 2 * d <= 2 * n + Ulp(n)
      && (2 * d == 2 * n - Ulp(n) || 2 * d == 2 * n + Ulp(n) ==> k % 2 == 0)
  {
    k := RoundedIsNearest(n, Ulp(n));
  }

  function ToDouble(n: int): int {
    if n >= 0 then NearestDouble(n) else -NearestDouble(-n)
  }

  function Truncate(r: real): int {
    if r >= 0.0 then r.Floor else -((-r).Floor)
  }

  predicate ExactDouble(n: int) {
    var a := if n >= 0 then n else -n;
    a % Ulp(a) == 0
  }

  lemma ExactDoubleIsExact(n: int)
    ensures ToDouble(n) == n <==> ExactDouble(n)
  {
    var a := if n >= 0 then n else -n;
    var u := Ulp(a);
    assert a == a / u * u + a % u;
    assert (a / u + 1) * u == a / u * u + u;
  }

  lemma SmallIntegersAreExact(n: int)
    requires -TWO_53 <= n <= TWO_53
    ensures ExactDouble(n)
  {
    assert Ulp(TWO_53 / 2) == 1;
    assert Ulp(TWO_53) == 2;
  }

  // ---------------------------------------------------------------- leaves

  function CodeName(table: seq<(string, int)>, code: int): (k: nat)
    ensures k <= |table| && (k < |table| ==> table[k].1 == code)
    ensures forall j | 0 <= j < k :: table[j].1 != code
  {
    if table == [] || table[0].1 == code then 0 else 1 + CodeName(table[1..], code)
  }

  function NameCode(table: seq<(string, int)>, name: string): (k: nat)
    ensures k <= |table| && (k < |table| ==> table[k].0 == name)
    ensures forall j | 0 <= j < k :: table[j].0 != name
  {
    if table == [] || table[0].0 == name then 0 else 1 + NameCode(table[1..], name)
  }

  datatype Encoded = Absent | Item(json: Json) | Failed

  function EncodeText(text: Parse<string>): Encoded {
    if text.Parsed? then Item(JString(text.value)) else Failed
  }

  function EncodeLeaf(t: LeafType, p: Payload): Encoded
    requires PayloadFits(t, p)
  {
    match p
    case BoolOf(b) => Item(JBool(b))
    case NumberOf(n) => Item(JNumber(ToDouble(n) as real))
    case StringOf(s) => Item(JString(s))
    case EnumOf(code) =>
      var k := CodeName(t.table, code);
      if k < |t.table| then Item(JString(t.table[k].0)) else Failed
    case TagSet => Item(JArray([]))
    case DurationOf(d) => EncodeText(DurationText.ToString(d))
    case DateOf(d) => EncodeText(DateToString(d))
    case TimeOf(t) => EncodeText(TimeToString(t))
    case DateTimeOf(dt) => EncodeText(DateTimeToString(dt))
    case MomentOf(m) => EncodeText(MomentToString(m))
  }

  /** An unknown enumeration name is read as null; a number outside the field's type has no
      defined conversion and is refused here. */
  function DecodeLeaf(t: LeafType, j: Json): Outcome<Value> {
    match t
    case BoolType => if j.JBool? then Ok(Datum(BoolOf(j.b))) else Err
    case NumberType(lo, hi) =>
      if j.JNumber? && lo <= Truncate(j.r) <= hi then Ok(Datum(NumberOf(Truncate(j.r)))) else Err
    case StringType => if j.JString? then Ok(Datum(StringOf(j.s))) else Err
    case EnumType(table) =>
      if !j.JString? then Err
      else
        var k := NameCode(table, j.s);
        if k < |table| then Ok(Datum(EnumOf(table[k].1))) else Ok(Null)
    case TagType => if j == JArray([]) then Ok(Datum(TagSet)) else Err
    case TimeType(form) =>
      if !j.JString? then Err
      else
        match form
        case DurationForm => (match ParseDuration(j.s) case Parsed(d) => Ok(Datum(DurationOf(d))) case Rejected => Err)
        case DateForm => (match ParseDate(j.s) case Parsed(d) => Ok(Datum(DateOf(d))) case Rejected => Err)
        case TimeForm => (match ParseTime(j.s) case Parsed(t) => Ok(Datum(TimeOf(t))) case Rejected => Err)
        case DateTimeForm =>
          (match ParseDateTime(j.s) case Parsed(dt) => Ok(Datum(DateTimeOf(dt))) case Rejected => Err)
        case AbsoluteOrRelativeForm =>
          (match ParseMoment(j.s) case Parsed(m) => Ok(Datum(MomentOf(m))) case Rejected => Err)
  }

  /** What a leaf is written as. A code outside the table and an invalid date-time are not written at
      all. */
  lemma LeafWrites(t: LeafType, p: Payload)
    requires PayloadFits(t, p)
    ensures p.BoolOf? ==> EncodeLeaf(t, p) == Item(JBool(p.b))
    ensures p.StringOf? ==> EncodeLeaf(t, p) == Item(JString(p.s))
    ensures p.TagSet? ==> EncodeLeaf(t, p) == Item(JArray([]))
    ensures p.NumberOf? ==> EncodeLeaf(t, p) == Item(JNumber(ToDouble(p.n) as real))
    ensures p.EnumOf? && (forall k | 0 <= k < |t.table| :: t.table[k].1 != p.code) ==> EncodeLeaf(t, p) == Failed
    ensures p.EnumOf? ==>
      forall k | 0 <= k < |t.table| && t.table[k].1 == p.code ::
        (forall i | 0 <= i < k :: t.table[i].1 != p.code) ==> EncodeLeaf(t, p) == Item(JString(t.table[k].0))
    ensures p.DurationOf? && !DurationValid(p.duration) ==> EncodeLeaf(t, p) == Failed
    ensures p.DateOf? && !DateValid(p.date) ==> EncodeLeaf(t, p) == Failed
    ensures p.TimeOf? && !TimeValid(p.time) ==> EncodeLeaf(t, p) == Failed
    ensures p.DateTimeOf? && !DateTimeValid(p.dateTime) ==> EncodeLeaf(t, p) == Failed
    ensures p.DateOf? && DateValid(p.date) ==> EncodeLeaf(t, p) == Item(JString(DateText(p.date)))
    ensures p.TimeOf? && TimeValid(p.time) ==> EncodeLeaf(t, p) == Item(JString(TimeText(p.time)))
    ensures p.DurationOf? && DurationValid(p.duration) ==>
      EncodeLeaf(t, p) == Item(JString(DurationText.ToString(p.duration).value))
    ensures p.MomentOf? && p.moment.Absolute? ==> EncodeLeaf(t, p) == EncodeText(DateTimeToString(p.moment.dateTime))
    ensures p.MomentOf? && p.moment.Relative? ==>
      EncodeLeaf(t, p) == EncodeText(DurationText.ToString(p.moment.duration))
  {
  }

  /** Negative numbers round as their magnitudes do. */
  lemma ToDoubleIsOdd(n: int)
    ensures ToDouble(-n) == -ToDouble(n)
  {
    assert NearestDouble(0) == 0;
  }

  /** The integer between zero and the number, nearest to the number. */
  predicate WholePart(r: real, n: int) {
    if r >= 0.0 then n as real <= r < n as real + 1.0 else n as real - 1.0 < r <= n as real
  }

  /** What a leaf takes from a JSON item: flags from booleans, the integer part of numbers in range,
      texts as they are, the first code of a name in the table and null for a name that is not in
      it, a set tag from the empty array; anything else is an error. */
  lemma LeafReads(t: LeafType, j: Json)
    ensures t.BoolType? ==> DecodeLeaf(t, j) == if j.JBool? then Ok(Datum(BoolOf(j.b))) else Err
    ensures t.StringType? ==> DecodeLeaf(t, j) == if j.JString? then Ok(Datum(StringOf(j.s))) else Err
    ensures t.TagType? ==> (DecodeLeaf(t, j) == if j == JArray([]) then Ok(Datum(TagSet)) else Err)
    ensures t.NumberType? ==>
      (DecodeLeaf(t, j).Ok? <==> j.JNumber? && exists n :: t.lo <= n <= t.hi && WholePart(j.r, n))
    ensures t.NumberType? && j.JNumber? ==>
      forall n | t.lo <= n <= t.hi && WholePart(j.r, n) :: DecodeLeaf(t, j) == Ok(Datum(NumberOf(n)))
    ensures t.EnumType? ==> (DecodeLeaf(t, j).Ok? <==> j.JString?)
    ensures t.EnumType? && j.JString? && (forall k | 0 <= k < |t.table| :: t.table[k].0 != j.s) ==>
      DecodeLeaf(t, j) == Ok(Null)
    ensures t.EnumType? && j.JString? ==>
      forall k | 0 <= k < |t.table| && t.table[k].0 == j.s ::
        (forall i | 0 <= i < k :: t.table[i].0 != j.s) ==> DecodeLeaf(t, j) == Ok(Datum(EnumOf(t.table[k].1)))
    ensures t.TimeType? && !j.JString? ==> DecodeLeaf(t, j) == Err
  {
    if t.NumberType? && j.JNumber? {
      var n := Truncate(j.r);
      assert WholePart(j.r, n);
      forall m | WholePart(j.r, m) ensures m == n {
      }
    }
  }

  /** The entry that first has the code, and that no earlier entry shares its name with. */
  predicate Unambiguous(table: seq<(string, int)>, code: int) {
    exists k | 0 <= k < |table| ::
      table[k].1 == code && forall j | 0 <= j < k :: table[j].1 != code && table[j].0 != table[k].0
  }

  predicate LeafSurvives(t: LeafType, p: Payload)
    requires PayloadFits(t, p)
  {
    match p
    case NumberOf(n) => ExactDouble(n)
    case EnumOf(code) => Unambiguous(t.table, code)
    case DurationOf(d) => DurationValid(d) && PrintsReadably(d)
    case DateOf(d) => DateValid(d)
    case TimeOf(t) => TimeValid(t)
    case DateTimeOf(dt) => DateTimeValid(dt)
    case MomentOf(Relative(d)) => DurationValid(d) && PrintsReadably(d)
    case MomentOf(Absolute(dt)) => DateTimeValid(dt)
    case _ => true
  }

  /** A leaf comes back from its JSON item exactly when it is in its round-trip domain. */
  lemma LeafRoundTrip(t: LeafType, p: Payload)
    requires PayloadFits(t, p)
    ensures var e := EncodeLeaf(t, p);
      !e.Absent? && (e.Item? && DecodeLeaf(t, e.json) == Ok(Datum(p)) <==> LeafSurvives(t, p))
  {
    match p
    case NumberOf(n) => ExactDoubleIsExact(n);
    case EnumOf(code) => EnumRoundTrip(t.table, code);
    case DurationOf(d) =>
      if DurationValid(d) {
        DurationRoundTrip(d);
      }
    case DateOf(d) =>
      if DateValid(d) {
        DateRoundTrip(d);
      }
    case TimeOf(x) =>
      if TimeValid(x) {
        TimeRoundTrip(x);
      }
    case DateTimeOf(dt) =>
      if DateTimeValid(dt) {
        DateTimeRoundTrip(dt);
      }
    case MomentOf(m) =>
      if MomentToString(m).Parsed? {
        MomentRoundTrip(m);
      }
    case _ =>
  }

  lemma EnumRoundTrip(table: seq<(string, int)>, code: int)
    ensures
      var k := CodeName(table, code);
      Unambiguous(table, code)
      <==> k < |table| && var n := NameCode(table, table[k].0); n < |table| && table[n].1 == code
  {
    var k := CodeName(table, code);
    if k < |table| {
      var n := NameCode(table, table[k].0);
      assert n <= k;
      if n == k {
        assert forall j | 0 <= j < k :: table[j].1 != code && table[j].0 != table[k].0;
      }
    }
  }

  // ---------------------------------------------------------------- encoding

  datatype Members = Members(objects: seq<Json>) | Broken

  /** One item, without its name. A null slot has none; a choice cannot stand without a name. */
  function EncodeItem(c: Cfg, v: Value): Encoded
    requires WellFormed(c) && Fits(c, v)
    decreases c, 2
  {
    match c
    case Leaf(_, _, t) => if v.Null? then Absent else EncodeLeaf(t, v.p)
    case Sequence(_, _, fields) =>
      if v.Null? then Absent
      else
        var ms := EncodeFields(c, v, 0);
        if ms.Broken? then Failed else Item(JArray(ms.objects))
    case List(_, _, _, elem) =>
      if v.Null? then Absent
      else if exists i | 0 <= i < |v.items| :: !EncodeItem(elem, v.items[i]).Item? then Failed
      else Item(JArray(seq(|v.items|, i requires 0 <= i < |v.items| => EncodeItem(elem, v.items[i]).json)))
    case Choice(_, _, _) => Failed
    case Stub(_, _) => Absent
  }

  /** What a field appends to its parent's array: nothing or one object with one member. */
  function EncodeField(c: Cfg, v: Value): Members
    requires WellFormed(c) && Fits(c, v)
    decreases c, 4
  {
    if c.Choice? then
      if v.data.Null? then Members([]) else EncodeNamed(c.alts[v.id], v.data)
    else EncodeNamed(c, v)
  }

  function EncodeNamed(c: Cfg, v: Value): Members
    requires WellFormed(c) && Fits(c, v)
    decreases c, 3
  {
    match EncodeItem(c, v)
    case Absent => Members([])
    case Item(j) => Members([JObject([(c.name, j)])])
    case Failed => Broken
  }

  /** Fields `i` and up, in order. */
  function EncodeFields(c: Cfg, v: Value, i: nat): Members
    requires c.Sequence? && v.Fields? && WellFormed(c) && Fits(c, v) && i <= |c.fields|
    decreases c, 1, |c.fields| - i
  {
    if i == |c.fields| then Members([])
    else
      var first := EncodeField(c.fields[i], v.fs[i]);
      var rest := EncodeFields(c, v, i + 1);
      if first.Broken? || rest.Broken? then Broken else Members(first.objects + rest.objects)
  }

  // ---------------------------------------------------------------- what an encoding looks like

  /** The name a field is written under, verbatim: its own, or that of the alternative it holds; none
      for a null field. */
  function WrittenName(c: Cfg, v: Value): seq<string>
    requires WellFormed(c) && Fits(c, v)
  {
    if c.Choice? then if v.data == Null then [] else [c.alts[v.id].name]
    else if v == Null then [] else [c.name]
  }

  /** The names of the non-null fields, in order. */
  function WrittenNames(fields: seq<Cfg>, fs: seq<Value>): seq<string>
    requires |fs| == |fields| && forall i | 0 <= i < |fields| :: WellFormed(fields[i]) && Fits(fields[i], fs[i])
  {
    if fields == [] then [] else WrittenName(fields[0], fs[0]) + WrittenNames(fields[1..], fs[1..])
  }

  /** One object with one member for each name. */
  predicate OneMemberEach(objects: seq<Json>, names: seq<string>) {
    && |objects| == |names|
    && forall i | 0 <= i < |objects| ::
         objects[i].JObject? && |objects[i].members| == 1 && objects[i].members[0].0 == names[i]
  }

  lemma OnlyNullIsAbsent(c: Cfg, v: Value)
    requires WellFormed(c) && Fits(c, v) && !c.Choice?
    ensures EncodeItem(c, v).Absent? <==> v == Null
  {
    if c.Leaf? && v.Datum? {
      LeafRoundTrip(c.leafType, v.p);
    }
  }

  lemma FieldIsOneMember(c: Cfg, v: Value)
    requires WellFormed(c) && Fits(c, v) && EncodeField(c, v).Members?
    ensures OneMemberEach(EncodeField(c, v).objects, WrittenName(c, v))
  {
    if c.Choice? {
      OnlyNullIsAbsent(c.alts[v.id], v.data);
    } else {
      OnlyNullIsAbsent(c, v);
    }
  }

  lemma {:induction false} FieldsFromAreOneMemberEach(c: Cfg, v: Value, i: nat)
    requires c.Sequence? && v.Fields? && WellFormed(c) && Fits(c, v) && i <= |c.fields|
    requires EncodeFields(c, v, i).Members?
    ensures OneMemberEach(EncodeFields(c, v, i).objects, WrittenNames(c.fields[i..], v.fs[i..]))
    decreases |c.fields| - i
  {
    if i < |c.fields| {
      FieldIsOneMember(c.fields[i], v.fs[i]);
      FieldsFromAreOneMemberEach(c, v, i + 1);
      assert c.fields[i..][1..] == c.fields[i + 1..] && v.fs[i..][1..] == v.fs[i + 1..];
    }
  }

  /** An encoded sequence is an array of objects with one member each, under the configured names of
      the non-null fields, verbatim and in order. */
  lemma SequenceIsOneMemberEach(c: Cfg, v: Value)
    requires c.Sequence? && v.Fields? && WellFormed(c) && Fits(c, v) && EncodeItem(c, v).Item?
    ensures
      var j := EncodeItem(c, v).json;
      j.JArray? && OneMemberEach(j.items, WrittenNames(c.fields, v.fs))
  {
    FieldsFromAreOneMemberEach(c, v, 0);
    assert c.fields[0..] == c.fields && v.fs[0..] == v.fs;
  }

  // ---------------------------------------------------------------- decoding

  /** Into a zeroed slot. An empty array leaves a list null. */
  function DecodeItem(c: Cfg, j: Json): Outcome<Value>
    decreases c, 0
  {
    match c
    case Leaf(_, _, t) => DecodeLeaf(t, j)
    case Sequence(_, _, fields) =>
      if !j.JArray? then Err
      else if exists i | 0 <= i < |fields| :: DecodeField(fields[i], j.items).Err? then Err
      else Ok(Fields(seq(|fields|, i requires 0 <= i < |fields| => DecodeField(fields[i], j.items).value)))
    case List(_, _, _, elem) =>
      if !j.JArray? then Err
      else if j.items == [] then Ok(Null)
      else if exists i | 0 <= i < |j.items| :: DecodeItem(elem, j.items[i]).Err? then Err
      else Ok(Items(seq(|j.items|, i requires 0 <= i < |j.items| => DecodeItem(elem, j.items[i]).value)))
    case Choice(_, _, _) => Err
    case Stub(_, _) => Ok(Null)
  }

  function DecodeField(c: Cfg, items: seq<Json>): Outcome<Value>
    decreases c, 2
  {
    match c
    case Choice(_, _, alts) =>
      var i := FirstAlternative(alts, items);
      if i == |alts| then Ok(Alt(0, Null))
      else
        var r := DecodeItem(alts[i], GetItem(items, alts[i].name).json);
        if r.Ok? then Ok(Alt(i, r.value)) else Err
    case Stub(_, _) => Ok(Null)
    case _ =>
      match GetItem(items, c.name)
      case Missing => Ok(Null)
      case Found(j) => DecodeItem(c, j)
  }

  /** The first alternative whose name is present. */
  function FirstAlternative(alts: seq<Cfg>, items: seq<Json>): (k: nat)
    ensures k <= |alts| && (k < |alts| ==> GetItem(items, alts[k].name).Found?)
    ensures forall i | 0 <= i < k :: GetItem(items, alts[i].name).Missing?
  {
    if alts == [] || GetItem(items, alts[0].name).Found? then 0 else 1 + FirstAlternative(alts[1..], items)
  }

  /** Structures and lists are read from arrays only; from an empty one a structure is allocated
      with nothing in it and a list stays null. */
  lemma ShapesRead(c: Cfg, j: Json)
    requires c.Sequence? || c.List?
    ensures !j.JArray? ==> DecodeItem(c, j) == Err
    ensures j == JArray([]) && c.List? ==> DecodeItem(c, j) == Ok(Null)
    ensures j == JArray([]) && c.Sequence? ==>
      DecodeItem(c, j) == Ok(Fields(seq(|c.fields|, i requires 0 <= i < |c.fields| => Zero(c.fields[i]))))
  {
    if j == JArray([]) && c.Sequence? {
      forall i | 0 <= i < |c.fields| ensures DecodeField(c.fields[i], []) == Ok(Zero(c.fields[i])) {
        if c.fields[i].Choice? {
          assert FirstAlternative(c.fields[i].alts, []) == |c.fields[i].alts|;
        }
      }
      DecodedFieldByField(c, [], seq(|c.fields|, i requires 0 <= i < |c.fields| => Zero(c.fields[i])));
    }
  }

  // ---------------------------------------------------------------- names

  /** The names, in lower case, a field can appear under in its parent's array. */
  function Names(c: Cfg): set<string> {
    match c
    case Choice(_, _, alts) => set i | 0 <= i < |alts| :: Lower(alts[i].name)
    case Stub(_, _) => {}
    case _ => {Lower(c.name)}
  }

  /** Sibling names and alternative names differ even when case is ignored, at every level. */
  predicate NamesDistinct(c: Cfg)
    decreases c
  {
    match c
    case Sequence(_, _, fields) =>
      && (forall i | 0 <= i < |fields| :: NamesDistinct(fields[i]))
      && (forall i, j | 0 <= i < j < |fields| :: Names(fields[i]) !! Names(fields[j]))
    case List(_, _, _, elem) => NamesDistinct(elem)
    case Choice(_, _, alts) =>
      && (forall i | 0 <= i < |alts| :: NamesDistinct(alts[i]))
      && (forall i, j | 0 <= i < j < |alts| :: Lower(alts[i].name) != Lower(alts[j].name))
    case _ => true
  }

  lemma {:induction false} GetItemAppend(xs: seq<Json>, ys: seq<Json>, name: string)
    ensures GetItem(xs + ys, name) == if GetItem(xs, name).Found? then GetItem(xs, name) else GetItem(ys, name)
  {
    if xs == [] {
      assert xs + ys == ys;
    } else {
      GetItemAppend(xs[1..], ys, name);
      assert (xs + ys)[1..] == xs[1..] + ys;
    }
  }

  lemma SingleLookup(written: string, j: Json, name: string)
    ensures GetItem([JObject([(written, j)])], name) == if Lower(written) == Lower(name) then Found(j) else Missing
  {
    var members := [(written, j)];
    var items := [JObject(members)];
    assert members[1..] == [] && items[1..] == [];
    assert GetMember(members[1..], name) == Missing && GetItem(items[1..], name) == Missing;
    assert GetMember(members, name) == if Lower(written) == Lower(name) then Found(j) else Missing;
  }

  lemma NamedLookup(c: Cfg, v: Value, name: string)
    requires WellFormed(c) && Fits(c, v) && EncodeNamed(c, v).Members?
    ensures GetItem(EncodeNamed(c, v).objects, name)
         == if EncodeItem(c, v).Item? && Lower(c.name) == Lower(name) then Found(EncodeItem(c, v).json) else Missing
  {
    if EncodeItem(c, v).Item? {
      SingleLookup(c.name, EncodeItem(c, v).json, name);
    }
  }

  /** A field writes nothing under a name that is not one of its own. */
  lemma EncodeFieldNames(c: Cfg, v: Value, name: string)
    requires WellFormed(c) && Fits(c, v) && Lower(name) !in Names(c) && EncodeField(c, v).Members?
    ensures GetItem(EncodeField(c, v).objects, name) == Missing
  {
    if c.Choice? {
      assert Lower(c.alts[v.id].name) in Names(c);
      if !v.data.Null? {
        NamedLookup(c.alts[v.id], v.data, name);
      }
    } else {
      NamedLookup(c, v, name);
    }
  }

  /** A field finds in the whole array what it finds in its own contribution. */
  lemma {:induction false} FieldFindsItself(c: Cfg, v: Value, i: nat, k: nat, name: string)
    requires c.Sequence? && v.Fields? && WellFormed(c) && Fits(c, v) && NamesDistinct(c)
    requires i <= |c.fields| && k < |c.fields| && Lower(name) in Names(c.fields[k])
    requires EncodeFields(c, v, i).Members?
    ensures i <= k ==> EncodeField(c.fields[k], v.fs[k]).Members?
    ensures GetItem(EncodeFields(c, v, i).objects, name)
         == if i <= k then GetItem(EncodeField(c.fields[k], v.fs[k]).objects, name) else Missing
    decreases |c.fields| - i
  {
    if i < |c.fields| {
      var first := EncodeField(c.fields[i], v.fs[i]).objects;
      var rest := EncodeFields(c, v, i + 1).objects;
      GetItemAppend(first, rest, name);
      FieldFindsItself(c, v, i + 1, k, name);
      if i != k {
        assert Names(c.fields[i]) !! Names(c.fields[k]);
        EncodeFieldNames(c.fields[i], v.fs[i], name);
      }
    }
  }

  lemma {:induction false} DecodesFromItself(c: Cfg, v: Value, k: nat)
    requires c.Sequence? && v.Fields? && WellFormed(c) && Fits(c, v) && NamesDistinct(c) && k < |c.fields|
    requires EncodeFields(c, v, 0).Members?
    ensures EncodeField(c.fields[k], v.fs[k]).Members?
    ensures DecodeField(c.fields[k], EncodeFields(c, v, 0).objects)
         == DecodeField(c.fields[k], EncodeField(c.fields[k], v.fs[k]).objects)
  {
    var f := c.fields[k];
    match f
    case Choice(_, _, alts) =>
      forall i | 0 <= i < |alts|
        ensures EncodeField(f, v.fs[k]).Members?
        ensures GetItem(EncodeFields(c, v, 0).objects, alts[i].name)
             == GetItem(EncodeField(f, v.fs[k]).objects, alts[i].name)
      {
        FieldFindsItself(c, v, 0, k, alts[i].name);
      }
      assert EncodeField(f, v.fs[k]).Members?;
    case Stub(_, _) => BrokenFieldBreaksAll(c, v, 0);
    case _ => FieldFindsItself(c, v, 0, k, f.name);
  }

  // ---------------------------------------------------------------- round trip

  /** The item round-trip domain: leaves in theirs, no empty list and no null list item. */
  predicate ItemSurvives(c: Cfg, v: Value)
    requires WellFormed(c) && Fits(c, v)
    decreases c, 0
  {
    match c
    case Leaf(_, _, t) => v.Null? || LeafSurvives(t, v.p)
    case Sequence(_, _, fields) =>
      v.Null? || forall i | 0 <= i < |fields| :: FieldSurvives(fields[i], v.fs[i])
    case List(_, _, _, elem) =>
      v.Null? || (v.items != [] && forall i | 0 <= i < |v.items| :: !v.items[i].Null? && ItemSurvives(elem, v.items[i]))
    case Choice(_, _, _) => false
    case Stub(_, _) => true
  }

  /** A null choice must be on alternative 0, as a fresh one is. */
  predicate FieldSurvives(c: Cfg, v: Value)
    requires WellFormed(c) && Fits(c, v)
    decreases c, 1
  {
    if c.Choice? then
      if v.data.Null? then v.id == 0 else ItemSurvives(c.alts[v.id], v.data)
    else ItemSurvives(c, v)
  }

  predicate ItemReturns(c: Cfg, v: Value)
    requires WellFormed(c) && Fits(c, v)
  {
    EncodeItem(c, v).Item? && DecodeItem(c, EncodeItem(c, v).json) == Ok(v)
  }

  predicate FieldReturns(c: Cfg, v: Value)
    requires WellFormed(c) && Fits(c, v)
  {
    EncodeField(c, v).Members? && DecodeField(c, EncodeField(c, v).objects) == Ok(v)
  }

  /** On every schema with distinct names, a value comes back from its JSON tree exactly when it
      is in the round-trip domain. */
  lemma {:induction false} JsonRoundTrip(c: Cfg, v: Value)
    requires WellFormed(c) && Fits(c, v) && NamesDistinct(c) && !v.Null?
    ensures ItemReturns(c, v) <==> ItemSurvives(c, v)
    decreases c, 0
  {
    match c
    case Leaf(_, _, t) => LeafRoundTrip(t, v.p);
    case Sequence(_, _, fields) => SequenceRoundTrip(c, v);
    case List(_, _, _, elem) => ListRoundTrip(c, v);
    case Choice(_, _, _) =>
  }

  lemma {:induction false} FieldRoundTrip(c: Cfg, v: Value)
    requires WellFormed(c) && Fits(c, v) && NamesDistinct(c)
    ensures FieldReturns(c, v) <==> FieldSurvives(c, v)
    decreases c, 1
  {
    if c.Choice? {
      if v.data.Null? {
        assert FirstAlternative(c.alts, []) == |c.alts|;
      } else {
        AlternativeRoundTrip(c, v);
      }
    } else {
      assert EncodeField(c, v) == EncodeNamed(c, v);
      if v.Null? {
        assert EncodeItem(c, v) == Absent;
      } else {
        JsonRoundTrip(c, v);
      }
      if EncodeNamed(c, v).Members? {
        NamedLookup(c, v, c.name);
      }
    }
  }

  lemma {:induction false} AlternativeRoundTrip(c: Cfg, v: Value)
    requires c.Choice? && WellFormed(c) && Fits(c, v) && NamesDistinct(c) && !v.data.Null?
    ensures FieldReturns(c, v) <==> ItemSurvives(c.alts[v.id], v.data)
    decreases c, 0
  {
    var alt := c.alts[v.id];
    JsonRoundTrip(alt, v.data);
    var e := EncodeItem(alt, v.data);
    assert EncodeField(c, v) == EncodeNamed(alt, v.data);
    if e.Item? {
      var objects := EncodeNamed(alt, v.data).objects;
      forall i | 0 <= i < |c.alts|
        ensures GetItem(objects, c.alts[i].name) == if i == v.id then Found(e.json) else Missing
      {
        NamedLookup(alt, v.data, c.alts[i].name);
      }
      assert FirstAlternative(c.alts, objects) == v.id;
    }
  }

  lemma {:induction false} BrokenFieldBreaksAll(c: Cfg, v: Value, i: nat)
    requires c.Sequence? && v.Fields? && WellFormed(c) && Fits(c, v) && i <= |c.fields|
    ensures EncodeFields(c, v, i).Broken?
       <==> exists k | i <= k < |c.fields| :: EncodeField(c.fields[k], v.fs[k]).Broken?
    decreases |c.fields| - i
  {
    if i < |c.fields| {
      BrokenFieldBreaksAll(c, v, i + 1);
    }
  }

  lemma {:induction false} SequenceRoundTrip(c: Cfg, v: Value)
    requires c.Sequence? && v.Fields? && WellFormed(c) && Fits(c, v) && NamesDistinct(c)
    ensures ItemReturns(c, v) <==> ItemSurvives(c, v)
    decreases c, 0, 0
  {
    forall i | 0 <= i < |c.fields| ensures FieldReturns(c.fields[i], v.fs[i]) <==> FieldSurvives(c.fields[i], v.fs[i]) {
      FieldRoundTrip(c.fields[i], v.fs[i]);
    }
    assert ItemSurvives(c, v) <==> forall i | 0 <= i < |c.fields| :: FieldReturns(c.fields[i], v.fs[i]);
    SequenceReturnsByField(c, v);
  }

  /** A sequence comes back exactly when every field does on its own. */
  lemma {:induction false} SequenceReturnsByField(c: Cfg, v: Value)
    requires c.Sequence? && v.Fields? && WellFormed(c) && Fits(c, v) && NamesDistinct(c)
    ensures ItemReturns(c, v) <==> forall i | 0 <= i < |c.fields| :: FieldReturns(c.fields[i], v.fs[i])
  {
    BrokenFieldBreaksAll(c, v, 0);
    if EncodeFields(c, v, 0).Members? {
      var all := EncodeFields(c, v, 0).objects;
      forall i | 0 <= i < |c.fields|
        ensures DecodeField(c.fields[i], all) == Ok(v.fs[i]) <==> FieldReturns(c.fields[i], v.fs[i])
      {
        DecodesFromItself(c, v, i);
      }
      DecodedFieldByField(c, all, v.fs);
    }
  }

  lemma {:induction false} DecodedFieldByField(c: Cfg, items: seq<Json>, fs: seq<Value>)
    requires c.Sequence? && |fs| == |c.fields|
    ensures DecodeItem(c, JArray(items)) == Ok(Fields(fs))
       <==> forall i | 0 <= i < |fs| :: DecodeField(c.fields[i], items) == Ok(fs[i])
  {
    if DecodeItem(c, JArray(items)) == Ok(Fields(fs)) {
      forall i | 0 <= i < |fs| ensures DecodeField(c.fields[i], items) == Ok(fs[i]) {
        assert DecodeItem(c, JArray(items)).value.fs[i] == fs[i];
      }
    }
    if forall i | 0 <= i < |fs| :: DecodeField(c.fields[i], items) == Ok(fs[i]) {
      forall i | 0 <= i < |c.fields| ensures DecodeField(c.fields[i], items).Ok? {
        assert DecodeField(c.fields[i], items) == Ok(fs[i]);
      }
      assert DecodeItem(c, JArray(items)).Ok?;
      assert DecodeItem(c, JArray(items)).value.fs == fs;
    }
  }

  lemma {:induction false} ListRoundTrip(c: Cfg, v: Value)
    requires c.List? && v.Items? && WellFormed(c) && Fits(c, v) && NamesDistinct(c)
    ensures ItemReturns(c, v) <==> ItemSurvives(c, v)
    decreases c, 0, 0
  {
    forall i | 0 <= i < |v.items|
      ensures ItemReturns(c.elem, v.items[i]) <==> !v.items[i].Null? && ItemSurvives(c.elem, v.items[i])
    {
      if !v.items[i].Null? {
        JsonRoundTrip(c.elem, v.items[i]);
      }
    }
    ListReturnsByItem(c, v);
  }

  /** A list comes back exactly when it has items and every item comes back. */
  lemma {:induction false} ListReturnsByItem(c: Cfg, v: Value)
    requires c.List? && v.Items? && WellFormed(c) && Fits(c, v)
    ensures ItemReturns(c, v)
       <==> v.items != [] && forall i | 0 <= i < |v.items| :: ItemReturns(c.elem, v.items[i])
  {
    if forall i | 0 <= i < |v.items| :: EncodeItem(c.elem, v.items[i]).Item? {
      var js := EncodeItem(c, v).json.items;
      assert forall i | 0 <= i < |js| :: js[i] == EncodeItem(c.elem, v.items[i]).json;
      if js != [] {
        DecodedItemByItem(c, js, v.items);
      }
    }
  }

  lemma {:induction false} DecodedItemByItem(c: Cfg, js: seq<Json>, vs: seq<Value>)
    requires c.List? && |js| == |vs| > 0
    ensures DecodeItem(c, JArray(js)) == Ok(Items(vs))
       <==> forall i | 0 <= i < |js| :: DecodeItem(c.elem, js[i]) == Ok(vs[i])
  {
    if DecodeItem(c, JArray(js)) == Ok(Items(vs)) {
      forall i | 0 <= i < |js| ensures DecodeItem(c.elem, js[i]) == Ok(vs[i]) {
        assert DecodeItem(c, JArray(js)).value.items[i] == vs[i];
      }
    }
    if forall i | 0 <= i < |js| :: DecodeItem(c.elem, js[i]) == Ok(vs[i]) {
      forall i | 0 <= i < |js| ensures DecodeItem(c.elem, js[i]).Ok? {
        assert DecodeItem(c.elem, js[i]) == Ok(vs[i]);
      }
      assert DecodeItem(c, JArray(js)).Ok?;
      assert DecodeItem(c, JArray(js)).value.items == vs;
    }
  }

  // ---------------------------------------------------------------- whole documents

  /** The root object names the value; a null value leaves it empty. */
  function PrintTree(c: Cfg, v: Value): Outcome<Json>
    requires WellFormed(c) && Fits(c, v)
  {
    match EncodeItem(c, v)
    case Absent => Ok(JObject([]))
    case Item(j) => Ok(JObject([(c.name, j)]))
    case Failed => Err
  }

  function ParseTree(c: Cfg, root: Json): Outcome<Value> {
    var found := if root.JObject? then GetMember(root.members, c.name) else Missing;
    if found.Found? then DecodeItem(c, found.json) else Ok(Null)
  }

  /** A printed document has one member, under the configured name, or none for null. */
  lemma DocumentIsOneMember(c: Cfg, v: Value)
    requires WellFormed(c) && Fits(c, v) && !c.Choice? && PrintTree(c, v).Ok?
    ensures
      var root := PrintTree(c, v).value;
      && root.JObject? && (v == Null ==> root.members == [])
      && (v != Null ==> |root.members| == 1 && root.members[0].0 == c.name)
  {
    OnlyNullIsAbsent(c, v);
  }

  lemma DocumentRoundTrip(c: Cfg, v: Value)
    requires WellFormed(c) && Fits(c, v) && NamesDistinct(c) && !c.Choice?
    ensures PrintTree(c, v).Ok? && ParseTree(c, PrintTree(c, v).value) == Ok(v) <==> ItemSurvives(c, v)
  {
    if v.Null? {
      assert EncodeItem(c, v) == Absent;
    } else {
      JsonRoundTrip(c, v);
    }
  }
}
