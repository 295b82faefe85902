/**
  RedisHSetObj and RedisHGetObj of common/redis.go: a struct is written field by field into a
  Redis hash of texts and read back into a struct of the same type.
 */
module RedisHash {
  import opened Wrappers
  import opened Int64
  import opened Decimal

  /** A value the codec does not look into: how %v shows it, and which one it is. */
  datatype Opaque = Opaque(shown: string, id: int)

  datatype Kind =
    | KString
    | KInt
    | KBool
    | KStruct(zero: Opaque)
    | KOther(zero: Opaque)   // slices, maps, floats, unsigned integers, ...

  datatype Scalar =
    | Str(s: string)
    | Int(n: int)
    | Bool(b: bool)
    | Struct(value: Opaque)
    | Other(value: Opaque)

  datatype Value =
    | Plain(v: Scalar)
    | Pointer(p: Option<Scalar>)
    | DeletedAt(time: Option<string>)

  datatype Field = Field(name: string, kind: Kind, value: Value)

  datatype Error =
    | NotFound
    | NoFields              // HSET without a single field
    | BadInt(name: string, reason: ParseError)
    | BadBool(name: string)
    | BadTime(name: string)
    | Unsupported(name: string)

  predicate OfKind(v: Scalar, kind: Kind) {
    match kind
    case KString => v.Str?
    case KInt => v.Int? && InRange(v.n)
    case KBool => v.Bool?
    case KStruct(_) => v.Struct?
    case KOther(_) => v.Other?
  }

  predicate WellTyped(f: Field) {
    match f.value
    case Plain(v) => OfKind(v, f.kind)
    case Pointer(p) => p.Some? ==> OfKind(p.value, f.kind)
    case DeletedAt(_) => true
  }

  /** The fields of one struct. */
  ghost predicate IsStruct(fields: seq<Field>) {
    && (forall i | 0 <= i < |fields| :: WellTyped(fields[i]))
    && (forall i, j | 0 <= i < j < |fields| :: fields[i].name != fields[j].name)
  }

  function ZeroScalar(kind: Kind): Scalar {
    match kind
    case KString => Str("")
    case KInt => Int(0)
    case KBool => Bool(false)
    case KStruct(zero) => Struct(zero)
    case KOther(zero) => Other(zero)
  }

  function Zero(f: Field): Field {
    f.(value := match f.value
                case Plain(_) => Plain(ZeroScalar(f.kind))
                case Pointer(_) => Pointer(None)
                case DeletedAt(_) => DeletedAt(None))
  }

  function Zeros(fields: seq<Field>): seq<Field> {
    seq(|fields|, i requires 0 <= i < |fields| => Zero(fields[i]))
  }

  // ------------------------------------------------------------------ one field

  function FormatBool(b: bool): string { if b then "true" else "false" }

  function ParseBool(s: string): Option<bool> {
    if s in ["1", "t", "T", "TRUE", "true", "True"] then Some(true)
    else if s in ["0", "f", "F", "FALSE", "false", "False"] then Some(false)
    else None
  }

  function Show(v: Scalar): string {
    match v
    case Str(s) => s
    case Int(n) => Print(n)
    case Bool(b) => FormatBool(b)
    case Struct(value) => value.shown
    case Other(value) => value.shown
  }

  /** The text a field is stored as; DeletedAt is not stored. */
  function Text(value: Value): Option<string> {
    match value
    case Plain(v) => Some(Show(v))
    case Pointer(p) => Some(if p.Some? then Show(p.value) else "")
    case DeletedAt(_) => None
  }

  /** Sets a scalar of this kind from a text; a struct keeps what it was. */
  function Parse(name: string, kind: Kind, was: Scalar, text: string): Result<Scalar, Error> {
    match kind
    case KString => Ok(Str(text))
    case KInt =>
      var n := ParseInt(text);
      if n.Ok? then Ok(Int(n.value)) else Err(BadInt(name, n.error))
    case KBool =>
      var b := ParseBool(text);
      if b.Some? then Ok(Bool(b.value)) else Err(BadBool(name))
    case KStruct(_) => Ok(was)
    case KOther(_) => Err(Unsupported(name))
  }

  /** The new field and the error, if any; a nil pointer is allocated before its text is parsed. */
  function ReadField(f: Field, text: string, parseTime: string -> Option<string>): (Field, Option<Error>) {
    match f.value
    case Plain(v) =>
      var r := Parse(f.name, f.kind, v, text);
      if r.Ok? then (f.(value := Plain(r.value)), None) else (f, Some(r.error))
    case Pointer(p) =>
      if text == "" then (f, None)
      else
        var was := if p.Some? then p.value else ZeroScalar(f.kind);
        var r := Parse(f.name, f.kind, was, text);
        if r.Ok? then (f.(value := Pointer(Some(r.value))), None)
        else (f.(value := Pointer(Some(was))), Some(r.error))
    case DeletedAt(_) =>
      if text == "" then (f, None)
      else
        var t := parseTime(text);
        if t.Some? then (f.(value := DeletedAt(t)), None) else (f, Some(BadTime(f.name)))
  }

  /** The texts that are read as booleans. */
  lemma BoolTexts(s: string)
    ensures ParseBool(s) == Some(true) <==>
              s == "1" || s == "t" || s == "T" || s == "true" || s == "True" || s == "TRUE"
    ensures ParseBool(s) == Some(false) <==>
              s == "0" || s == "f" || s == "F" || s == "false" || s == "False" || s == "FALSE"
  {
  }

  /** A zero value: no text, zero, false, the zero struct, a nil pointer, no deletion time. */
  predicate IsZero(f: Field) {
    match f.value
    case Plain(v) => IsZeroOf(v, f.kind)
    case Pointer(p) => p == None
    case DeletedAt(time) => time == None
  }

  predicate IsZeroOf(v: Scalar, kind: Kind) {
    match kind
    case KString => v == Str("")
    case KInt => v == Int(0)
    case KBool => v == Bool(false)
    case KStruct(zero) => v == Struct(zero)
    case KOther(zero) => v == Other(zero)
  }

  lemma ZeroIsZero(f: Field)
    ensures IsZero(Zero(f)) && Zero(f).name == f.name && Zero(f).kind == f.kind
  {
  }

  /** An empty text leaves a pointer or a deletion time alone. */
  lemma EmptyTextKeeps(f: Field, parseTime: string -> Option<string>)
    requires !f.value.Plain?
    ensures ReadField(f, "", parseTime) == (f, None)
  {
  }

  /** Any other text is read into what the pointer points to; if it cannot be, a nil pointer is left at a zero. */
  lemma ReadsThroughPointer(f: Field, text: string, parseTime: string -> Option<string>)
    requires f.value.Pointer? && text != ""
    ensures var (f', error) := ReadField(f, text, parseTime);
            var target := if f.value.p.Some? then f.value.p.value else ZeroScalar(f.kind);
            var (g, failed) := ReadField(f.(value := Plain(target)), text, parseTime);
            && f' == f.(value := Pointer(Some(g.value.v))) && error == failed
            && IsZeroOf(ZeroScalar(f.kind), f.kind)
  {
  }

  /** A deletion time is read, or refused and left alone. */
  lemma ReadsDeletedAt(f: Field, text: string, parseTime: string -> Option<string>)
    requires f.value.DeletedAt? && text != ""
    ensures ReadField(f, text, parseTime)
         == if parseTime(text) == None then (f, Some(BadTime(f.name)))
            else (f.(value := DeletedAt(parseTime(text))), None)
  {
  }

  function Loaded(f: Field, hash: map<string, string>, parseTime: string -> Option<string>): (Field, Option<Error>) {
    if f.name in hash then ReadField(f, hash[f.name], parseTime) else (f, None)
  }

  // ------------------------------------------------------------------ the loops

  /** The hash holds exactly the stored fields, each as its text. */
  ghost predicate Encodes(hash: map<string, string>, fields: seq<Field>) {
    && (forall i | 0 <= i < |fields| && Text(fields[i].value).Some? ::
          fields[i].name in hash && hash[fields[i].name] == Text(fields[i].value).value)
    && (forall name | name in hash :: Stored(fields, name))
  }

  ghost predicate Stored(fields: seq<Field>, name: string) {
    exists i | 0 <= i < |fields| :: fields[i].name == name && Text(fields[i].value).Some?
  }

  function Stepped(data: map<string, string>, f: Field): map<string, string> {
    if Text(f.value).Some? then data[f.name := Text(f.value).value] else data
  }

  /** Storing one more field. */
  lemma EncodesStep(data: map<string, string>, fields: seq<Field>, k: nat)
    requires IsStruct(fields) && k < |fields| && Encodes(data, fields[..k])
    ensures Encodes(Stepped(data, fields[k]), fields[..k + 1])
  {
    var a, b, f := fields[..k], fields[..k + 1], fields[k];
    assert b[k] == f && forall i | 0 <= i < k :: b[i] == a[i] && a[i].name != f.name;
    forall name | name in Stepped(data, f) ensures Stored(b, name) {
      if name in data {
        var i :| 0 <= i < |a| && a[i].name == name && Text(a[i].value).Some?;
        assert b[i].name == name;
      }
    }
  }

  method Write(fields: seq<Field>) returns (data: map<string, string>)
    requires IsStruct(fields)
    ensures Encodes(data, fields)
  {
    data := map[];
    for k := 0 to |fields|
      invariant Encodes(data, fields[..k])
    {
      EncodesStep(data, fields, k);
      var f := fields[k];
      match f.value
      case DeletedAt(_) =>
      case Plain(v) => data := data[f.name := Show(v)];
      case Pointer(p) =>
        if p.None? { data := data[f.name := ""]; } else { data := data[f.name := Show(p.value)]; }
    }
    assert fields[..|fields|] == fields;
  }

  class Object {
    var fields: seq<Field>

    constructor (fields: seq<Field>)
      ensures this.fields == fields
    {
      this.fields := fields;
    }
  }

  /** Every field of the target that the hash mentions is read, up to the first error. */
  ghost predicate Reads(
    hash: map<string, string>, was: seq<Field>, now: seq<Field>, error: Option<Error>,
    parseTime: string -> Option<string>)
  {
    |now| == |was|
    && if error.None? then forall i | 0 <= i < |was| :: Loaded(was[i], hash, parseTime) == (now[i], None)
       else exists k :: FailsAt(hash, was, now, error.value, parseTime, k)
  }

  ghost predicate FailsAt(
    hash: map<string, string>, was: seq<Field>, now: seq<Field>, error: Error,
    parseTime: string -> Option<string>, k: int)
  {
    && 0 <= k < |was| == |now|
    && (forall i | 0 <= i < k :: Loaded(was[i], hash, parseTime) == (now[i], None))
    && Loaded(was[k], hash, parseTime) == (now[k], Some(error))
    && now[k + 1..] == was[k + 1..]
  }

  method Read(hash: map<string, string>, obj: Object, parseTime: string -> Option<string>)
    returns (error: Option<Error>)
    modifies obj
    ensures Reads(hash, old(obj.fields), obj.fields, error, parseTime)
  {
    var n := |obj.fields|;
    for k := 0 to n
      invariant |obj.fields| == n && obj.fields[k..] == old(obj.fields)[k..]
      invariant forall i | 0 <= i < k :: Loaded(old(obj.fields)[i], hash, parseTime) == (obj.fields[i], None)
    {
      assert obj.fields[k] == obj.fields[k..][0] == old(obj.fields)[k];
      if obj.fields[k].name in hash {
        var (f, failed) := ReadField(obj.fields[k], hash[obj.fields[k].name], parseTime);
        obj.fields := obj.fields[k := f];
        if failed.Some? {
          assert FailsAt(hash, old(obj.fields), obj.fields, failed.value, parseTime, k);
          return failed;
        }
      }
    }
    error := None;
  }

  // ------------------------------------------------------------------ the store

  class Redis {
    var hashes: map<string, map<string, string>>

    constructor ()
      ensures hashes == map[]
    {
      hashes := map[];
    }

    function HGetAll(key: string): map<string, string>
      reads this
    {
      if key in hashes then hashes[key] else map[]
    }

    /** HSET adds to what the hash already holds. */
    method HSetObj(key: string, obj: Object) returns (error: Option<Error>)
      requires IsStruct(obj.fields)
      modifies this
      ensures error.Some? ==> error == Some(NoFields) && hashes == old(hashes)
      ensures error.Some? <==> forall i | 0 <= i < |obj.fields| :: obj.fields[i].value.DeletedAt?
      ensures error.None? ==>
                exists data ::
                  && Encodes(data, obj.fields)
                  && hashes == old(hashes)[key := (if key in old(hashes) then old(hashes)[key] else map[]) + data]
    {
      var data := Write(obj.fields);
      if data == map[] { return Some(NoFields); }
      var name :| name in data;
      assert Stored(obj.fields, name);
      hashes, error := hashes[key := HGetAll(key) + data], None;
    }

    method HGetObj(key: string, obj: Object, parseTime: string -> Option<string>) returns (error: Option<Error>)
      modifies obj
      ensures key !in hashes || hashes[key] == map[] ==> error == Some(NotFound) && obj.fields == old(obj.fields)
      ensures key in hashes && hashes[key] != map[] ==>
                Reads(hashes[key], old(obj.fields), obj.fields, error, parseTime)
    {
      if HGetAll(key) == map[] { return Some(NotFound); }
      error := Read(HGetAll(key), obj, parseTime);
    }
  }

  // ------------------------------------------------------------------ the round trip

  /** A kind that the reader refuses, under a text it looks at. */
  predicate Refused(f: Field) {
    match f.value
    case Plain(v) => v.Other?
    case Pointer(p) => p.Some? && p.value.Other? && Show(p.value) != ""
    case DeletedAt(_) => false
  }

  /** What one field comes back as. */
  function Back(f: Field): Field {
    match f.value
    case Plain(v) => if v.Struct? then Zero(f) else f
    case Pointer(p) =>
      if p.None? || Show(p.value) == "" then f.(value := Pointer(None))
      else if p.value.Struct? then f.(value := Pointer(Some(ZeroScalar(f.kind)))) else f
    case DeletedAt(_) => f.(value := DeletedAt(None))
  }

  /** The values that survive: no pointer to an empty string, no deletion time, no other non-zero struct. */
  predicate Survives(f: Field) {
    match f.value
    case Plain(v) => v.Struct? ==> v == ZeroScalar(f.kind)
    case Pointer(p) => p.Some? ==> Show(p.value) != "" && (p.value.Struct? ==> p.value == ZeroScalar(f.kind))
    case DeletedAt(time) => time.None?
  }

  lemma ParseShow(name: string, kind: Kind, was: Scalar, v: Scalar)
    requires OfKind(v, kind)
    ensures Parse(name, kind, was, Show(v))
         == if v.Other? then Err(Unsupported(name)) else if v.Struct? then Ok(was) else Ok(v)
  {
    if v.Int? { ParsePrint(v.n); }
  }

  lemma FieldBack(f: Field, text: string, parseTime: string -> Option<string>)
    requires WellTyped(f) && Text(f.value) == Some(text)
    ensures var (g, error) := ReadField(Zero(f), text, parseTime);
            if Refused(f) then error == Some(Unsupported(f.name)) else error.None? && g == Back(f)
  {
    match f.value
    case Plain(v) => ParseShow(f.name, f.kind, ZeroScalar(f.kind), v);
    case Pointer(p) => if p.Some? { ParseShow(f.name, f.kind, ZeroScalar(f.kind), p.value); }
    case DeletedAt(_) =>
  }

  /** The hash that a write leaves: its texts, over whatever the key held before. */
  ghost predicate Written(hash: map<string, string>, fields: seq<Field>) {
    exists before: map<string, string>, data: map<string, string> ::
      && Encodes(data, fields) && hash == before + data
      && forall i | 0 <= i < |fields| && fields[i].value.DeletedAt? :: fields[i].name !in before
  }

  lemma LoadedBack(hash: map<string, string>, fields: seq<Field>, i: nat, parseTime: string -> Option<string>)
    requires IsStruct(fields) && Written(hash, fields) && i < |fields|
    ensures var (g, error) := Loaded(Zero(fields[i]), hash, parseTime);
            if Refused(fields[i]) then error == Some(Unsupported(fields[i].name))
            else error.None? && g == Back(fields[i])
  {
    var f := fields[i];
    var before: map<string, string>, data: map<string, string> :|
      && Encodes(data, fields) && hash == before + data
      && forall i | 0 <= i < |fields| && fields[i].value.DeletedAt? :: fields[i].name !in before;
    if f.value.DeletedAt? {
      assert f.name in data ==> Stored(fields, f.name);
    } else {
      FieldBack(f, hash[f.name], parseTime);
    }
  }

  /**
    Reading a written hash into a zero value fails exactly when some field is of a kind the
    reader refuses, and otherwise gives every field back as Back says.
   */
  lemma ReadBack(
    hash: map<string, string>, fields: seq<Field>, now: seq<Field>, error: Option<Error>,
    parseTime: string -> Option<string>)
    requires IsStruct(fields) && Written(hash, fields) && Reads(hash, Zeros(fields), now, error, parseTime)
    ensures error.None? <==> forall i | 0 <= i < |fields| :: !Refused(fields[i])
    ensures error.None? ==> forall i | 0 <= i < |fields| :: now[i] == Back(fields[i])
  {
    forall i | 0 <= i < |fields|
      ensures Refused(fields[i]) <==> Loaded(Zeros(fields)[i], hash, parseTime).1.Some?
      ensures !Refused(fields[i]) ==> Loaded(Zeros(fields)[i], hash, parseTime) == (Back(fields[i]), None)
    {
      LoadedBack(hash, fields, i, parseTime);
    }
    if error.Some? {
      var k :| FailsAt(hash, Zeros(fields), now, error.value, parseTime, k);
      assert Refused(fields[k]);
    }
  }

  lemma BackIff(f: Field)
    requires WellTyped(f)
    ensures Back(f) == f <==> Survives(f)
  {
  }

  /** The struct itself comes back exactly when every field is one that survives and none is refused. */
  lemma RoundTripIff(
    hash: map<string, string>, fields: seq<Field>, now: seq<Field>, error: Option<Error>,
    parseTime: string -> Option<string>)
    requires IsStruct(fields) && Written(hash, fields) && Reads(hash, Zeros(fields), now, error, parseTime)
    ensures error.None? && now == fields <==> forall i | 0 <= i < |fields| :: !Refused(fields[i]) && Survives(fields[i])
  {
    ReadBack(hash, fields, now, error, parseTime);
    forall i | 0 <= i < |fields| ensures Back(fields[i]) == fields[i] <==> Survives(fields[i]) {
      BackIff(fields[i]);
    }
  }
}
