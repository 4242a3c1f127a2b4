/**
 Serialization driven by type descriptions: 3rd/cppdap/include/dap/serialization.h,
 3rd/cppdap/include/dap/typeof.h and 3rd/cppdap/src/nlohmann_json_serializer.cpp.

 A description says how a value is written to a JSON tree and read back. What is
 read back is the value that was written exactly under the condition Keeps.
 Numbers with a fraction are reals: rounding is not modelled.
 */
module Serialization {
  import opened Common
  import opened Text

  const INT64_LIMIT := 0x8000_0000_0000_0000

  type Int64 = n: int | -INT64_LIMIT <= n < INT64_LIMIT

  datatype Json =
    | Null
    | Bool(b: bool)
    | Int(n: int)
    | Float(x: real)
    | Str(s: string)
    | Array(elements: seq<Json>)
    | Object(fields: map<string, Json>)

  /** What a dap::any holds. Other stands for anything that is not a scalar, and
      for nothing at all. */
  datatype Any = AnyBool(b: bool) | AnyInt(n: Int64) | AnyNumber(x: real) | AnyString(s: string) | AnyNull | Other

  datatype Kind = BoolKind | IntKind | NumberKind | StringKind | NullKind | OtherKind

  datatype Field = Field(name: string, schema: Schema)

  datatype Schema =
    | Boolean
    | Integer
    | Number
    | String
    | Nothing
    | AnyType
    | Variant(kinds: set<Kind>)
    | ObjectType
    | ArrayOf(element: Schema)
    | OptionalOf(content: Schema)
    | Struct(members: seq<Field>)

  datatype Value =
    | BoolValue(b: bool)
    | IntValue(n: Int64)
    | NumberValue(x: real)
    | StringValue(s: string)
    | NothingValue
    | AnyValue(a: Any)
    | ObjectValue(entries: map<string, Any>)
    | ArrayValue(elements: seq<Value>)
    | OptionalValue(content: Option<Value>)
    | StructValue(members: seq<Value>)

  function KindOf(a: Any): Kind {
    match a
    case AnyBool(_) => BoolKind
    case AnyInt(_) => IntKind
    case AnyNumber(_) => NumberKind
    case AnyString(_) => StringKind
    case AnyNull => NullKind
    case Other => OtherKind
  }

  /** The value has the described type. */
  predicate Typed(s: Schema, v: Value) {
    match s
    case Boolean => v.BoolValue?
    case Integer => v.IntValue?
    case Number => v.NumberValue?
    case String => v.StringValue?
    case Nothing => v.NothingValue?
    case AnyType => v.AnyValue?
    case Variant(kinds) => v.AnyValue? && KindOf(v.a) in kinds
    case ObjectType => v.ObjectValue?
    case ArrayOf(e) => v.ArrayValue? && forall x <- v.elements :: Typed(e, x)
    case OptionalOf(e) => v.OptionalValue? && (v.content.Some? ==> Typed(e, v.content.value))
    case Struct(fs) => v.StructValue? && |v.members| == |fs| && forall i | 0 <= i < |fs| :: Typed(fs[i].schema, v.members[i])
  }

  /** No struct has two fields of one name. */
  predicate DistinctNames(s: Schema) {
    match s
    case ArrayOf(e) => DistinctNames(e)
    case OptionalOf(e) => DistinctNames(e)
    case Struct(fs) =>
      && (forall i, j | 0 <= i < j < |fs| :: fs[i].name != fs[j].name)
      && (forall i | 0 <= i < |fs| :: DistinctNames(fs[i].schema))
    case _ => true
  }

  /* Writing */

  /** What a serializer leaves in its cell, and whether it asked for its removal. */
  datatype Cell = Cell(json: Json, removed: bool)

  function WriteAny(a: Any): Option<Json> {
    match a
    case AnyBool(b) => Some(Bool(b))
    case AnyInt(n) => Some(Int(n))
    case AnyNumber(x) => Some(Float(x))
    case AnyString(s) => Some(Str(s))
    case AnyNull => Some(Null)
    case Other => None
  }

  /** The entries of a dap::object; without any, the cell is not touched. */
  function WriteEntries(entries: map<string, Any>): Option<Json> {
    if forall k <- entries :: entries[k] != Other then
      Some(if entries == map[] then Null else Object(map k | k in entries :: WriteAny(entries[k]).value))
    else None
  }

  function OfJson(j: Option<Json>): Option<Cell> {
    if j.Some? then Some(Cell(j.value, false)) else None
  }

  function Write(s: Schema, v: Value): Option<Cell>
    requires Typed(s, v)
    decreases s, 0
  {
    match s
    case Boolean => Some(Cell(Bool(v.b), false))
    case Integer => Some(Cell(Int(v.n), false))
    case Number => Some(Cell(Float(v.x), false))
    case String => Some(Cell(Str(v.s), false))
    case Nothing => Some(Cell(Null, false))
    case AnyType => OfJson(WriteAny(v.a))
    case Variant(_) => OfJson(WriteAny(v.a))
    case ObjectType => OfJson(WriteEntries(v.entries))
    case ArrayOf(e) =>
      var js := WriteElements(e, v.elements);
      if js.Some? then Some(Cell(Array(js.value), false)) else None
    case OptionalOf(e) => if v.content.Some? then Write(e, v.content.value) else Some(Cell(Null, true))
    case Struct(fs) =>
      var m := WriteMembers(fs, v.members);
      if m.Some? then Some(Cell(Object(m.value), false)) else None
  }

  /** Removal is ignored inside arrays. */
  function WriteElements(e: Schema, xs: seq<Value>): (r: Option<seq<Json>>)
    requires forall x <- xs :: Typed(e, x)
    ensures r.Some? ==> |r.value| == |xs|
    decreases e, |xs|
  {
    if |xs| == 0 then Some([])
    else
      var front := WriteElements(e, xs[..|xs| - 1]);
      var last := Write(e, xs[|xs| - 1]);
      if front.Some? && last.Some? then Some(front.value + [last.value.json]) else None
  }

  function WriteMembers(fs: seq<Field>, xs: seq<Value>): Option<map<string, Json>>
    requires |fs| == |xs| && forall i | 0 <= i < |fs| :: Typed(fs[i].schema, xs[i])
    decreases fs
  {
    if |fs| == 0 then Some(map[])
    else
      var n := |fs| - 1;
      var front := WriteMembers(fs[..n], xs[..n]);
      var last := Write(fs[n].schema, xs[n]);
      if front.Some? && last.Some? then
        Some(if last.value.removed then front.value - {fs[n].name} else front.value[fs[n].name := last.value.json])
      else None
  }

  /* Reading */

  function ToInt64(n: int): Int64 {
    (n + INT64_LIMIT) % (2 * INT64_LIMIT) - INT64_LIMIT
  }

  function ReadAny(j: Json): Option<Any> {
    match j
    case Bool(b) => Some(AnyBool(b))
    case Float(x) => Some(AnyNumber(x))
    case Int(n) => Some(AnyInt(ToInt64(n)))
    case Str(s) => Some(AnyString(s))
    case Null => Some(AnyNull)
    case _ => None
  }

  function IndexedItems(js: seq<Json>): map<string, Json> {
    if |js| == 0 then map[]
    else IndexedItems(js[..|js| - 1])[Render(|js| - 1, 10) := js[|js| - 1]]
  }

  /** What iterating over the items of a JSON value yields: a scalar is one item
      without a key. */
  function Items(j: Json): map<string, Json> {
    match j
    case Object(m) => m
    case Array(js) => IndexedItems(js)
    case Null => map[]
    case _ => map["" := j]
  }

  function ReadEntries(m: map<string, Json>): Option<map<string, Any>> {
    if forall k <- m :: ReadAny(m[k]).Some? then Some(map k | k in m :: ReadAny(m[k]).value) else None
  }

  /** Reading a cell, or, without one, from the deserializer for missing fields. */
  function Read(s: Schema, j: Option<Json>): Option<Value>
    decreases s, 0
  {
    match s
    case Boolean => if j.Some? && j.value.Bool? then Some(BoolValue(j.value.b)) else None
    case Integer => if j.Some? && j.value.Int? then Some(IntValue(ToInt64(j.value.n))) else None
    case Number =>
      if j.Some? && j.value.Float? then Some(NumberValue(j.value.x))
      else if j.Some? && j.value.Int? then Some(NumberValue(j.value.n as real))
      else None
    case String => if j.Some? && j.value.Str? then Some(StringValue(j.value.s)) else None
    case Nothing => Some(NothingValue)
    case AnyType => if j.Some? && ReadAny(j.value).Some? then Some(AnyValue(ReadAny(j.value).value)) else None
    case Variant(_) => if j.Some? && ReadAny(j.value).Some? then Some(AnyValue(ReadAny(j.value).value)) else None
    case ObjectType =>
      if j.Some? && ReadEntries(Items(j.value)).Some? then Some(ObjectValue(ReadEntries(Items(j.value)).value)) else None
    case ArrayOf(e) =>
      if j.Some? && j.value.Array? && ReadElements(e, j.value.elements).Some?
      then Some(ArrayValue(ReadElements(e, j.value.elements).value)) else None
    case OptionalOf(e) => Some(OptionalValue(Read(e, j)))
    case Struct(fs) =>
      if ReadMembers(fs, j).Some? then Some(StructValue(ReadMembers(fs, j).value)) else None
  }

  function ReadElements(e: Schema, js: seq<Json>): (r: Option<seq<Value>>)
    ensures r.Some? ==> |r.value| == |js|
    decreases e, |js|
  {
    if |js| == 0 then Some([])
    else
      var front := ReadElements(e, js[..|js| - 1]);
      var last := Read(e, Some(js[|js| - 1]));
      if front.Some? && last.Some? then Some(front.value + [last.value]) else None
  }

  /** The cell of a field; a field that is missing has none. */
  function FieldCell(j: Json, name: string): Option<Json> {
    if j.Object? && name in j.fields then Some(j.fields[name]) else None
  }

  predicate IsStructured(j: Option<Json>) {
    j.Some? && (j.value.Object? || j.value.Array?)
  }

  function ReadMembers(fs: seq<Field>, j: Option<Json>): (r: Option<seq<Value>>)
    ensures r.Some? ==> |r.value| == |fs|
    decreases fs
  {
    if |fs| == 0 then Some([])
    else
      var n := |fs| - 1;
      var front := ReadMembers(fs[..n], j);
      if front.Some? && IsStructured(j) then
        var last := Read(fs[n].schema, FieldCell(j.value, fs[n].name));
        if last.Some? then Some(front.value + [last.value]) else None
      else None
  }

  /* On the wire */

  /** How scalars are written. */
  lemma ScalarsOnTheWire(b: bool, n: Int64, x: real, text: string)
    ensures Write(Boolean, BoolValue(b)) == Some(Cell(Bool(b), false)) && WriteAny(AnyBool(b)) == Some(Bool(b))
    ensures Write(Integer, IntValue(n)) == Some(Cell(Int(n), false)) && WriteAny(AnyInt(n)) == Some(Int(n))
    ensures Write(Number, NumberValue(x)) == Some(Cell(Float(x), false)) && WriteAny(AnyNumber(x)) == Some(Float(x))
    ensures Write(String, StringValue(text)) == Some(Cell(Str(text), false)) && WriteAny(AnyString(text)) == Some(Str(text))
    ensures Write(Nothing, NothingValue) == Some(Cell(Null, false)) && WriteAny(AnyNull) == Some(Null)
  {
  }

  /** An object of scalars is written entry by entry, and one without entries as null. */
  lemma EntriesOnTheWire(entries: map<string, Any>)
    requires WriteEntries(entries).Some?
    ensures WriteEntries(entries) == Some(Null) <==> entries == map[]
    ensures forall k <- entries :: WriteAny(entries[k]).Some? && FieldCell(WriteEntries(entries).value, k) == WriteAny(entries[k])
    ensures entries != map[] ==> WriteEntries(entries).value.Object? && WriteEntries(entries).value.fields.Keys == entries.Keys
  {
  }

  /** What is read as which type: nothing can be read from anything, and any-like types
      from every scalar and null, whatever the kinds. */
  lemma TakenFromTheWireIff(j: Option<Json>, kinds: set<Kind>)
    ensures Read(Boolean, j).Some? <==> j.Some? && j.value.Bool?
    ensures Read(Integer, j).Some? <==> j.Some? && j.value.Int?
    ensures Read(Number, j).Some? <==> j.Some? && (j.value.Float? || j.value.Int?)
    ensures Read(String, j).Some? <==> j.Some? && j.value.Str?
    ensures Read(Nothing, j).Some?
    ensures Read(AnyType, j).Some? <==> j.Some? && !j.value.Array? && !j.value.Object?
    ensures Read(Variant(kinds), j) == Read(AnyType, j)
  {
  }

  /** What counts as entry when an object is read: fields, elements under their indices,
      nothing for a null, and any other value as one entry without a name. */
  lemma ItemsOnTheWire(j: Json)
    ensures j.Object? ==> Items(j) == j.fields
    ensures j.Array? ==> Items(j) == IndexedItems(j.elements)
    ensures j.Null? ==> Items(j) == map[]
    ensures !j.Object? && !j.Array? && !j.Null? ==> Items(j).Keys == {""} && Items(j)[""] == j
  {
  }

  /** Entries are read if all of them are scalars or null, each as it is read by itself. */
  lemma EntriesFromTheWireIff(m: map<string, Json>)
    ensures ReadEntries(m).Some? <==> forall k <- m :: !m[k].Array? && !m[k].Object?
    ensures ReadEntries(m).Some? ==> ReadEntries(m).value.Keys == m.Keys && forall k <- m :: Some(ReadEntries(m).value[k]) == ReadAny(m[k])
  {
  }

  /** An integer on the wire is read as a number of the same value, and as an integer
      modulo 2^64, a fraction as a number only, and an optional never fails. */
  lemma NumbersFromTheWire(n: int, x: real, s: Schema, j: Option<Json>)
    ensures Read(Number, Some(Int(n))) == Some(NumberValue(n as real))
    ensures Read(Integer, Some(Int(n))).Some? && (Read(Integer, Some(Int(n))).value.n - n) % (2 * INT64_LIMIT) == 0
    ensures Read(Integer, Some(Float(x))) == None && Read(Number, Some(Float(x))) == Some(NumberValue(x))
    ensures Read(OptionalOf(s), j) == Some(OptionalValue(Read(s, j)))
  {
    WrapIsCongruent(n);
  }

  lemma WrapIsCongruent(n: int)
    ensures (ToInt64(n) - n) % (2 * INT64_LIMIT) == 0
  {
    var m := n + INT64_LIMIT;
    var q := m / (2 * INT64_LIMIT);
    assert ToInt64(n) - n == 2 * INT64_LIMIT * -q;
  }

  /** Every member that is not removed is on the wire under its name, as it is written
      by itself, and a removed one is not. */
  lemma {:induction false} MembersOnTheWire(fs: seq<Field>, xs: seq<Value>, i: nat)
    requires |fs| == |xs| && forall k | 0 <= k < |fs| :: Typed(fs[k].schema, xs[k])
    requires forall k, l | 0 <= k < l < |fs| :: fs[k].name != fs[l].name
    requires WriteMembers(fs, xs).Some? && i < |fs|
    ensures var cell := Write(fs[i].schema, xs[i]);
      cell.Some? && FieldCell(Object(WriteMembers(fs, xs).value), fs[i].name) == if cell.value.removed then None else Some(cell.value.json)
    decreases |fs|
  {
    if i < |fs| - 1 {
      MembersOnTheWire(fs[..|fs| - 1], xs[..|fs| - 1], i);
    }
  }

  lemma {:induction false} ElementsOnTheWire(e: Schema, xs: seq<Value>, i: nat)
    requires (forall x <- xs :: Typed(e, x)) && WriteElements(e, xs).Some? && i < |xs|
    ensures Write(e, xs[i]).Some? && WriteElements(e, xs).value[i] == Write(e, xs[i]).value.json
    decreases |xs|
  {
    if i < |xs| - 1 {
      ElementsOnTheWire(e, xs[..|xs| - 1], i);
    }
  }

  /** A struct is read member by member, each from the field of its name, or not at all. */
  lemma {:induction false} MembersFromTheWire(fs: seq<Field>, j: Json, xs: seq<Value>)
    requires IsStructured(Some(j))
    ensures ReadMembers(fs, Some(j)) == Some(xs) <==>
      |xs| == |fs| && forall i | 0 <= i < |fs| :: Read(fs[i].schema, FieldCell(j, fs[i].name)) == Some(xs[i])
    decreases |fs|
  {
    if |fs| > 0 {
      var n := |fs| - 1;
      if |xs| == |fs| {
        MembersFromTheWire(fs[..n], j, xs[..n]);
        assert xs == xs[..n] + [xs[n]];
      }
    }
  }

  /** So is an array. */
  lemma {:induction false} ElementsFromTheWire(e: Schema, js: seq<Json>, xs: seq<Value>)
    ensures ReadElements(e, js) == Some(xs) <==> |xs| == |js| && forall i | 0 <= i < |js| :: Read(e, Some(js[i])) == Some(xs[i])
    decreases |js|
  {
    if |js| > 0 {
      var n := |js| - 1;
      if |xs| == |js| {
        ElementsFromTheWire(e, js[..n], xs[..n]);
        assert xs == xs[..n] + [xs[n]];
      }
    }
  }

  lemma RendersDiffer(i: nat, j: nat)
    requires i != j
    ensures Render(i, 10) != Render(j, 10)
  {
    ValueOfRender(i, 10);
    ValueOfRender(j, 10);
  }

  /** The elements of an array count as entries under their decimal indices. */
  lemma {:induction false} ItemAt(js: seq<Json>, i: nat)
    requires i < |js|
    ensures Render(i, 10) in IndexedItems(js) && IndexedItems(js)[Render(i, 10)] == js[i]
    decreases |js|
  {
    var n := |js| - 1;
    if i < n {
      RendersDiffer(i, n);
      ItemAt(js[..n], i);
    }
  }

  lemma {:induction false} ItemKey(js: seq<Json>, key: string) returns (i: nat)
    requires key in IndexedItems(js)
    ensures i < |js| && key == Render(i, 10)
    decreases |js|
  {
    var n := |js| - 1;
    if key == Render(n, 10) {
      i := n;
    } else {
      i := ItemKey(js[..n], key);
    }
  }

  /* The round trip */

  /** Written and read back, as a struct field or as an array element or the
      whole text: is it the same value? */
  predicate Restored(s: Schema, v: Value, inField: bool)
    requires Typed(s, v)
  {
    var cell := Write(s, v);
    cell.Some? && Read(s, if inField && cell.value.removed then None else Some(cell.value.json)) == Some(v)
  }

  /** Reading fails where a field is missing. */
  predicate FailsOnMissing(s: Schema) {
    !s.OptionalOf? && s != Nothing && s != Struct([])
  }

  /** Reading fails on a null. */
  predicate FailsOnNull(s: Schema) {
    FailsOnMissing(s) && s != AnyType && !s.Variant? && s != ObjectType
  }

  /** The values that survive: whatever is not described by its type is a scalar,
      and what an unset optional does not set would not have been read either. */
  predicate Keeps(s: Schema, v: Value, inField: bool)
    requires Typed(s, v)
    decreases s
  {
    match s
    case AnyType => v.a != Other
    case Variant(_) => v.a != Other
    case ObjectType => forall k <- v.entries :: v.entries[k] != Other
    case ArrayOf(e) => forall x <- v.elements :: Keeps(e, x, false)
    case OptionalOf(e) =>
      if v.content.Some? then Keeps(e, v.content.value, inField)
      else if inField then FailsOnMissing(e)
      else FailsOnNull(e)
    case Struct(fs) => forall i | 0 <= i < |fs| :: Keeps(fs[i].schema, v.members[i], true)
    case _ => true
  }

  lemma MissingFails(s: Schema)
    ensures Read(s, None).None? <==> FailsOnMissing(s)
  {
    if s.Struct? && |s.members| > 0 {
      assert ReadMembers(s.members, None) == None;
    }
  }

  lemma NullFails(s: Schema)
    ensures Read(s, Some(Null)).None? <==> FailsOnNull(s)
  {
    if s.Struct? && |s.members| > 0 {
      assert ReadMembers(s.members, Some(Null)) == None;
    }
  }

  lemma AnyRoundTrip(a: Any)
    ensures WriteAny(a).Some? <==> a != Other
    ensures a != Other ==> ReadAny(WriteAny(a).value) == Some(a)
  {
  }

  lemma EntriesRoundTrip(entries: map<string, Any>)
    ensures WriteEntries(entries).Some? <==> forall k <- entries :: entries[k] != Other
    ensures WriteEntries(entries).Some? ==> ReadEntries(Items(WriteEntries(entries).value)) == Some(entries)
  {
    if WriteEntries(entries).Some? {
      var m := Items(WriteEntries(entries).value);
      assert m.Keys == entries.Keys;
      forall k | k in entries ensures ReadAny(m[k]) == Some(entries[k]) {
        AnyRoundTrip(entries[k]);
      }
      assert ReadEntries(m).value == entries;
    }
  }

  lemma {:induction false} ElementsRoundTrip(e: Schema, xs: seq<Value>)
    requires DistinctNames(e) && forall x <- xs :: Typed(e, x)
    ensures (WriteElements(e, xs).Some? && ReadElements(e, WriteElements(e, xs).value) == Some(xs))
      <==> forall x <- xs :: Keeps(e, x, false)
    decreases e, |xs|
  {
    if |xs| > 0 {
      var init, last := xs[..|xs| - 1], xs[|xs| - 1];
      assert xs == init + [last];
      ElementsRoundTrip(e, init);
      RoundTripIff(e, last, false);
      if WriteElements(e, xs).Some? {
        var js := WriteElements(e, xs).value;
        assert js[..|js| - 1] == WriteElements(e, init).value;
      }
    }
  }

  /** Reading members looks at no other fields. */
  lemma {:induction false} ReadMembersFrame(fs: seq<Field>, m: map<string, Json>, m': map<string, Json>)
    requires forall f <- fs :: FieldCell(Object(m), f.name) == FieldCell(Object(m'), f.name)
    ensures ReadMembers(fs, Some(Object(m))) == ReadMembers(fs, Some(Object(m')))
    decreases fs
  {
    if |fs| > 0 {
      ReadMembersFrame(fs[..|fs| - 1], m, m');
    }
  }

  lemma {:induction false} WrittenNames(fs: seq<Field>, xs: seq<Value>)
    requires |fs| == |xs| && forall i | 0 <= i < |fs| :: Typed(fs[i].schema, xs[i])
    ensures WriteMembers(fs, xs).Some? ==> forall k <- WriteMembers(fs, xs).value :: exists i :: 0 <= i < |fs| && fs[i].name == k
    decreases fs
  {
    if |fs| > 0 && WriteMembers(fs, xs).Some? {
      var n := |fs| - 1;
      WrittenNames(fs[..n], xs[..n]);
      forall k <- WriteMembers(fs, xs).value ensures exists i :: 0 <= i < |fs| && fs[i].name == k {
        if k in WriteMembers(fs[..n], xs[..n]).value {
          var i :| 0 <= i < n && fs[..n][i].name == k;
          assert fs[i].name == k;
        } else {
          assert fs[n].name == k;
        }
      }
    }
  }

  /** The last member of a struct goes its own way. */
  lemma LastMember(fs: seq<Field>, xs: seq<Value>)
    requires |fs| == |xs| > 0 && forall i | 0 <= i < |fs| :: Typed(fs[i].schema, xs[i])
    requires forall i, j | 0 <= i < j < |fs| :: fs[i].name != fs[j].name
    requires WriteMembers(fs, xs).Some?
    ensures var n := |fs| - 1;
      var m, last := WriteMembers(fs, xs).value, Write(fs[n].schema, xs[n]).value;
      && FieldCell(Object(m), fs[n].name) == (if last.removed then None else Some(last.json))
      && ReadMembers(fs[..n], Some(Object(m))) == ReadMembers(fs[..n], Some(Object(WriteMembers(fs[..n], xs[..n]).value)))
  {
    var n := |fs| - 1;
    var m, front := WriteMembers(fs, xs).value, WriteMembers(fs[..n], xs[..n]).value;
    WrittenNames(fs[..n], xs[..n]);
    assert fs[n].name !in front;
    forall f <- fs[..n] ensures FieldCell(Object(m), f.name) == FieldCell(Object(front), f.name) {
      assert f.name != fs[n].name;
    }
    ReadMembersFrame(fs[..n], m, front);
  }

  predicate TypedMembers(fs: seq<Field>, xs: seq<Value>) {
    |fs| == |xs| && forall i | 0 <= i < |fs| :: Typed(fs[i].schema, xs[i])
  }

  predicate MembersRestored(fs: seq<Field>, xs: seq<Value>)
    requires TypedMembers(fs, xs)
  {
    WriteMembers(fs, xs).Some? && ReadMembers(fs, Some(Object(WriteMembers(fs, xs).value))) == Some(xs)
  }

  /** The members of a struct are restored one by one. */
  lemma MembersRestoredIff(fs: seq<Field>, xs: seq<Value>)
    requires TypedMembers(fs, xs) && |fs| > 0
    requires forall i, j | 0 <= i < j < |fs| :: fs[i].name != fs[j].name
    ensures var n := |fs| - 1;
      MembersRestored(fs, xs) <==> MembersRestored(fs[..n], xs[..n]) && Restored(fs[n].schema, xs[n], true)
  {
    if WriteMembers(fs, xs).Some? {
      LastMember(fs, xs);
      assert xs == xs[..|fs| - 1] + [xs[|fs| - 1]];
    }
  }

  lemma {:induction false} MembersRoundTrip(fs: seq<Field>, xs: seq<Value>)
    requires TypedMembers(fs, xs) && forall i | 0 <= i < |fs| :: DistinctNames(fs[i].schema)
    requires forall i, j | 0 <= i < j < |fs| :: fs[i].name != fs[j].name
    ensures MembersRestored(fs, xs) <==> forall i | 0 <= i < |fs| :: Keeps(fs[i].schema, xs[i], true)
    decreases fs
  {
    if |fs| > 0 {
      var n := |fs| - 1;
      MembersRoundTrip(fs[..n], xs[..n]);
      RoundTripIff(fs[n].schema, xs[n], true);
      MembersRestoredIff(fs, xs);
    }
  }

  /** A value is restored exactly if the condition holds. */
  lemma {:induction false} RoundTripIff(s: Schema, v: Value, inField: bool)
    requires Typed(s, v) && DistinctNames(s)
    ensures Restored(s, v, inField) <==> Keeps(s, v, inField)
    decreases s, 0
  {
    match s
    case AnyType => AnyRoundTrip(v.a);
    case Variant(_) => AnyRoundTrip(v.a);
    case ObjectType => EntriesRoundTrip(v.entries);
    case ArrayOf(e) => ElementsRoundTrip(e, v.elements);
    case OptionalOf(e) =>
      if v.content.Some? {
        RoundTripIff(e, v.content.value, inField);
      } else {
        MissingFails(e);
        NullFails(e);
      }
    case Struct(fs) => MembersRoundTrip(fs, v.members);
    case _ =>
  }

  /* The serializer */

  lemma {:induction false} WriteElementsFails(e: Schema, xs: seq<Value>, i: nat)
    requires i <= |xs| && (forall x <- xs :: Typed(e, x)) && WriteElements(e, xs[..i]).None?
    ensures WriteElements(e, xs).None?
    decreases |xs|
  {
    if i < |xs| {
      assert xs[..|xs| - 1][..i] == xs[..i];
      WriteElementsFails(e, xs[..|xs| - 1], i);
    } else {
      assert xs[..i] == xs;
    }
  }

  lemma {:induction false} WriteMembersFails(fs: seq<Field>, xs: seq<Value>, i: nat)
    requires TypedMembers(fs, xs) && i <= |fs| && WriteMembers(fs[..i], xs[..i]).None?
    ensures WriteMembers(fs, xs).None?
    decreases |fs|
  {
    if i < |fs| {
      assert fs[..|fs| - 1][..i] == fs[..i] && xs[..|xs| - 1][..i] == xs[..i];
      WriteMembersFails(fs[..|fs| - 1], xs[..|xs| - 1], i);
    } else {
      assert fs[..i] == fs && xs[..i] == xs;
    }
  }

  lemma OneMoreElement(e: Schema, xs: seq<Value>, i: nat)
    requires i < |xs| && forall x <- xs :: Typed(e, x)
    ensures var front, last := WriteElements(e, xs[..i]), Write(e, xs[i]);
      WriteElements(e, xs[..i + 1]) == if front.Some? && last.Some? then Some(front.value + [last.value.json]) else None
  {
    assert xs[..i + 1][..i] == xs[..i];
  }

  lemma OneMoreMember(fs: seq<Field>, xs: seq<Value>, i: nat)
    requires TypedMembers(fs, xs) && i < |fs|
    ensures var front, last := WriteMembers(fs[..i], xs[..i]), Write(fs[i].schema, xs[i]);
      WriteMembers(fs[..i + 1], xs[..i + 1]) == if front.Some? && last.Some? then
        Some(if last.value.removed then front.value - {fs[i].name} else front.value[fs[i].name := last.value.json]) else None
  {
    assert fs[..i + 1][..i] == fs[..i] && xs[..i + 1][..i] == xs[..i];
  }

  /** The cell when the entries of the given keys have been written. */
  ghost predicate EntriesWritten(entries: map<string, Any>, done: set<string>, json: Json) {
    && done <= entries.Keys
    && (forall k <- done :: entries[k] != Other)
    && (if done == {} then json == Null else json.Object? && json.fields.Keys == done)
    && (forall k <- done :: json.Object? && k in json.fields && Some(json.fields[k]) == WriteAny(entries[k]))
  }

  /** Every key is either done or still to do. */
  ghost predicate SplitInto(keys: set<string>, done: set<string>, todo: set<string>) {
    done + todo == keys && done !! todo
  }

  lemma SplitNext(keys: set<string>, done: set<string>, todo: set<string>, key: string)
    requires SplitInto(keys, done, todo) && key in todo
    ensures SplitInto(keys, done + {key}, todo - {key}) && key !in done && key in keys
  {
  }

  lemma EntriesShape(entries: map<string, Any>, done: set<string>, json: Json)
    requires EntriesWritten(entries, done, json)
    ensures json == Null || json.Object?
  {
  }

  lemma EntryWritten(entries: map<string, Any>, done: set<string>, key: string, before: Json, json: Json)
    requires EntriesWritten(entries, done, before) && key in entries && key !in done && entries[key] != Other
    requires json == Object((if before.Object? then before.fields else map[])[key := WriteAny(entries[key]).value])
    ensures EntriesWritten(entries, done + {key}, json)
  {
  }

  lemma AllEntriesWritten(entries: map<string, Any>, json: Json)
    requires EntriesWritten(entries, entries.Keys, json)
    ensures WriteEntries(entries) == Some(json)
  {
    if entries == map[] {
      assert entries.Keys == {};
    } else {
      assert entries.Keys != {} by {
        var k :| k in entries;
      }
      assert json.fields == map k | k in entries :: WriteAny(entries[k]).value;
    }
  }

  /** A serializer and the cell it writes to, null at first. */
  class NlohmannSerializer {
    var json: Json
    var removed: bool

    constructor ()
      ensures json == Null && !removed
    {
      json, removed := Null, false;
    }

    method SerializeAny(a: Any) returns (ok: bool)
      modifies this
      ensures ok == WriteAny(a).Some? && removed == old(removed)
      ensures json == if a == AnyNull || a == Other then old(json) else WriteAny(a).value
    {
      if a.AnyBool? {
        json := Bool(a.b);
      } else if a.AnyInt? {
        json := Int(a.n);
      } else if a.AnyNumber? {
        json := Float(a.x);
      } else if a.AnyString? {
        json := Str(a.s);
      } else if a.AnyNull? {
      } else {
        return false;
      }
      return true;
    }

    /** One entry, in a cell of its own. */
    method SerializeEntry(key: string, a: Any) returns (ok: bool)
      requires json.Object? || json == Null
      modifies this
      ensures ok == (a != Other) && removed == old(removed)
      ensures ok ==> json == Object((if old(json).Object? then old(json).fields else map[])[key := WriteAny(a).value])
    {
      var fields := if json.Object? then json.fields else map[];
      var s := new NlohmannSerializer();
      ok := s.SerializeAny(a);
      json := Object(fields[key := s.json]);
    }

    method SerializeObject(entries: map<string, Any>) returns (ok: bool)
      requires json == Null
      modifies this
      ensures ok == WriteEntries(entries).Some? && removed == old(removed)
      ensures ok ==> json == WriteEntries(entries).value
    {
      ghost var done: set<string> := {};
      var todo := entries.Keys;
      while todo != {}
        invariant EntriesWritten(entries, done, json) && SplitInto(entries.Keys, done, todo)
        invariant removed == old(removed)
        decreases |todo|
      {
        var key :| key in todo by {
          var _ := SomeElement(todo);
        }
        ghost var before := json;
        EntriesShape(entries, done, json);
        SplitNext(entries.Keys, done, todo, key);
        var written := SerializeEntry(key, entries[key]);
        if !written {
          return false;
        }
        EntryWritten(entries, done, key, before, json);
        todo := todo - {key};
        done := done + {key};
      }
      AllEntriesWritten(entries, json);
      return true;
    }

    method SerializeArray(e: Schema, xs: seq<Value>) returns (ok: bool)
      requires forall x <- xs :: Typed(e, x)
      modifies this
      ensures ok == WriteElements(e, xs).Some? && removed == old(removed)
      ensures ok ==> json == Array(WriteElements(e, xs).value)
      decreases e, 1
    {
      json := Array([]);
      for i := 0 to |xs|
        invariant json.Array? && WriteElements(e, xs[..i]) == Some(json.elements) && removed == old(removed)
      {
        ghost var front := json.elements;
        var s := new NlohmannSerializer();
        json := Array(json.elements + [s.json]);
        var written := s.Serialize(e, xs[i]);
        json := Array(json.elements[i := s.json]);
        assert json.elements == front + [s.json];
        OneMoreElement(e, xs, i);
        if !written {
          WriteElementsFails(e, xs, i + 1);
          return false;
        }
      }
      assert xs[..|xs|] == xs;
      return true;
    }

    method SerializeStruct(fs: seq<Field>, xs: seq<Value>) returns (ok: bool)
      requires TypedMembers(fs, xs)
      modifies this
      ensures ok == WriteMembers(fs, xs).Some? && removed == old(removed)
      ensures ok ==> json == Object(WriteMembers(fs, xs).value)
      decreases fs, 1
    {
      json := Object(map[]);
      for i := 0 to |fs|
        invariant json.Object? && WriteMembers(fs[..i], xs[..i]) == Some(json.fields) && removed == old(removed)
      {
        ghost var front := json.fields;
        var s := new NlohmannSerializer();
        var written := s.Serialize(fs[i].schema, xs[i]);
        json := Object(json.fields[fs[i].name := s.json]);
        assert json.fields - {fs[i].name} == front - {fs[i].name};
        if s.removed {
          json := Object(json.fields - {fs[i].name});
        }
        OneMoreMember(fs, xs, i);
        if !written {
          WriteMembersFails(fs, xs, i + 1);
          return false;
        }
      }
      assert fs[..|fs|] == fs && xs[..|xs|] == xs;
      return true;
    }

    method Serialize(s: Schema, v: Value) returns (ok: bool)
      requires Typed(s, v) && json == Null && !removed
      modifies this
      ensures ok == Write(s, v).Some?
      ensures ok ==> Cell(json, removed) == Write(s, v).value
      decreases s, 0
    {
      match s {
        case Boolean => json := Bool(v.b);
        case Integer => json := Int(v.n);
        case Number => json := Float(v.x);
        case String => json := Str(v.s);
        case Nothing =>
        case AnyType => ok := SerializeAny(v.a); return;
        case Variant(_) => ok := SerializeAny(v.a); return;
        case ObjectType => ok := SerializeObject(v.entries); return;
        case ArrayOf(e) => ok := SerializeArray(e, v.elements); return;
        case OptionalOf(e) =>
          if v.content.Some? {
            ok := Serialize(e, v.content.value);
            return;
          }
          removed := true;
        case Struct(fs) => ok := SerializeStruct(fs, v.members); return;
      }
      return true;
    }
  }

  /* The deserializer */

  lemma {:induction false} ReadElementsFails(e: Schema, js: seq<Json>, i: nat)
    requires i <= |js| && ReadElements(e, js[..i]).None?
    ensures ReadElements(e, js).None?
    decreases |js|
  {
    if i < |js| {
      assert js[..|js| - 1][..i] == js[..i];
      ReadElementsFails(e, js[..|js| - 1], i);
    } else {
      assert js[..i] == js;
    }
  }

  lemma {:induction false} ReadMembersFails(fs: seq<Field>, j: Option<Json>, i: nat)
    requires i <= |fs| && ReadMembers(fs[..i], j).None?
    ensures ReadMembers(fs, j).None?
    decreases |fs|
  {
    if i < |fs| {
      assert fs[..|fs| - 1][..i] == fs[..i];
      ReadMembersFails(fs[..|fs| - 1], j, i);
    } else {
      assert fs[..i] == fs;
    }
  }

  lemma OneMoreRead(e: Schema, js: seq<Json>, i: nat)
    requires i < |js|
    ensures var front, last := ReadElements(e, js[..i]), Read(e, Some(js[i]));
      ReadElements(e, js[..i + 1]) == if front.Some? && last.Some? then Some(front.value + [last.value]) else None
  {
    assert js[..i + 1][..i] == js[..i];
  }

  lemma OneMoreMemberRead(fs: seq<Field>, j: Option<Json>, i: nat)
    requires i < |fs| && IsStructured(j)
    ensures var front, last := ReadMembers(fs[..i], j), Read(fs[i].schema, FieldCell(j.value, fs[i].name));
      ReadMembers(fs[..i + 1], j) == if front.Some? && last.Some? then Some(front.value + [last.value]) else None
  {
    assert fs[..i + 1][..i] == fs[..i];
  }

  /** The entries of the given keys have been read. */
  ghost predicate EntriesRead(m: map<string, Json>, done: set<string>, entries: map<string, Any>) {
    && done <= m.Keys && entries.Keys == done
    && (forall k <- done :: ReadAny(m[k]) == Some(entries[k]))
  }

  lemma EntryRead(m: map<string, Json>, done: set<string>, entries: map<string, Any>, key: string)
    requires EntriesRead(m, done, entries) && key in m && ReadAny(m[key]).Some?
    ensures EntriesRead(m, done + {key}, entries[key := ReadAny(m[key]).value])
  {
  }

  lemma AllEntriesRead(m: map<string, Json>, entries: map<string, Any>)
    requires EntriesRead(m, m.Keys, entries)
    ensures ReadEntries(m) == Some(entries)
  {
    assert ReadEntries(m).value == entries;
  }

  /** A deserializer of one JSON value; with no value, the one for missing fields. */
  class NlohmannDeserializer {
    const json: Option<Json>

    constructor (json: Option<Json>)
      ensures this.json == json
    {
      this.json := json;
    }

    method DeserializeAny() returns (r: Option<Any>)
      ensures r == if json.Some? then ReadAny(json.value) else None
    {
      if json == None {
        return None;
      }
      var j := json.value;
      if j.Bool? {
        return Some(AnyBool(j.b));
      } else if j.Float? {
        return Some(AnyNumber(j.x));
      } else if j.Int? {
        return Some(AnyInt(ToInt64(j.n)));
      } else if j.Str? {
        return Some(AnyString(j.s));
      } else if j.Null? {
        return Some(AnyNull);
      } else {
        return None;
      }
    }

    method DeserializeObject() returns (r: Option<map<string, Any>>)
      ensures r == if json.Some? then ReadEntries(Items(json.value)) else None
    {
      if json == None {
        return None;
      }
      var items := Items(json.value);
      var entries: map<string, Any> := map[];
      ghost var done: set<string> := {};
      var todo := items.Keys;
      while todo != {}
        invariant EntriesRead(items, done, entries) && SplitInto(items.Keys, done, todo)
        decreases |todo|
      {
        var key :| key in todo by {
          var _ := SomeElement(todo);
        }
        SplitNext(items.Keys, done, todo, key);
        var d := new NlohmannDeserializer(Some(items[key]));
        var entry := d.DeserializeAny();
        if entry == None {
          return None;
        }
        EntryRead(items, done, entries, key);
        entries := entries[key := entry.value];
        todo := todo - {key};
        done := done + {key};
      }
      AllEntriesRead(items, entries);
      return Some(entries);
    }

    method DeserializeArray(e: Schema) returns (r: Option<seq<Value>>)
      ensures r == if json.Some? && json.value.Array? then ReadElements(e, json.value.elements) else None
      decreases e, 1
    {
      if json == None || !json.value.Array? {
        return None;
      }
      var js := json.value.elements;
      var vec: seq<Value> := [];
      for i := 0 to |js|
        invariant ReadElements(e, js[..i]) == Some(vec)
      {
        var d := new NlohmannDeserializer(Some(js[i]));
        var element := d.Deserialize(e);
        OneMoreRead(e, js, i);
        if element == None {
          ReadElementsFails(e, js, i + 1);
          return None;
        }
        vec := vec + [element.value];
      }
      assert js[..|js|] == js;
      return Some(vec);
    }

    /** Calls back with the deserializer of the field, if there can be fields. */
    method DeserializeField(name: string, s: Schema) returns (r: Option<Value>)
      ensures r == if IsStructured(json) then Read(s, FieldCell(json.value, name)) else None
      decreases s, 1
    {
      if json == None || (!json.value.Object? && !json.value.Array?) {
        return None;
      }
      if !json.value.Object? || name !in json.value.fields {
        var missing := new NlohmannDeserializer(None);
        r := missing.Deserialize(s);
      } else {
        var d := new NlohmannDeserializer(Some(json.value.fields[name]));
        r := d.Deserialize(s);
      }
    }

    method DeserializeStruct(fs: seq<Field>) returns (r: Option<seq<Value>>)
      ensures r == ReadMembers(fs, json)
      decreases fs, 1
    {
      var members: seq<Value> := [];
      for i := 0 to |fs|
        invariant ReadMembers(fs[..i], json) == Some(members)
      {
        var member := DeserializeField(fs[i].name, fs[i].schema);
        if IsStructured(json) {
          OneMoreMemberRead(fs, json, i);
        }
        if member == None {
          ReadMembersFails(fs, json, i + 1);
          return None;
        }
        members := members + [member.value];
      }
      assert fs[..|fs|] == fs;
      return Some(members);
    }

    method Deserialize(s: Schema) returns (r: Option<Value>)
      ensures r == Read(s, json)
      decreases s, 0
    {
      match s {
        case Boolean => r := if json.Some? && json.value.Bool? then Some(BoolValue(json.value.b)) else None;
        case Integer => r := if json.Some? && json.value.Int? then Some(IntValue(ToInt64(json.value.n))) else None;
        case Number =>
          r := if json == None then None
               else if json.value.Float? then Some(NumberValue(json.value.x))
               else if json.value.Int? then Some(NumberValue(json.value.n as real))
               else None;
        case String => r := if json.Some? && json.value.Str? then Some(StringValue(json.value.s)) else None;
        case Nothing => r := Some(NothingValue);
        case AnyType =>
          var a := DeserializeAny();
          r := if a.Some? then Some(AnyValue(a.value)) else None;
        case Variant(_) =>
          var a := DeserializeAny();
          r := if a.Some? then Some(AnyValue(a.value)) else None;
        case ObjectType =>
          var entries := DeserializeObject();
          r := if entries.Some? then Some(ObjectValue(entries.value)) else None;
        case ArrayOf(e) =>
          var elements := DeserializeArray(e);
          r := if elements.Some? then Some(ArrayValue(elements.value)) else None;
        case OptionalOf(e) =>
          var content := Deserialize(e);
          r := Some(OptionalValue(content));
        case Struct(fs) =>
          var members := DeserializeStruct(fs);
          r := if members.Some? then Some(StructValue(members.value)) else None;
      }
    }
  }

  /** A serializer and a deserializer in a row: the value comes back exactly
      under the condition. */
  method RoundTrip(s: Schema, v: Value) returns (back: Option<Value>)
    requires Typed(s, v) && DistinctNames(s)
    ensures back == Some(v) <==> Keeps(s, v, false)
  {
    RoundTripIff(s, v, false);
    var serializer := new NlohmannSerializer();
    var written := serializer.Serialize(s, v);
    if !written {
      return None;
    }
    var deserializer := new NlohmannDeserializer(Some(serializer.json));
    back := deserializer.Deserialize(s);
  }
}
