/**
  The `JSON` enum of `_JSON/JSON/JSON.swift`: a JSON value with typed
  accessors, in-place setters (modelled as functions from the old value to
  the new one), subscripts, and the top-level fragment rendering.

  `JSONNumber` is represented by its `description` text and `Date` by the
  `description` of its interval since the reference date; their own
  arithmetic and formatting are not part of this model.
 */
module JsonValue {
  import opened Wrappers

  datatype JsonNumber = JsonNumber(description: string)

  datatype Date = Date(sinceReferenceDescription: string)

  datatype Json =
    | Null
    | Bool(b: bool)
    | DateValue(date: Date)
    | Number(number: JsonNumber)
    | String(text: string)
    | Array(elements: seq<Json>)
    | Dictionary(entries: map<string, Json>)

  /** `isEmpty`. */
  function IsEmpty(j: Json): (b: bool)
    ensures b <==> j == Null || j == String("") || j == Array([]) || j == Dictionary(map[])
  {
    match j
    case Null => true
    case Bool(_) => false
    case DateValue(_) => false
    case Number(_) => false
    case String(s) => |s| == 0
    case Array(a) => |a| == 0
    case Dictionary(m) => |m| == 0
  }

  // ----- equality -----

  /** `==` as written: there is no case for two dates, so they fall to `default` and differ. */
  predicate EqAsWritten(x: Json, y: Json) {
    match (x, y)
    case (Null, Null) => true
    case (Bool(p), Bool(q)) => p == q
    case (Number(p), Number(q)) => p == q
    case (String(p), String(q)) => p == q
    case (Array(p), Array(q)) => |p| == |q| && forall i :: 0 <= i < |p| ==> EqAsWritten(p[i], q[i])
    case (Dictionary(p), Dictionary(q)) => p.Keys == q.Keys && forall k :: k in p ==> EqAsWritten(p[k], q[k])
    case _ => false
  }

  /** `==` with dates compared by value, as `Hashable` requires. */
  predicate Eq(x: Json, y: Json) {
    match (x, y)
    case (Null, Null) => true
    case (Bool(p), Bool(q)) => p == q
    case (DateValue(p), DateValue(q)) => p == q
    case (Number(p), Number(q)) => p == q
    case (String(p), String(q)) => p == q
    case (Array(p), Array(q)) => |p| == |q| && forall i :: 0 <= i < |p| ==> Eq(p[i], q[i])
    case (Dictionary(p), Dictionary(q)) => p.Keys == q.Keys && forall k :: k in p ==> Eq(p[k], q[k])
    case _ => false
  }

  /** Some date occurs in the value, at any depth. */
  predicate HasDate(j: Json) {
    match j
    case DateValue(_) => true
    case Array(a) => exists i :: 0 <= i < |a| && HasDate(a[i])
    case Dictionary(m) => exists k :: k in m && HasDate(m[k])
    case _ => false
  }

  /**
    The written `==` says a date differs from itself, and an array holding a
    date differs from a separately built equal array. Swift's array `==`
    answers true without looking at the elements when both sides share one
    storage buffer; that fast path is not modelled.
   */
  lemma EqAsWrittenDateIrreflexive(d: Date)
    ensures !EqAsWritten(DateValue(d), DateValue(d))
    ensures !EqAsWritten(Array([DateValue(d)]), Array([DateValue(d)]))
  {
    var a := [DateValue(d)];
    assert !EqAsWritten(a[0], a[0]);
  }

  /** The written `==` holds exactly between identical values without dates, when both are built separately. */
  lemma {:induction false} EqAsWrittenIsEqualityWithoutDates(x: Json, y: Json)
    ensures EqAsWritten(x, y) <==> x == y && !HasDate(x)
  {
    match (x, y)
    case (Array(p), Array(q)) =>
      forall i | 0 <= i < |p| && i < |q| ensures EqAsWritten(p[i], q[i]) <==> p[i] == q[i] && !HasDate(p[i]) {
        EqAsWrittenIsEqualityWithoutDates(p[i], q[i]);
      }
      if EqAsWritten(x, y) {
        assert p == q;
      }
    case (Dictionary(p), Dictionary(q)) =>
      forall k | k in p && k in q ensures EqAsWritten(p[k], q[k]) <==> p[k] == q[k] && !HasDate(p[k]) {
        EqAsWrittenIsEqualityWithoutDates(p[k], q[k]);
      }
      if EqAsWritten(x, y) {
        assert p == q;
      }
    case _ =>
  }

  /** The corrected `==` is structural equality, so it is reflexive, symmetric and transitive. */
  lemma {:induction false} EqIsEquality(x: Json, y: Json)
    ensures Eq(x, y) <==> x == y
  {
    match (x, y)
    case (Array(p), Array(q)) =>
      forall i | 0 <= i < |p| && i < |q| ensures Eq(p[i], q[i]) <==> p[i] == q[i] {
        EqIsEquality(p[i], q[i]);
      }
      if Eq(x, y) {
        assert p == q;
      }
    case (Dictionary(p), Dictionary(q)) =>
      forall k | k in p && k in q ensures Eq(p[k], q[k]) <==> p[k] == q[k] {
        EqIsEquality(p[k], q[k]);
      }
      if Eq(x, y) {
        assert p == q;
      }
    case _ =>
  }

  // ----- top-level fragments -----

  /** `isTopLevelFragment`: every value except arrays and dictionaries. */
  function IsTopLevelFragment(j: Json): (b: bool)
    ensures b <==> !j.Array? && !j.Dictionary?
  {
    match j
    case Array(_) => false
    case Dictionary(_) => false
    case _ => true
  }

  /** `topLevelFragmentData`, as the text whose UTF-8 bytes it returns. */
  function TopLevelFragmentText(j: Json): (r: Option<string>)
    ensures r.Some? <==> IsTopLevelFragment(j)
    ensures j.String? ==> r == Some("\"" + j.text + "\"")
  {
    if !IsTopLevelFragment(j) then None
    else
      match j
      case Null => Some("null")
      case Bool(v) => Some(if v then "true" else "false")
      case DateValue(d) => Some(d.sinceReferenceDescription)
      case Number(n) => Some(n.description)
      case String(s) => Some("\"" + s + "\"")
      case _ => None
  }

  /** The fragment texts of the constants tell them apart. */
  lemma FragmentTextOfConstants()
    ensures TopLevelFragmentText(Null) == Some("null")
    ensures TopLevelFragmentText(Bool(true)) == Some("true")
    ensures TopLevelFragmentText(Bool(false)) == Some("false")
    ensures TopLevelFragmentText(Array([])) == None
  {
  }

  // ----- typed accessors -----

  function BoolValue(j: Json): (r: Option<bool>)
    ensures r.Some? <==> j.Bool?
    ensures r.Some? ==> j == Bool(r.value)
  {
    if j.Bool? then Some(j.b) else None
  }

  function NumberValue(j: Json): (r: Option<JsonNumber>)
    ensures r.Some? <==> j.Number?
    ensures r.Some? ==> j == Number(r.value)
  {
    if j.Number? then Some(j.number) else None
  }

  function StringValue(j: Json): (r: Option<string>)
    ensures r.Some? <==> j.String?
    ensures r.Some? ==> j == String(r.value)
  {
    if j.String? then Some(j.text) else None
  }

  function ArrayValue(j: Json): (r: Option<seq<Json>>)
    ensures r.Some? <==> j.Array?
    ensures r.Some? ==> j == Array(r.value)
  {
    if j.Array? then Some(j.elements) else None
  }

  function DictionaryValue(j: Json): (r: Option<map<string, Json>>)
    ensures r.Some? <==> j.Dictionary?
    ensures r.Some? ==> j == Dictionary(r.value)
  {
    if j.Dictionary? then Some(j.entries) else None
  }

  /**
    `integerValue`: the number's integer value (the parameter
    `numberInteger`, from `JSONNumber`), else a boolean as 0 or 1.
   */
  function IntegerValue(j: Json, numberInteger: JsonNumber -> Option<int>): (r: Option<int>)
    ensures j.Number? ==> r == numberInteger(j.number)
    ensures j.Bool? ==> r == Some(if j.b then 1 else 0)
    ensures !j.Number? && !j.Bool? ==> r.None?
  {
    if j.Number? && numberInteger(j.number).Some? then numberInteger(j.number)
    else if j.Bool? then Some(if j.b then 1 else 0)
    else None
  }

  /** `arrayOrDictionaryValue`. */
  function ArrayOrDictionaryValue(j: Json): (r: Option<Either<seq<Json>, map<string, Json>>>)
    ensures r.Some? <==> !IsTopLevelFragment(j)
    ensures r.Some? && r.value.Left? ==> j == Array(r.value.left)
    ensures r.Some? && r.value.Right? ==> j == Dictionary(r.value.right)
  {
    if j.Array? then Some(Left(j.elements))
    else if j.Dictionary? then Some(Right(j.entries))
    else None
  }

  // ----- typed setters: the new value of `self` -----

  /** `boolValue`'s setter: a value replaces `self`; nil turns a boolean into null and leaves anything else. */
  function SetBoolValue(j: Json, v: Option<bool>): (r: Json)
    ensures v.Some? ==> r == Bool(v.value)
    ensures v.None? ==> r == if j.Bool? then Null else j
  {
    if v.Some? then Bool(v.value) else if BoolValue(j).Some? then Null else j
  }

  function SetNumberValue(j: Json, v: Option<JsonNumber>): (r: Json)
    ensures v.Some? ==> r == Number(v.value)
    ensures v.None? ==> r == if j.Number? then Null else j
  {
    if v.Some? then Number(v.value) else if NumberValue(j).Some? then Null else j
  }

  function SetStringValue(j: Json, v: Option<string>): (r: Json)
    ensures v.Some? ==> r == String(v.value)
    ensures v.None? ==> r == if j.String? then Null else j
  {
    if v.Some? then String(v.value) else if StringValue(j).Some? then Null else j
  }

  function SetArrayValue(j: Json, v: Option<seq<Json>>): (r: Json)
    ensures v.Some? ==> r == Array(v.value)
    ensures v.None? ==> r == if j.Array? then Null else j
  {
    if v.Some? then Array(v.value) else if ArrayValue(j).Some? then Null else j
  }

  function SetDictionaryValue(j: Json, v: Option<map<string, Json>>): (r: Json)
    ensures v.Some? ==> r == Dictionary(v.value)
    ensures v.None? ==> r == if j.Dictionary? then Null else j
  {
    if v.Some? then Dictionary(v.value) else if DictionaryValue(j).Some? then Null else j
  }

  /** Each getter reads back what its setter stored, and clearing leaves no value of that kind. */
  lemma SettersRoundTrip(j: Json, b: Option<bool>, n: Option<JsonNumber>, s: Option<string>, a: Option<seq<Json>>, m: Option<map<string, Json>>)
    ensures BoolValue(SetBoolValue(j, b)) == b
    ensures NumberValue(SetNumberValue(j, n)) == n
    ensures StringValue(SetStringValue(j, s)) == s
    ensures ArrayValue(SetArrayValue(j, a)) == a
    ensures DictionaryValue(SetDictionaryValue(j, m)) == m
  {
  }

  /** Clearing one kind never disturbs a value of another kind. */
  lemma ClearingOtherKindIsNoOp(j: Json)
    requires !j.Bool?
    ensures SetBoolValue(j, None) == j
    ensures j.String? ==> SetArrayValue(j, None) == j && SetDictionaryValue(j, None) == j
  {
  }

  // ----- subscripts -----

  /** `subscript(_ index:)`: nil unless an array; an index outside the array traps. */
  function Index(j: Json, index: int): (r: Option<Json>)
    requires j.Array? ==> 0 <= index < |j.elements|
    ensures r.Some? <==> j.Array?
    ensures r.Some? ==> r.value == j.elements[index]
  {
    if j.Array? then Some(j.elements[index]) else None
  }

  /** `subscript(_ key:)` get. */
  function Lookup(j: Json, key: string): (r: Option<Json>)
    ensures r.Some? <==> j.Dictionary? && key in j.entries
    ensures r.Some? ==> r.value == j.entries[key]
  {
    if j.Dictionary? && key in j.entries then Some(j.entries[key]) else None
  }

  /** `subscript(_ key:)` set: through `dictionaryValue?[key]`, so only a dictionary changes; nil removes the key. */
  function Store(j: Json, key: string, v: Option<Json>): (r: Json)
    ensures !j.Dictionary? ==> r == j
    ensures j.Dictionary? ==> r.Dictionary? && r.entries.Keys == if v.Some? then j.entries.Keys + {key} else j.entries.Keys - {key}
  {
    match DictionaryValue(j)
    case None => j
    case Some(m) => SetDictionaryValue(j, Some(if v.Some? then m[key := v.value] else m - {key}))
  }

  /** Reading a stored key gives what was stored; other keys are untouched. */
  lemma StoreThenLookup(j: Json, key: string, other: string, v: Option<Json>)
    requires other != key
    ensures Lookup(Store(j, key, v), key) == if j.Dictionary? then v else None
    ensures Lookup(Store(j, key, v), other) == Lookup(j, other)
  {
  }

  /** `subscript(unsafelyUnwrapped index:)` get: `self` must be an array and the index inside it. */
  function UnsafeIndex(j: Json, index: int): (r: Json)
    requires j.Array? && 0 <= index < |j.elements|
    ensures Index(j, index) == Some(r)
  {
    j.elements[index]
  }

  /** `subscript(unsafelyUnwrapped index:)` set: that element replaced. */
  function UnsafeStoreAt(j: Json, index: int, v: Json): (r: Json)
    requires j.Array? && 0 <= index < |j.elements|
    ensures r.Array? && |r.elements| == |j.elements|
    ensures r.elements[index] == v
    ensures forall i :: 0 <= i < |j.elements| && i != index ==> r.elements[i] == j.elements[i]
  {
    Array(j.elements[index := v])
  }

  /** `subscript(unsafelyUnwrapped key:)` get: `self` must be a dictionary. */
  function UnsafeLookup(j: Json, key: string): (r: Option<Json>)
    requires j.Dictionary?
    ensures r == Lookup(j, key)
  {
    if key in j.entries then Some(j.entries[key]) else None
  }

  /** `subscript(unsafelyUnwrapped key:)` set: the same change as the safe setter on a dictionary. */
  function UnsafeStore(j: Json, key: string, v: Option<Json>): (r: Json)
    requires j.Dictionary?
    ensures r == Store(j, key, v)
  {
    Dictionary(if v.Some? then j.entries[key := v.value] else j.entries - {key})
  }

  /** The subscripts on `Optional<JSON>`: nil stays nil. */
  function OptionalIndex(o: Option<Json>, index: int): (r: Option<Json>)
    requires o.Some? && o.value.Array? ==> 0 <= index < |o.value.elements|
    ensures o.None? ==> r.None?
    ensures o.Some? ==> r == Index(o.value, index)
  {
    if o.None? then None else Index(o.value, index)
  }

  function OptionalLookup(o: Option<Json>, key: string): (r: Option<Json>)
    ensures o.None? ==> r.None?
    ensures o.Some? ==> r == Lookup(o.value, key)
  {
    if o.None? then None else Lookup(o.value, key)
  }

  function OptionalStore(o: Option<Json>, key: string, v: Option<Json>): (r: Option<Json>)
    ensures o.None? ==> r.None?
    ensures o.Some? ==> r == Some(Store(o.value, key, v))
  {
    if o.None? then None else Some(Store(o.value, key, v))
  }

  /** A chain of lookups through nested dictionaries reaches the nested value. */
  lemma NestedLookup(inner: Json, outer: Json, k1: string, k2: string)
    requires outer == Dictionary(map[k1 := Dictionary(map[k2 := inner])])
    ensures OptionalLookup(Lookup(outer, k1), k2) == Some(inner)
  {
  }
}
