/** The broker's JSON Schema to Zod translation, and exactly which schemas it over-approximates. */
module SchemaShape {
  import opened Text
  import opened Json

  // ---- Zod --------------------------------------------------------------------------------------

  datatype Zod =
    | ZAny
    | ZString
    | ZNumber
    | ZBoolean
    | ZArray(element: Zod)
    | ZRecord
    | ZEnum(values: seq<string>)
    | ZNullable(inner: Zod)
    | ZOptional(inner: Zod)

  predicate ZAccepts(z: Zod, v: Json) {
    match z
    case ZAny => true
    case ZString => v.JStr?
    case ZNumber => v.JNum?
    case ZBoolean => v.JBool?
    case ZArray(element) => v.JArr? && forall i :: 0 <= i < |v.items| ==> ZAccepts(element, v.items[i])
    case ZRecord => v.JObj?
    case ZEnum(values) => v.JStr? && v.s in values
    case ZNullable(inner) => v.JNull? || ZAccepts(inner, v)
    case ZOptional(inner) => ZAccepts(inner, v)
  }

  // ---- JSON Schema: sections 6.1.1 and 6.1.2 of the validation vocabulary, draft 2020-12, and `items` ----

  predicate IsType(t: string, v: Json) {
    (t == "null" && v.JNull?) || (t == "boolean" && v.JBool?) || (t == "string" && v.JStr?)
    || (t == "number" && v.JNum?) || (t == "integer" && v.JNum? && v.n.Floor as real == v.n)
    || (t == "array" && v.JArr?) || (t == "object" && v.JObj?)
  }

  predicate TypeAllows(t: Json, v: Json) {
    match t
    case JStr(name) => IsType(name, v)
    case JArr(names) => exists i :: 0 <= i < |names| && names[i].JStr? && IsType(names[i].s, v)
    case _ => true
  }

  /** Whether a schema accepts a value. Keywords other than these only reject more. */
  predicate Accepts(schema: Json, v: Json)
    decreases schema
  {
    if schema.JBool? then schema.b
    else
      && (Get(schema, "type").Some? ==> TypeAllows(Get(schema, "type").value, v))
      && (match Get(schema, "enum")
          case Some(JArr(values)) => v in values
          case _ => true)
      && (match Get(schema, "items")
          case Some(items) =>
            v.JArr? ==> forall i :: PrefixLength(schema) <= i < |v.items| ==> Accepts(items, v.items[i])
          case None => true)
  }

  /** Elements covered by `prefixItems` are exempt from `items`. */
  function PrefixLength(schema: Json): nat {
    match Get(schema, "prefixItems")
    case Some(JArr(schemas)) => |schemas|
    case _ => 0
  }

  // ---- The translation --------------------------------------------------------------------------

  function FirstNonNull(names: seq<Json>): (r: Option<Json>)
    ensures r.Some? ==> r.value in names && r.value != JStr("null")
    ensures r.None? ==> forall i :: 0 <= i < |names| ==> names[i] == JStr("null")
  {
    if names == [] then None
    else if names[0] != JStr("null") then Some(names[0])
    else FirstNonNull(names[1..])
  }

  /** The type the translation goes by, and whether null joins it. */
  function MainType(node: Json): Option<Json> {
    match Get(node, "type")
    case Some(JArr(names)) => FirstNonNull(names)
    case t => t
  }

  predicate Nullable(node: Json) {
    match Get(node, "type")
    case Some(JArr(names)) => JStr("null") in names
    case _ => false
  }

  predicate StringEnum(node: Json) {
    match Get(node, "enum")
    case Some(JArr(values)) => values != [] && forall i :: 0 <= i < |values| ==> values[i].JStr?
    case _ => false
  }

  function Strings(values: seq<Json>): (r: seq<string>)
    requires forall i :: 0 <= i < |values| ==> values[i].JStr?
    ensures |r| == |values| && forall i :: 0 <= i < |values| ==> r[i] == values[i].s
  {
    if values == [] then [] else [values[0].s] + Strings(values[1..])
  }

  /** `nodeToZod`, on any JSON value. */
  function NodeToZod(node: Json): (z: Zod)
    ensures !z.ZOptional?
    decreases node
  {
    if !node.JObj? then ZAny
    else
      var base :=
        if StringEnum(node) then ZEnum(Strings(Get(node, "enum").value.items))
        else
          match MainType(node)
          case Some(JStr(t)) =>
            if t == "string" then ZString
            else if t == "integer" || t == "number" then ZNumber
            else if t == "boolean" then ZBoolean
            else if t == "array" then
              match Get(node, "items")
              case Some(items) => ZArray(if Truthy(items) then NodeToZod(items) else ZAny)
              case None => ZArray(ZAny)
            else if t == "object" then ZRecord
            else ZAny
          case _ => ZAny;
      if Nullable(node) then ZNullable(base) else base
  }

  // ---- Which nodes are over-approximated --------------------------------------------------------

  const KNOWN: seq<string> := ["boolean", "string", "number", "integer", "array", "object"]

  predicate Numeric(t: string) { t == "number" || t == "integer" }

  /** What the translation checks for a main type covers another type name of the list. */
  predicate Covers(main: string, other: string) {
    main !in KNOWN || other !in KNOWN || main == other || (Numeric(main) && Numeric(other))
  }

  /** Every other type name the schema lists is covered by its main one. */
  predicate TypesCovered(node: Json, main: string) {
    match Get(node, "type")
    case Some(JArr(names)) => forall i :: 0 <= i < |names| && names[i].JStr? ==> Covers(main, names[i].s)
    case _ => true
  }

  predicate HasEnum(node: Json) {
    Get(node, "enum").Some? && Get(node, "enum").value.JArr?
  }

  /** The item schema that reaches the translated array, if any does. */
  function CheckedItems(node: Json): (r: Option<Json>)
    ensures r.Some? ==> Get(node, "items") == r
  {
    match Get(node, "items")
    case Some(items) => if Truthy(items) then Some(items) else None
    case None => None
  }

  /** The schema says nothing its translation would check: no enum of strings and no type it knows. */
  predicate Unconstrained(node: Json) {
    !node.JObj? || (!StringEnum(node) && match MainType(node) case Some(JStr(t)) => t !in KNOWN case _ => true)
  }

  /** The value is null where null is listed, a member of an enum of strings, or else of the main type, up
      to the two numeric names, with elements that fit the checked items. */
  predicate Fits(node: Json, v: Json)
    decreases node
  {
    if Unconstrained(node) || (Nullable(node) && v.JNull?) then true
    else if StringEnum(node) then v in Get(node, "enum").value.items
    else
      var t := MainType(node).value.s;
      && (IsType(t, v) || (Numeric(t) && v.JNum?))
      && (t == "array" ==>
            match CheckedItems(node)
            case Some(items) => forall i :: 0 <= i < |v.items| ==> Fits(items, v.items[i])
            case None => true)
  }

  /** The condition under which a node's translation accepts whatever the node accepts: an enum of
      strings; or an enum whose few accepted values fit; or one main type that covers the others, and for
      an array items that say nothing, or sound items that govern all elements. */
  predicate Sound(node: Json)
    decreases node
  {
    if !node.JObj? || StringEnum(node) then true
    else if HasEnum(node) then
      forall v :: v in Get(node, "enum").value.items && Accepts(node, v) ==> Fits(node, v)
    else
      match MainType(node)
      case Some(JStr(t)) =>
        TypesCovered(node, t)
        && (t == "array" ==>
              match CheckedItems(node)
              case Some(items) => Unconstrained(items) || (PrefixLength(node) == 0 && Sound(items))
              case None => true)
      case _ => true
  }

  lemma InStringEnum(node: Json, v: Json)
    requires node.JObj? && StringEnum(node)
    ensures v in Get(node, "enum").value.items <==> v.JStr? && v.s in Strings(Get(node, "enum").value.items)
  {
    var values := Get(node, "enum").value.items;
    if v in values {
      var i :| 0 <= i < |values| && values[i] == v;
      assert Strings(values)[i] == v.s;
    }
    if v.JStr? && v.s in Strings(values) {
      var i :| 0 <= i < |values| && Strings(values)[i] == v.s;
      assert values[i] == v;
    }
  }

  lemma AnyArray(v: Json)
    ensures ZAccepts(ZArray(ZAny), v) <==> v.JArr?
  {
    assert forall w :: ZAccepts(ZAny, w);
  }

  /** Fitting a schema is passing its translation. */
  lemma {:induction false} FitsIsAccepted(node: Json, v: Json)
    ensures Fits(node, v) <==> ZAccepts(NodeToZod(node), v)
    decreases node
  {
    AnyArray(v);
    if node.JObj? && StringEnum(node) {
      InStringEnum(node, v);
    } else if !Unconstrained(node) && MainType(node).value.s == "array" && v.JArr? && CheckedItems(node).Some? {
      var items := CheckedItems(node).value;
      forall i | 0 <= i < |v.items|
        ensures Fits(items, v.items[i]) <==> ZAccepts(NodeToZod(items), v.items[i])
      {
        FitsIsAccepted(items, v.items[i]);
      }
    }
  }

  /** The value has the main type, up to the two numeric names, or null where that is allowed. */
  lemma TypedAsMain(node: Json, t: string, v: Json)
    requires MainType(node) == Some(JStr(t)) && t in KNOWN && TypesCovered(node, t) && Accepts(node, v) && node.JObj?
    ensures IsType(t, v) || (Numeric(t) && v.JNum?) || (Nullable(node) && v.JNull?)
  {
    match Get(node, "type")
    case Some(JArr(names)) =>
      var i :| 0 <= i < |names| && names[i].JStr? && IsType(names[i].s, v);
      assert Covers(t, names[i].s);
      if names[i].s == "null" {
        assert names[i] == JStr("null");
      }
    case _ =>
  }

  /** What a sound node accepts fits it. */
  lemma {:induction false} SoundFits(node: Json, v: Json)
    requires Sound(node) && Accepts(node, v)
    ensures Fits(node, v)
    decreases node
  {
    if !Unconstrained(node) && !StringEnum(node) && !HasEnum(node) {
      var t := MainType(node).value.s;
      TypedAsMain(node, t, v);
      if t == "array" && v.JArr? && CheckedItems(node).Some? {
        var items := CheckedItems(node).value;
        forall i | 0 <= i < |v.items|
          ensures Fits(items, v.items[i])
        {
          if !Unconstrained(items) {
            SoundFits(items, v.items[i]);
          }
        }
      }
    }
  }

  /** A value of each type name that no other name's check lets through. */
  function Example(t: string): (v: Json)
    requires t in KNOWN
    ensures IsType(t, v)
  {
    if t == "boolean" then JBool(true)
    else if t == "string" then JStr("")
    else if t == "array" then JArr([])
    else if t == "object" then JObj([])
    else JNum(0.0)
  }

  lemma ListedExampleAccepted(node: Json, t: string)
    requires t in KNOWN && node.JObj? && !HasEnum(node) && TypeAllows(Get(node, "type").GetOr(JNull), Example(t))
    ensures Accepts(node, Example(t))
  {
    assert Example(t).JArr? ==> Example(t).items == [];
  }

  lemma UncoveredExampleRefused(node: Json, main: string, other: string)
    requires node.JObj? && !StringEnum(node) && MainType(node) == Some(JStr(main)) && !Covers(main, other)
    ensures !Fits(node, Example(other))
  {
    assert !Example(other).JNull?;
  }

  lemma UncoveredExample(node: Json, t: string) returns (v: Json)
    requires node.JObj? && !StringEnum(node) && !HasEnum(node)
    requires MainType(node) == Some(JStr(t)) && !TypesCovered(node, t)
    ensures Accepts(node, v) && !Fits(node, v)
  {
    var names := Get(node, "type").value.items;
    var i :| 0 <= i < |names| && names[i].JStr? && !Covers(t, names[i].s);
    v := Example(names[i].s);
    assert IsType(names[i].s, v);
    ListedExampleAccepted(node, names[i].s);
    UncoveredExampleRefused(node, t, names[i].s);
  }

  /** A value that does not fit a node that says anything. */
  function Misfit(node: Json): (v: Json)
    requires !Unconstrained(node)
    ensures !Fits(node, v)
  {
    if !StringEnum(node) && MainType(node).value.s == "boolean" then JStr("") else JBool(true)
  }

  /** An array of one element, exempt from `items` or accepted by them, is accepted. */
  lemma ArrayAccepted(node: Json, w: Json)
    requires node.JObj? && !HasEnum(node) && MainType(node) == Some(JStr("array")) && Get(node, "items").Some?
    requires PrefixLength(node) > 0 || Accepts(Get(node, "items").value, w)
    ensures Accepts(node, JArr([w]))
  {
    var v := JArr([w]);
    assert TypeAllows(Get(node, "type").value, v) by {
      if Get(node, "type").value.JArr? {
        var names := Get(node, "type").value.items;
        assert JStr("array") in names;
        var i :| 0 <= i < |names| && names[i] == JStr("array");
        assert names[i].JStr? && IsType(names[i].s, v);
      }
    }
  }

  lemma {:induction false} Counterexample(node: Json) returns (v: Json)
    requires !Sound(node)
    ensures Accepts(node, v) && !Fits(node, v)
    decreases node
  {
    if HasEnum(node) {
      v :| v in Get(node, "enum").value.items && Accepts(node, v) && !Fits(node, v);
    } else {
      var t := MainType(node).value.s;
      if !TypesCovered(node, t) {
        v := UncoveredExample(node, t);
      } else {
        var items := CheckedItems(node).value;
        var w: Json;
        if PrefixLength(node) > 0 {
          w := Misfit(items);
        } else {
          w := Counterexample(items);
        }
        v := JArr([w]);
        ArrayAccepted(node, w);
        assert v.items[0] == w;
      }
    }
  }

  lemma SoundAccepts(node: Json, v: Json)
    requires Sound(node) && Accepts(node, v)
    ensures ZAccepts(NodeToZod(node), v)
  {
    SoundFits(node, v);
    FitsIsAccepted(node, v);
  }

  /** Exactly the sound nodes are over-approximated: the translation accepts every value the schema
      accepts if and only if the node meets the condition. */
  lemma TranslationIsSoundExactly(node: Json)
    ensures Sound(node) <==> forall v :: Accepts(node, v) ==> ZAccepts(NodeToZod(node), v)
  {
    if Sound(node) {
      forall v | Accepts(node, v)
        ensures ZAccepts(NodeToZod(node), v)
      {
        SoundAccepts(node, v);
      }
    } else {
      var v := Counterexample(node);
      FitsIsAccepted(node, v);
    }
  }

  /** At most one type name besides null, here and in the items of an array, which govern all elements
      unless they say nothing. */
  predicate SingleTyped(node: Json)
    decreases node
  {
    && (match Get(node, "type")
        case Some(JArr(names)) =>
          forall i, j :: 0 <= i < |names| && 0 <= j < |names| && names[i] != JStr("null") && names[j] != JStr("null")
            ==> names[i] == names[j]
        case _ => true)
    && (MainType(node) == Some(JStr("array")) ==>
          match CheckedItems(node)
          case Some(items) => Unconstrained(items) || (PrefixLength(node) == 0 && SingleTyped(items))
          case None => true)
  }

  lemma {:induction false} SingleTypedFits(node: Json, v: Json)
    requires SingleTyped(node) && Accepts(node, v)
    ensures Fits(node, v)
    decreases node
  {
    if !Unconstrained(node) && !StringEnum(node) {
      var t := MainType(node).value.s;
      assert TypesCovered(node, t);
      TypedAsMain(node, t, v);
      if t == "array" && v.JArr? && CheckedItems(node).Some? {
        var items := CheckedItems(node).value;
        forall i | 0 <= i < |v.items|
          ensures Fits(items, v.items[i])
        {
          if !Unconstrained(items) {
            SingleTypedFits(items, v.items[i]);
          }
        }
      }
    }
  }

  /** Nodes with no type, one type, or one type plus null are all sound. */
  lemma SingleTypedIsSound(node: Json)
    requires SingleTyped(node)
    ensures Sound(node)
  {
    if !Sound(node) {
      var v := Counterexample(node);
      SingleTypedFits(node, v);
    }
  }

  // ---- Whole tool schemas -----------------------------------------------------------------------

  /** `Object.entries`, in order. */
  function Entries(v: Json): seq<(string, Json)> {
    match v
    case JObj(fields) => fields
    case JArr(items) => Indexed(items, 0)
    case _ => []
  }

  function Indexed(items: seq<Json>, from: nat): seq<(string, Json)> {
    if items == [] then [] else [(Decimal(from), items[0])] + Indexed(items[1..], from + 1)
  }

  function Properties(schema: Json): seq<(string, Json)> {
    match Get(schema, "properties")
    case Some(properties) => Entries(properties)
    case None => []
  }

  function Required(schema: Json): seq<Json> {
    match Get(schema, "required")
    case Some(JArr(names)) => names
    case _ => []
  }

  function ShapeOf(entries: seq<(string, Json)>, required: seq<Json>): map<string, Zod> {
    if entries == [] then map[]
    else
      var (key, node) := entries[|entries| - 1];
      ShapeOf(entries[..|entries| - 1], required)
        [key := if JStr(key) in required then NodeToZod(node) else ZOptional(NodeToZod(node))]
  }

  /** `jsonSchemaToZodShape`, with its loop over the properties. */
  method JsonSchemaToZodShape(schema: Json) returns (shape: map<string, Zod>)
    ensures shape == ShapeOf(Properties(schema), Required(schema))
  {
    shape := map[];
    var entries, required := Properties(schema), Required(schema);
    for i := 0 to |entries|
      invariant shape == ShapeOf(entries[..i], required)
    {
      var (key, node) := entries[i];
      var z := NodeToZod(node);
      shape := shape[key := if JStr(key) in required then z else ZOptional(z)];
      assert entries[..i + 1][..i] == entries[..i];
    }
    assert entries[..|entries|] == entries;
  }

  /** An object passes a shape when each present field passes and each absent one is optional. */
  predicate ShapeAccepts(shape: map<string, Zod>, v: Json) {
    v.JObj? && forall key :: key in shape ==>
      match Get(v, key)
      case Some(field) => ZAccepts(shape[key], field)
      case None => shape[key].ZOptional?
  }

  /** Whether a tool schema accepts an object: `properties` and `required` (section 6.5.3). */
  predicate SchemaAccepts(schema: Json, v: Json) {
    && v.JObj?
    && (forall i :: 0 <= i < |Properties(schema)| && Get(v, Properties(schema)[i].0).Some? ==>
          Accepts(Properties(schema)[i].1, Get(v, Properties(schema)[i].0).value))
    && (forall i :: 0 <= i < |Required(schema)| && Required(schema)[i].JStr? ==> Get(v, Required(schema)[i].s).Some?)
  }

  lemma {:induction false} ShapeEntry(entries: seq<(string, Json)>, required: seq<Json>, key: string)
    requires key in ShapeOf(entries, required)
    ensures exists i :: 0 <= i < |entries| && entries[i].0 == key
              && ShapeOf(entries, required)[key]
                 == if JStr(key) in required then NodeToZod(entries[i].1) else ZOptional(NodeToZod(entries[i].1))
  {
    if entries[|entries| - 1].0 != key {
      ShapeEntry(entries[..|entries| - 1], required, key);
      var i :| 0 <= i < |entries| - 1 && entries[i].0 == key
               && ShapeOf(entries, required)[key]
                  == if JStr(key) in required then NodeToZod(entries[i].1) else ZOptional(NodeToZod(entries[i].1));
    }
  }

  /** The entry is the one its key goes by: the last of that key. */
  predicate Counts(entries: seq<(string, Json)>, i: nat)
    requires i < |entries|
  {
    forall j :: i < j < |entries| ==> entries[j].0 != entries[i].0
  }

  /** Every property becomes a key of the shape, optional exactly when it is not required. */
  lemma {:induction false} ShapeOfEach(entries: seq<(string, Json)>, required: seq<Json>, i: nat)
    requires i < |entries| && Counts(entries, i)
    ensures var (key, node) := entries[i];
            && key in ShapeOf(entries, required)
            && ShapeOf(entries, required)[key] == if JStr(key) in required then NodeToZod(node)
               else ZOptional(NodeToZod(node))
    decreases |entries|
  {
    if i < |entries| - 1 {
      ShapeOfEach(entries[..|entries| - 1], required, i);
    }
  }

  lemma {:induction false} KeyCounts(entries: seq<(string, Json)>, required: seq<Json>, key: string) returns (i: nat)
    requires key in ShapeOf(entries, required)
    ensures i < |entries| && entries[i].0 == key && Counts(entries, i)
  {
    if entries[|entries| - 1].0 == key {
      i := |entries| - 1;
    } else {
      i := KeyCounts(entries[..|entries| - 1], required, key);
    }
  }

  /** An object passes the shape exactly when every property it has passes its node's translation and it has
      every required property. */
  lemma ShapeAcceptsExactly(entries: seq<(string, Json)>, required: seq<Json>, v: Json)
    ensures ShapeAccepts(ShapeOf(entries, required), v) <==>
            v.JObj? && forall i :: 0 <= i < |entries| && Counts(entries, i) ==>
              match Get(v, entries[i].0)
              case Some(field) => ZAccepts(NodeToZod(entries[i].1), field)
              case None => JStr(entries[i].0) !in required
  {
    var shape := ShapeOf(entries, required);
    forall i | 0 <= i < |entries| && Counts(entries, i)
      ensures entries[i].0 in shape
      ensures shape[entries[i].0] == if JStr(entries[i].0) in required then NodeToZod(entries[i].1)
                                     else ZOptional(NodeToZod(entries[i].1))
    {
      ShapeOfEach(entries, required, i);
    }
    if v.JObj? && !ShapeAccepts(shape, v) {
      var key :| key in shape && !match Get(v, key)
                                  case Some(field) => ZAccepts(shape[key], field)
                                  case None => shape[key].ZOptional?;
      var i := KeyCounts(entries, required, key);
      assert entries[i].0 == key;
    }
  }

  // ---- What each plain schema becomes -------------------------------------------------------------

  /** A schema of one type name and no enum accepts exactly the values of that type, up to the two numeric
      names; an array checks its elements by the items it has. */
  lemma PlainTypeAccepts(node: Json, name: string, v: Json)
    requires node.JObj? && Get(node, "type") == Some(JStr(name)) && Get(node, "enum") == None
    ensures name == "string" ==> (ZAccepts(NodeToZod(node), v) <==> v.JStr?)
    ensures name == "number" || name == "integer" ==> (ZAccepts(NodeToZod(node), v) <==> v.JNum?)
    ensures name == "boolean" ==> (ZAccepts(NodeToZod(node), v) <==> v.JBool?)
    ensures name == "object" ==> (ZAccepts(NodeToZod(node), v) <==> v.JObj?)
    ensures name == "array" && Get(node, "items") == None ==> (ZAccepts(NodeToZod(node), v) <==> v.JArr?)
    ensures name == "array" && Get(node, "items").Some? && Get(node, "items").value.JObj? ==>
              (ZAccepts(NodeToZod(node), v) <==>
                 v.JArr? && forall i :: 0 <= i < |v.items| ==>
                              ZAccepts(NodeToZod(Get(node, "items").value), v.items[i]))
  {
    AnyArray(v);
  }

  /** Null joins where the type list names it; an enum of strings accepts exactly its members. */
  lemma NullAndEnumAccept(node: Json, name: string, values: seq<Json>, v: Json)
    requires node.JObj?
    ensures Get(node, "type") == Some(JArr([JStr(name), JStr("null")])) && name != "null"
            && Get(node, "enum") == None ==>
              (name == "string" ==> (ZAccepts(NodeToZod(node), v) <==> v.JStr? || v.JNull?))
              && (name == "number" ==> (ZAccepts(NodeToZod(node), v) <==> v.JNum? || v.JNull?))
              && (name == "boolean" ==> (ZAccepts(NodeToZod(node), v) <==> v.JBool? || v.JNull?))
    ensures Get(node, "type") == Some(JStr("string")) && Get(node, "enum") == Some(JArr(values)) && values != []
            && (forall i :: 0 <= i < |values| ==> values[i].JStr?) ==>
              (ZAccepts(NodeToZod(node), v) <==> v in values)
    ensures Get(node, "type") == None && Get(node, "enum") == None ==> ZAccepts(NodeToZod(node), v)
  {
    var names := [JStr(name), JStr("null")];
    assert names[0] == JStr(name) && names[1] == JStr("null");
    if StringEnum(node) {
      InStringEnum(node, v);
    }
  }

  /** Every argument object a tool schema accepts is accepted by its shape, when each property is sound. */
  lemma ShapeIsSound(schema: Json, v: Json)
    requires forall i :: 0 <= i < |Properties(schema)| ==> Sound(Properties(schema)[i].1)
    requires SchemaAccepts(schema, v)
    ensures ShapeAccepts(ShapeOf(Properties(schema), Required(schema)), v)
  {
    var entries, required := Properties(schema), Required(schema);
    var shape := ShapeOf(entries, required);
    forall key | key in shape
      ensures match Get(v, key)
              case Some(field) => ZAccepts(shape[key], field)
              case None => shape[key].ZOptional?
    {
      ShapeEntry(entries, required, key);
      assert JStr(key) in required ==>
               exists j :: 0 <= j < |required| && required[j] == JStr(key) && Get(v, required[j].s).Some?;
      var i :| 0 <= i < |entries| && entries[i].0 == key
               && shape[key] == if JStr(key) in required then NodeToZod(entries[i].1)
                  else ZOptional(NodeToZod(entries[i].1));
      if Get(v, key).Some? {
        SoundAccepts(entries[i].1, Get(v, key).value);
      }
    }
  }

  /** `{"type": ["string", "number"]}` accepts a number its translation refuses. */
  lemma TypeUnionsAreNotSound()
    ensures var node := JObj([("type", JArr([JStr("string"), JStr("number")]))]);
            Accepts(node, JNum(1.0)) && !ZAccepts(NodeToZod(node), JNum(1.0))
  {
    var names := [JStr("string"), JStr("number")];
    var node := JObj([("type", JArr(names))]);
    assert Get(node, "type") == Some(JArr(names));
    assert names[1].JStr? && IsType(names[1].s, JNum(1.0));
    assert [("type", JArr(names))][..0] == [];
  }

  lemma Last(fields: seq<(string, Json)>, key: string, value: Json)
    ensures Lookup(fields + [(key, value)], key) == Some(value)
    ensures forall other :: other != key ==> Lookup(fields + [(key, value)], other) == Lookup(fields, other)
  {
    assert (fields + [(key, value)])[..|fields|] == fields;
  }

  /** An array node whose first element is exempt from its items. */
  function Prefixed(items: Json): Json {
    JObj([] + [("type", JStr("array"))] + [("prefixItems", JArr([JObj([])]))] + [("items", items)])
  }

  lemma PrefixedFields(items: Json)
    ensures Get(Prefixed(items), "type") == Some(JStr("array")) && PrefixLength(Prefixed(items)) == 1
    ensures Get(Prefixed(items), "enum") == None && Get(Prefixed(items), "items") == Some(items)
  {
    var one := [] + [("type", JStr("array"))];
    var two := one + [("prefixItems", JArr([JObj([])]))];
    Last([], "type", JStr("array"));
    Last(one, "prefixItems", JArr([JObj([])]));
    Last(two, "items", items);
    assert "type"[0] != "prefixItems"[0] && "type"[0] != "items"[0] && "prefixItems"[0] != "items"[0];
    assert "enum"[0] != "type"[0] && "enum"[0] != "prefixItems"[0] && "enum"[0] != "items"[0];
  }

  /** `items` governs only the elements after `prefixItems`; the translation applies it to all, so an exempt
      element that does not fit is refused, whatever the items say. */
  lemma PrefixItemsAreNotSound(items: Json)
    requires !Unconstrained(items)
    ensures var node, v := Prefixed(items), JArr([Misfit(items)]);
            !Sound(node) && Accepts(node, v) && !ZAccepts(NodeToZod(node), v)
  {
    var v := JArr([Misfit(items)]);
    PrefixedFields(items);
    ExemptElementRefused(Prefixed(items), items, v);
  }

  lemma ExemptElementRefused(node: Json, items: Json, v: Json)
    requires node.JObj? && Get(node, "type") == Some(JStr("array")) && Get(node, "enum") == None
    requires Get(node, "items") == Some(items) && PrefixLength(node) == 1
    requires !Unconstrained(items) && v == JArr([Misfit(items)])
    ensures !Sound(node) && Accepts(node, v) && !ZAccepts(NodeToZod(node), v)
  {
    ArrayAccepted(node, Misfit(items));
    assert v.items[0] == Misfit(items) && "array" == KNOWN[4];
    FitsIsAccepted(node, v);
  }
}
