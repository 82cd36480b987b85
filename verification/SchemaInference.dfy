/** Inferring a schema from examples, and which families of examples it accepts. */
module SchemaInference {
  import opened Common
  import opened Json
  import opened Schema

  // ---------------------------------------------------------------- the parts of a family of examples

  function NonNull(vs: seq<Json>): (r: seq<Json>)
    ensures |r| <= |vs|
  {
    if vs == [] then []
    else if vs[0].Null? then NonNull(vs[1..])
    else [vs[0]] + NonNull(vs[1..])
  }

  predicate AllNull(vs: seq<Json>) { forall i :: 0 <= i < |vs| ==> vs[i].Null? }
  predicate NoNull(vs: seq<Json>) { forall i :: 0 <= i < |vs| ==> !vs[i].Null? }

  lemma {:induction false} NonNullMembers(vs: seq<Json>)
    ensures forall i :: 0 <= i < |NonNull(vs)| ==> NonNull(vs)[i] in vs
    ensures NoNull(NonNull(vs))
  {
    if vs != [] {
      NonNullMembers(vs[1..]);
    }
  }

  lemma {:induction false} NonNullWhole(vs: seq<Json>)
    ensures NonNull(vs) == [] <==> AllNull(vs)
    ensures NoNull(vs) ==> NonNull(vs) == vs
  {
    if vs != [] {
      NonNullWhole(vs[1..]);
      assert vs == [vs[0]] + vs[1..];
    }
  }

  lemma NonNullParts(vs: seq<Json>)
    ensures forall i :: 0 <= i < |NonNull(vs)| ==> NonNull(vs)[i] in vs
    ensures NoNull(NonNull(vs)) && (NonNull(vs) == [] <==> AllNull(vs)) && (NoNull(vs) ==> NonNull(vs) == vs)
  {
    NonNullMembers(vs);
    NonNullWhole(vs);
    hide NonNull, NoNull, AllNull;
  }

  predicate AllObjects(vs: seq<Json>) { forall i :: 0 <= i < |vs| ==> vs[i].Obj? }
  predicate AllArrays(vs: seq<Json>) { forall i :: 0 <= i < |vs| ==> vs[i].Arr? }
  predicate AllBooleans(vs: seq<Json>) { forall i :: 0 <= i < |vs| ==> vs[i].Bool? }
  predicate AllIntegers(vs: seq<Json>) { forall i :: 0 <= i < |vs| ==> vs[i].Int? }
  predicate AllNumbers(vs: seq<Json>) { forall i :: 0 <= i < |vs| ==> vs[i].Numeric() }
  predicate AllStrings(vs: seq<Json>) { forall i :: 0 <= i < |vs| ==> vs[i].Str? }

  function KeysOf(vs: seq<Json>): set<string>
    requires AllObjects(vs)
  {
    if vs == [] then {} else vs[0].fields.Keys + KeysOf(vs[1..])
  }

  lemma {:induction false} KeysOfParts(vs: seq<Json>)
    requires AllObjects(vs)
    ensures forall i, k :: 0 <= i < |vs| && k in vs[i].fields ==> k in KeysOf(vs)
    ensures forall k :: k in KeysOf(vs) ==> exists i :: 0 <= i < |vs| && k in vs[i].fields
  {
    if vs != [] {
      KeysOfParts(vs[1..]);
    }
  }

  /** The values under one key, in the order of the examples that have it. */
  function ValuesAt(vs: seq<Json>, key: string): seq<Json>
    requires AllObjects(vs)
  {
    if vs == [] then []
    else if key in vs[0].fields then [vs[0].fields[key]] + ValuesAt(vs[1..], key)
    else ValuesAt(vs[1..], key)
  }

  lemma {:induction false} ValuesAtParts(vs: seq<Json>, key: string)
    requires AllObjects(vs)
    ensures forall i :: 0 <= i < |vs| && key in vs[i].fields ==> vs[i].fields[key] in ValuesAt(vs, key)
    ensures forall c :: c in ValuesAt(vs, key) ==> exists i :: 0 <= i < |vs| && key in vs[i].fields && vs[i].fields[key] == c
  {
    if vs != [] {
      ValuesAtParts(vs[1..], key);
    }
  }

  function ItemsOf(vs: seq<Json>): seq<Json>
    requires AllArrays(vs)
  {
    if vs == [] then [] else vs[0].items + ItemsOf(vs[1..])
  }

  lemma {:induction false} ItemsOfParts(vs: seq<Json>)
    requires AllArrays(vs)
    ensures forall i, j :: 0 <= i < |vs| && 0 <= j < |vs[i].items| ==> vs[i].items[j] in ItemsOf(vs)
    ensures forall c :: c in ItemsOf(vs) ==> exists i :: 0 <= i < |vs| && c in vs[i].items
  {
    if vs != [] {
      ItemsOfParts(vs[1..]);
    }
  }

  lemma {:induction false} ValuesAtAreLessDeep(vs: seq<Json>, key: string)
    requires AllObjects(vs) && key in KeysOf(vs)
    ensures ValuesAt(vs, key) != [] && DepthOfAll(ValuesAt(vs, key)) < DepthOfAll(vs)
  {
    KeysOfParts(vs);
    ValuesAtParts(vs, key);
    hide Depth, DepthOfAll, ValuesAt, KeysOf;
    var cs := ValuesAt(vs, key);
    var some :| 0 <= some < |vs| && key in vs[some].fields;
    var j := DeepestMember(cs);
    assert cs[j] in cs;
    var i :| 0 <= i < |vs| && key in vs[i].fields && vs[i].fields[key] == cs[j];
    FieldIsLessDeep(vs[i], key);
    MemberIsNoDeeper(vs, i);
  }

  lemma {:induction false} ItemsAreLessDeep(vs: seq<Json>)
    requires AllArrays(vs) && ItemsOf(vs) != []
    ensures DepthOfAll(ItemsOf(vs)) < DepthOfAll(vs)
  {
    ItemsOfParts(vs);
    hide Depth, DepthOfAll, ItemsOf;
    var cs := ItemsOf(vs);
    var j := DeepestMember(cs);
    assert cs[j] in cs;
    var i :| 0 <= i < |vs| && cs[j] in vs[i].items;
    var n :| 0 <= n < |vs[i].items| && vs[i].items[n] == cs[j];
    ItemIsLessDeep(vs[i], n);
    MemberIsNoDeeper(vs, i);
  }

  lemma {:induction false} PartsAreNoDeeper(vs: seq<Json>, part: seq<Json>)
    requires part != [] && forall i :: 0 <= i < |part| ==> part[i] in vs
    ensures DepthOfAll(part) <= DepthOfAll(vs)
  {
    hide Depth, DepthOfAll;
    var j := DeepestMember(part);
    var i :| 0 <= i < |vs| && vs[i] == part[j];
    MemberIsNoDeeper(vs, i);
  }

  // ---------------------------------------------------------------- inference

  /** Paths whose objects are maps from free keys to strings. */
  const DYNAMIC_MAPS: set<seq<string>> := {
    ["audio-manager", "tts", "voice_map"],
    ["runtime-manager", "services", "item", "environment"]}

  const TEXT := StringSchema(None, None, None, None)

  function Required(vs: seq<Json>): set<string>
    requires AllObjects(vs)
  {
    set k | k in KeysOf(vs) && forall i :: 0 <= i < |vs| ==> k in vs[i].fields
  }

  datatype Kind = Objects | Arrays | Booleans | Integers | Numbers | Strings | Mixed

  /** The kind of a family without nulls, tried in the order of the inference. */
  function KindOf(vs: seq<Json>): Kind {
    if AllObjects(vs) then Objects
    else if AllArrays(vs) then Arrays
    else if AllBooleans(vs) then Booleans
    else if AllIntegers(vs) then Integers
    else if AllNumbers(vs) then Numbers
    else if AllStrings(vs) then Strings
    else Mixed
  }

  lemma SomeAreNoDeeper(vs: seq<Json>)
    requires NonNull(vs) != []
    ensures DepthOfAll(NonNull(vs)) <= DepthOfAll(vs)
  {
    NonNullParts(vs);
    PartsAreNoDeeper(vs, NonNull(vs));
  }

  lemma FirstIsNoDeeper(vs: seq<Json>)
    requires NonNull(vs) != [] && KindOf(NonNull(vs)) == Mixed
    ensures DepthOfAll([NonNull(vs)[0]]) <= DepthOfAll(vs) && |vs| > 1
  {
    NonNullParts(vs);
    PartsAreNoDeeper(vs, [NonNull(vs)[0]]);
    MixedIsPlural(NonNull(vs));
  }

  lemma MixedIsPlural(vs: seq<Json>)
    requires vs != [] && KindOf(vs) == Mixed && NoNull(vs)
    ensures |vs| > 1
  {
    var v := vs[0];
    assert v.Obj? || v.Arr? || v.Bool? || v.Numeric() || v.Str?;
  }

  /** The schema of a family of examples. The first example is the default; a family of mixed kinds is typed by its
      first non-null example. */
  function Infer(vs: seq<Json>, path: seq<string>): Schema
    decreases DepthOfAll(vs), |vs|
  {
    var some := NonNull(vs);
    if vs == [] then AnySchema(None)
    else if some == [] then NullSchema(Some(Null))
    else
      SomeAreNoDeeper(vs);
      hide NonNull, Depth, DepthOfAll, KeysOf, ItemsOf, ValuesAt;
      match KindOf(some)
      case Objects =>
        if path in DYNAMIC_MAPS then ObjectSchema(Some(vs[0]), map[], {}, Typed(TEXT))
        else ObjectSchema(Some(vs[0]), InferProperties(some, path), Required(some), Forbidden)
      case Arrays => ArraySchema(Some(vs[0]), InferItems(some, path))
      case Booleans => BooleanSchema(Some(vs[0]))
      case Integers => IntegerSchema(Some(vs[0]), None, None)
      case Numbers => NumberSchema(Some(vs[0]), None, None)
      case Strings => StringSchema(Some(vs[0]), None, None, None)
      case Mixed => FirstIsNoDeeper(vs); Infer([some[0]], path)
  }

  function InferProperties(vs: seq<Json>, path: seq<string>): map<string, Schema>
    requires AllObjects(vs)
    decreases DepthOfAll(vs), 0
  {
    map k | k in KeysOf(vs) :: ValuesAtAreLessDeep(vs, k); Infer(ValuesAt(vs, k), path + [k])
  }

  function InferItems(vs: seq<Json>, path: seq<string>): Schema
    requires AllArrays(vs)
    decreases DepthOfAll(vs), 0
  {
    if ItemsOf(vs) == [] then AnySchema(None) else ItemsAreLessDeep(vs); Infer(ItemsOf(vs), path + ["item"])
  }

  /** One kind of value at every position of the family, with no null among others; at a dynamic map the values are strings. */
  predicate Homogeneous(vs: seq<Json>, path: seq<string>)
    decreases DepthOfAll(vs)
  {
    || AllNull(vs)
    || (AllObjects(vs) &&
        if path in DYNAMIC_MAPS then forall i, k :: 0 <= i < |vs| && k in vs[i].fields ==> vs[i].fields[k].Str?
        else forall k :: k in KeysOf(vs) ==> (ValuesAtAreLessDeep(vs, k); Homogeneous(ValuesAt(vs, k), path + [k])))
    || (AllArrays(vs) && (ItemsOf(vs) == [] || (ItemsAreLessDeep(vs); Homogeneous(ItemsOf(vs), path + ["item"]))))
    || AllBooleans(vs) || AllIntegers(vs) || AllNumbers(vs) || AllStrings(vs)
  }

  ghost predicate AllConform(s: Schema, vs: seq<Json>) {
    forall i :: 0 <= i < |vs| ==> Conforms(s, vs[i])
  }

  // ---------------------------------------------------------------- the inferred schema, case by case

  lemma {:induction false} InferObjects(vs: seq<Json>, path: seq<string>)
    requires vs != [] && AllObjects(vs)
    ensures var s := Infer(vs, path);
      && s.ObjectSchema? && s.default == Some(vs[0])
      && (path in DYNAMIC_MAPS ==> s.properties == map[] && s.required == {} && s.additional == Typed(TEXT))
      && (path !in DYNAMIC_MAPS ==>
          && s.properties.Keys == KeysOf(vs) && s.required == Required(vs) && s.additional == Forbidden
          && forall k :: k in KeysOf(vs) ==> s.properties[k] == Infer(ValuesAt(vs, k), path + [k]))
  {
    NonNullParts(vs);
    assert KindOf(vs) == Objects;
    hide NonNull, KeysOf, ValuesAt, ItemsOf, DepthOfAll, Required, KindOf;
  }

  lemma {:induction false} InferArrays(vs: seq<Json>, path: seq<string>)
    requires vs != [] && AllArrays(vs)
    ensures Infer(vs, path) == ArraySchema(Some(vs[0]), if ItemsOf(vs) == [] then AnySchema(None) else Infer(ItemsOf(vs), path + ["item"]))
  {
    NonNullParts(vs);
    assert KindOf(vs) == Arrays by { assert vs[0].Arr?; }
    hide NonNull, KeysOf, ValuesAt, ItemsOf, DepthOfAll, Required, KindOf;
  }

  predicate AllScalar(vs: seq<Json>) {
    AllBooleans(vs) || AllNumbers(vs) || AllStrings(vs)
  }

  lemma ScalarKind(vs: seq<Json>)
    requires vs != [] && AllScalar(vs)
    ensures KindOf(vs) == if AllBooleans(vs) then Booleans else if AllIntegers(vs) then Integers else if AllNumbers(vs) then Numbers else Strings
  {
    assert !vs[0].Obj? && !vs[0].Arr?;
  }

  lemma {:induction false} InferScalars(vs: seq<Json>, path: seq<string>)
    requires vs != [] && AllScalar(vs)
    ensures Infer(vs, path) ==
      if AllBooleans(vs) then BooleanSchema(Some(vs[0]))
      else if AllIntegers(vs) then IntegerSchema(Some(vs[0]), None, None)
      else if AllNumbers(vs) then NumberSchema(Some(vs[0]), None, None)
      else StringSchema(Some(vs[0]), None, None, None)
  {
    NonNullParts(vs);
    ScalarKind(vs);
    assert NonNull(vs) == vs by { assert AllScalar(vs) && NoNull(vs); }
    hide NonNull, KeysOf, ValuesAt, ItemsOf, DepthOfAll, Required, KindOf, AllBooleans, AllIntegers, AllNumbers, AllStrings, AllScalar;
  }

  lemma {:induction false} InferNulls(vs: seq<Json>, path: seq<string>)
    requires vs != [] && AllNull(vs)
    ensures Infer(vs, path) == NullSchema(Some(Null))
  {
    NonNullParts(vs);
    hide KeysOf, ValuesAt, ItemsOf, DepthOfAll, Required;
  }

  // ---------------------------------------------------------------- soundness

  /** A closed object schema over the keys of a family, such as inference builds. */
  ghost predicate Covers(s: Schema, vs: seq<Json>)
    requires AllObjects(vs)
  {
    s.ObjectSchema? && s.properties.Keys == KeysOf(vs) && s.required == Required(vs) && s.additional == Forbidden
  }

  lemma {:induction false} ObjectConforms(s: Schema, vs: seq<Json>, i: nat)
    requires AllObjects(vs) && Covers(s, vs) && i < |vs|
    ensures forall k :: k in vs[i].fields ==> k in s.properties
    ensures Conforms(s, vs[i]) <==> forall k :: k in vs[i].fields ==> Conforms(s.properties[k], vs[i].fields[k])
  {
    KeysOfParts(vs);
    hide KeysOf, ValuesAt;
    assert forall k :: k in s.required ==> k in vs[i].fields;
    assert forall k :: k in vs[i].fields ==> k in s.properties;
  }

  lemma {:induction false} ValuesConform(s: Schema, vs: seq<Json>, key: string)
    requires AllObjects(vs) && Covers(s, vs) && AllConform(s, vs) && key in KeysOf(vs)
    ensures AllConform(s.properties[key], ValuesAt(vs, key))
  {
    ValuesAtParts(vs, key);
    hide Conforms, KeysOf, ValuesAt, Required;
    var cs := ValuesAt(vs, key);
    forall j | 0 <= j < |cs|
      ensures Conforms(s.properties[key], cs[j])
    {
      assert cs[j] in cs;
      var i :| 0 <= i < |vs| && key in vs[i].fields && vs[i].fields[key] == cs[j];
      ObjectConforms(s, vs, i);
    }
  }

  lemma {:induction false} FamilyConforms(s: Schema, vs: seq<Json>)
    requires AllObjects(vs) && Covers(s, vs)
    requires forall k :: k in KeysOf(vs) ==> AllConform(s.properties[k], ValuesAt(vs, k))
    ensures AllConform(s, vs)
  {
    KeysOfParts(vs);
    hide Conforms, KeysOf, ValuesAt, Required;
    forall i | 0 <= i < |vs|
      ensures Conforms(s, vs[i])
    {
      forall k | k in vs[i].fields
        ensures Conforms(s.properties[k], vs[i].fields[k])
      {
        ValuesAtParts(vs, k);
        assert vs[i].fields[k] in ValuesAt(vs, k);
      }
      ObjectConforms(s, vs, i);
    }
  }

  /** The objects of a family conform exactly when the values under every key do. */
  lemma {:induction false} ObjectsConform(vs: seq<Json>, path: seq<string>)
    requires vs != [] && AllObjects(vs) && path !in DYNAMIC_MAPS
    ensures Covers(Infer(vs, path), vs)
    ensures AllConform(Infer(vs, path), vs) <==>
      forall k :: k in KeysOf(vs) ==> AllConform(Infer(ValuesAt(vs, k), path + [k]), ValuesAt(vs, k))
  {
    InferObjects(vs, path);
    hide Infer, KeysOf, ValuesAt, AllConform, Required;
    var s := Infer(vs, path);
    if AllConform(s, vs) {
      forall k | k in KeysOf(vs)
        ensures AllConform(s.properties[k], ValuesAt(vs, k))
      {
        ValuesConform(s, vs, k);
      }
    } else if forall k :: k in KeysOf(vs) ==> AllConform(s.properties[k], ValuesAt(vs, k)) {
      FamilyConforms(s, vs);
    }
  }

  lemma {:induction false} ArraysConform(vs: seq<Json>, path: seq<string>)
    requires vs != [] && AllArrays(vs) && ItemsOf(vs) != []
    ensures AllConform(Infer(vs, path), vs) <==> AllConform(Infer(ItemsOf(vs), path + ["item"]), ItemsOf(vs))
  {
    ItemsOfParts(vs);
    InferArrays(vs, path);
    hide Infer, ItemsOf, DepthOfAll;
    var s, items := Infer(vs, path), ItemsOf(vs);
    if AllConform(s, vs) {
      forall j | 0 <= j < |items|
        ensures Conforms(s.items, items[j])
      {
        assert items[j] in items;
        var i :| 0 <= i < |vs| && items[j] in vs[i].items;
        assert Conforms(s, vs[i]);
      }
    } else {
      var i :| 0 <= i < |vs| && !Conforms(s, vs[i]);
      var j :| 0 <= j < |vs[i].items| && !Conforms(s.items, vs[i].items[j]);
      assert vs[i].items[j] in items;
    }
  }

  lemma {:induction false} DynamicConform(vs: seq<Json>, path: seq<string>)
    requires vs != [] && AllObjects(vs) && path in DYNAMIC_MAPS
    ensures AllConform(Infer(vs, path), vs) <==> forall i, k :: 0 <= i < |vs| && k in vs[i].fields ==> vs[i].fields[k].Str?
  {
    InferObjects(vs, path);
    hide Infer, KeysOf, ValuesAt, ItemsOf;
    var s := Infer(vs, path);
    forall i | 0 <= i < |vs|
      ensures Conforms(s, vs[i]) <==> forall k :: k in vs[i].fields ==> vs[i].fields[k].Str?
    {
      assert forall v :: Conforms(TEXT, v) <==> v.Str?;
    }
  }

  /** A key is required exactly when every example has it, and known exactly when some example has it. */
  lemma {:induction false} KeysExactly(vs: seq<Json>, path: seq<string>, key: string)
    requires vs != [] && AllObjects(vs) && path !in DYNAMIC_MAPS
    ensures var s := Infer(vs, path);
      && s.ObjectSchema? && s.additional == Forbidden
      && (key in s.required <==> forall i :: 0 <= i < |vs| ==> key in vs[i].fields)
      && (key in s.properties <==> exists i :: 0 <= i < |vs| && key in vs[i].fields)
  {
    InferObjects(vs, path);
    KeysOfParts(vs);
    hide Infer, KeysOf;
    if forall i :: 0 <= i < |vs| ==> key in vs[i].fields {
      assert key in vs[0].fields;
    }
  }

  /** Objects are maps from free keys to texts at exactly two places: the voices of the audio manager and the environment of
      any service of the runtime manager. Everywhere else their keys are fixed. */
  lemma {:induction false} FreeKeysExactly(vs: seq<Json>, path: seq<string>)
    requires vs != [] && AllObjects(vs)
    ensures var free := path == ["audio-manager", "tts", "voice_map"] || path == ["runtime-manager", "services", "item", "environment"];
      var s := Infer(vs, path);
      && s.ObjectSchema?
      && (if free then s.properties == map[] && s.required == {} && s.additional == Typed(StringSchema(None, None, None, None))
          else s.additional == Forbidden)
  {
    InferObjects(vs, path);
    hide Infer, KeysOf;
  }

  lemma {:induction false} NonNullKeepsAll(vs: seq<Json>, v: Json)
    requires v in vs && !v.Null?
    ensures v in NonNull(vs)
  {
    if v != vs[0] {
      NonNullKeepsAll(vs[1..], v);
    }
  }

  /** Nulls among the examples change the schema in its default alone, and in nothing where the kinds are mixed. */
  lemma {:induction false} NullsChangeOnlyTheDefault(vs: seq<Json>, path: seq<string>)
    requires NonNull(vs) != []
    ensures Infer(vs, path) == if KindOf(NonNull(vs)) == Mixed then Infer(NonNull(vs), path) else Infer(NonNull(vs), path).(default := Some(vs[0]))
  {
    NonNullParts(vs);
    NonNullParts(NonNull(vs));
    hide NonNull, KeysOf, ValuesAt, ItemsOf, Depth, DepthOfAll, Required, KindOf;
  }

  /** A mixed family is typed by one example, and some other member is of another kind. */
  lemma {:induction false} MixedDoNotConform(vs: seq<Json>, path: seq<string>)
    requires vs != [] && !AllNull(vs)
    requires !AllObjects(vs) && !AllArrays(vs) && !AllScalar(vs)
    ensures !AllConform(Infer(vs, path), vs)
  {
    NonNullParts(vs);
    if NoNull(vs) {
      MixedInfer(vs, path);
      SingleKind(vs[0], path);
      hide Infer;
    } else {
      var i :| 0 <= i < |vs| && vs[i].Null?;
      NeverNull(vs, path);
      hide Infer;
      assert !Conforms(Infer(vs, path), vs[i]);
    }
  }

  lemma {:induction false} MixedInfer(vs: seq<Json>, path: seq<string>)
    requires vs != [] && NoNull(vs) && KindOf(vs) == Mixed
    ensures Infer(vs, path) == Infer([vs[0]], path)
  {
    NonNullParts(vs);
    hide NonNull, KeysOf, ValuesAt, ItemsOf, DepthOfAll, Required, KindOf;
  }

  /** What the schema of a single non-null example accepts is of that example's kind. */
  lemma {:induction false} SingleKind(x: Json, path: seq<string>)
    requires !x.Null?
    ensures forall v :: Conforms(Infer([x], path), v) ==>
      && (x.Obj? ==> v.Obj?) && (x.Arr? ==> v.Arr?) && (x.Bool? ==> v.Bool?)
      && (x.Numeric() ==> v.Numeric()) && (x.Str? ==> v.Str?)
  {
    if x.Obj? {
      InferObjects([x], path);
    } else if x.Arr? {
      InferArrays([x], path);
    } else {
      InferScalars([x], path);
    }
    hide Infer, KeysOf, ValuesAt, ItemsOf;
  }

  lemma {:induction false} NeverNull(vs: seq<Json>, path: seq<string>)
    requires NonNull(vs) != []
    ensures !Conforms(Infer(vs, path), Null)
  {
    NonNullParts(vs);
    if KindOf(NonNull(vs)) == Mixed {
      SingleKind(NonNull(vs)[0], path);
    }
    hide KeysOf, ValuesAt, ItemsOf, DepthOfAll, Required, NonNull, KindOf;
  }

  lemma {:induction false} EmptyArraysConform(vs: seq<Json>, default: Option<Json>)
    requires AllArrays(vs)
    ensures AllConform(ArraySchema(default, AnySchema(None)), vs)
  {
    assert forall v :: Conforms(AnySchema(None), v);
  }

  /** Every example validates against the inferred schema exactly when the family is homogeneous. */
  lemma {:induction false} InferenceIsExact(vs: seq<Json>, path: seq<string>)
    requires vs != []
    ensures AllConform(Infer(vs, path), vs) <==> Homogeneous(vs, path)
    decreases DepthOfAll(vs)
  {
    hide KeysOf, ValuesAt, ItemsOf, Depth, Required, NonNull, Infer;
    if AllNull(vs) {
      InferNulls(vs, path);
    } else if AllObjects(vs) {
      if path in DYNAMIC_MAPS {
        DynamicConform(vs, path);
      } else {
        ObjectsConform(vs, path);
        forall k | k in KeysOf(vs)
          ensures ValuesAt(vs, k) != []
          ensures AllConform(Infer(ValuesAt(vs, k), path + [k]), ValuesAt(vs, k)) <==> Homogeneous(ValuesAt(vs, k), path + [k])
        {
          ValuesAtAreLessDeep(vs, k);
          InferenceIsExact(ValuesAt(vs, k), path + [k]);
        }
      }
      assert !vs[0].Arr?;
    } else if AllArrays(vs) {
      InferArrays(vs, path);
      if ItemsOf(vs) != [] {
        ArraysConform(vs, path);
        ItemsAreLessDeep(vs);
        InferenceIsExact(ItemsOf(vs), path + ["item"]);
      } else {
        EmptyArraysConform(vs, Some(vs[0]));
      }
      assert !vs[0].Obj?;
    } else if AllScalar(vs) {
      InferScalars(vs, path);
    } else {
      MixedDoNotConform(vs, path);
    }
  }
}
