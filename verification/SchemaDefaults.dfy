/** The defaults that a schema generates. */
module SchemaDefaults {
  import opened Common
  import opened Json
  import opened Schema
  import opened SchemaInference

  // ---------------------------------------------------------------- generated defaults

  /** `a` with the missing keys of `b`. */
  function Fill(a: map<string, Json>, b: map<string, Json>): (r: map<string, Json>)
    ensures r.Keys == a.Keys + b.Keys
    ensures forall k :: k in r ==> r[k] == if k in a then a[k] else b[k]
  {
    b + a
  }

  function Base(default: Option<Json>): map<string, Json> {
    if default.Some? && default.value.Obj? then default.value.fields else map[]
  }

  /** The value of one key of an object's defaults: the object's own default wins, and takes missing keys from the
      child's default where both are objects. */
  function KeyDefault(own: Option<Json>, child: Json): Json {
    if own.None? then child
    else if own.value.Obj? && child.Obj? then Obj(Fill(own.value.fields, child.fields))
    else own.value
  }

  function Defaults(s: Schema): Json {
    match s
    case ObjectSchema(default, properties, _, _) =>
      var base := Base(default);
      Obj(map k | k in base.Keys + properties.Keys && (k in base || Defaults(properties[k]) != Null) ::
        if k in properties && Defaults(properties[k]) != Null then KeyDefault(Lookup(base, k), Defaults(properties[k])) else base[k])
    case ArraySchema(default, _) =>
      if default.Some? && default.value.Arr? then default.value else Arr([])
    case _ =>
      if s.default.Some? then s.default.value else Null
  }

  method GenerateDefaults(s: Schema) returns (r: Json)
    ensures r == Defaults(s)
    decreases s
  {
    match s
    case ObjectSchema(default, properties, _, _) =>
      var fields := DefaultFields(s, default, properties);
      r := Obj(fields);
    case ArraySchema(default, _) =>
      if default.Some? && default.value.Arr? {
        return default.value;
      }
      return Arr([]);
    case _ =>
      return if s.default.Some? then s.default.value else Null;
  }

  /** The default of one key, if it has one. */
  function FieldDefault(base: map<string, Json>, properties: map<string, Schema>, key: string): Option<Json> {
    if key in properties && Defaults(properties[key]) != Null
    then Some(KeyDefault(Lookup(base, key), Defaults(properties[key])))
    else Lookup(base, key)
  }

  lemma {:induction false} FieldByField(whole: Schema, fields: map<string, Json>)
    requires whole.ObjectSchema?
    requires forall k :: Lookup(fields, k) == FieldDefault(Base(whole.default), whole.properties, k)
    ensures Obj(fields) == Defaults(whole)
  {
    var want := Defaults(whole).fields;
    forall k
      ensures Lookup(fields, k) == Lookup(want, k)
    {
    }
    assert forall k :: k in fields <==> Lookup(fields, k).Some?;
    assert forall k :: k in want <==> Lookup(want, k).Some?;
    assert fields == want;
  }

  /** One key of an object's generated defaults. The object's own default keeps every value that it has; where it has an
      object and the key's schema generates one, missing keys are filled in; where it has nothing, the generated value is
      taken unless it is null. */
  lemma DefaultsByKey(s: Schema, key: string)
    requires s.ObjectSchema?
    ensures var own := if s.default.Some? && s.default.value.Obj? then s.default.value.fields else map[];
      && Defaults(s).Obj?
      && var d := Defaults(s).fields;
         && (key in own && (key !in s.properties || !own[key].Obj? || !Defaults(s.properties[key]).Obj?) ==> key in d && d[key] == own[key])
         && (key in own && key in s.properties && own[key].Obj? && Defaults(s.properties[key]).Obj? ==>
               && key in d && d[key].Obj?
               && var made := Defaults(s.properties[key]).fields;
                  && d[key].fields.Keys == own[key].fields.Keys + made.Keys
                  && (forall k :: k in own[key].fields ==> d[key].fields[k] == own[key].fields[k])
                  && (forall k :: k in made && k !in own[key].fields ==> d[key].fields[k] == made[k]))
         && (key !in own ==> (key in d <==> key in s.properties && Defaults(s.properties[key]) != Null))
         && (key !in own && key in d ==> d[key] == Defaults(s.properties[key]))
  {
  }

  /** Schemas of other types generate their own default, an array schema an empty array where it has no array. */
  lemma DefaultsOfOthers(s: Schema)
    requires !s.ObjectSchema?
    ensures s.ArraySchema? ==> Defaults(s) == (if s.default.Some? && s.default.value.Arr? then s.default.value else Arr([]))
    ensures !s.ArraySchema? ==> Defaults(s) == (if s.default == None then Null else s.default.value)
  {
  }

  method AddDefault(result: map<string, Json>, key: string, child: Json) returns (r: map<string, Json>)
    ensures forall k :: Lookup(r, k) == if k == key && child != Null then Some(KeyDefault(Lookup(result, key), child)) else Lookup(result, k)
  {
    if child == Null {
      return result;
    }
    if key !in result {
      return result[key := child];
    }
    if result[key].Obj? && child.Obj? {
      return result[key := Obj(Fill(result[key].fields, child.fields))];
    }
    return result;
  }

  method DefaultFields(ghost whole: Schema, default: Option<Json>, properties: map<string, Schema>) returns (result: map<string, Json>)
    requires whole.ObjectSchema? && whole.default == default && whole.properties == properties
    ensures Obj(result) == Defaults(whole)
    decreases whole, 0
  {
    hide Fill, KeyDefault, Lookup;
    ghost var base := Base(default);
    result := Base(default);
    var todo := properties.Keys;
    while todo != {}
      invariant todo <= properties.Keys
      invariant forall k :: k in todo ==> Lookup(result, k) == Lookup(base, k)
      invariant forall k :: k !in todo ==> Lookup(result, k) == FieldDefault(base, properties, k)
      decreases |todo|
    {
      var key :| key in todo;
      var child := GenerateDefaults(properties[key]);
      result := AddDefault(result, key, child);
      todo := todo - {key};
    }
    FieldByField(whole, result);
  }

  /** The defaults of the schema of a single example are that example, whatever it is. */
  lemma {:induction false} SingleExampleComesBack(v: Json, path: seq<string>)
    ensures Defaults(Infer([v], path)) == v
    decreases v
  {
    if v.Null? {
      InferNulls([v], path);
    } else if v.Obj? {
      InferObjects([v], path);
      SingleKeys(v);
      hide Infer, KeysOf, ValuesAt, Required;
      var s := Infer([v], path);
      if path !in DYNAMIC_MAPS {
        forall k | k in v.fields
          ensures Defaults(s.properties[k]) == v.fields[k]
        {
          assert s.properties[k] == Infer([v.fields[k]], path + [k]);
          SingleExampleComesBack(v.fields[k], path + [k]);
        }
      }
      ObjectDefaultsStay(s, v);
    } else if v.Arr? {
      InferArrays([v], path);
    } else {
      InferScalars([v], path);
    }
  }

  /** The defaults of the schema of one example validate exactly when the example is homogeneous. */
  lemma {:induction false} SingleDefaultsConform(v: Json, path: seq<string>)
    ensures Conforms(Infer([v], path), Defaults(Infer([v], path))) <==> Homogeneous([v], path)
  {
    SingleExampleComesBack(v, path);
    InferenceIsExact([v], path);
    hide Infer, Defaults, Homogeneous, Conforms;
    var s := Infer([v], path);
    assert AllConform(s, [v]) <==> Conforms(s, [v][0]);
  }

  lemma {:induction false} SingleKeys(v: Json)
    requires v.Obj?
    ensures KeysOf([v]) == v.fields.Keys
    ensures forall k :: k in v.fields ==> ValuesAt([v], k) == [v.fields[k]]
  {
    forall k | k in v.fields
      ensures ValuesAt([v], k) == [v.fields[k]]
    {
      assert [v][1..] == [];
      assert ValuesAt([v][1..], k) == [];
    }
  }

  /** Children whose defaults agree with the object's own default add nothing to it. */
  lemma {:induction false} ObjectDefaultsStay(s: Schema, v: Json)
    requires s.ObjectSchema? && v.Obj? && s.default == Some(v) && s.properties.Keys <= v.fields.Keys
    requires forall k :: k in s.properties ==> Defaults(s.properties[k]) == v.fields[k]
    ensures Defaults(s) == v
  {
    var d := Defaults(s);
    forall k | k in v.fields
      ensures k in d.fields && d.fields[k] == v.fields[k]
    {
      if k in s.properties && v.fields[k].Obj? {
        assert Fill(v.fields[k].fields, v.fields[k].fields) == v.fields[k].fields;
      }
    }
    assert d.fields == v.fields;
  }

  /** Filling one accepted object from another accepted one gives an accepted object. */
  lemma {:induction false} FillConforms(s: Schema, a: map<string, Json>, b: map<string, Json>)
    requires Conforms(s, Obj(a)) && Conforms(s, Obj(b))
    ensures Conforms(s, Obj(Fill(a, b)))
  {
  }

  /** The defaults of the schema of a homogeneous family validate against it. */
  lemma {:induction false} DefaultsConform(vs: seq<Json>, path: seq<string>)
    requires vs != [] && Homogeneous(vs, path)
    ensures Conforms(Infer(vs, path), Defaults(Infer(vs, path)))
    decreases DepthOfAll(vs)
  {
    InferenceIsExact(vs, path);
    var s := Infer(vs, path);
    assert Conforms(s, vs[0]);
    if forall i :: 0 <= i < |vs| ==> vs[i].Null? {
      InferNulls(vs, path);
    } else if AllObjects(vs) {
      InferObjects(vs, path);
      if path in DYNAMIC_MAPS {
        ObjectDefaultsStay(s, vs[0]);
      } else {
        ObjectDefaultsConform(vs, path);
      }
    } else if AllArrays(vs) {
      InferArrays(vs, path);
    } else {
      InferScalars(vs, path);
    }
  }

  lemma {:induction false} ObjectDefaultsConform(vs: seq<Json>, path: seq<string>)
    requires vs != [] && AllObjects(vs) && path !in DYNAMIC_MAPS && Homogeneous(vs, path) && Conforms(Infer(vs, path), vs[0])
    ensures Conforms(Infer(vs, path), Defaults(Infer(vs, path)))
    decreases DepthOfAll(vs), 0
  {
    InferObjects(vs, path);
    hide Infer, KeysOf, ValuesAt, DepthOfAll, Required, NonNull;
    var s := Infer(vs, path);
    forall k | k in KeysOf(vs)
      ensures Conforms(s.properties[k], Defaults(s.properties[k]))
    {
      ValuesAtAreLessDeep(vs, k);
      ChildHomogeneous(vs, path, k);
      DefaultsConform(ValuesAt(vs, k), path + [k]);
    }
    KeywiseConform(s, vs[0]);
  }

  lemma {:induction false} ChildHomogeneous(vs: seq<Json>, path: seq<string>, key: string)
    requires vs != [] && AllObjects(vs) && path !in DYNAMIC_MAPS && Homogeneous(vs, path) && key in KeysOf(vs)
    ensures Homogeneous(ValuesAt(vs, key), path + [key])
  {
    hide Homogeneous, Infer, KeysOf, ValuesAt, DepthOfAll, AllConform;
    InferenceIsExact(vs, path);
    ObjectsConform(vs, path);
    ValuesAtAreLessDeep(vs, key);
    InferenceIsExact(ValuesAt(vs, key), path + [key]);
  }

  /** An object schema whose own default and whose children's defaults conform has conforming defaults. */
  lemma {:induction false} KeywiseConform(s: Schema, v: Json)
    requires s.ObjectSchema? && s.default == Some(v) && s.additional == Forbidden && Conforms(s, v)
    requires forall k :: k in s.properties ==> Conforms(s.properties[k], Defaults(s.properties[k]))
    ensures Conforms(s, Defaults(s))
  {
    var d := Defaults(s);
    forall k | k in d.fields
      ensures k in s.properties && Conforms(s.properties[k], d.fields[k])
    {
      var child := Defaults(s.properties[k]);
      if k in v.fields && v.fields[k].Obj? && child.Obj? {
        FillConforms(s.properties[k], v.fields[k].fields, child.fields);
      }
    }
  }
}
