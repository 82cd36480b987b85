/** Merging a config file over the defaults of its schema. */
module ConfigMerge {
  import opened Common
  import opened Json
  import opened Schema

  function FieldOr(fields: map<string, Json>, key: string): Json {
    if key in fields then fields[key] else Null
  }

  function Merge(defaults: Json, over: Json): Json
    decreases over
  {
    if defaults.Obj? && over.Obj? then
      Obj(map k | k in defaults.fields.Keys + over.fields.Keys ::
        if k in over.fields then Merge(FieldOr(defaults.fields, k), over.fields[k]) else defaults.fields[k])
    else if over.Null? then defaults
    else over
  }

  method MergeSchemaDefaults(defaults: Json, over: Json) returns (merged: Json)
    ensures merged == Merge(defaults, over)
    decreases over
  {
    if defaults.Obj? && over.Obj? {
      var fields := MergeFields(defaults.fields, over);
      return Obj(fields);
    }
    if over.Null? {
      return defaults;
    }
    return over;
  }

  method MergeFields(defaults: map<string, Json>, over: Json) returns (fields: map<string, Json>)
    requires over.Obj?
    ensures Obj(fields) == Merge(Obj(defaults), over)
    decreases over, 0
  {
    hide Merge;
    fields := defaults;
    var todo := over.fields.Keys;
    while todo != {}
      invariant todo <= over.fields.Keys
      invariant forall k :: k in todo ==> Lookup(fields, k) == Lookup(defaults, k)
      invariant forall k :: k !in todo ==> Lookup(fields, k) == MergedField(defaults, over, k)
      decreases |todo|
    {
      var key :| key in todo;
      assert Lookup(fields, key) == Lookup(defaults, key);
      var value := MergeSchemaDefaults(FieldOr(fields, key), over.fields[key]);
      fields := fields[key := value];
      todo := todo - {key};
    }
    MergeByField(defaults, over, fields);
  }

  function MergedField(defaults: map<string, Json>, over: Json, key: string): Option<Json>
    requires over.Obj?
    decreases over, 0
  {
    if key in over.fields then Some(Merge(FieldOr(defaults, key), over.fields[key])) else Lookup(defaults, key)
  }

  lemma {:induction false} MergeByField(defaults: map<string, Json>, over: Json, fields: map<string, Json>)
    requires over.Obj? && forall k :: Lookup(fields, k) == MergedField(defaults, over, k)
    ensures Obj(fields) == Merge(Obj(defaults), over)
  {
    var want := Merge(Obj(defaults), over).fields;
    forall k
      ensures Lookup(fields, k) == Lookup(want, k)
    {
    }
    assert forall k :: k in fields <==> Lookup(fields, k).Some?;
    assert forall k :: k in want <==> Lookup(want, k).Some?;
    assert fields == want;
  }

  // ---------------------------------------------------------------- which overrides give a valid config

  /** What an override may hold, given defaults that the schema accepts: null anywhere the defaults have a value, an
      object with any of the allowed keys where the defaults have an object, and a whole accepted value elsewhere. */
  predicate Acceptable(s: Schema, defaults: Json, over: Json)
    decreases over
  {
    if defaults.Obj? && over.Obj? then
      s.AnySchema? || (s.ObjectSchema? && forall k :: k in over.fields ==> KeyAcceptable(s, defaults, over, k))
    else over.Null? || Conforms(s, over)
  }

  predicate KeyAcceptable(s: Schema, defaults: Json, over: Json, key: string)
    requires s.ObjectSchema? && defaults.Obj? && over.Obj? && key in over.fields
    decreases over, 0
  {
    if key in s.properties then ValueAcceptable(s.properties[key], defaults, over, key)
    else s.additional.Allowed? || (s.additional.Typed? && ValueAcceptable(s.additional.schema, defaults, over, key))
  }

  predicate ValueAcceptable(s: Schema, defaults: Json, over: Json, key: string)
    requires defaults.Obj? && over.Obj? && key in over.fields
    decreases over, 0, 0
  {
    if key in defaults.fields then Acceptable(s, defaults.fields[key], over.fields[key]) else Conforms(s, over.fields[key])
  }

  /** Merging into accepted defaults gives an accepted config exactly for the acceptable overrides. */
  lemma {:induction false} MergeConforms(s: Schema, defaults: Json, over: Json)
    requires Conforms(s, defaults)
    ensures Conforms(s, Merge(defaults, over)) <==> Acceptable(s, defaults, over)
    decreases over
  {
    if defaults.Obj? && over.Obj? && s.ObjectSchema? {
      var m := Merge(defaults, over);
      assert forall k :: k in s.required ==> k in m.fields;
      forall k | k in over.fields
        ensures KeyConforms(s, m, k) <==> KeyAcceptable(s, defaults, over, k)
      {
        if k in s.properties {
          ValueConforms(s.properties[k], defaults, over, k);
        } else if s.additional.Typed? {
          ValueConforms(s.additional.schema, defaults, over, k);
        }
      }
      ObjectKeyByKey(s, m);
      forall k | k in m.fields && k !in over.fields
        ensures KeyConforms(s, m, k)
      {
        ObjectKeyByKey(s, defaults);
        assert KeyConforms(s, defaults, k);
      }
    }
  }

  lemma {:induction false} ValueConforms(s: Schema, defaults: Json, over: Json, key: string)
    requires defaults.Obj? && over.Obj? && key in over.fields
    requires key in defaults.fields ==> Conforms(s, defaults.fields[key])
    ensures Conforms(s, Merge(defaults, over).fields[key]) <==> ValueAcceptable(s, defaults, over, key)
    decreases over, 0
  {
    if key in defaults.fields {
      MergeConforms(s, defaults.fields[key], over.fields[key]);
    }
  }

  /** What an object schema asks of one key of an object. */
  ghost predicate KeyConforms(s: Schema, v: Json, key: string)
    requires s.ObjectSchema? && v.Obj? && key in v.fields
  {
    if key in s.properties then Conforms(s.properties[key], v.fields[key])
    else s.additional.Allowed? || (s.additional.Typed? && Conforms(s.additional.schema, v.fields[key]))
  }

  lemma {:induction false} ObjectKeyByKey(s: Schema, v: Json)
    requires s.ObjectSchema? && v.Obj?
    ensures Conforms(s, v) <==> (forall k :: k in s.required ==> k in v.fields) && forall k :: k in v.fields ==> KeyConforms(s, v, k)
  {
  }

  // ---------------------------------------------------------------- what a merge keeps

  function At(j: Json, path: seq<string>): Option<Json> {
    if path == [] then Some(j)
    else if j.Obj? && path[0] in j.fields then At(j.fields[path[0]], path[1..])
    else None
  }

  predicate Leaf(j: Json) {
    !j.Null? && !j.Obj?
  }

  /** Every non-null leaf of the override survives at its path. */
  lemma {:induction false} LeavesSurvive(defaults: Json, over: Json, path: seq<string>)
    requires At(over, path).Some? && Leaf(At(over, path).value)
    ensures At(Merge(defaults, over), path) == At(over, path)
    decreases over
  {
    if path != [] && defaults.Obj? {
      LeavesSurvive(FieldOr(defaults.fields, path[0]), over.fields[path[0]], path[1..]);
    }
  }

  /** Every leaf of the result comes from the override or, where that is silent, from the defaults. */
  lemma {:induction false} NothingInvented(defaults: Json, over: Json, path: seq<string>)
    requires At(Merge(defaults, over), path).Some? && Leaf(At(Merge(defaults, over), path).value)
    ensures At(Merge(defaults, over), path) == At(over, path) || At(Merge(defaults, over), path) == At(defaults, path)
    decreases over
  {
    if path != [] && defaults.Obj? && over.Obj? && path[0] in over.fields {
      NothingInvented(FieldOr(defaults.fields, path[0]), over.fields[path[0]], path[1..]);
    }
  }

  /** The override says nothing at this place or above it: somewhere on the way it is null or lacks the key. */
  predicate Silent(over: Json, path: seq<string>)
    decreases |path|
  {
    || over == Null
    || (path != [] && over.Obj? && (path[0] !in over.fields || Silent(over.fields[path[0]], path[1..])))
  }

  /** Every value of the defaults survives where the override is silent, at that place and above it. */
  lemma {:induction false} DefaultsSurvive(defaults: Json, over: Json, path: seq<string>)
    requires At(defaults, path).Some? && Silent(over, path)
    ensures At(Merge(defaults, over), path) == At(defaults, path)
    decreases |path|
  {
    if over.Obj? && path[0] in over.fields {
      DefaultsSurvive(defaults.fields[path[0]], over.fields[path[0]], path[1..]);
    }
  }

  lemma {:induction false} MergeWithItself(j: Json)
    ensures Merge(j, j) == j
    decreases j
  {
    if j.Obj? {
      forall k | k in j.fields
        ensures Merge(j.fields[k], j.fields[k]) == j.fields[k]
      {
        MergeWithItself(j.fields[k]);
      }
      assert Merge(j, j).fields == j.fields;
    }
  }

  /** Merging the result once more changes nothing. */
  lemma {:induction false} MergeIsIdempotent(defaults: Json, over: Json)
    ensures Merge(defaults, Merge(defaults, over)) == Merge(defaults, over)
    decreases over
  {
    var m := Merge(defaults, over);
    if defaults.Obj? && over.Obj? {
      forall k | k in m.fields
        ensures Merge(FieldOr(defaults.fields, k), m.fields[k]) == m.fields[k]
      {
        if k in over.fields {
          MergeIsIdempotent(FieldOr(defaults.fields, k), over.fields[k]);
        } else {
          MergeWithItself(defaults.fields[k]);
        }
      }
      assert Merge(defaults, m).fields == m.fields;
    } else if over.Null? {
      MergeWithItself(defaults);
    }
  }
}
