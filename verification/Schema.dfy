/** The service-config schemas of the developer tool and what they accept. */
module Schema {
  import opened Common
  import opened Json

  datatype Additional = Allowed | Forbidden | Typed(schema: Schema)

  /** The texts in which a regular expression finds a match. */
  type Pattern = iset<string>

  /** A schema by its `type`; `AnySchema` has none. */
  datatype Schema =
    | AnySchema(default: Option<Json>)
    | NullSchema(default: Option<Json>)
    | BooleanSchema(default: Option<Json>)
    | IntegerSchema(default: Option<Json>, minimum: Option<real>, maximum: Option<real>)
    | NumberSchema(default: Option<Json>, minimum: Option<real>, maximum: Option<real>)
    | StringSchema(default: Option<Json>, minLength: Option<int>, pattern: Option<Pattern>, oneOf: Option<set<string>>)
    | ArraySchema(default: Option<Json>, items: Schema)
    | ObjectSchema(default: Option<Json>, properties: map<string, Schema>, required: set<string>, additional: Additional)

  predicate InBounds(minimum: Option<real>, maximum: Option<real>, x: real) {
    (minimum.Some? ==> minimum.value <= x) && (maximum.Some? ==> x <= maximum.value)
  }

  predicate TextFits(minLength: Option<int>, pattern: Option<Pattern>, oneOf: Option<set<string>>, s: string) {
    (minLength.Some? ==> |s| >= minLength.value) && (pattern.Some? ==> s in pattern.value) && (oneOf.Some? ==> s in oneOf.value)
  }

  /** The values that a schema accepts. */
  predicate Conforms(s: Schema, v: Json) {
    match s
    case AnySchema(_) => true
    case NullSchema(_) => v.Null?
    case BooleanSchema(_) => v.Bool?
    case IntegerSchema(_, lo, hi) => v.Int? && InBounds(lo, hi, v.number as real)
    case NumberSchema(_, lo, hi) => v.Numeric() && InBounds(lo, hi, if v.Int? then v.number as real else v.measure)
    case StringSchema(_, minLength, pattern, oneOf) => v.Str? && TextFits(minLength, pattern, oneOf, v.text)
    case ArraySchema(_, items) => v.Arr? && forall i :: 0 <= i < |v.items| ==> Conforms(items, v.items[i])
    case ObjectSchema(_, properties, required, additional) =>
      && v.Obj?
      && (forall k :: k in required ==> k in v.fields)
      && (forall k :: k in properties && k in v.fields ==> Conforms(properties[k], v.fields[k]))
      && (additional.Forbidden? ==> forall k :: k in v.fields ==> k in properties)
      && (additional.Typed? ==> forall k :: k in v.fields && k !in properties ==> Conforms(additional.schema, v.fields[k]))
  }

  // ---------------------------------------------------------------- validation

  datatype Issue = Issue(path: string, message: string)

  method NumericIssues(minimum: Option<real>, maximum: Option<real>, x: real, path: string) returns (issues: seq<Issue>)
    ensures issues == [] <==> InBounds(minimum, maximum, x)
    ensures issues == [] <==> (minimum == None || minimum.value <= x) && (maximum == None || x <= maximum.value)
    ensures forall i :: i in issues ==> path <= i.path
  {
    issues := [];
    if minimum.Some? && x < minimum.value {
      issues := issues + [Issue(path, "below the minimum")];
    }
    if maximum.Some? && x > maximum.value {
      issues := issues + [Issue(path, "above the maximum")];
    }
  }

  /** The scalar values that a schema of each type accepts. */
  ghost predicate ScalarFits(s: Schema, v: Json)
    requires !s.ArraySchema? && !s.ObjectSchema?
  {
    match s
    case AnySchema(_) => true
    case NullSchema(_) => v == Null
    case BooleanSchema(_) => v.Bool?
    case IntegerSchema(_, lo, hi) => v.Int? && (lo == None || lo.value <= v.number as real) && (hi == None || v.number as real <= hi.value)
    case NumberSchema(_, lo, hi) =>
      exists x: real :: (v == Float(x) || (v.Int? && x == v.number as real)) && (lo == None || lo.value <= x) && (hi == None || x <= hi.value)
    case StringSchema(_, minLength, pattern, oneOf) =>
      && v.Str? && (minLength == None || minLength.value <= |v.text|)
      && (pattern == None || v.text in pattern.value) && (oneOf == None || v.text in oneOf.value)
  }

  lemma ScalarConforms(s: Schema, v: Json)
    requires !s.ArraySchema? && !s.ObjectSchema?
    ensures Conforms(s, v) <==> ScalarFits(s, v)
  {
    if s.NumberSchema? && Conforms(s, v) {
      var x := if v.Int? then v.number as real else v.measure;
      assert v == Float(x) || (v.Int? && x == v.number as real);
    }
  }

  method ScalarIssues(s: Schema, v: Json, path: string) returns (issues: seq<Issue>)
    requires !s.ArraySchema? && !s.ObjectSchema?
    ensures issues == [] <==> Conforms(s, v)
    ensures forall i :: i in issues ==> path <= i.path
  {
    issues := [];
    match s
    case AnySchema(_) =>
    case NullSchema(_) =>
      if !v.Null? { issues := [Issue(path, "expected null")]; }
    case BooleanSchema(_) =>
      if !v.Bool? { issues := [Issue(path, "expected boolean")]; }
    case IntegerSchema(_, lo, hi) =>
      if !v.Int? { return [Issue(path, "expected integer")]; }
      issues := NumericIssues(lo, hi, v.number as real, path);
    case NumberSchema(_, lo, hi) =>
      if !v.Numeric() { return [Issue(path, "expected number")]; }
      issues := NumericIssues(lo, hi, if v.Int? then v.number as real else v.measure, path);
    case StringSchema(_, minLength, pattern, oneOf) =>
      if !v.Str? { return [Issue(path, "expected string")]; }
      if minLength.Some? && |v.text| < minLength.value { issues := issues + [Issue(path, "too short")]; }
      if pattern.Some? && v.text !in pattern.value { issues := issues + [Issue(path, "does not match the pattern")]; }
      if oneOf.Some? && v.text !in oneOf.value { issues := issues + [Issue(path, "not in enum")]; }
  }

  /** What validation finds at the value itself: a value of another type or outside the limits, a required key that is
      missing, or a key that is not allowed. */
  ghost predicate FaultHere(s: Schema, v: Json) {
    match s
    case ArraySchema(_, _) => !v.Arr?
    case ObjectSchema(_, properties, required, additional) =>
      || !v.Obj?
      || (exists k :: k in required && k !in v.fields)
      || (additional == Forbidden && exists k :: k in v.fields && k !in properties)
    case _ => !ScalarFits(s, v)
  }

  /** The parts of a value that validation goes into, each with its schema. */
  ghost predicate Part(s: Schema, v: Json, s': Schema, v': Json) {
    match s
    case ArraySchema(_, items) => v.Arr? && s' == items && v' in v.items
    case ObjectSchema(_, properties, _, additional) =>
      && v.Obj?
      && exists k :: k in v.fields && v' == v.fields[k] && if k in properties then s' == properties[k] else additional == Typed(s')
    case _ => false
  }

  /** A value is accepted exactly when nothing is wrong with it and all its parts are accepted. */
  lemma {:induction false} AcceptedByParts(s: Schema, v: Json)
    ensures Conforms(s, v) <==> !FaultHere(s, v) && forall s', v' :: Part(s, v, s', v') ==> Conforms(s', v')
  {
    match s
    case ArraySchema(_, items) =>
      if v.Arr? && forall s', v' :: Part(s, v, s', v') ==> Conforms(s', v') {
        forall i | 0 <= i < |v.items|
          ensures Conforms(items, v.items[i])
        {
          assert Part(s, v, items, v.items[i]);
        }
      }
    case ObjectSchema(_, properties, _, additional) =>
      if v.Obj? && forall s', v' :: Part(s, v, s', v') ==> Conforms(s', v') {
        forall k | k in v.fields
          ensures k in properties ==> Conforms(properties[k], v.fields[k])
          ensures k !in properties && additional.Typed? ==> Conforms(additional.schema, v.fields[k])
        {
          if k in properties {
            assert Part(s, v, properties[k], v.fields[k]);
          } else if additional.Typed? {
            assert Part(s, v, additional.schema, v.fields[k]);
          }
        }
      }
    case _ => ScalarConforms(s, v);
  }

  /** Lists what is wrong with a value; every issue lies at or below `path`, and there is none exactly for the values
      that the schema accepts. */
  method ValidateInstance(s: Schema, v: Json, path: string) returns (issues: seq<Issue>)
    ensures issues == [] <==> Conforms(s, v)
    ensures forall i :: i in issues ==> path <= i.path
    decreases s
  {
    match s
    case ArraySchema(_, items) =>
      if !v.Arr? { return [Issue(path, "expected array")]; }
      issues := ItemIssues(s, items, v.items, path);
    case ObjectSchema(_, properties, required, additional) =>
      if !v.Obj? { return [Issue(path, "expected object")]; }
      var missing := MissingIssues(required, v.fields, path);
      var wrong := PropertyIssues(s, properties, v.fields, path);
      issues := missing + wrong;
      if additional.Forbidden? {
        var extra := ExtraIssues(properties.Keys, v.fields, path);
        issues := issues + extra;
      } else if additional.Typed? {
        var extra := TypedIssues(s, additional.schema, properties.Keys, v.fields, path);
        issues := issues + extra;
      }
    case _ =>
      issues := ScalarIssues(s, v, path);
  }

  method ItemIssues(ghost whole: Schema, schema: Schema, items: seq<Json>, path: string) returns (issues: seq<Issue>)
    requires whole.ArraySchema? && whole.items == schema
    ensures issues == [] <==> forall i :: 0 <= i < |items| ==> Conforms(schema, items[i])
    ensures forall i :: i in issues ==> path <= i.path
    decreases whole, 0
  {
    issues := [];
    for index := 0 to |items|
      invariant issues == [] <==> forall i :: 0 <= i < index ==> Conforms(schema, items[i])
      invariant forall i :: i in issues ==> path <= i.path
    {
      var found := ValidateInstance(schema, items[index], path + "[" + Decimal(index) + "]");
      issues := issues + found;
    }
  }

  method MissingIssues(required: set<string>, fields: map<string, Json>, path: string) returns (issues: seq<Issue>)
    ensures issues == [] <==> forall k :: k in required ==> k in fields
    ensures forall i :: i in issues ==> path <= i.path
  {
    issues := [];
    var todo := required;
    while todo != {}
      invariant todo <= required
      invariant issues == [] <==> forall k :: k in required - todo ==> k in fields
      invariant forall i :: i in issues ==> path <= i.path
      decreases |todo|
    {
      var key :| key in todo;
      if key !in fields {
        issues := issues + [Issue(path + "." + key, "missing required property")];
      }
      todo := todo - {key};
    }
  }

  method ExtraIssues(known: set<string>, fields: map<string, Json>, path: string) returns (issues: seq<Issue>)
    ensures issues == [] <==> forall k :: k in fields ==> k in known
    ensures forall i :: i in issues ==> path <= i.path
  {
    issues := [];
    var todo := fields.Keys;
    while todo != {}
      invariant todo <= fields.Keys
      invariant issues == [] <==> forall k :: k in fields.Keys - todo ==> k in known
      invariant forall i :: i in issues ==> path <= i.path
      decreases |todo|
    {
      var key :| key in todo;
      if key !in known {
        issues := issues + [Issue(path + "." + key, "additional property is not allowed")];
      }
      todo := todo - {key};
    }
  }

  method PropertyIssues(ghost whole: Schema, properties: map<string, Schema>, fields: map<string, Json>, path: string) returns (issues: seq<Issue>)
    requires whole.ObjectSchema? && whole.properties == properties
    ensures issues == [] <==> forall k :: k in properties && k in fields ==> Conforms(properties[k], fields[k])
    ensures forall i :: i in issues ==> path <= i.path
    decreases whole, 0
  {
    issues := [];
    var todo := properties.Keys;
    while todo != {}
      invariant todo <= properties.Keys
      invariant issues == [] <==> forall k :: k in properties.Keys - todo && k in fields ==> Conforms(properties[k], fields[k])
      invariant forall i :: i in issues ==> path <= i.path
      decreases |todo|
    {
      var key :| key in todo;
      if key in fields {
        var found := ValidateInstance(properties[key], fields[key], path + "." + key);
        issues := issues + found;
      }
      todo := todo - {key};
    }
  }

  method TypedIssues(ghost whole: Schema, schema: Schema, known: set<string>, fields: map<string, Json>, path: string) returns (issues: seq<Issue>)
    requires whole.ObjectSchema? && whole.additional == Typed(schema)
    ensures issues == [] <==> forall k :: k in fields && k !in known ==> Conforms(schema, fields[k])
    ensures forall i :: i in issues ==> path <= i.path
    decreases whole, 0
  {
    issues := [];
    var todo := fields.Keys;
    while todo != {}
      invariant todo <= fields.Keys
      invariant issues == [] <==> forall k :: k in fields.Keys - todo && k !in known ==> Conforms(schema, fields[k])
      invariant forall i :: i in issues ==> path <= i.path
      decreases |todo|
    {
      var key :| key in todo;
      if key !in known {
        var found := ValidateInstance(schema, fields[key], path + "." + key);
        issues := issues + found;
      }
      todo := todo - {key};
    }
  }
}
