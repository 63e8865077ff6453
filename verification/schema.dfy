/** What a model file declares (`$options`, `$fields`) and the live model
    instance the engine reads and writes. */
module Schema {
  import opened Php
  import opened PhpArray

  /** One validation setting as a model file writes it. */
  datatype Setting = Flag(b: bool) | Num(n: int) | Text(t: string)

  /** A field's validation array, e.g. `array('required' => true, 'minLength' => 2)`. */
  type Rules = Pairs<Setting>

  /** A model's `$options`: the RDN components, the container path under
      the base DN, and the object classes asserted on create. */
  datatype Options = Options(dnPattern: Pairs<Value>, searchPath: Pairs<Value>, objectClass: Value)

  /** A model class: its options and its fields in declaration order. */
  datatype Schema = Schema(options: Options, fields: Pairs<Rules>)

  /** A live model object: its own copies of the options (which a
      `beforeSave` hook may change), its attribute values, and `actualDn`,
      the RDN components under which `populate` found it, if it did. */
  datatype Instance = Instance(
    dnPattern: Pairs<Value>,
    searchPath: Pairs<Value>,
    objectClass: Value,
    values: Pairs<Value>,
    actualDn: Option<Pairs<Value>>)

  /** `$model->$name`; an attribute never assigned reads as `null`. */
  function Attribute(inst: Instance, name: string): Value
  {
    Lookup(inst.values, name)
  }

  /** PHP's loose comparison `$setting == true`. */
  predicate IsTrue(s: Setting)
  {
    match s
    case Flag(b) => b
    case Num(n) => n != 0
    case Text(t) => t != "" && t != "0"
  }

  /** `isset($rules[$key]) && $rules[$key] == true`. */
  predicate Flagged(rules: Rules, key: string)
  {
    match Get(rules, key)
    case None => false
    case Some(s) => IsTrue(s)
  }

  /** An integer bound set under `key`, looked up case-sensitively. */
  function Bound(rules: Rules, key: string): (b: Option<int>)
    ensures b.Some? <==> Get(rules, key).Some? && Get(rules, key).value.Num?
    ensures b.Some? ==> Get(rules, key) == Some(Num(b.value))
  {
    var g := Get(rules, key);
    if g.Some? && g.value.Num? then Some(g.value.n) else None
  }

  /** Every named attribute assigned the empty string, in order. */
  function Blank(values: Pairs<Value>, names: seq<string>): (r: Pairs<Value>)
    ensures forall k :: k in names ==> Get(r, k) == Some(Str(""))
    ensures forall k :: k !in names ==> Get(r, k) == Get(values, k)
  {
    PutEach(values, names, _ => Str(""))
  }

  /** A model as the engine's constructor prepares it (ldapOrm.php:170-179):
      the options copied onto the object, every declared field set to the
      empty string, and no `actualDn`, so its first save creates. */
  function NewInstance(schema: Schema): (inst: Instance)
    ensures forall f :: f in Keys(schema.fields) ==> Attribute(inst, f) == Str("")
    ensures forall f :: f !in Keys(schema.fields) ==> Attribute(inst, f) == Null
    ensures inst.actualDn == None
    ensures inst.dnPattern == schema.options.dnPattern && inst.searchPath == schema.options.searchPath
    ensures inst.objectClass == schema.options.objectClass
  {
    Instance(schema.options.dnPattern, schema.options.searchPath, schema.options.objectClass,
             Blank([], Keys(schema.fields)), None)
  }

  /** The attributes a model's searches fetch: its declared fields, in order
      (ldapOrm.php:178). */
  function AttributesToFetch(schema: Schema): (names: seq<string>)
    ensures forall f :: f in names <==> Get(schema.fields, f).Some?
  {
    Keys(schema.fields)
  }
}
