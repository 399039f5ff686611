/**
 * Generic record construction (`BaseModel` in py_nightscout/models.py).
 *
 * A model class declares its fields by annotation; some of them also have a
 * class attribute, their default. The constructor copies from its keyword
 * arguments only the declared fields that have no default or whose default
 * is `None`; `new_from_json_dict` then refuses the record when a declared
 * field is neither set on the instance nor present as a class attribute.
 * Python's reflection (`__annotations__`, `dir`, `getattr`, `setattr`) is
 * modelled by explicit sets and maps of field names.
 */
module Records {
  import opened Wrappers

  /** A value as it appears in decoded JSON or after a transform. */
  datatype Value =
    | Null
    | Bool(b: bool)
    | Int(i: int)
    | Real(r: real)
    | Str(s: string)
    | Duration(ms: int)                 // a `timedelta`, in milliseconds
    | List(items: seq<Value>)
    | Dict(fields: map<string, Value>)

  type JsonDict = map<string, Value>

  /** The annotated field names of a model class and its class attributes. */
  datatype ModelClass = ModelClass(annotations: set<string>, classAttributes: map<string, Value>)

  /** The value `json_data.get(key)` yields: `None` when absent. */
  function Get(json: JsonDict, key: string): Value {
    if key in json then json[key] else Null
  }

  /** Python truthiness of a value. */
  predicate Truthy(v: Value) {
    match v
    case Null => false
    case Bool(b) => b
    case Int(i) => i != 0
    case Real(x) => x != 0.0
    case Str(s) => s != []
    case Duration(ms) => ms != 0
    case List(items) => items != []
    case Dict(fields) => fields != map[]
  }

  /**
   * Whether the constructor assigns keyword argument `key`: it is declared,
   * and it has no class attribute or that attribute is `None`.
   */
  predicate Assignable(c: ModelClass, key: string) {
    key in c.annotations && (key !in c.classAttributes || c.classAttributes[key] == Null)
  }

  /** The instance attributes the constructor sets from `kwargs`. */
  function Assigned(c: ModelClass, kwargs: JsonDict): (r: JsonDict)
    ensures forall key :: key in r <==> key in kwargs && Assignable(c, key)
  {
    map key | key in kwargs && Assignable(c, key) :: kwargs[key]
  }

  /** `getattr(instance, key)`: the instance attribute, else the class attribute. */
  function Attribute(c: ModelClass, attributes: JsonDict, key: string): Option<Value> {
    if key in attributes then Some(attributes[key])
    else if key in c.classAttributes then Some(c.classAttributes[key])
    else None
  }

  /** `set(annotations) - set(dir(instance))` for an instance built from `kwargs`. */
  function MissingKeys(c: ModelClass, kwargs: JsonDict): (r: set<string>)
    ensures r <= c.annotations
    ensures r !! c.classAttributes.Keys
  {
    c.annotations - (Assigned(c, kwargs).Keys + c.classAttributes.Keys)
  }

  /** Only declared fields are set, and each to the value it was given. */
  lemma AssignedOnlyDeclared(c: ModelClass, kwargs: JsonDict)
    ensures Assigned(c, kwargs).Keys <= c.annotations
    ensures Assigned(c, kwargs).Keys <= kwargs.Keys
    ensures forall key :: key in Assigned(c, kwargs) ==> Assigned(c, kwargs)[key] == kwargs[key]
  {
  }

  /**
   * After construction a class attribute other than `None` is never
   * overwritten, a declared field without such a default reads as its
   * argument, and a field not among the arguments reads as its class
   * attribute, if any.
   */
  lemma AttributeAfterConstruction(c: ModelClass, kwargs: JsonDict, key: string)
    ensures key in c.classAttributes && c.classAttributes[key] != Null
            ==> Attribute(c, Assigned(c, kwargs), key) == Some(c.classAttributes[key])
    ensures key in c.annotations && key in kwargs && (key in c.classAttributes ==> c.classAttributes[key] == Null)
            ==> Attribute(c, Assigned(c, kwargs), key) == Some(kwargs[key])
    ensures key !in kwargs
            ==> Attribute(c, Assigned(c, kwargs), key)
                == if key in c.classAttributes then Some(c.classAttributes[key]) else None
  {
  }

  /**
   * A field is missing exactly when it is declared, has no class attribute
   * and was not supplied.
   */
  lemma MissingKeysSpec(c: ModelClass, kwargs: JsonDict)
    ensures MissingKeys(c, kwargs) == c.annotations - c.classAttributes.Keys - kwargs.Keys
  {
    forall key | key in c.annotations - c.classAttributes.Keys - kwargs.Keys
      ensures key in MissingKeys(c, kwargs)
    {
      assert key !in Assigned(c, kwargs);
    }
    forall key | key in MissingKeys(c, kwargs)
      ensures key !in kwargs
    {
      assert key !in Assigned(c, kwargs) && Assignable(c, key);
    }
  }

  /** Construction succeeds exactly when every declared field has a default or a value. */
  lemma CompleteIff(c: ModelClass, kwargs: JsonDict)
    ensures MissingKeys(c, kwargs) == {}
            <==> forall key :: key in c.annotations ==> key in c.classAttributes || key in kwargs
  {
    MissingKeysSpec(c, kwargs);
    if MissingKeys(c, kwargs) != {} {
      var key :| key in MissingKeys(c, kwargs);
      assert !(key in c.classAttributes || key in kwargs);
    } else {
      forall key | key in c.annotations
        ensures key in c.classAttributes || key in kwargs
      {
        assert key !in MissingKeys(c, kwargs);
      }
    }
  }

  /** An instance of a model class. */
  class Instance {
    const modelClass: ModelClass
    /** The attributes set on the instance itself. */
    var attributes: JsonDict
    /** `_json`: the dictionary the instance was decoded from. */
    var json: Option<JsonDict>

    /** `dir(instance)`, as far as declared fields are concerned. */
    function Dir(): set<string>
      reads this
    {
      attributes.Keys + modelClass.classAttributes.Keys
    }

    function GetAttr(key: string): Option<Value>
      reads this
    {
      Attribute(modelClass, attributes, key)
    }

    /** `BaseModel.__init__(**kwargs)`. */
    constructor (modelClass: ModelClass, kwargs: JsonDict)
      ensures this.modelClass == modelClass
      ensures attributes == Assigned(modelClass, kwargs)
      ensures json == None
    {
      this.modelClass := modelClass;
      attributes := map[];
      json := None;
      new;
      var attrs := Dir();
      var pending := kwargs.Keys;
      while pending != {}
        invariant pending <= kwargs.Keys
        invariant attrs == modelClass.classAttributes.Keys && json == None
        invariant attributes == map key | key in kwargs.Keys - pending && Assignable(modelClass, key) :: kwargs[key]
        decreases pending
      {
        var key :| key in pending;
        if key in modelClass.annotations && (key !in attrs || GetAttr(key) == Some(Null)) {
          attributes := attributes[key := kwargs[key]];
        }
        pending := pending - {key};
      }
    }
  }

  /**
   * `cls.new_from_json_dict(data, **kwargs)`: keyword arguments override the
   * copied data, the class's transform rewrites the copy, the constructor
   * runs on the result, and the record is refused with `KeyError` naming
   * the declared fields left unset. Map union `data + kwargs` keeps the
   * right operand's value for a shared key.
   */
  method NewFromJsonDict(c: ModelClass, data: JsonDict, kwargs: JsonDict,
                         transforms: JsonDict -> Result<JsonDict>)
    returns (r: Result<Instance>)
    ensures transforms(data + kwargs).Err? ==> r == Err(transforms(data + kwargs).error)
    ensures transforms(data + kwargs).Ok? ==>
              var jsonData := transforms(data + kwargs).value;
              (r.Err? <==> MissingKeys(c, jsonData) != {})
              && (r.Err? ==> r.error == KeyError(MissingKeys(c, jsonData)))
              && (r.Ok? ==> fresh(r.value) && r.value.modelClass == c
                            && r.value.attributes == Assigned(c, jsonData)
                            && r.value.json == Some(data))
  {
    var jsonData := data + kwargs;
    match transforms(jsonData)
    case Err(e) =>
      r := Err(e);
    case Ok(transformed) =>
      var i := new Instance(c, transformed);
      i.json := Some(data);
      var missingKeys := c.annotations - i.Dir();
      if missingKeys != {} {
        r := Err(KeyError(missingKeys));
      } else {
        r := Ok(i);
      }
  }
}
