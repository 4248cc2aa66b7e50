/** JSON documents, and resources written as such. */
module Json {
  import opened Core
  import opened Text

  datatype Json =
    | JNull
    | JBool(b: bool)
    | JInt(n: int)
    | JDouble
    | JString(s: string)
    | JArray(elems: seq<Json>)
    | JObject(members: Members)

  datatype Member = Member(key: string, value: Json)

  type Members = seq<Member>

  datatype JsonError =
    | DataError
    | CanNotConvert
    | Malformed
    | UndefinedRead
    | UpdateFailed

  datatype Result<+T> = Ok(value: T) | Err(error: JsonError)

  /* ---- objects ---- */

  function Keys(ms: Members): seq<string> {
    seq(|ms|, i requires 0 <= i < |ms| => ms[i].key)
  }

  predicate Includes(ms: Members, key: string) {
    exists m :: m in ms && m.key == key
  }

  function Find(ms: Members, key: string): Option<Json> {
    if ms == [] then None
    else if ms[0].key == key then Some(ms[0].value)
    else Find(ms[1..], key)
  }

  /** Setting a key that is there replaces its value, any other key is added at the end. */
  function Put(ms: Members, key: string, v: Json): Members {
    if ms == [] then [Member(key, v)]
    else if ms[0].key == key then [Member(key, v)] + ms[1..]
    else [ms[0]] + Put(ms[1..], key, v)
  }

  lemma {:induction false} PutFind(ms: Members, key: string, v: Json, k: string)
    ensures Find(Put(ms, key, v), k) == if k == key then Some(v) else Find(ms, k)
  {
    if ms != [] && ms[0].key != key {
      PutFind(ms[1..], key, v, k);
      assert Put(ms, key, v)[1..] == Put(ms[1..], key, v);
    }
  }

  lemma {:induction false} FindIff(ms: Members, key: string)
    ensures Find(ms, key).Some? <==> key in Keys(ms)
    ensures Find(ms, key).Some? <==> Includes(ms, key)
  {
    if ms != [] {
      FindIff(ms[1..], key);
      assert ms == [ms[0]] + ms[1..];
      assert Keys(ms) == [ms[0].key] + Keys(ms[1..]);
    }
  }

  /* ---- values ---- */

  function Strings(a: seq<string>): seq<Json> {
    seq(|a|, i requires 0 <= i < |a| => JString(a[i]))
  }

  predicate AllStrings(elems: seq<Json>) {
    forall i :: 0 <= i < |elems| ==> elems[i].JString?
  }

  function Texts(elems: seq<Json>): seq<string>
    requires AllStrings(elems)
  {
    seq(|elems|, i requires 0 <= i < |elems| => elems[i].s)
  }

  const NONE_TEXT := "__none__"

  function ValueToJson(v: Value): Json {
    match v
    case NoValue => JString(NONE_TEXT)
    case Bool(b) => JBool(b)
    case Str(s) => JString(s)
    case Array(a) => JArray(Strings(a))
  }

  /** Reading does not look at the type of the attribute; a number is read as a boolean. */
  function ReadValue(j: Json): Result<Value> {
    match j
    case JNull => Ok(NoValue)
    case JBool(b) => Ok(Bool(b))
    case JInt(n) => Ok(Bool(n != 0))
    case JString(s) => Ok(Str(s))
    case JArray(elems) => if AllStrings(elems) then Ok(Array(Texts(elems))) else Err(DataError)
    case JDouble => Err(CanNotConvert)
    case JObject(_) => Err(CanNotConvert)
  }

  lemma ValueIsRead(v: Value)
    ensures ReadValue(ValueToJson(v)) == Ok(if v.IsSet() then v else Str(NONE_TEXT))
  {
    if v.Array? {
      assert Texts(Strings(v.a)) == v.a;
    }
  }

  /* ---- resources to JSON ---- */

  function PutAttrs(ms: Members, keys: seq<string>, attrs: map<string, Value>): Members
    requires forall k :: k in keys ==> k in attrs
    decreases |keys|
  {
    if keys == [] then ms
    else PutAttrs(Put(ms, keys[0], ValueToJson(attrs[keys[0]])), keys[1..], attrs)
  }

  ghost function PutKeys(ms: Members, keys: set<string>, attrs: map<string, Value>): Members
    requires keys <= attrs.Keys
  {
    PutAttrs(ms, Sorted(keys), attrs)
  }

  lemma PutKeysStep(ms: Members, keys: set<string>, key: string, attrs: map<string, Value>)
    requires keys <= attrs.Keys && IsLeast(key, keys)
    ensures PutKeys(ms, keys, attrs) == PutKeys(Put(ms, key, ValueToJson(attrs[key])), keys - {key}, attrs)
  {
    SortedStep(key, keys);
    assert Sorted(keys)[1..] == Sorted(keys - {key});
  }

  lemma PutKeysNone(ms: Members, attrs: map<string, Value>)
    ensures PutKeys(ms, {}, attrs) == ms
  {
  }

  function Meta(typeName: string, provider: string): Json {
    JObject([Member("type", JString(typeName)), Member("provider", JString(provider))])
  }

  ghost function ResourceMembers(r: Resource, meta: Json): Members {
    Put(PutKeys([Member("name", JString(r.name))], r.attrs.Keys, r.attrs), "ral", meta)
  }

  method ResourceToJson(r: Resource, typeName: string, provider: string) returns (js: Json)
    ensures js == JObject(ResourceMembers(r, Meta(typeName, provider)))
  {
    hide PutAttrs, Sorted, LexLe, ValueToJson;
    var ms: Members := Put([], "name", JString(r.name));
    var todo := r.attrs.Keys;
    PutKeysNone(ms, r.attrs);
    while todo != {}
      invariant todo <= r.attrs.Keys
      invariant PutKeys(ms, todo, r.attrs) == PutKeys([Member("name", JString(r.name))], r.attrs.Keys, r.attrs)
      decreases |todo|
    {
      LeastExists(todo);
      var key :| IsLeast(key, todo);
      PutKeysStep(ms, todo, key, r.attrs);
      ms := Put(ms, key, ValueToJson(r.attrs[key]));
      todo := todo - {key};
    }
    PutKeysNone(ms, r.attrs);
    ms := Put(ms, "ral", Meta(typeName, provider));
    js := JObject(ms);
  }

  /* ---- resources from JSON ---- */

  /** Attributes that are not declared are skipped, whatever their values are. */
  function ReadKeys(r: Resource, ms: Members, keys: seq<string>, declared: set<string>): Result<Resource>
    requires forall k :: k in keys ==> k in Keys(ms)
    decreases |keys|
  {
    if keys == [] then Ok(r)
    else if keys[0] == "name" || keys[0] !in declared then ReadKeys(r, ms, keys[1..], declared)
    else
      FindIff(ms, keys[0]);
      match ReadValue(Find(ms, keys[0]).value)
      case Err(e) => Err(e)
      case Ok(v) => ReadKeys(r.Set(keys[0], v), ms, keys[1..], declared)
  }

  function NameIn(ms: Members): Result<string> {
    match Find(ms, "name")
    case None => Err(DataError)
    case Some(j) => if j.JString? then Ok(j.s) else Err(DataError)
  }

  function ResourceFrom(ms: Members, declared: set<string>): Result<Resource> {
    match NameIn(ms)
    case Err(e) => Err(e)
    case Ok(name) => ReadKeys(Resource(name, map[]), ms, Keys(ms), declared)
  }

  /** `value_from_json` for one key of an object: nothing for an attribute that is not declared. */
  method ValueFromJson(declared: set<string>, name: string, j: Json) returns (v: Result<Option<Value>>)
    ensures v == if name !in declared then Ok(None)
                 else match ReadValue(j)
                      case Ok(x) => Ok(Some(x))
                      case Err(e) => Err(e)
  {
    if name !in declared {
      return Ok(None);
    }
    match ReadValue(j)
    case Err(e) => v := Err(e);
    case Ok(x) => v := Ok(Some(x));
  }

  method ResourceFromJson(ms: Members, declared: set<string>) returns (r: Result<Resource>)
    ensures r == ResourceFrom(ms, declared)
  {
    hide ReadValue, Find;
    var name := NameIn(ms);
    if name.Err? {
      return Err(name.error);
    }
    var rsrc := Resource(name.value, map[]);
    var keys := Keys(ms);
    for i := 0 to |keys|
      invariant ReadKeys(rsrc, ms, keys[i..], declared) == ResourceFrom(ms, declared)
    {
      assert keys[i..][1..] == keys[i + 1..];
      if keys[i] == "name" {
        continue;
      }
      FindIff(ms, keys[i]);
      var v := ValueFromJson(declared, keys[i], Find(ms, keys[i]).value);
      if v.Err? {
        return Err(v.error);
      }
      if v.value.Some? {
        rsrc := rsrc.Set(keys[i], v.value.value);
      }
    }
    r := Ok(rsrc);
  }

  /* ---- what reading does ---- */

  predicate Relevant(k: string, declared: set<string>) {
    k != "name" && k in declared
  }

  predicate Readable(ms: Members, k: string) {
    Find(ms, k).Some? && ReadValue(Find(ms, k).value).Ok?
  }

  function ValueAt(ms: Members, k: string): Value
    requires Readable(ms, k)
  {
    ReadValue(Find(ms, k).value).value
  }

  lemma {:induction false} ReadKeysExact(r: Resource, ms: Members, keys: seq<string>, declared: set<string>)
    requires forall k :: k in keys ==> k in Keys(ms)
    ensures ReadKeys(r, ms, keys, declared).Ok? <==> forall k :: k in keys && Relevant(k, declared) ==> Readable(ms, k)
    ensures ReadKeys(r, ms, keys, declared).Ok? ==>
              var q := ReadKeys(r, ms, keys, declared).value;
              && q.name == r.name
              && q.attrs.Keys == r.attrs.Keys + (set k | k in keys && Relevant(k, declared))
              && forall k :: k in q.attrs ==>
                   q.attrs[k] == if k in keys && Relevant(k, declared) then ValueAt(ms, k) else r.attrs[k]
    decreases |keys|
  {
    if keys != [] {
      hide ReadValue, Find;
      var k := keys[0];
      assert keys == [k] + keys[1..];
      FindIff(ms, k);
      if !Relevant(k, declared) {
        ReadKeysExact(r, ms, keys[1..], declared);
      } else if Readable(ms, k) {
        ReadKeysExact(r.Set(k, ValueAt(ms, k)), ms, keys[1..], declared);
      }
    }
  }

  /**
   * Reading an object succeeds exactly if it has a name and each of its declared attributes has a
   * readable value; the resource has exactly these attributes with these values.
   */
  lemma ReadIsExact(ms: Members, declared: set<string>)
    ensures ResourceFrom(ms, declared).Ok? <==>
              && NameIn(ms).Ok?
              && forall k :: Includes(ms, k) && Relevant(k, declared) ==> Readable(ms, k)
    ensures ResourceFrom(ms, declared).Ok? ==>
              var r := ResourceFrom(ms, declared).value;
              && Ok(r.name) == NameIn(ms)
              && (forall k :: k in r.attrs <==> Includes(ms, k) && Relevant(k, declared))
              && forall k :: k in r.attrs ==> Readable(ms, k) && r.attrs[k] == ValueAt(ms, k)
  {
    hide ReadValue, Find;
    forall k ensures Includes(ms, k) <==> k in Keys(ms) {
      FindIff(ms, k);
    }
    hide Includes, Keys;
    if NameIn(ms).Ok? {
      ReadKeysExact(Resource(NameIn(ms).value, map[]), ms, Keys(ms), declared);
    }
  }

  /* ---- round trip ---- */

  lemma {:induction false} PutAttrsFind(ms: Members, keys: seq<string>, attrs: map<string, Value>, k: string)
    requires forall x :: x in keys ==> x in attrs
    ensures Find(PutAttrs(ms, keys, attrs), k) == if k in keys then Some(ValueToJson(attrs[k])) else Find(ms, k)
    decreases |keys|
  {
    if keys != [] {
      assert keys == [keys[0]] + keys[1..];
      hide Find, Put, ValueToJson;
      PutFind(ms, keys[0], ValueToJson(attrs[keys[0]]), k);
      PutAttrsFind(Put(ms, keys[0], ValueToJson(attrs[keys[0]])), keys[1..], attrs, k);
    }
  }

  lemma FindInResource(r: Resource, meta: Json, k: string)
    requires "name" !in r.attrs
    ensures Find(ResourceMembers(r, meta), k) ==
              if k == "ral" then Some(meta)
              else if k == "name" then Some(JString(r.name))
              else if k in r.attrs then Some(ValueToJson(r.attrs[k])) else None
  {
    var start := [Member("name", JString(r.name))];
    var keys := Sorted(r.attrs.Keys);
    PutAttrsFind(start, keys, r.attrs, k);
    assert k in keys <==> k in r.attrs;
    assert start[1..] == [];
    assert Find(start, k) == if k == "name" then Some(JString(r.name)) else None;
    hide Find, PutAttrs, Put, Sorted, ValueToJson;
    PutFind(PutAttrs(start, keys, r.attrs), "ral", meta, k);
  }

  /** What a resource becomes on its way: the declared attributes, the unset ones as a marker. */
  function Marked(v: Value): Value {
    if v.IsSet() then v else Str("__none__")
  }

  function Received(r: Resource, declared: set<string>): Resource {
    Resource(r.name, map k | k in r.attrs && k in declared :: Marked(r.attrs[k]))
  }

  /** A resource arrives without its undeclared attributes, or not at all if "ral" is declared. */
  lemma JsonReceived(r: Resource, typeName: string, provider: string, declared: set<string>)
    requires "name" !in r.attrs
    ensures var got := ResourceFrom(ResourceMembers(r, Meta(typeName, provider)), declared);
            if "ral" in declared then got.Err? else got == Ok(Received(r, declared))
  {
    var meta := Meta(typeName, provider);
    var ms := ResourceMembers(r, meta);
    assert ReadValue(meta).Err?;
    hide Find, ResourceMembers, Meta, ReadValue, ValueToJson;
    FindInResource(r, meta, "name");
    FindInResource(r, meta, "ral");
    FindIff(ms, "ral");
    ReadIsExact(ms, declared);
    if "ral" !in declared {
      forall k | Relevant(k, declared)
        ensures Includes(ms, k) <==> k in r.attrs
        ensures k in r.attrs ==> Readable(ms, k) && ValueAt(ms, k) == Marked(r.attrs[k])
      {
        FindInResource(r, meta, k);
        FindIff(ms, k);
        if k in r.attrs {
          ValueIsRead(r.attrs[k]);
        }
      }
      hide Includes, Readable, ResourceFrom, Marked;
      var got := ResourceFrom(ms, declared).value;
      assert got.attrs == Received(r, declared).attrs;
    }
  }

  /**
   * What is written as JSON and read again is the same resource exactly if all its attributes are
   * declared and set, and no attribute has the name of the extra entry.
   */
  lemma JsonRoundTripIff(r: Resource, typeName: string, provider: string, declared: set<string>)
    requires "name" !in r.attrs
    ensures ResourceFrom(ResourceMembers(r, Meta(typeName, provider)), declared) == Ok(r) <==>
              && "ral" !in declared
              && forall k :: k in r.attrs ==> k in declared && r.attrs[k].IsSet()
  {
    JsonReceived(r, typeName, provider, declared);
    hide ResourceFrom, ResourceMembers, Meta;
    if "ral" !in declared {
      var got := Received(r, declared);
      if forall k :: k in r.attrs ==> k in declared && r.attrs[k].IsSet() {
        assert got.attrs == r.attrs;
      } else {
        var k :| k in r.attrs && !(k in declared && r.attrs[k].IsSet());
        assert k !in got.attrs || got.attrs[k] != r.attrs[k];
      }
    }
  }

  /** The extra entry says of which type the resource is, and which provider has it. */
  lemma RalSays(r: Resource, typeName: string, provider: string)
    requires "name" !in r.attrs
    ensures var ral := Find(ResourceMembers(r, Meta(typeName, provider)), "ral");
            && ral.Some? && ral.value.JObject? && |ral.value.members| == 2
            && Find(ral.value.members, "type") == Some(JString(typeName))
            && Find(ral.value.members, "provider") == Some(JString(provider))
  {
    FindInResource(r, Meta(typeName, provider), "ral");
    var ms := Meta(typeName, provider).members;
    hide ResourceMembers;
    assert ms[1..][0] == ms[1];
  }

  /** What each kind of JSON value is read as. */
  lemma ValuesRead(b: bool, n: int, s: string, elems: seq<Json>, ms: Members)
    ensures ReadValue(JNull) == Ok(NoValue) && ReadValue(JBool(b)) == Ok(Bool(b))
    ensures ReadValue(JInt(n)) == Ok(Bool(n < 0 || n > 0)) && ReadValue(JString(s)) == Ok(Str(s))
    ensures ReadValue(JDouble).Err? && ReadValue(JObject(ms)).Err?
    ensures ReadValue(JArray(elems)).Ok? <==> forall e :: e in elems ==> e.JString?
    ensures ReadValue(JArray(elems)).Ok? ==>
              var v := ReadValue(JArray(elems)).value;
              && v.Array? && |v.a| == |elems| && forall i :: 0 <= i < |elems| ==> elems[i] == JString(v.a[i])
  {
    assert forall i :: 0 <= i < |elems| ==> elems[i] in elems;
  }
}
