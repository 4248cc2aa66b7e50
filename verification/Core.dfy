/** Values, resources and updates: the data that every provider reads and writes. */
module Core {

  datatype Option<+T> = None | Some(value: T)

  /** The variant of lib/inc/libral/value.hpp; `NoValue` is `boost::none`. */
  datatype Value = NoValue | Bool(b: bool) | Str(s: string) | Array(a: seq<string>) {
    predicate IsSet() {
      !NoValue?
    }

    function ToString(): string {
      match this
      case NoValue => "(none)"
      case Bool(b) => if b then "true" else "false"
      case Str(s) => s
      case Array(a) => "[" + QuotedList(a) + "]"
    }
  }

  function QuotedList(a: seq<string>): string {
    if |a| == 0 then ""
    else if |a| == 1 then "'" + a[0] + "'"
    else QuotedList(a[..|a| - 1]) + ", '" + a[|a| - 1] + "'"
  }

  /** The array printer, with the `first` flag that suppresses the leading separator. */
  method PrintArray(a: seq<string>) returns (text: string)
    ensures text == Array(a).ToString()
  {
    var first := true;
    text := "[";
    for i := 0 to |a|
      invariant first == (i == 0)
      invariant text == "[" + QuotedList(a[..i])
    {
      if !first {
        text := text + ", ";
      }
      first := false;
      text := text + "'" + a[i] + "'";
      assert a[..i + 1][..i] == a[..i];
    }
    assert a[..|a|] == a;
    text := text + "]";
  }

  /** A named set of attributes. Whether it is an actual or a desired state depends on its use. */
  datatype Resource = Resource(name: string, attrs: map<string, Value>) {
    function Get(key: string): Value {
      if key in attrs then attrs[key] else NoValue
    }

    function Set(key: string, v: Value): Resource {
      this.(attrs := attrs[key := v])
    }

    /** The attribute if it is a string, `deflt` otherwise. */
    function Lookup(key: string, deflt: string): string {
      if key in attrs && attrs[key].Str? then attrs[key].s else deflt
    }

    function LookupArray(key: string, deflt: seq<string>): seq<string> {
      if key in attrs && attrs[key].Array? then attrs[key].a else deflt
    }

    function LookupBool(key: string, deflt: bool): bool {
      if key in attrs && attrs[key].Bool? then attrs[key].b else deflt
    }
  }

  /** The state that a resource says it is in, if it says so in a text. */
  function Said(r: Resource, otherwise: string): string {
    match r.Get("ensure")
    case Str(s) => s
    case _ => otherwise
  }

  datatype Update = Update(actual: Resource, should: Resource) {
    function Name(): string {
      actual.name
    }

    predicate Changed(attr: string) {
      should.Get(attr).IsSet() && actual.Get(attr) != should.Get(attr)
    }

    /** The desired value if there is one, the actual value otherwise. */
    function At(attr: string): Value {
      if should.Get(attr).IsSet() then should.Get(attr) else actual.Get(attr)
    }

    predicate Present() {
      actual.Lookup("ensure", "absent") != "absent"
    }
  }

  /** One entry of a change log: `attr` went from `was` to `now`. */
  datatype Change = Change(attr: string, now: Value, was: Value)
}
