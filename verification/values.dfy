/** The loosely typed values that cross the method channel
    (`flutter::EncodableValue` on Windows, `FlValue` on Linux) and the three
    kinds of reply a handler can send. */
module Values {
  import opened Ints

  /** A channel value. Map keys are modelled as strings only, the only keys
      either plugin looks up. `Other` stands for every kind neither plugin
      reads (doubles, typed arrays, ...). */
  datatype Value =
    | Null
    | Bool(b: bool)
    | Int32(i: Int32)
    | Int64(l: Int64)
    | Str(s: string)
    | List(items: seq<Value>)
    | Map(entries: map<string, Value>)
    | Other

  /** `result->Success(v)`, `result->Error(code, message, details)`
      (`fl_method_error_response_new`) and `NotImplemented()`. */
  datatype Response =
    | Success(value: Value)
    | Error(code: string, message: string, details: Value)
    | NotImplemented

  /** The string entries of a list, in order: every other entry is
      skipped. */
  function StringsOf(items: seq<Value>): (r: seq<string>)
    ensures |r| <= |items|
    ensures forall s :: s in r ==> Str(s) in items
  {
    if |items| == 0 then []
    else if items[0].Str? then [items[0].s] + StringsOf(items[1..])
    else StringsOf(items[1..])
  }

  /** Filtering distributes over concatenation, so the kept strings appear
      in the order of the list. */
  lemma {:induction false} StringsOfAppend(a: seq<Value>, b: seq<Value>)
    ensures StringsOf(a + b) == StringsOf(a) + StringsOf(b)
    decreases |a|
  {
    if |a| == 0 {
      assert a + b == b;
    } else {
      assert (a + b)[0] == a[0];
      assert (a + b)[1..] == a[1..] + b;
      StringsOfAppend(a[1..], b);
    }
  }

  /** Every string entry is kept. */
  lemma {:induction false} StringsOfKeeps(items: seq<Value>, s: string)
    requires Str(s) in items
    ensures s in StringsOf(items)
    decreases |items|
  {
    if items[0] != Str(s) {
      StringsOfKeeps(items[1..], s);
    }
  }

  /** A list of strings only. */
  function Strs(xs: seq<string>): (r: seq<Value>)
    ensures |r| == |xs|
    ensures forall i :: 0 <= i < |xs| ==> r[i] == Str(xs[i])
  {
    if |xs| == 0 then [] else [Str(xs[0])] + Strs(xs[1..])
  }

  /** Filtering a list of strings gives the strings back. */
  lemma {:induction false} StringsOfStrs(xs: seq<string>)
    ensures StringsOf(Strs(xs)) == xs
    decreases |xs|
  {
    if |xs| > 0 {
      assert Strs(xs)[1..] == Strs(xs[1..]);
      StringsOfStrs(xs[1..]);
    }
  }

  /** A list without strings filters to nothing. */
  lemma {:induction false} StringsOfNone(items: seq<Value>)
    requires forall i :: 0 <= i < |items| ==> !items[i].Str?
    ensures StringsOf(items) == []
    decreases |items|
  {
    if |items| > 0 {
      StringsOfNone(items[1..]);
    }
  }

  // ---------------------------------------------------------------------
  // Reading a typed entry of an argument map, with a default

  /** The string under `key`, or `default` when it is absent or not a
      string. */
  function StringField(args: map<string, Value>, key: string, default: string): (r: string)
  {
    if key in args && args[key].Str? then args[key].s else default
  }

  /** The boolean under `key`, or `default`. */
  function BoolField(args: map<string, Value>, key: string, default: bool): (r: bool)
  {
    if key in args && args[key].Bool? then args[key].b else default
  }

  /** The string entries of the list under `key`, or none when it is absent
      or not a list. */
  function StringListField(args: map<string, Value>, key: string): (r: seq<string>)
  {
    if key in args && args[key].List? then StringsOf(args[key].items) else []
  }
}
