/** The JavaScript values the webhook code inspects: the result of parsing a
    JSON request body, plus `undefined`. Truthiness, `||`, property reads,
    destructuring defaults, String() and object spread are given the
    meaning JavaScript gives them on these values. */
module JsValues {
  import opened JsStrings

  datatype Option<+T> = None | Some(value: T) {
    function GetOr(default: T): T {
      match this
      case Some(v) => v
      case None => default
    }
  }

  /** A JSON value or `undefined`. Numbers are integers. */
  datatype Value =
    | Undefined
    | Null
    | Bool(b: bool)
    | Num(n: int)
    | Str(s: string)
    | Arr(items: seq<Value>)
    | Obj(fields: map<string, Value>)

  /** JavaScript's ToBoolean: `undefined`, `null`, `false`, `0` and `""`
      are falsy, everything else (every array and object) is truthy. */
  predicate Truthy(v: Value) {
    match v
    case Undefined => false
    case Null => false
    case Bool(b) => b
    case Num(n) => n != 0
    case Str(s) => s != ""
    case Arr(_) => true
    case Obj(_) => true
  }

  /** The falsy values are exactly `undefined`, `null`, `false`, `0` and
      `""`. */
  lemma FalsyValues(v: Value)
    ensures !Truthy(v) <==> v == Undefined || v == Null || v == Bool(false) || v == Num(0) || v == Str("")
  {
  }

  /** `a || b`: the left operand when it is truthy, else the right one. */
  function Or(a: Value, b: Value): (r: Value)
    ensures Truthy(a) ==> r == a
    ensures !Truthy(a) ==> r == b
    ensures Truthy(r) <==> Truthy(a) || Truthy(b)
  {
    if Truthy(a) then a else b
  }

  /** `v?.key` for the property names the modelled code reads (never an
      array index, "length" or a prototype member): an object's own field,
      and `undefined` for every other value. */
  function Get(v: Value, key: string): (r: Value)
    ensures v.Obj? && key in v.fields ==> r == v.fields[key]
    ensures !(v.Obj? && key in v.fields) ==> r == Undefined
  {
    if v.Obj? && key in v.fields then v.fields[key] else Undefined
  }

  /** A destructuring default `{ key = d } = ...`: applies only when the
      property is `undefined`; `null`, `0` and `""` are kept. */
  function Default(v: Value, d: Value): (r: Value)
    ensures v == Undefined ==> r == d
    ensures v != Undefined ==> r == v
  {
    if v.Undefined? then d else v
  }

  /** `undefined` for a missing string, the string otherwise. */
  function OptionalStr(o: Option<string>): Value {
    match o
    case Some(s) => Str(s)
    case None => Undefined
  }

  /** Whether String(v) throws a TypeError. A parsed JSON object whose own
      "toString" property is data, not a function, cannot be converted: the
      conversion skips the non-callable toString, and the inherited valueOf
      returns the object itself, which is not a primitive. An array throws
      when one of the elements its join converts does. */
  predicate StringConversionThrows(v: Value) {
    match v
    case Obj(fields) => "toString" in fields
    case Arr(items) => exists x :: x in items && StringConversionThrows(x)
    case _ => false
  }

  /** String(v), as a template literal converts `v`, or None where it throws.
      An array prints its elements joined by ",", with `null` and
      `undefined` printed as "". */
  function ToJsString(v: Value): (r: Option<string>)
    ensures r.None? <==> StringConversionThrows(v)
    ensures v.Str? ==> r == Some(v.s)
    ensures v.Obj? && r.Some? ==> r.value == "[object Object]"
    decreases v, 1
  {
    match v
    case Undefined => Some("undefined")
    case Null => Some("null")
    case Bool(b) => Some(if b then "true" else "false")
    case Num(n) => Some(IntToString(n))
    case Str(s) => Some(s)
    case Arr(items) => JoinElements(items, v)
    case Obj(fields) => if "toString" in fields then None else Some("[object Object]")
  }

  /** The elements joined by ",", or None when converting one throws. */
  function JoinElements(items: seq<Value>, ghost whole: Value): (r: Option<string>)
    requires forall i :: 0 <= i < |items| ==> items[i] < whole
    ensures r.None? <==> exists x :: x in items && StringConversionThrows(x)
    decreases whole, 0, |items|
  {
    if items == [] then Some("")
    else
      var init := items[..|items| - 1];
      var last := items[|items| - 1];
      var prefix := JoinElements(init, whole);
      var shown := if last.Undefined? || last.Null? then Some("") else ToJsString(last);
      assert (exists x :: x in items && StringConversionThrows(x))
         <==> (exists x :: x in init && StringConversionThrows(x)) || StringConversionThrows(last) by {
        assert items == init + [last];
      }
      if prefix.None? || shown.None? then None
      else if |items| == 1 then shown
      else Some(prefix.value + "," + shown.value)
  }

  /** The own enumerable properties `...v` copies into an object literal:
      an object's fields, the characters of a string and the elements of an
      array under their decimal indices, and nothing for other values. */
  function Spread(v: Value): (m: map<string, Value>)
    ensures v.Obj? ==> m == v.fields
    ensures v.Str? ==> m.Keys == Indices(|v.s|)
                       && forall i :: 0 <= i < |v.s| ==> m[NatToString(i)] == Str([v.s[i]])
    ensures v.Arr? ==> m.Keys == Indices(|v.items|)
                       && forall i :: 0 <= i < |v.items| ==> m[NatToString(i)] == v.items[i]
    ensures !(v.Obj? || v.Str? || v.Arr?) ==> m == map[]
  {
    match v
    case Obj(fields) => fields
    case Str(s) => IndexedEntries(seq(|s|, i requires 0 <= i < |s| => Str([s[i]])))
    case Arr(items) => IndexedEntries(items)
    case _ => map[]
  }

  /** The entries "0" := xs[0], "1" := xs[1], ... and no others. */
  function IndexedEntries(xs: seq<Value>): (m: map<string, Value>)
    ensures m.Keys == Indices(|xs|)
    ensures forall i :: 0 <= i < |xs| ==> m[NatToString(i)] == xs[i]
  {
    if xs == [] then map[]
    else
      var n := |xs| - 1;
      var prev := IndexedEntries(xs[..n]);
      var m := prev[NatToString(n) := xs[n]];
      assert m.Keys == Indices(n + 1) by {
        IndicesSnoc(n);
      }
      assert forall i :: 0 <= i < |xs| ==> m[NatToString(i)] == xs[i] by {
        forall i | 0 <= i < |xs| ensures m[NatToString(i)] == xs[i] {
          if i < n {
            NatToStringInjective(i, n);
            InIndices(i, n);
            assert prev[NatToString(i)] == xs[..n][i];
          }
        }
      }
      m
  }

  /** The decimal indices "0", ..., of a sequence of length `n`. */
  function Indices(n: nat): set<string> {
    set i | 0 <= i < n :: NatToString(i)
  }

  lemma InIndices(i: nat, n: nat)
    requires i < n
    ensures NatToString(i) in Indices(n)
  {
  }

  /** Distinct numbers print differently. */
  lemma NatToStringInjective(i: nat, j: nat)
    requires i != j
    ensures NatToString(i) != NatToString(j)
  {
    NatToStringRoundTrip(i);
    NatToStringRoundTrip(j);
  }

  lemma IndicesSnoc(n: nat)
    ensures Indices(n + 1) == Indices(n) + {NatToString(n)}
  {
    forall k | k in Indices(n + 1) ensures k in Indices(n) + {NatToString(n)} {
      var i :| 0 <= i < n + 1 && k == NatToString(i);
      if i < n { assert k in Indices(n); }
    }
  }

  /** The first truthy value of `vs`, if any. */
  function FirstTruthy(vs: seq<Value>): (r: Option<Value>)
    ensures r.None? <==> forall i :: 0 <= i < |vs| ==> !Truthy(vs[i])
    ensures r.Some? ==> exists i :: 0 <= i < |vs| && r.value == vs[i] && Truthy(vs[i])
                                    && forall j :: 0 <= j < i ==> !Truthy(vs[j])
  {
    if vs == [] then None
    else if Truthy(vs[0]) then Some(vs[0])
    else
      var r := FirstTruthy(vs[1..]);
      assert r.Some? ==> exists i :: 0 <= i < |vs| && r.value == vs[i] && Truthy(vs[i])
                                     && forall j :: 0 <= j < i ==> !Truthy(vs[j]) by {
        if r.Some? {
          var i :| 0 <= i < |vs| - 1 && r.value == vs[1..][i] && Truthy(vs[1..][i])
                   && forall j :: 0 <= j < i ==> !Truthy(vs[1..][j]);
          assert forall j :: 0 <= j < i + 1 ==> !Truthy(vs[j]) by {
            forall j | 0 <= j < i + 1 ensures !Truthy(vs[j]) {
              if j > 0 { assert vs[j] == vs[1..][j - 1]; }
            }
          }
        }
      }
      r
  }

  /** `a || rest`: the search stops at a truthy head. */
  lemma FirstTruthyCons(v: Value, vs: seq<Value>)
    ensures FirstTruthy([v] + vs) == if Truthy(v) then Some(v) else FirstTruthy(vs)
  {
    assert ([v] + vs)[1..] == vs;
  }
}
