/**
 * Values that cross the bridge between the embedded JavaScript context and
 * the native side (`Any` / `JSValue` in the source), and the Swift casts
 * (`as? String`, `as? [Any]`, ...) that the bridge applies to them.
 */
module JsValue {
  import opened Wrappers

  /** A JavaScript value as it arrives on the native side. */
  datatype Value =
    | Null
    | Bool(b: bool)
    | Num(n: int)
    | Str(s: string)
    | Arr(items: seq<Value>)
    | Obj(fields: map<string, Value>)

  /**
   * The result of a guard chain over a message's arguments: the arguments were
   * accepted, rejected by a failing cast (the handler logs and returns false),
   * or the source indexes past the end of an array, which is a Swift runtime trap.
   */
  datatype Guard<T> = Accepted(value: T) | Rejected | Crashed

  /** `v as? String` */
  function AsString(v: Option<Value>): (r: Option<string>)
    ensures r.Some? <==> v.Some? && v.value.Str?
    ensures r.Some? ==> v.value == Str(r.value)
  {
    if v.Some? && v.value.Str? then Some(v.value.s) else None
  }

  /** `v as? [Any]` */
  function AsArray(v: Option<Value>): (r: Option<seq<Value>>)
    ensures r.Some? <==> v.Some? && v.value.Arr?
    ensures r.Some? ==> v.value == Arr(r.value)
  {
    if v.Some? && v.value.Arr? then Some(v.value.items) else None
  }

  /** `v as? [String: Any]` */
  function AsObject(v: Option<Value>): (r: Option<map<string, Value>>)
    ensures r.Some? <==> v.Some? && v.value.Obj?
    ensures r.Some? ==> v.value == Obj(r.value)
  {
    if v.Some? && v.value.Obj? then Some(v.value.fields) else None
  }

  /** `v as? Int` (and `v as? Double`, since numbers are whole here) */
  function AsInt(v: Option<Value>): (r: Option<int>)
    ensures r.Some? <==> v.Some? && v.value.Num?
    ensures r.Some? ==> v.value == Num(r.value)
  {
    if v.Some? && v.value.Num? then Some(v.value.n) else None
  }

  predicate IsStringRow(row: Value) {
    row.Arr? && forall j :: 0 <= j < |row.items| ==> row.items[j].Str?
  }

  function RowStrings(row: Value): (r: seq<string>)
    requires IsStringRow(row)
    ensures |r| == |row.items|
    ensures forall j :: 0 <= j < |r| ==> row.items[j] == Str(r[j])
  {
    seq(|row.items|, j requires 0 <= j < |row.items| => row.items[j].s)
  }

  /** `v as? [[String]]`: an array of arrays of strings, or nothing. */
  function AsStringTable(v: Option<Value>): (r: Option<seq<seq<string>>>)
    ensures r.Some? <==> v.Some? && v.value.Arr? && forall i :: 0 <= i < |v.value.items| ==> IsStringRow(v.value.items[i])
    ensures r.Some? ==> |r.value| == |v.value.items|
    ensures r.Some? ==> forall i :: 0 <= i < |r.value| ==> v.value.items[i] == Arr(seq(|r.value[i]|, j requires 0 <= j < |r.value[i]| => Str(r.value[i][j])))
  {
    if v.Some? && v.value.Arr? && forall i :: 0 <= i < |v.value.items| ==> IsStringRow(v.value.items[i]) then
      var rows := v.value.items;
      Some(seq(|rows|, i requires 0 <= i < |rows| => RowStrings(rows[i])))
    else
      None
  }

  /** `array[i]` in Swift: an index past the end traps. */
  function ElementAt(a: seq<Value>, i: nat): (r: Guard<Option<Value>>)
    ensures r.Crashed? <==> i >= |a|
    ensures r.Accepted? ==> r.value == Some(a[i])
  {
    if i < |a| then Accepted(Some(a[i])) else Crashed
  }

  /** `dict?[key]` on an optional dictionary. */
  function Lookup(m: Option<map<string, Value>>, key: string): (r: Option<Value>)
    ensures r.Some? <==> m.Some? && key in m.value
    ensures r.Some? ==> r.value == m.value[key]
  {
    if m.Some? && key in m.value then Some(m.value[key]) else None
  }

  /** The JavaScript array of numbers that a Swift `[UInt8]` becomes. */
  function BytesValue(bytes: seq<int>): (r: Value)
    ensures r.Arr? && |r.items| == |bytes|
    ensures forall i :: 0 <= i < |bytes| ==> r.items[i] == Num(bytes[i])
  {
    Arr(seq(|bytes|, i requires 0 <= i < |bytes| => Num(bytes[i])))
  }

  /** The JavaScript object that a Swift `[String: String]` becomes. */
  function StringMapValue(m: map<string, string>): (r: Value)
    ensures r.Obj? && r.fields.Keys == m.Keys
    ensures forall k :: k in m ==> r.fields[k] == Str(m[k])
  {
    Obj(map k | k in m :: Str(m[k]))
  }

  /** The script reads the bytes back, element by element, as the numbers they were. */
  lemma BytesReadBack(bytes: seq<int>)
    ensures AsArray(Some(BytesValue(bytes))).Some?
    ensures |AsArray(Some(BytesValue(bytes))).value| == |bytes|
    ensures forall i :: 0 <= i < |bytes| ==>
      AsInt(Some(AsArray(Some(BytesValue(bytes))).value[i])) == Some(bytes[i])
  {
  }

  /** The script reads every header back, under the same name, as the string it was. */
  lemma StringMapReadBack(m: map<string, string>)
    ensures AsObject(Some(StringMapValue(m))).Some?
    ensures AsObject(Some(StringMapValue(m))).value.Keys == m.Keys
    ensures forall k :: k in m ==> AsString(Lookup(AsObject(Some(StringMapValue(m))), k)) == Some(m[k])
  {
  }
}
