/**
 * The helpers that `JSUtilities.provideToContext` installs into the script
 * context: `atob`/`btoa` over Base64, and the `setInterval`/`setTimeout`/
 * `clearInterval`/`clearTimeout` table of timers. `JSInterval` in
 * JavaScriptInterval.swift is a copy of the same timer table and is modelled
 * by the same class.
 */
module JsUtilities {
  import opened Wrappers
  import opened JsValue
  import opened TextEncoding
  import Base64

  const BtoaError: string := "The string to be encoded contains characters outside of the Latin1 range."

  // ---------------------------------------------------------------------------
  // atob / btoa

  /** A "binary string": one character per byte, whose code point is the byte. */
  function BinaryString(bytes: seq<Byte>): (s: string)
    ensures |s| == |bytes|
    ensures forall i :: 0 <= i < |s| ==> s[i] as int == bytes[i]
  {
    seq(|bytes|, i requires 0 <= i < |bytes| => bytes[i] as char)
  }

  /** The bytes of a string whose characters are all at most U+00FF: each code point. */
  function CodePoints(s: string): (b: seq<Byte>)
    requires forall i :: 0 <= i < |s| ==> (s[i] as int) < 0x100
    ensures |b| == |s|
    ensures forall i :: 0 <= i < |s| ==> b[i] == s[i] as int
  {
    seq(|s|, i requires 0 <= i < |s| => s[i] as int)
  }

  /** Every character has an ASCII value (Swift's `Character.asciiValue` is non-nil). */
  predicate AllAscii(s: string) {
    forall i :: 0 <= i < |s| ==> (s[i] as int) < 0x80
  }

  /** What `atob` returns: the decoded bytes as a binary string, or "" when decoding fails. */
  function AtobResult(encoded: string): string
  {
    match Base64.Decode(Base64.Filter(encoded))
    case None => ""
    case Some(bytes) => BinaryString(bytes)
  }

  /** `atob`: decode, ignoring characters outside the alphabet, one character per byte. */
  method Atob(encodedString: string) returns (result: string)
    ensures Base64.Decode(Base64.Filter(encodedString)).None? ==> result == ""
    ensures Base64.Decode(Base64.Filter(encodedString)).Some? ==>
      var bytes := Base64.Decode(Base64.Filter(encodedString)).value;
      |result| == |bytes| && forall i :: 0 <= i < |result| ==> result[i] as int == bytes[i]
    ensures result == AtobResult(encodedString)
  {
    var data := Base64.Decode(Base64.Filter(encodedString));
    if data.None? {
      return "";
    }
    var bytes := data.value;
    result := "";
    for i := 0 to |bytes|
      invariant |result| == i
      invariant forall j :: 0 <= j < i ==> result[j] as int == bytes[j]
    {
      result := result + [bytes[i] as char];
    }
    assert result == BinaryString(bytes);
  }

  /**
   * `btoa` as written: every character must have an ASCII value; otherwise a
   * script exception is raised and "" is returned.
   */
  method Btoa(binaryString: string) returns (result: string, exception: Option<string>)
    ensures exception.None? <==> AllAscii(binaryString)
    ensures exception.Some? ==> exception.value == BtoaError && result == ""
    ensures exception.None? ==> result == Base64.Encode(CodePoints(binaryString))
  {
    var bytes: seq<Byte> := [];
    for i := 0 to |binaryString|
      invariant |bytes| == i
      invariant forall j :: 0 <= j < i ==> (binaryString[j] as int) < 0x80 && bytes[j] == binaryString[j] as int
    {
      var c := binaryString[i];
      if (c as int) >= 0x80 {
        return "", Some(BtoaError);
      }
      bytes := bytes + [c as int];
    }
    assert bytes == CodePoints(binaryString);
    return Base64.Encode(bytes), None;
  }

  /**
   * `btoa` with the Latin-1 check that the error message and the JavaScript
   * API it stands in for describe: characters up to U+00FF are accepted.
   */
  method BtoaLatin1(binaryString: string) returns (result: string, exception: Option<string>)
    ensures exception.None? <==> forall i :: 0 <= i < |binaryString| ==> (binaryString[i] as int) < 0x100
    ensures exception.Some? ==> exception.value == BtoaError && result == ""
    ensures exception.None? ==> result == Base64.Encode(CodePoints(binaryString))
  {
    var bytes: seq<Byte> := [];
    for i := 0 to |binaryString|
      invariant |bytes| == i
      invariant forall j :: 0 <= j < i ==> (binaryString[j] as int) < 0x100 && bytes[j] == binaryString[j] as int
    {
      var c := binaryString[i];
      if (c as int) >= 0x100 {
        return "", Some(BtoaError);
      }
      bytes := bytes + [c as int];
    }
    assert bytes == CodePoints(binaryString);
    return Base64.Encode(bytes), None;
  }

  /** Encoding bytes and decoding the result as `atob` does gives back their binary string. */
  lemma AtobOfEncode(bytes: seq<Byte>)
    ensures AtobResult(Base64.Encode(bytes)) == BinaryString(bytes)
  {
    Base64.EncodeIsFiltered(bytes);
    Base64.DecodeEncode(bytes);
  }

  /** A binary string's code points are its bytes. */
  lemma CodePointsOfBinaryString(bytes: seq<Byte>)
    ensures CodePoints(BinaryString(bytes)) == bytes
  {
  }

  /** For ASCII input, `atob(btoa(s)) == s` and the encoding has length 4 * ceil(n / 3). */
  lemma AsciiRoundTrip(s: string)
    requires AllAscii(s)
    ensures AtobResult(Base64.Encode(CodePoints(s))) == s
    ensures |Base64.Encode(CodePoints(s))| == 4 * ((|s| + 2) / 3)
  {
    var bytes := CodePoints(s);
    AtobOfEncode(bytes);
    Base64.EncodeLength(bytes);
    assert BinaryString(bytes) == s;
  }

  /** `atob(btoa(s))` through the two operations: an ASCII string comes back unchanged. */
  method BtoaThenAtob(s: string) returns (exception: Option<string>, decoded: string)
    ensures exception.None? <==> AllAscii(s)
    ensures exception.None? ==> decoded == s
    ensures exception.Some? ==> decoded == ""
  {
    var encoded;
    encoded, exception := Btoa(s);
    decoded := Atob(encoded);
    if exception.None? {
      AsciiRoundTrip(s);
    } else {
      assert Base64.Filter("") == "";
    }
  }

  /** `atob` of "gA==" is the one character U+0080, which has no ASCII value. */
  lemma AtobOfHighByte()
    ensures AtobResult("gA==") == "\U{80}"
    ensures !AllAscii("\U{80}") && ('\U{80}' as int) < 0x100
  {
    assert Base64.Encode([0x80]) == "gA==";
    AtobOfEncode([0x80]);
  }

  /** As written, `btoa(atob("gA=="))` raises an exception instead of giving back "gA==". */
  method BtoaOfAtobAsWritten() returns (exception: Option<string>)
    ensures exception == Some(BtoaError)
  {
    var decoded := Atob("gA==");
    AtobOfHighByte();
    var encoded;
    encoded, exception := Btoa(decoded);
  }

  /** With the Latin-1 check, `btoa(atob(x))` re-encodes the decoded bytes for every `x`. */
  method BtoaLatin1OfAtob(x: string) returns (exception: Option<string>, encoded: string)
    ensures exception.None?
    ensures Base64.Decode(Base64.Filter(x)).Some? ==> encoded == Base64.Encode(Base64.Decode(Base64.Filter(x)).value)
    ensures Base64.Decode(Base64.Filter(x)).None? ==> encoded == ""
  {
    var decoded := Atob(x);
    encoded, exception := BtoaLatin1(decoded);
    if Base64.Decode(Base64.Filter(x)).Some? {
      CodePointsOfBinaryString(Base64.Decode(Base64.Filter(x)).value);
    } else {
      assert CodePoints("") == [];
    }
  }

  // ---------------------------------------------------------------------------
  // Timers

  /** A scheduled `Timer`: the script function it calls, its delay and whether it repeats. */
  datatype ScheduledTimer = ScheduledTimer(callback: Value, delayMs: int, repeats: bool)

  /**
   * The delay of `setInterval(fn, delay)`: the second argument in milliseconds
   * (converted by the host's `toDouble`), or 0 when there is none.
   */
  function DelayOf(args: seq<Value>, toNumber: Value -> int): (ms: int)
    requires |args| >= 1
    ensures |args| == 1 ==> ms == 0
    ensures |args| >= 2 ==> ms == toNumber(args[1])
  {
    if |args| > 1 then toNumber(args[1]) else 0
  }

  /** The static `intervals` dictionary of `JSUtilities` (and of `JSInterval`). */
  class IntervalTable {
    var intervals: map<int, ScheduledTimer>
    /** Timers whose `invalidate()` has been called, in order. */
    var invalidated: seq<ScheduledTimer>

    constructor ()
      ensures intervals == map[] && invalidated == []
    {
      intervals := map[];
      invalidated := [];
    }

    /**
     * `setInterval(repeats:args:)`: the callback is the first argument, the delay
     * the optional second; the timer is stored under `tag` (a fresh
     * `UUID().hashValue`, supplied by the caller) and the tag is returned. A
     * timer already stored under an equal tag is replaced without being invalidated.
     */
    method SetInterval(repeats: bool, args: seq<Value>, tag: int, toNumber: Value -> int) returns (r: int)
      requires |args| >= 1
      modifies this
      ensures r == tag
      ensures intervals == old(intervals)[tag := ScheduledTimer(args[0], DelayOf(args, toNumber), repeats)]
      ensures invalidated == old(invalidated)
    {
      var callback := args[0];
      var rest := args[1..];
      var interval := 0;
      if |rest| > 0 {
        interval := toNumber(rest[0]);
      }
      var timer := ScheduledTimer(callback, interval, repeats);
      intervals := intervals[tag := timer];
      r := tag;
    }

    /** `clearInterval(tag:)`: invalidates the timer under `tag`, if any, and removes it. */
    method ClearInterval(tag: int)
      modifies this
      ensures intervals == old(intervals) - {tag}
      ensures tag in old(intervals) ==> invalidated == old(invalidated) + [old(intervals)[tag]]
      ensures tag !in old(intervals) ==> invalidated == old(invalidated)
    {
      if tag in intervals {
        invalidated := invalidated + [intervals[tag]];
      }
      intervals := intervals - {tag};
    }
  }

  /** Clearing an absent tag changes nothing, so clearing twice is clearing once. */
  method ClearTwice(table: IntervalTable, tag: int)
    modifies table
    ensures table.intervals == old(table.intervals) - {tag}
    ensures table.invalidated == old(table.invalidated) + (if tag in old(table.intervals) then [old(table.intervals)[tag]] else [])
  {
    table.ClearInterval(tag);
    table.ClearInterval(tag);
  }

  // ---------------------------------------------------------------------------
  // The script-facing bindings

  /** The operations the four script names are bound to. */
  datatype TimerBinding = Schedule(repeats: bool) | Cancel

  function BindingOf(name: string): (r: Option<TimerBinding>)
    ensures r.Some? <==> name in {"setInterval", "setTimeout", "clearInterval", "clearTimeout"}
  {
    if name == "setInterval" then Some(Schedule(true))
    else if name == "setTimeout" then Some(Schedule(false))
    else if name == "clearInterval" || name == "clearTimeout" then Some(Cancel)
    else None
  }

  /** `clearTimeout` runs the very block bound to `clearInterval`; only the set operations differ in `repeats`. */
  lemma ClearTimeoutIsClearInterval()
    ensures BindingOf("clearTimeout") == BindingOf("clearInterval") == Some(Cancel)
    ensures BindingOf("setInterval") == Some(Schedule(true)) && BindingOf("setTimeout") == Some(Schedule(false))
  {
  }

  const TwoTo31: int := 0x8000_0000
  const TwoTo32: int := 0x1_0000_0000

  /**
   * ECMAScript ToInt32 on a whole number (what `JSValue.toInt32()` does to
   * the tag a script passes to `clearInterval`): reduce modulo 2^32 into
   * [-2^31, 2^31).
   */
  function ToInt32(n: int): (r: int)
    ensures -TwoTo31 <= r < TwoTo31
    ensures (r - n) % TwoTo32 == 0
  {
    (n + TwoTo31) % TwoTo32 - TwoTo31
  }

  /** ToInt32 leaves the 32-bit range alone, so it returns every 32-bit tag unchanged. */
  lemma ToInt32Fixes(n: int)
    requires -TwoTo31 <= n < TwoTo31
    ensures ToInt32(n) == n
  {
    assert 0 <= n + TwoTo31 < TwoTo32;
  }

  /** The tag 2^32 (a possible `UUID().hashValue`) comes back from ToInt32 as 0. */
  lemma ToInt32LosesWideTags()
    ensures ToInt32(TwoTo32) == 0 != TwoTo32
  {
  }

  /**
   * As written: `setInterval` stores the timer under the 64-bit hash and
   * returns it to the script, whose `clearInterval(tag)` then removes the
   * timer under `ToInt32(tag)`. For the tag 2^32 the timer stays stored.
   */
  method SetThenClearAsWritten() returns (table: IntervalTable)
    ensures TwoTo32 in table.intervals
    ensures table.invalidated == []
  {
    table := new IntervalTable();
    var tag := table.SetInterval(true, [Null], TwoTo32, (v: Value) => 0);
    ToInt32LosesWideTags();
    table.ClearInterval(ToInt32(tag));
  }

  /**
   * `setInterval`/`setTimeout` as the script calls them, with the tag drawn
   * from the 32-bit range (`ToInt32` of the hash), so that the value the
   * script holds survives the binding's `toInt32()`.
   */
  method SetIntervalFromScript(table: IntervalTable, repeats: bool, args: seq<Value>, uuidHash: int, toNumber: Value -> int) returns (tag: int)
    requires |args| >= 1
    modifies table
    ensures tag == ToInt32(uuidHash)
    ensures table.intervals == old(table.intervals)[tag := ScheduledTimer(args[0], DelayOf(args, toNumber), repeats)]
    ensures table.invalidated == old(table.invalidated)
  {
    tag := table.SetInterval(repeats, args, ToInt32(uuidHash), toNumber);
  }

  /** `clearInterval`/`clearTimeout` as the script calls them: `Int(value.toInt32())`. */
  method ClearIntervalFromScript(table: IntervalTable, value: int)
    modifies table
    ensures table.intervals == old(table.intervals) - {ToInt32(value)}
    ensures ToInt32(value) in old(table.intervals) ==> table.invalidated == old(table.invalidated) + [old(table.intervals)[ToInt32(value)]]
    ensures ToInt32(value) !in old(table.intervals) ==> table.invalidated == old(table.invalidated)
  {
    table.ClearInterval(ToInt32(value));
  }

  /** With 32-bit tags, clearing the tag a script got back removes and invalidates that timer. */
  method SetThenClear(table: IntervalTable, repeats: bool, args: seq<Value>, uuidHash: int, toNumber: Value -> int) returns (tag: int)
    requires |args| >= 1
    modifies table
    ensures tag !in table.intervals
    ensures table.intervals == old(table.intervals) - {tag}
    ensures table.invalidated == old(table.invalidated) + [ScheduledTimer(args[0], DelayOf(args, toNumber), repeats)]
  {
    tag := SetIntervalFromScript(table, repeats, args, uuidHash, toNumber);
    ToInt32Fixes(tag);
    ClearIntervalFromScript(table, tag);
  }
}
