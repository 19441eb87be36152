/**
 * The native HTTP bridge: `HTTP.request(with:)` checks the options object a
 * script passes and fills in defaults, `request(url:...)` assembles the
 * outgoing request, and its completion shapes the host's answer into the
 * array handed back to the script. The URL parser, percent coding, the
 * network and the textual description of non-string header values belong to
 * the host and are parameters here.
 */
module Http {
  import opened Wrappers
  import opened JsValue
  import TextEncoding
  import IdentityMap

  type Byte = TextEncoding.Byte

  /** `URL(string:)` */
  type ParseUrl<U> = string -> Option<U>
  /** `removingPercentEncoding` or `addingPercentEncoding(withAllowedCharacters: .urlQueryAllowed)` */
  type PercentCoding = string -> Option<string>

  /** Status codes that the bridge reports without contacting the network. */
  const BadUrlStatus := -1
  const NoMethodStatus := -2
  const BadUrlMessage := "missing/incorrect url"
  /** The timeout when the script gives none, in milliseconds. */
  const DefaultTimeoutMs := 15000
  const UserAgentField := "User-Agent"
  /** The User-Agent of Safari 15.5, sent unless the caller gives its own. */
  const SafariUserAgent := "Mozilla/5.0 (Macintosh; Intel Mac OS X 10_15_7) AppleWebKit/605.1.15 (KHTML, like Gecko) Version/15.5 Safari/605.1.15"

  // ---------------------------------------------------------------------
  // request(with:): validation and defaults
  // ---------------------------------------------------------------------

  /**
   * The URL of a request: the string parsed as it is, or else percent-decoded,
   * re-encoded for a query and parsed again.
   */
  function ResolveUrl<U>(urlString: string, parse: ParseUrl<U>,
                         removePercent: PercentCoding, addPercent: PercentCoding): (r: Option<U>)
    ensures parse(urlString).Some? ==> r == parse(urlString)
    ensures parse(urlString).None? ==>
      (r.Some? <==> removePercent(urlString).Some? && addPercent(removePercent(urlString).value).Some? &&
                    parse(addPercent(removePercent(urlString).value).value).Some?)
    ensures parse(urlString).None? && r.Some? ==>
      r == parse(addPercent(removePercent(urlString).value).value)
  {
    match parse(urlString)
    case Some(url) => Some(url)
    case None =>
      match removePercent(urlString)
      case None => None
      case Some(decoded) =>
        match addPercent(decoded)
        case None => None
        case Some(encoded) => parse(encoded)
  }

  /** What `request(url:...)` is called with. */
  datatype Request<U> = Request(
    url: U,
    httpMethod: string,
    headers: Option<map<string, Value>>,
    body: Option<seq<Byte>>,
    responseType: string,
    timeoutMs: int)

  /** `request(with:)` either answers at once or goes on to send a request. */
  datatype Prepared<U> = Respond(response: seq<Option<Value>>) | Send(request: Request<U>)

  /** The options object, or an empty one when it is absent or not an object. */
  function OptionsOf(data: map<string, Value>): map<string, Value> {
    GetOr(AsObject(Lookup(Some(data), "options")), map[])
  }

  /**
   * `request(with:)`: a missing or unparseable url answers
   * [-1, "missing/incorrect url", nil], checked before the method; a missing
   * method answers [-2, url, nil]. Otherwise the request carries the headers
   * object if there is one, the UTF-8 bytes of a String body (any other body
   * is dropped), the response type or "", and the timeout or 15000 ms.
   */
  function RequestWith<U>(data: map<string, Value>, parse: ParseUrl<U>,
                          removePercent: PercentCoding, addPercent: PercentCoding): (r: Prepared<U>)
    ensures var urlString := AsString(Lookup(Some(data), "url"));
      (urlString.None? || ResolveUrl(urlString.value, parse, removePercent, addPercent).None?) ==>
        r == Respond([Some(Num(BadUrlStatus)), Some(Str(BadUrlMessage)), None])
    ensures var urlString := AsString(Lookup(Some(data), "url"));
      (urlString.Some? && ResolveUrl(urlString.value, parse, removePercent, addPercent).Some? &&
       AsString(Lookup(Some(data), "method")).None?) ==>
        r == Respond([Some(Num(NoMethodStatus)), Some(Str(urlString.value)), None])
    ensures r.Send? <==>
      AsString(Lookup(Some(data), "url")).Some? &&
      ResolveUrl(AsString(Lookup(Some(data), "url")).value, parse, removePercent, addPercent).Some? &&
      AsString(Lookup(Some(data), "method")).Some?
    ensures r.Send? ==>
      var options := OptionsOf(data);
      var req := r.request;
      Some(req.url) == ResolveUrl(AsString(Lookup(Some(data), "url")).value, parse, removePercent, addPercent) &&
      Some(req.httpMethod) == AsString(Lookup(Some(data), "method")) &&
      req.headers == AsObject(Lookup(Some(options), "headers")) &&
      (req.body.Some? <==> AsString(Lookup(Some(options), "body")).Some?) &&
      (req.body.Some? ==> TextEncoding.Utf8Decode(req.body.value) == AsString(Lookup(Some(options), "body"))) &&
      (AsString(Lookup(Some(options), "responseType")).None? ==> req.responseType == "") &&
      (AsString(Lookup(Some(options), "responseType")).Some? ==>
         Some(req.responseType) == AsString(Lookup(Some(options), "responseType"))) &&
      (AsInt(Lookup(Some(options), "timeout")).None? ==> req.timeoutMs == DefaultTimeoutMs) &&
      (AsInt(Lookup(Some(options), "timeout")).Some? ==>
         Some(req.timeoutMs) == AsInt(Lookup(Some(options), "timeout")))
  {
    var urlString := AsString(Lookup(Some(data), "url"));
    if urlString.None? then Respond([Some(Num(BadUrlStatus)), Some(Str(BadUrlMessage)), None])
    else
      match ResolveUrl(urlString.value, parse, removePercent, addPercent)
      case None => Respond([Some(Num(BadUrlStatus)), Some(Str(BadUrlMessage)), None])
      case Some(url) =>
        match AsString(Lookup(Some(data), "method"))
        case None => Respond([Some(Num(NoMethodStatus)), Some(Str(urlString.value)), None])
        case Some(httpMethod) =>
          var options := OptionsOf(data);
          var body := AsString(Lookup(Some(options), "body"));
          Send(Request(
            url,
            httpMethod,
            AsObject(Lookup(Some(options), "headers")),
            if body.Some? then TextEncoding.DecodeEncode(body.value); Some(TextEncoding.Utf8Encode(body.value)) else None,
            GetOr(AsString(Lookup(Some(options), "responseType")), ""),
            GetOr(AsInt(Lookup(Some(options), "timeout")), DefaultTimeoutMs)))
  }

  /** Without an options object every option takes its default. */
  lemma DefaultsWithoutOptions<U>(data: map<string, Value>, parse: ParseUrl<U>,
                                  removePercent: PercentCoding, addPercent: PercentCoding)
    requires RequestWith(data, parse, removePercent, addPercent).Send?
    requires "options" !in data || !data["options"].Obj?
    ensures var req := RequestWith(data, parse, removePercent, addPercent).request;
      req.headers.None? && req.body.None? && req.responseType == "" && req.timeoutMs == DefaultTimeoutMs
  {
    assert OptionsOf(data) == map[];
  }

  // ---------------------------------------------------------------------
  // request(url:...): the outgoing request
  // ---------------------------------------------------------------------

  function LowerAscii(c: char): char {
    if 'A' <= c <= 'Z' then (c as int + 32) as char else c
  }

  /** Header names compare without regard to ASCII case; a name is stored by its folded form. */
  function Fold(name: string): (r: string)
    ensures |r| == |name|
    ensures forall i :: 0 <= i < |name| ==> r[i] == LowerAscii(name[i])
  {
    seq(|name|, i requires 0 <= i < |name| => LowerAscii(name[i]))
  }

  lemma FoldIsIdempotent(name: string)
    ensures Fold(Fold(name)) == Fold(name)
  {
    assert forall i :: 0 <= i < |name| ==> LowerAscii(LowerAscii(name[i])) == LowerAscii(name[i]);
  }

  /** The `URLRequest` value being assembled. */
  datatype Outgoing<U> = Outgoing(
    url: U,
    timeoutMs: int,
    httpMethod: string,
    headerFields: map<string, string>,
    httpBody: Option<seq<Byte>>)

  /** `setValue(_:forHTTPHeaderField:)`: sets one field, replacing any of the same name in any case. */
  function SetValue<U>(request: Outgoing<U>, value: string, field: string): (r: Outgoing<U>)
    ensures Fold(field) in r.headerFields && r.headerFields[Fold(field)] == value
    ensures r.headerFields.Keys == request.headerFields.Keys + {Fold(field)}
    ensures forall f :: f in request.headerFields && f != Fold(field) ==> r.headerFields[f] == request.headerFields[f]
    ensures r.url == request.url && r.timeoutMs == request.timeoutMs &&
            r.httpMethod == request.httpMethod && r.httpBody == request.httpBody
  {
    request.(headerFields := request.headerFields[Fold(field) := value])
  }

  /** `"\(value)"`: a string is itself; the host describes anything else. */
  function Describe(v: Value, describeOther: Value -> string): (r: string)
    ensures v.Str? ==> r == v.s
  {
    if v.Str? then v.s else describeOther(v)
  }

  /** Some caller header with this folded name carries this described value. */
  ghost predicate SetByCaller(headers: map<string, Value>, describeOther: Value -> string, f: string, v: string) {
    exists k :: k in headers && Fold(k) == f && Describe(headers[k], describeOther) == v
  }

  /** The folded names of the caller headers in `done`. */
  ghost function FoldedNames(done: set<string>): set<string> {
    set k | k in done :: Fold(k)
  }

  /**
   * After setting the caller headers in `done`: a field named by one of them
   * carries one of their values, any other field the fixed User-Agent.
   */
  ghost predicate FieldsFrom(fields: map<string, string>, headers: map<string, Value>, done: set<string>,
                             describeOther: Value -> string) {
    forall f :: f in fields ==>
      if exists k :: k in done && Fold(k) == f
      then SetByCaller(headers, describeOther, f, fields[f])
      else fields[f] == SafariUserAgent
  }

  /** No two caller names differ only in case. */
  ghost predicate FoldDistinct(headers: map<string, Value>) {
    forall j, k :: j in headers && k in headers && Fold(j) == Fold(k) ==> j == k
  }

  /** With fold-distinct names, each header in `done` carries its own value. */
  ghost predicate ExactFrom(fields: map<string, string>, headers: map<string, Value>, done: set<string>,
                            describeOther: Value -> string) {
    FoldDistinct(headers) ==>
      forall k :: k in done && k in headers ==> Fold(k) in fields && fields[Fold(k)] == Describe(headers[k], describeOther)
  }

  /** Setting one more caller header keeps both descriptions of the fields. */
  lemma SetOneHeader(before: map<string, string>, headers: map<string, Value>, done: set<string>,
                     key: string, describeOther: Value -> string)
    requires key in headers && done <= headers.Keys
    requires FieldsFrom(before, headers, done, describeOther)
    requires ExactFrom(before, headers, done, describeOther)
    ensures var after := before[Fold(key) := Describe(headers[key], describeOther)];
      FieldsFrom(after, headers, done + {key}, describeOther) &&
      ExactFrom(after, headers, done + {key}, describeOther)
    ensures FoldedNames(done + {key}) == FoldedNames(done) + {Fold(key)}
  {
    var after := before[Fold(key) := Describe(headers[key], describeOther)];
    assert SetByCaller(headers, describeOther, Fold(key), after[Fold(key)]);
    forall f | f in after
      ensures if exists k :: k in done + {key} && Fold(k) == f
              then SetByCaller(headers, describeOther, f, after[f])
              else after[f] == SafariUserAgent
    {
      if f != Fold(key) {
        assert f in before;
        assert (exists k :: k in done + {key} && Fold(k) == f) == (exists k :: k in done && Fold(k) == f);
      }
    }
    if FoldDistinct(headers) {
      forall k | k in done + {key}
        ensures Fold(k) in after && after[Fold(k)] == Describe(headers[k], describeOther)
      {
        if k != key {
          assert Fold(k) != Fold(key);
        }
      }
    }
  }

  /** Once every caller header is set, the field descriptions read as statements about all of them. */
  lemma AllHeadersSet(fields: map<string, string>, headers: map<string, Value>, describeOther: Value -> string)
    requires FieldsFrom(fields, headers, headers.Keys, describeOther)
    requires ExactFrom(fields, headers, headers.Keys, describeOther)
    ensures FoldedNames(headers.Keys) == set k | k in headers :: Fold(k)
    ensures forall f :: f in fields ==>
      if exists k :: k in headers && Fold(k) == f
      then SetByCaller(headers, describeOther, f, fields[f])
      else fields[f] == SafariUserAgent
    ensures (forall j, k :: j in headers && k in headers && Fold(j) == Fold(k) ==> j == k) ==>
      forall k :: k in headers ==> fields[Fold(k)] == Describe(headers[k], describeOther)
  {
  }

  /** The loop over the caller's headers, after the User-Agent is set. */
  method SetCallerHeaders<U>(start: Outgoing<U>, headers: map<string, Value>, describeOther: Value -> string)
    returns (out: Outgoing<U>)
    requires start.headerFields == map[Fold(UserAgentField) := SafariUserAgent]
    ensures out.url == start.url && out.timeoutMs == start.timeoutMs
    ensures out.httpMethod == start.httpMethod && out.httpBody == start.httpBody
    ensures out.headerFields.Keys == {Fold(UserAgentField)} + FoldedNames(headers.Keys)
    ensures FieldsFrom(out.headerFields, headers, headers.Keys, describeOther)
    ensures ExactFrom(out.headerFields, headers, headers.Keys, describeOther)
  {
    out := start;
    var pending := headers.Keys;
    ghost var done: set<string> := {};
    assert FoldedNames(done) == {};
    while pending != {}
      invariant pending + done == headers.Keys && pending !! done
      invariant out.url == start.url && out.timeoutMs == start.timeoutMs
      invariant out.httpMethod == start.httpMethod && out.httpBody == start.httpBody
      invariant out.headerFields.Keys == {Fold(UserAgentField)} + FoldedNames(done)
      invariant FieldsFrom(out.headerFields, headers, done, describeOther)
      invariant ExactFrom(out.headerFields, headers, done, describeOther)
      decreases pending
    {
      ghost var some := IdentityMap.HasMember(pending);
      var key :| key in pending;
      SetOneHeader(out.headerFields, headers, done, key, describeOther);
      ghost var fields := out.headerFields[Fold(key) := Describe(headers[key], describeOther)];
      out := SetValue(out, Describe(headers[key], describeOther), key);
      assert out.headerFields == fields;
      pending := pending - {key};
      done := done + {key};
    }
    assert done == headers.Keys;
  }

  /**
   * The body of `request(url:...)` up to sending: the fixed User-Agent is set
   * first and the caller's headers after it, in the dictionary's (unspecified)
   * order, each value described as a string. So every caller header is
   * present, a caller "User-Agent" in any case replaces the fixed one, and
   * of two caller names that differ only in case one wins.
   */
  method BuildRequest<U>(request: Request<U>, describeOther: Value -> string) returns (out: Outgoing<U>)
    ensures out.url == request.url && out.timeoutMs == request.timeoutMs
    ensures out.httpMethod == request.httpMethod && out.httpBody == request.body
    ensures request.headers.None? ==> out.headerFields == map[Fold(UserAgentField) := SafariUserAgent]
    ensures request.headers.Some? ==>
      out.headerFields.Keys == {Fold(UserAgentField)} + set k | k in request.headers.value :: Fold(k)
    ensures request.headers.Some? ==> forall f :: f in out.headerFields ==>
      if exists k :: k in request.headers.value && Fold(k) == f
      then SetByCaller(request.headers.value, describeOther, f, out.headerFields[f])
      else out.headerFields[f] == SafariUserAgent
    ensures request.headers.Some? ==>
      (forall j, k :: j in request.headers.value && k in request.headers.value && Fold(j) == Fold(k) ==> j == k) ==>
      forall k :: k in request.headers.value ==>
        out.headerFields[Fold(k)] == Describe(request.headers.value[k], describeOther)
  {
    out := Outgoing(request.url, request.timeoutMs, request.httpMethod, map[], None);
    out := SetValue(out, SafariUserAgent, UserAgentField);
    if request.headers.Some? {
      out := SetCallerHeaders(out, request.headers.value, describeOther);
      AllHeadersSet(out.headerFields, request.headers.value, describeOther);
    }
    out := out.(httpBody := request.body);
  }

  // ---------------------------------------------------------------------
  // The completion: shaping the answer
  // ---------------------------------------------------------------------

  /** The parts of an `HTTPURLResponse` that reach the script. */
  datatype HttpResponse = HttpResponse(statusCode: int, headerFields: map<string, string>, url: Option<string>)

  /**
   * The array passed to the script's completion. Without an HTTP response it
   * is ["error", {message, name: "SwiftError"}]. Otherwise it is
   * [status, payload, headers, final URL or ""], where the payload is the bytes
   * for an "arraybuffer" request and the UTF-8 text for any other, nil when
   * there is no data or the data is not UTF-8.
   */
  function CompleteRequest(response: Option<HttpResponse>, data: Option<seq<Byte>>,
                           errorDescription: Option<string>, responseType: string): (r: seq<Option<Value>>)
    ensures response.None? ==>
      |r| == 2 && r[0] == Some(Str("error")) && r[1].Some? && r[1].value.Obj? &&
      r[1].value.fields.Keys == {"message", "name"} &&
      r[1].value.fields["name"] == Str("SwiftError") &&
      r[1].value.fields["message"] == (if errorDescription.Some? then Str(errorDescription.value) else Null)
    ensures response.Some? ==>
      |r| == 4 && r[0] == Some(Num(response.value.statusCode)) &&
      r[2] == Some(StringMapValue(response.value.headerFields)) &&
      r[3] == Some(Str(GetOr(response.value.url, "")))
    ensures response.Some? && responseType == "arraybuffer" ==>
      (r[1].Some? <==> data.Some?) && (data.Some? ==> r[1] == Some(BytesValue(data.value)))
    ensures response.Some? && responseType != "arraybuffer" ==>
      (r[1].Some? <==> data.Some? && TextEncoding.Utf8Decode(data.value).Some?) &&
      (r[1].Some? ==> r[1] == Some(Str(TextEncoding.Utf8Decode(data.value).value)))
  {
    match response
    case None =>
      [Some(Str("error")),
       Some(Obj(map["message" := (if errorDescription.Some? then Str(errorDescription.value) else Null),
                    "name" := Str("SwiftError")]))]
    case Some(http) =>
      var payload :=
        if responseType == "arraybuffer" then
          (if data.Some? then Some(BytesValue(data.value)) else None)
        else
          (if data.Some? && TextEncoding.Utf8Decode(data.value).Some?
           then Some(Str(TextEncoding.Utf8Decode(data.value).value)) else None);
      [Some(Num(http.statusCode)), payload, Some(StringMapValue(http.headerFields)), Some(Str(GetOr(http.url, "")))]
  }

  /** A text answer that is the UTF-8 encoding of a string reaches the script as that string. */
  lemma TextAnswerRoundTrip(response: HttpResponse, text: string, errorDescription: Option<string>, responseType: string)
    requires responseType != "arraybuffer"
    ensures CompleteRequest(Some(response), Some(TextEncoding.Utf8Encode(text)), errorDescription, responseType)[1] == Some(Str(text))
  {
    TextEncoding.DecodeEncode(text);
  }

  /**
   * An "arraybuffer" answer reaches the script as the body's bytes, and
   * the headers as an object holding each header field under its name.
   */
  lemma ArrayBufferAnswerRoundTrip(response: HttpResponse, body: seq<Byte>, errorDescription: Option<string>)
    ensures var r := CompleteRequest(Some(response), Some(body), errorDescription, "arraybuffer");
      AsArray(r[1]).Some? && |AsArray(r[1]).value| == |body| &&
      (forall i :: 0 <= i < |body| ==> AsInt(Some(AsArray(r[1]).value[i])) == Some(body[i] as int)) &&
      AsObject(r[2]).Some? && AsObject(r[2]).value.Keys == response.headerFields.Keys &&
      (forall k :: k in response.headerFields ==> AsString(Lookup(AsObject(r[2]), k)) == Some(response.headerFields[k]))
  {
    BytesReadBack(body);
    StringMapReadBack(response.headerFields);
  }
}
