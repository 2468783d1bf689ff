/** The Go helper `APICall`: it folds the form rows into a JSON body, builds an
    HTTP request with the custom headers, the bearer header and a default
    `Content-Type`, sends it and returns the response body, or a fixed error
    string for the step that failed.  The Go library calls it relies on are
    given as the fields of a `Runtime`. */
module ApiCall {
  import opened Wrappers
  import Assoc

  datatype Header = Header(name: string, value: string)

  datatype FormData = FormData(key: string, value: string)

  /** A request as handed to the HTTP client; `header` maps canonical names to
      their single value. */
  datatype HttpRequest = HttpRequest(httpMethod: string, url: string, body: Option<string>, header: map<string, string>)

  /** What sending the request gave: `client.Do` failed with an error text, or
      it returned a response whose body `io.ReadAll` read (`None`: reading failed). */
  datatype Exchange = DoFailed(err: string) | Delivered(body: Option<string>)

  /** The library behaviour the helper depends on, left uninterpreted:
      header-name canonicalisation (used by both `Header.Set` and `Header.Get`),
      `json.Marshal` of the form map (`None`: it failed), whether
      `http.NewRequest` accepts the method and URL, and the exchange with the
      server. */
  datatype Runtime = Runtime(
    canon: string -> string,
    marshal: map<string, string> -> Option<string>,
    newRequestOk: (string, string) -> bool,
    exchange: HttpRequest -> Exchange)

  /** The string the helper returns, and the request it sent if it got that far. */
  datatype CallTrace = CallTrace(result: string, sent: Option<HttpRequest>)

  const MarshalError := "Error when fetching the API 1"
  const NewRequestError := "Error when fetching the API 2"
  const DoError := "Error when fetching the API 3"
  const ReadError := "Error when fetching the API 4"

  const AuthorizationName := "Authorization"
  const ContentTypeName := "Content-Type"
  const JsonType := "application/json"

  // ---------------------------------------------------------------- body

  /** The assignment a form row makes to the form map: none for an empty key. */
  function FormMapEntry(fd: FormData): Option<(string, string)>
  {
    if fd.key != "" then Some((fd.key, fd.value)) else None
  }

  /** The form map: the rows' assignments in order. */
  function FormMap(formData: seq<FormData>): map<string, string>
  {
    Assoc.Assign(formData, FormMapEntry)
  }

  /** The body decision: none, the JSON encoding of the form map, or a failed
      encoding. */
  datatype BodyStep = NoBody | Encoded(json: string) | MarshalFailed

  function BodyOf(formData: seq<FormData>, marshal: map<string, string> -> Option<string>): BodyStep
  {
    if |formData| > 0 && |FormMap(formData)| > 0 then
      match marshal(FormMap(formData))
      case Some(json) => Encoded(json)
      case None => MarshalFailed
    else NoBody
  }

  /** Rows with an empty key are skipped; every other key is in the map, with
      the value of its last row. */
  lemma FormMapKeys(formData: seq<FormData>, k: string)
    ensures k in FormMap(formData) <==> k != "" && exists j :: 0 <= j < |formData| && formData[j].key == k
  {
    Assoc.AssignKeys(formData, FormMapEntry, k);
    if k != "" && exists j :: 0 <= j < |formData| && formData[j].key == k {
      var j :| 0 <= j < |formData| && formData[j].key == k;
      assert Assoc.Assigns(formData, FormMapEntry, j, k);
    }
  }

  lemma FormMapLastWins(formData: seq<FormData>, j: int)
    requires 0 <= j < |formData| && formData[j].key != ""
    requires forall j' :: j < j' < |formData| ==> formData[j'].key != formData[j].key
    ensures formData[j].key in FormMap(formData)
    ensures FormMap(formData)[formData[j].key] == formData[j].value
  {
    Assoc.AssignLastWins(formData, FormMapEntry, j);
  }

  /** A body is sent exactly when some form row has a non-empty key (and the
      encoding succeeds); it is then the encoding of the form map. */
  lemma BodyPresence(formData: seq<FormData>, marshal: map<string, string> -> Option<string>)
    ensures BodyOf(formData, marshal).NoBody? <==> forall j :: 0 <= j < |formData| ==> formData[j].key == ""
    ensures BodyOf(formData, marshal).Encoded? ==> Some(BodyOf(formData, marshal).json) == marshal(FormMap(formData))
  {
    if exists j :: 0 <= j < |formData| && formData[j].key != "" {
      var j :| 0 <= j < |formData| && formData[j].key != "";
      FormMapKeys(formData, formData[j].key);
      assert |FormMap(formData)| > 0;
    } else if |FormMap(formData)| > 0 {
      var k :| k in FormMap(formData);
      FormMapKeys(formData, k);
    }
  }

  // ---------------------------------------------------------------- headers

  /** The header a custom row sets, under its canonical name: none for an empty name. */
  function HeaderSetEntry(canon: string -> string): Header -> Option<(string, string)>
  {
    (h: Header) => if h.name != "" then Some((canon(h.name), h.value)) else None
  }

  /** The header map after the loop over the custom rows. */
  function CustomHeader(canon: string -> string, headers: seq<Header>): map<string, string>
  {
    Assoc.Assign(headers, HeaderSetEntry(canon))
  }

  /** Header lookup: the value under the canonical name, or the empty string. */
  function HeaderGet(canon: string -> string, header: map<string, string>, name: string): string
  {
    if canon(name) in header then header[canon(name)] else ""
  }

  /** The methods that get a default JSON content type; the comparison is
      case-sensitive. */
  predicate SendsJson(httpMethod: string)
  {
    httpMethod == "POST" || httpMethod == "PUT" || httpMethod == "PATCH"
  }

  function WithBearer(canon: string -> string, header: map<string, string>, isAPIKey: bool, apiKey: string): (r: map<string, string>)
    ensures r.Keys <= header.Keys + {canon(AuthorizationName)}
    ensures isAPIKey ==> canon(AuthorizationName) in r && r[canon(AuthorizationName)] == "Bearer " + apiKey
    ensures forall k :: k in header && (!isAPIKey || k != canon(AuthorizationName)) ==> k in r && r[k] == header[k]
  {
    if isAPIKey then header[canon(AuthorizationName) := "Bearer " + apiKey] else header
  }

  function WithJsonDefault(canon: string -> string, header: map<string, string>, httpMethod: string, hasBody: bool): (r: map<string, string>)
    ensures r.Keys <= header.Keys + {canon(ContentTypeName)}
    ensures forall k :: k in header && k != canon(ContentTypeName) ==> k in r && r[k] == header[k]
    ensures HeaderGet(canon, r, ContentTypeName) != ""
      <==> HeaderGet(canon, header, ContentTypeName) != "" || (SendsJson(httpMethod) && hasBody)
  {
    if SendsJson(httpMethod) && HeaderGet(canon, header, ContentTypeName) == "" && hasBody
    then header[canon(ContentTypeName) := JsonType]
    else header
  }

  /** The headers of the request: custom rows, then the bearer header, then the
      content-type default. */
  function FinalHeader(canon: string -> string, headers: seq<Header>, isAPIKey: bool, apiKey: string,
                       httpMethod: string, hasBody: bool): map<string, string>
  {
    WithJsonDefault(canon, WithBearer(canon, CustomHeader(canon, headers), isAPIKey, apiKey), httpMethod, hasBody)
  }

  /** Row `j` is the last row whose name canonicalises to `key`. */
  ghost predicate LastWithName(canon: string -> string, headers: seq<Header>, j: int, key: string)
  {
    0 <= j < |headers| && headers[j].name != "" && canon(headers[j].name) == key &&
    forall j' :: j < j' < |headers| && headers[j'].name != "" ==> canon(headers[j'].name) != key
  }

  /** Rows with an empty name are skipped; a canonical name is present exactly
      when some named row has it, and it carries the value of the last such row. */
  lemma CustomHeaderKeys(canon: string -> string, headers: seq<Header>, key: string)
    ensures key in CustomHeader(canon, headers) <==>
      exists j :: 0 <= j < |headers| && headers[j].name != "" && canon(headers[j].name) == key
  {
    Assoc.AssignKeys(headers, HeaderSetEntry(canon), key);
    if exists j :: 0 <= j < |headers| && headers[j].name != "" && canon(headers[j].name) == key {
      var j :| 0 <= j < |headers| && headers[j].name != "" && canon(headers[j].name) == key;
      assert Assoc.Assigns(headers, HeaderSetEntry(canon), j, key);
    }
  }

  lemma CustomHeaderLastWins(canon: string -> string, headers: seq<Header>, j: int, key: string)
    requires LastWithName(canon, headers, j, key)
    ensures key in CustomHeader(canon, headers) && CustomHeader(canon, headers)[key] == headers[j].value
  {
    forall j' | j < j' < |headers|
      ensures !Assoc.Assigns(headers, HeaderSetEntry(canon), j', key)
    {
    }
    Assoc.AssignLastWins(headers, HeaderSetEntry(canon), j);
  }

  /** With the API-key flag set, `Authorization` is the bearer value, whatever
      the custom rows say and even when the key is empty. */
  lemma BearerWins(canon: string -> string, headers: seq<Header>, apiKey: string, httpMethod: string, hasBody: bool)
    ensures canon(AuthorizationName) in FinalHeader(canon, headers, true, apiKey, httpMethod, hasBody)
    ensures FinalHeader(canon, headers, true, apiKey, httpMethod, hasBody)[canon(AuthorizationName)] == "Bearer " + apiKey
  {
  }

  /** Without the flag, `Authorization` is whatever the custom rows made it. */
  lemma NoFlagKeepsCustomAuthorization(canon: string -> string, headers: seq<Header>, apiKey: string,
                                       httpMethod: string, hasBody: bool)
    requires canon(AuthorizationName) != canon(ContentTypeName)
    ensures var h := FinalHeader(canon, headers, false, apiKey, httpMethod, hasBody);
      var custom := CustomHeader(canon, headers);
      (canon(AuthorizationName) in h <==> canon(AuthorizationName) in custom) &&
      (canon(AuthorizationName) in custom ==> h[canon(AuthorizationName)] == custom[canon(AuthorizationName)])
  {
  }

  /** A non-empty `Content-Type` from the rows is never overwritten. */
  lemma UserContentTypeKept(canon: string -> string, headers: seq<Header>, isAPIKey: bool, apiKey: string,
                            httpMethod: string, hasBody: bool, j: int)
    requires LastWithName(canon, headers, j, canon(ContentTypeName)) && headers[j].value != ""
    requires isAPIKey ==> canon(AuthorizationName) != canon(ContentTypeName)
    ensures canon(ContentTypeName) in FinalHeader(canon, headers, isAPIKey, apiKey, httpMethod, hasBody)
    ensures FinalHeader(canon, headers, isAPIKey, apiKey, httpMethod, hasBody)[canon(ContentTypeName)] == headers[j].value
  {
    CustomHeaderLastWins(canon, headers, j, canon(ContentTypeName));
  }

  /** The JSON default is added when the method is `POST`, `PUT` or `PATCH`, a
      body exists and the rows left the content type empty: no row set it, or
      the last row that set it gave an empty value. */
  lemma JsonDefaultAdded(canon: string -> string, headers: seq<Header>, isAPIKey: bool, apiKey: string, httpMethod: string)
    requires SendsJson(httpMethod)
    requires HeaderGet(canon, CustomHeader(canon, headers), ContentTypeName) == ""
    requires isAPIKey ==> canon(AuthorizationName) != canon(ContentTypeName)
    ensures canon(ContentTypeName) in FinalHeader(canon, headers, isAPIKey, apiKey, httpMethod, true)
    ensures FinalHeader(canon, headers, isAPIKey, apiKey, httpMethod, true)[canon(ContentTypeName)] == JsonType
  {
  }

  /** In particular, the default is added when no row names the content type. */
  lemma JsonDefaultWithoutContentTypeRow(canon: string -> string, headers: seq<Header>, isAPIKey: bool,
                                         apiKey: string, httpMethod: string)
    requires SendsJson(httpMethod)
    requires forall j :: 0 <= j < |headers| && headers[j].name != "" ==> canon(headers[j].name) != canon(ContentTypeName)
    requires isAPIKey ==> canon(AuthorizationName) != canon(ContentTypeName)
    ensures canon(ContentTypeName) in FinalHeader(canon, headers, isAPIKey, apiKey, httpMethod, true)
    ensures FinalHeader(canon, headers, isAPIKey, apiKey, httpMethod, true)[canon(ContentTypeName)] == JsonType
  {
    CustomHeaderKeys(canon, headers, canon(ContentTypeName));
    JsonDefaultAdded(canon, headers, isAPIKey, apiKey, httpMethod);
  }

  /** Without a body, or for any other method (including lower-case `post`),
      no content type is added. */
  lemma NoJsonDefault(canon: string -> string, headers: seq<Header>, isAPIKey: bool, apiKey: string,
                      httpMethod: string, hasBody: bool)
    requires !SendsJson(httpMethod) || !hasBody
    ensures FinalHeader(canon, headers, isAPIKey, apiKey, httpMethod, hasBody)
      == WithBearer(canon, CustomHeader(canon, headers), isAPIKey, apiKey)
  {
  }

  // ---------------------------------------------------------------- the call

  /** What the helper returns, step by step. */
  function Call(urlStr: string, httpMethod: string, headers: seq<Header>, formData: seq<FormData>,
                isAPIKey: bool, apiKey: string, rt: Runtime): CallTrace
  {
    var step := BodyOf(formData, rt.marshal);
    if step.MarshalFailed? then CallTrace(MarshalError, None)
    else if !rt.newRequestOk(httpMethod, urlStr) then CallTrace(NewRequestError, None)
    else
      var body := if step.Encoded? then Some(step.json) else None;
      var req := HttpRequest(httpMethod, urlStr, body,
                             FinalHeader(rt.canon, headers, isAPIKey, apiKey, httpMethod, body.Some?));
      match rt.exchange(req)
      case DoFailed(err) => CallTrace(DoError + err, Some(req))
      case Delivered(None) => CallTrace(ReadError, Some(req))
      case Delivered(Some(text)) => CallTrace(text, Some(req))
  }

  /** Each failing step returns its own fixed string (the client error text
      appended with no separator); once the body is encoded and the request is
      built, the request sent carries the method, the URL, the encoded form map
      (or no body) and the final headers, and a read response returns its body. */
  lemma CallResults(urlStr: string, httpMethod: string, headers: seq<Header>, formData: seq<FormData>,
                    isAPIKey: bool, apiKey: string, rt: Runtime)
    ensures var t := Call(urlStr, httpMethod, headers, formData, isAPIKey, apiKey, rt);
      && (BodyOf(formData, rt.marshal).MarshalFailed? ==> t == CallTrace(MarshalError, None))
      && (!BodyOf(formData, rt.marshal).MarshalFailed? && !rt.newRequestOk(httpMethod, urlStr) ==>
            t == CallTrace(NewRequestError, None))
      && (!BodyOf(formData, rt.marshal).MarshalFailed? && rt.newRequestOk(httpMethod, urlStr) ==>
            t.sent == Some(HttpRequest(httpMethod, urlStr,
              if BodyOf(formData, rt.marshal).Encoded? then Some(BodyOf(formData, rt.marshal).json) else None,
              FinalHeader(rt.canon, headers, isAPIKey, apiKey, httpMethod, BodyOf(formData, rt.marshal).Encoded?))))
      && (t.sent.Some? ==>
            && t.sent.value.url == urlStr && t.sent.value.httpMethod == httpMethod
            && (t.sent.value.body.Some? <==> exists j :: 0 <= j < |formData| && formData[j].key != "")
            && (rt.exchange(t.sent.value).DoFailed? ==> t.result == DoError + rt.exchange(t.sent.value).err)
            && (rt.exchange(t.sent.value) == Delivered(None) ==> t.result == ReadError)
            && (rt.exchange(t.sent.value).Delivered? && rt.exchange(t.sent.value).body.Some? ==>
                  t.result == rt.exchange(t.sent.value).body.value))
  {
    BodyPresence(formData, rt.marshal);
  }

  /** `APICall.APICall`: the loops fill the form map and the header map in
      place, then the request is built and sent. */
  method APICall(urlStr: string, httpMethod: string, headers: seq<Header>, formData: seq<FormData>,
                 isAPIKey: bool, apiKey: string, rt: Runtime)
    returns (result: string, sent: Option<HttpRequest>)
    ensures CallTrace(result, sent) == Call(urlStr, httpMethod, headers, formData, isAPIKey, apiKey, rt)
  {
    var body: Option<string> := None;
    if |formData| > 0 {
      var dataMap: map<string, string> := map[];
      for i := 0 to |formData|
        invariant dataMap == Assoc.Assign(formData[..i], FormMapEntry)
      {
        assert formData[..i + 1][..i] == formData[..i];
        if formData[i].key != "" {
          dataMap := dataMap[formData[i].key := formData[i].value];
        }
      }
      assert formData[..|formData|] == formData;
      if |dataMap| > 0 {
        var jsonBytes := rt.marshal(dataMap);
        if jsonBytes.None? {
          return MarshalError, None;
        }
        body := Some(jsonBytes.value);
      }
    }

    if !rt.newRequestOk(httpMethod, urlStr) {
      return NewRequestError, None;
    }

    var header: map<string, string> := map[];
    for i := 0 to |headers|
      invariant header == Assoc.Assign(headers[..i], HeaderSetEntry(rt.canon))
    {
      assert headers[..i + 1][..i] == headers[..i];
      if headers[i].name != "" {
        header := header[rt.canon(headers[i].name) := headers[i].value];
      }
    }
    assert headers[..|headers|] == headers;

    if isAPIKey {
      header := header[rt.canon(AuthorizationName) := "Bearer " + apiKey];
    }
    if SendsJson(httpMethod) && HeaderGet(rt.canon, header, ContentTypeName) == "" && body.Some? {
      header := header[rt.canon(ContentTypeName) := JsonType];
    }

    var req := HttpRequest(httpMethod, urlStr, body, header);
    sent := Some(req);
    var exchanged := rt.exchange(req);
    match exchanged {
      case DoFailed(err) =>
        result := DoError + err;
      case Delivered(None) =>
        result := ReadError;
      case Delivered(Some(text)) =>
        result := text;
    }
  }
}
