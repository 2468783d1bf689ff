/** The request form component: one object whose fields are the component's
    state slots, and one method per event handler.  The `language` selector and
    the password-visibility toggle only affect what is displayed and are not
    part of the state kept here. */
module RequestComponent {
  import opened Wrappers
  import opened Rows
  import opened Query
  import opened Submit

  /** A stored preference read with a fallback: an absent or empty stored value
      gives the fallback. */
  function StoredOr(stored: Option<string>, fallback: string): (r: string)
    ensures stored.Some? && stored.value != "" ==> r == stored.value
    ensures stored.None? || stored.value == "" ==> r == fallback
    ensures r == "" <==> fallback == "" && (stored.None? || stored.value == "")
  {
    if stored.Some? && stored.value != "" then stored.value else fallback
  }

  class Request {
    var url: string
    var httpMethod: string
    var paramsInfo: seq<Param>
    var body: seq<BodyRow>
    var key: Credential
    var headers: seq<HeaderRow>
    var response: string
    var bodyType: string
    var raw: string
    var isLoading: bool
    /** The persisted `url` and `method` entries of the browser's local storage. */
    var storedUrl: Option<string>
    var storedMethod: Option<string>
    /** The names of the files offered for download so far, in order. */
    var downloads: seq<string>

    /** The template row of each table is never removed. */
    ghost predicate Valid()
      reads this
    {
      |paramsInfo| >= 1 && |body| >= 1 && |headers| >= 1
    }

    /** The parameter table can be read back from the URL's query string. */
    ghost predicate UrlShowsParams()
      reads this
    {
      Base(url) + "?" + QueryString(paramsInfo) == url
    }

    /** Mounting the component: every table holds one blank row, and the URL
        and method come from local storage. */
    constructor (savedUrl: Option<string>, savedMethod: Option<string>)
      ensures Valid()
      ensures url == StoredOr(savedUrl, "") && httpMethod == StoredOr(savedMethod, "get")
      ensures paramsInfo == [BlankParam] && body == [BlankBodyRow] && headers == [BlankHeader]
      ensures key == BlankCredential
      ensures response == "" && bodyType == "form-data" && raw == "" && !isLoading
      ensures storedUrl == savedUrl && storedMethod == savedMethod && downloads == []
    {
      url := StoredOr(savedUrl, "");
      httpMethod := StoredOr(savedMethod, "get");
      paramsInfo := [BlankParam];
      body := [BlankBodyRow];
      key := BlankCredential;
      headers := [BlankHeader];
      response := "";
      bodyType := "form-data";
      raw := "";
      isLoading := false;
      storedUrl, storedMethod := savedUrl, savedMethod;
      downloads := [];
    }

    // ------------------------------------------------------------ header bar

    /** Choosing a method; it is persisted. */
    method SelectMethod(m: string)
      modifies this`httpMethod, this`storedMethod
      ensures httpMethod == m && storedMethod == Some(m)
    {
      httpMethod := m;
      storedMethod := Some(m);
    }

    /** Typing in the URL field; it is persisted. */
    method EditUrl(u: string)
      modifies this`url, this`storedUrl
      ensures url == u && storedUrl == Some(u)
    {
      url := u;
      storedUrl := Some(u);
    }

    // ------------------------------------------------------------ parameters

    /** Typing in the key field of parameter row `i`: the row is replaced and the
        URL is rewritten from the rows (the rewrite is not persisted). */
    method EditParamKey(i: nat, k: string)
      requires Valid() && i < |paramsInfo|
      modifies this`paramsInfo, this`url
      ensures Valid()
      ensures paramsInfo == ReplaceAt(old(paramsInfo), i, old(paramsInfo)[i].(key := k))
      ensures url == RecomputeUrl(old(url), paramsInfo)
      ensures UrlShowsParams()
      ensures Plain(paramsInfo) ==> ParseQuery(QueryPart(url)) == paramsInfo
    {
      paramsInfo := ReplaceAt(paramsInfo, i, paramsInfo[i].(key := k));
      RecomputeUrlIdempotent(url, paramsInfo);
      if Plain(paramsInfo) {
        RecomputeUrlRoundTrip(url, paramsInfo);
      }
      url := RecomputeUrl(url, paramsInfo);
    }

    /** Typing in the value field of parameter row `i`. */
    method EditParamValue(i: nat, v: string)
      requires Valid() && i < |paramsInfo|
      modifies this`paramsInfo, this`url
      ensures Valid()
      ensures paramsInfo == ReplaceAt(old(paramsInfo), i, old(paramsInfo)[i].(value := v))
      ensures url == RecomputeUrl(old(url), paramsInfo)
      ensures UrlShowsParams()
      ensures Plain(paramsInfo) ==> ParseQuery(QueryPart(url)) == paramsInfo
    {
      paramsInfo := ReplaceAt(paramsInfo, i, paramsInfo[i].(value := v));
      RecomputeUrlIdempotent(url, paramsInfo);
      if Plain(paramsInfo) {
        RecomputeUrlRoundTrip(url, paramsInfo);
      }
      url := RecomputeUrl(url, paramsInfo);
    }

    /** The delete button of parameter row `i`, offered for every row but the
        first: the row is dropped and the URL rewritten from the rest. */
    method RemoveParam(i: nat)
      requires Valid() && 0 < i < |paramsInfo|
      modifies this`paramsInfo, this`url
      ensures Valid()
      ensures paramsInfo == RemoveAt(old(paramsInfo), i)
      ensures url == RecomputeUrl(old(url), paramsInfo)
      ensures UrlShowsParams()
      ensures Plain(paramsInfo) ==> ParseQuery(QueryPart(url)) == paramsInfo
    {
      paramsInfo := RemoveAt(paramsInfo, i);
      RecomputeUrlIdempotent(url, paramsInfo);
      if Plain(paramsInfo) {
        RecomputeUrlRoundTrip(url, paramsInfo);
      }
      url := RecomputeUrl(url, paramsInfo);
    }

    /** The add button of the parameter table; the URL is left as it is. */
    method AddParam()
      requires Valid()
      modifies this`paramsInfo
      ensures Valid()
      ensures paramsInfo == old(paramsInfo) + [BlankParam]
    {
      paramsInfo := paramsInfo + [BlankParam];
    }

    // ------------------------------------------------------------ form-data body

    /** Typing in the key field of body row `i`. */
    method EditBodyKey(i: nat, k: string)
      requires Valid() && i < |body|
      modifies this`body
      ensures Valid()
      ensures body == ReplaceAt(old(body), i, old(body)[i].(key := k))
    {
      body := ReplaceAt(body, i, body[i].(key := k));
    }

    /** Choosing the kind of body row `i` (`text` or `file`): the value is
        cleared, the key kept. */
    method SelectBodyKind(i: nat, kind: string)
      requires Valid() && i < |body|
      modifies this`body
      ensures Valid()
      ensures body == ReplaceAt(old(body), i, BodyRow(old(body)[i].key, kind, Text("")))
    {
      body := ReplaceAt(body, i, body[i].(kind := kind, value := Text("")));
    }

    /** Typing in the text value field of body row `i`. */
    method EditBodyText(i: nat, v: string)
      requires Valid() && i < |body|
      modifies this`body
      ensures Valid()
      ensures body == ReplaceAt(old(body), i, old(body)[i].(value := Text(v)))
    {
      body := ReplaceAt(body, i, body[i].(value := Text(v)));
    }

    /** The file input of body row `i` reported the file list `files`
        (`None`: no list at all, nothing changes); the row takes the first file,
        or `undefined` when the list is empty. */
    method PickBodyFile(i: nat, files: Option<seq<File>>)
      requires Valid() && i < |body|
      modifies this`body
      ensures Valid()
      ensures files.None? ==> body == old(body)
      ensures files.Some? && |files.value| > 0 ==>
        body == ReplaceAt(old(body), i, old(body)[i].(value := Upload(files.value[0])))
      ensures files.Some? && |files.value| == 0 ==>
        body == ReplaceAt(old(body), i, old(body)[i].(value := Absent))
    {
      if files.None? {
        return;
      }
      var picked := if |files.value| > 0 then Upload(files.value[0]) else Absent;
      body := ReplaceAt(body, i, body[i].(value := picked));
    }

    /** The delete button of body row `i`, offered for every row but the first. */
    method RemoveBodyRow(i: nat)
      requires Valid() && 0 < i < |body|
      modifies this`body
      ensures Valid()
      ensures body == RemoveAt(old(body), i)
    {
      body := RemoveAt(body, i);
    }

    /** The add button of the body table. */
    method AddBodyRow()
      requires Valid()
      modifies this`body
      ensures Valid()
      ensures body == old(body) + [BlankBodyRow]
    {
      body := body + [BlankBodyRow];
    }

    /** Switching between the form-data and raw tabs; neither body is touched. */
    method SelectBodyType(t: string)
      modifies this`bodyType
      ensures bodyType == t
    {
      bodyType := t;
    }

    /** Typing in the raw body editor. */
    method EditRaw(text: string)
      modifies this`raw
      ensures raw == text
    {
      raw := text;
    }

    // ------------------------------------------------------------ credential

    method EditCredentialKey(k: string)
      modifies this`key
      ensures key == Credential(k, old(key).value)
    {
      key := Credential(k, key.value);
    }

    method EditCredentialValue(v: string)
      modifies this`key
      ensures key == Credential(old(key).key, v)
    {
      key := Credential(key.key, v);
    }

    // ------------------------------------------------------------ headers

    /** Typing in the name field of header row `i`. */
    method EditHeaderName(i: nat, n: string)
      requires Valid() && i < |headers|
      modifies this`headers
      ensures Valid()
      ensures headers == ReplaceAt(old(headers), i, old(headers)[i].(name := n))
    {
      headers := ReplaceAt(headers, i, headers[i].(name := n));
    }

    /** Typing in the value field of header row `i`. */
    method EditHeaderValue(i: nat, v: string)
      requires Valid() && i < |headers|
      modifies this`headers
      ensures Valid()
      ensures headers == ReplaceAt(old(headers), i, old(headers)[i].(value := v))
    {
      headers := ReplaceAt(headers, i, headers[i].(value := v));
    }

    /** The delete button of header row `i`, offered for every row but the first. */
    method RemoveHeader(i: nat)
      requires Valid() && 0 < i < |headers|
      modifies this`headers
      ensures Valid()
      ensures headers == RemoveAt(old(headers), i)
    {
      headers := RemoveAt(headers, i);
    }

    /** The add button of the header table. */
    method AddHeader()
      requires Valid()
      modifies this`headers
      ensures Valid()
      ensures headers == old(headers) + [BlankHeader]
    {
      headers := headers + [BlankHeader];
    }

    // ------------------------------------------------------------ send

    /** The request the send button would issue from the current state. */
    ghost function Outgoing(): FetchRequest
      reads this
    {
      FetchRequest(url, httpMethod, SentBody(httpMethod, DraftBody(bodyType, body, raw)), HeaderObject(headers, key))
    }

    /** The send button up to the network call: a URL that is blank after
        trimming stops here with nothing changed; otherwise the body and the
        headers are assembled, the loading flag is raised and the request is
        issued. */
    method BeginSend() returns (request: Option<FetchRequest>)
      modifies this`isLoading
      ensures Trim(url) == "" ==> request == None && isLoading == old(isLoading)
      ensures Trim(url) != "" ==> request == Some(Outgoing()) && isLoading
    {
      if Trim(url) == "" {
        return None;
      }
      var draft: Payload;
      if bodyType == "form-data" {
        var entries := CollectFormData(body);
        draft := Multipart(entries);
      } else if bodyType == "raw" {
        draft := RawText(raw);
      } else {
        draft := NoPayload;
      }
      isLoading := true;
      var sent := if httpMethod == "get" || httpMethod == "head" then NoPayload else draft;
      request := Some(FetchRequest(url, httpMethod, sent, HeaderObject(headers, key)));
    }

    /** The send button after the call settled with `outcome`: the loading flag
        is lowered, a download is recorded when one is offered, and the panel
        shows the outcome. */
    method FinishSend(outcome: FetchOutcome)
      modifies this`isLoading, this`response, this`downloads
      ensures !isLoading
      ensures response == Settle(outcome).response
      ensures downloads == old(downloads) +
        (if Settle(outcome).download.Some? then [Settle(outcome).download.value] else [])
    {
      isLoading := false;
      var contentType := if outcome.Resolved? then outcome.contentType.GetOr("") else "";
      if outcome.Rejected? || outcome.body.None? {
        response := FetchError;
      } else if IsDownloadType(contentType) {
        downloads := downloads + [DownloadName];
        response := DownloadDone;
      } else {
        response := outcome.body.value;
      }
    }

    /** One full click of the send button whose call settles with `outcome`. */
    method Send(outcome: FetchOutcome) returns (request: Option<FetchRequest>)
      modifies this`isLoading, this`response, this`downloads
      ensures Trim(old(url)) == "" ==>
        request == None && isLoading == old(isLoading) && response == old(response) && downloads == old(downloads)
      ensures Trim(url) != "" ==>
        request == Some(Outgoing()) && !isLoading && response == Settle(outcome).response &&
        downloads == old(downloads) +
          (if Settle(outcome).download.Some? then [Settle(outcome).download.value] else [])
    {
      ghost var before := Outgoing();
      request := BeginSend();
      assert request.Some? ==> request == Some(before);
      if request.Some? {
        FinishSend(outcome);
        assert Outgoing() == before;
      }
    }
  }
}
