/** What the send button of the request form computes from the current form
    state before and after the network call: the URL check, the body, the
    header object, and how the outcome of the call is shown. */
module Submit {
  import opened Wrappers
  import opened Rows
  import Assoc

  // ---------------------------------------------------------------- URL check

  /** The characters `String.prototype.trim` removes: ECMAScript white space
      (tab, vertical tab, form feed, space, no-break space, byte order mark and
      the space separators) and line terminators. */
  predicate IsJsSpace(c: char)
  {
    c == '\t' || c == '\n' || c == '\U{000B}' || c == '\U{000C}' || c == '\r' || c == ' ' ||
    c == '\U{00A0}' || c == '\U{1680}' || ('\U{2000}' <= c <= '\U{200A}') ||
    c == '\U{2028}' || c == '\U{2029}' || c == '\U{202F}' || c == '\U{205F}' ||
    c == '\U{3000}' || c == '\U{FEFF}'
  }

  function TrimStart(s: string): (r: string)
    ensures |r| <= |s| && r == s[|s| - |r|..]
    ensures forall k :: 0 <= k < |s| - |r| ==> IsJsSpace(s[k])
    ensures r == [] || !IsJsSpace(r[0])
  {
    if s != [] && IsJsSpace(s[0]) then TrimStart(s[1..]) else s
  }

  function TrimEnd(s: string): (r: string)
    ensures |r| <= |s| && r == s[..|r|]
    ensures forall k :: |r| <= k < |s| ==> IsJsSpace(s[k])
    ensures r == [] || !IsJsSpace(r[|r| - 1])
  {
    if s != [] && IsJsSpace(s[|s| - 1]) then TrimEnd(s[..|s| - 1]) else s
  }

  /** `s.trim()`. */
  function Trim(s: string): (r: string)
    ensures |r| <= |s|
    ensures r != "" ==> !IsJsSpace(r[0]) && !IsJsSpace(r[|r| - 1])
  {
    TrimEnd(TrimStart(s))
  }

  /** The URL check rejects exactly the URLs made only of white space. */
  lemma TrimEmpty(s: string)
    ensures Trim(s) == "" <==> forall k :: 0 <= k < |s| ==> IsJsSpace(s[k])
  {
  }

  // ---------------------------------------------------------------- body

  /** One `FormData.append(name, value)` call. */
  datatype FormEntry = FormEntry(name: string, value: BodyValue)

  /** The body handed to `fetch`: none, a multipart form, or the raw text. */
  datatype Payload = NoPayload | Multipart(entries: seq<FormEntry>) | RawText(text: string)

  /** The form entries of the body rows: one per row with a non-empty key, in
      row order, duplicates kept. */
  function FormEntries(rows: seq<BodyRow>): (r: seq<FormEntry>)
    ensures |r| <= |rows|
    ensures forall k :: 0 <= k < |r| ==> r[k].name != ""
    ensures r == [] <==> forall k :: 0 <= k < |rows| ==> rows[k].key == ""
  {
    if rows == [] then []
    else
      var last := rows[|rows| - 1];
      FormEntries(rows[..|rows| - 1]) + (if last.key != "" then [FormEntry(last.key, last.value)] else [])
  }

  /** A single row gives its own key and value as an entry when its key is
      non-empty, and nothing otherwise; with `FormEntriesConcat` this fixes the
      entries of every list of rows. */
  lemma FormEntriesOfRow(row: BodyRow)
    ensures FormEntries([row]) == if row.key != "" then [FormEntry(row.key, row.value)] else []
  {
    assert [row][..0] == [];
  }

  /** An entry exists for exactly the rows with a non-empty key: entry `k` is
      the key and value of some such row, and every such row has its entry. */
  lemma {:induction false} FormEntriesMembers(rows: seq<BodyRow>)
    ensures forall e :: e in FormEntries(rows) <==>
      exists j :: 0 <= j < |rows| && rows[j].key != "" && e == FormEntry(rows[j].key, rows[j].value)
    decreases |rows|
  {
    if rows != [] {
      var n := |rows| - 1;
      FormEntriesMembers(rows[..n]);
      forall e ensures e in FormEntries(rows) <==>
        exists j :: 0 <= j < |rows| && rows[j].key != "" && e == FormEntry(rows[j].key, rows[j].value)
      {
        if e in FormEntries(rows[..n]) {
          var j :| 0 <= j < n && rows[..n][j].key != "" && e == FormEntry(rows[..n][j].key, rows[..n][j].value);
          assert rows[j] == rows[..n][j];
        }
        if exists j :: 0 <= j < |rows| && rows[j].key != "" && e == FormEntry(rows[j].key, rows[j].value) {
          var j :| 0 <= j < |rows| && rows[j].key != "" && e == FormEntry(rows[j].key, rows[j].value);
          if j < n {
            assert rows[..n][j] == rows[j];
          }
        }
      }
    }
  }

  /** The entries of two consecutive stretches of rows are those of the first
      followed by those of the second. */
  lemma {:induction false} FormEntriesConcat(a: seq<BodyRow>, b: seq<BodyRow>)
    ensures FormEntries(a + b) == FormEntries(a) + FormEntries(b)
    decreases |b|
  {
    if b == [] {
      assert a + b == a;
    } else {
      var n := |b| - 1;
      assert (a + b)[..|a + b| - 1] == a + b[..n];
      assert (a + b)[|a + b| - 1] == b[n];
      FormEntriesConcat(a, b[..n]);
    }
  }

  /** The loop over the body rows that appends one form entry per row with a non-empty key. */
  method CollectFormData(rows: seq<BodyRow>) returns (entries: seq<FormEntry>)
    ensures entries == FormEntries(rows)
  {
    entries := [];
    for j := 0 to |rows|
      invariant entries == FormEntries(rows[..j])
    {
      assert rows[..j + 1][..j] == rows[..j];
      if rows[j].key != "" {
        entries := entries + [FormEntry(rows[j].key, rows[j].value)];
      }
    }
    assert rows[..|rows|] == rows;
  }

  /** `requestBody` as chosen by the body mode, before the method is looked at. */
  function DraftBody(bodyType: string, rows: seq<BodyRow>, raw: string): Payload
  {
    if bodyType == "form-data" then Multipart(FormEntries(rows))
    else if bodyType == "raw" then RawText(raw)
    else NoPayload
  }

  /** The body passed to the call: none for `get` and `head`, else the chosen one. */
  function SentBody(httpMethod: string, draft: Payload): (r: Payload)
    ensures r == NoPayload || r == draft
    ensures r != NoPayload ==> httpMethod != "get" && httpMethod != "head"
  {
    if httpMethod == "get" || httpMethod == "head" then NoPayload else draft
  }

  /** A `get` or `head` request never carries a body, whatever the mode and the
      rows; any other method carries what the mode selects. */
  lemma SentBodyByMethod(httpMethod: string, bodyType: string, rows: seq<BodyRow>, raw: string)
    ensures httpMethod == "get" || httpMethod == "head" ==> SentBody(httpMethod, DraftBody(bodyType, rows, raw)) == NoPayload
    ensures httpMethod != "get" && httpMethod != "head" && bodyType == "raw" ==>
      SentBody(httpMethod, DraftBody(bodyType, rows, raw)) == RawText(raw)
    ensures httpMethod != "get" && httpMethod != "head" && bodyType == "form-data" ==>
      SentBody(httpMethod, DraftBody(bodyType, rows, raw)) == Multipart(FormEntries(rows))
  {
  }

  // ---------------------------------------------------------------- headers

  const AuthorizationName := "Authorization"

  /** The `Authorization` value derived from the credential. */
  function AuthValue(cred: Credential): (v: string)
    ensures v == "" <==> cred.value == ""
    ensures cred.value != "" ==> v == "Bearer " + cred.value
  {
    if cred.value == "" then "" else "Bearer " + cred.value
  }

  /** A header row's entry for `Object.fromEntries`, or none for an empty name. */
  function HeaderEntry(h: HeaderRow): Option<(string, string)>
  {
    if h.name != "" then Some((h.name, h.value)) else None
  }

  /** The header object: the derived `Authorization` entry, then the entries of
      the named rows spread over it. */
  function HeaderObject(rows: seq<HeaderRow>, cred: Credential): (r: map<string, string>)
    ensures AuthorizationName in r
  {
    map[AuthorizationName := AuthValue(cred)] + Assoc.Assign(rows, HeaderEntry)
  }

  /** Row `j` is the last row carrying the header name `name`. */
  ghost predicate LastNamed(rows: seq<HeaderRow>, j: int, name: string)
  {
    0 <= j < |rows| && rows[j].name == name &&
    forall j' :: j < j' < |rows| ==> rows[j'].name != name
  }

  lemma LastNamedIsLastAssignment(rows: seq<HeaderRow>, j: int)
    requires 0 <= j < |rows| && rows[j].name != "" && LastNamed(rows, j, rows[j].name)
    ensures Assoc.LastAssignment(rows, HeaderEntry, j)
  {
  }

  /** The header object has exactly the key `Authorization` and the non-empty
      names of the rows; a row with an empty name contributes nothing. */
  lemma HeaderObjectKeys(rows: seq<HeaderRow>, cred: Credential, name: string)
    ensures name in HeaderObject(rows, cred) <==>
      name == AuthorizationName || (name != "" && exists j :: 0 <= j < |rows| && rows[j].name == name)
  {
    Assoc.AssignKeys(rows, HeaderEntry, name);
    if name != "" && exists j :: 0 <= j < |rows| && rows[j].name == name {
      var j :| 0 <= j < |rows| && rows[j].name == name;
      assert Assoc.Assigns(rows, HeaderEntry, j, name);
    }
  }

  /** The value of a named header is the one of its last row; without any
      `Authorization` row, `Authorization` carries the credential (`''` when
      the credential is empty). */
  lemma HeaderObjectValues(rows: seq<HeaderRow>, cred: Credential, j: int)
    requires 0 <= j < |rows| && rows[j].name != "" && LastNamed(rows, j, rows[j].name)
    ensures rows[j].name in HeaderObject(rows, cred)
    ensures HeaderObject(rows, cred)[rows[j].name] == rows[j].value
  {
    LastNamedIsLastAssignment(rows, j);
    Assoc.AssignLastWins(rows, HeaderEntry, j);
  }

  lemma HeaderObjectDefaultAuthorization(rows: seq<HeaderRow>, cred: Credential)
    requires forall j :: 0 <= j < |rows| ==> rows[j].name != AuthorizationName
    ensures AuthorizationName in HeaderObject(rows, cred)
    ensures HeaderObject(rows, cred)[AuthorizationName] == AuthValue(cred)
  {
    Assoc.AssignKeys(rows, HeaderEntry, AuthorizationName);
  }

  /** A custom `Authorization` row overrides the bearer value derived from the
      credential. */
  lemma CustomAuthorizationWins(rows: seq<HeaderRow>, cred: Credential, j: int)
    requires LastNamed(rows, j, AuthorizationName)
    ensures HeaderObject(rows, cred)[AuthorizationName] == rows[j].value
  {
    HeaderObjectValues(rows, cred, j);
  }

  /** With rows `('', 'x')` and `('X-Id', '42')` and the credential `tok123`,
      the headers are `Authorization: Bearer tok123` and `X-Id: 42`. */
  lemma HeaderObjectExample()
    ensures HeaderObject([HeaderRow("", "x"), HeaderRow("X-Id", "42")], Credential("", "tok123"))
      == map[AuthorizationName := "Bearer tok123", "X-Id" := "42"]
  {
    var rows := [HeaderRow("", "x"), HeaderRow("X-Id", "42")];
    assert rows[..1] == [HeaderRow("", "x")];
    assert [HeaderRow("", "x")][..0] == [];
    assert Assoc.Assign([HeaderRow("", "x")], HeaderEntry) == map[];
    assert Assoc.Assign(rows, HeaderEntry) == map["X-Id" := "42"];
    assert AuthValue(Credential("", "tok123")) == "Bearer tok123";
    assert AuthorizationName != "X-Id";
  }

  /** An empty credential still yields an `Authorization` key, with value `''`. */
  lemma EmptyCredentialKeepsKey(rows: seq<HeaderRow>, cred: Credential)
    requires cred.value == ""
    requires forall j :: 0 <= j < |rows| ==> rows[j].name != AuthorizationName
    ensures AuthorizationName in HeaderObject(rows, cred)
    ensures HeaderObject(rows, cred)[AuthorizationName] == ""
  {
    HeaderObjectDefaultAuthorization(rows, cred);
  }

  // ---------------------------------------------------------------- request

  /** The arguments of the `fetch` call. */
  datatype FetchRequest = FetchRequest(url: string, httpMethod: string, body: Payload, headers: map<string, string>)

  // ---------------------------------------------------------------- outcome

  /** How the call ended: `fetch` rejected, or it resolved with the response's
      `Content-Type` (`None` when absent) and the body as read by `blob()` or
      `text()` (`None` when reading it rejected). */
  datatype FetchOutcome = Rejected | Resolved(contentType: Option<string>, body: Option<string>)

  const FetchError := "Error when fetching the API"
  const DownloadDone := "File successfully downloaded \U{2B07}\U{FE0F}"
  const DownloadName := "file"

  /** Media types that are saved as a file instead of being shown. */
  predicate IsDownloadType(contentType: string)
  {
    "image/" <= contentType || "audio/" <= contentType || "video/" <= contentType ||
    contentType == "application/octet-stream"
  }

  /** The text shown in the response panel and the name of the file offered
      for download, if any. */
  datatype Settlement = Settlement(response: string, download: Option<string>)

  /** The end of the send handler once the call has settled. */
  function Settle(outcome: FetchOutcome): (r: Settlement)
    ensures r.download.Some? ==> r.response == DownloadDone
    ensures r.download.None? ==>
      r.response == FetchError || (outcome.Resolved? && outcome.body == Some(r.response))
  {
    match outcome
    case Rejected => Settlement(FetchError, None)
    case Resolved(ct, body) =>
      if IsDownloadType(ct.GetOr("")) then
        (if body.Some? then Settlement(DownloadDone, Some(DownloadName)) else Settlement(FetchError, None))
      else
        (if body.Some? then Settlement(body.value, None) else Settlement(FetchError, None))
  }

  /** A file is offered exactly when the response was readable and of a
      download type; it is always named `file`, and then the panel shows the
      confirmation. Otherwise a readable response is shown verbatim, and every
      failure shows the generic error. */
  lemma SettleCases(outcome: FetchOutcome)
    ensures Settle(outcome).download.Some? <==>
      outcome.Resolved? && outcome.body.Some? && IsDownloadType(outcome.contentType.GetOr(""))
    ensures Settle(outcome).download.Some? ==>
      Settle(outcome).download.value == DownloadName && Settle(outcome).response == DownloadDone
    ensures outcome.Resolved? && outcome.body.Some? && !IsDownloadType(outcome.contentType.GetOr("")) ==>
      Settle(outcome).response == outcome.body.value
    ensures outcome.Rejected? || outcome.body.None? ==> Settle(outcome) == Settlement(FetchError, None)
  {
  }

  /** A missing `Content-Type` counts as `''`, so the body is shown as text. */
  lemma MissingContentTypeShowsText(body: string)
    ensures Settle(Resolved(None, Some(body))) == Settlement(body, None)
  {
  }

  /** `p` is not a prefix of `s` when they differ at position `k`. */
  lemma NotPrefix(p: string, s: string, k: nat)
    requires k < |p| && k < |s| && p[k] != s[k]
    ensures !(p <= s)
  {
  }

  /** JSON is shown verbatim; an image is downloaded; the octet-stream rule is
      an exact match and the prefixes are case-sensitive. */
  lemma SettleExamples()
    ensures Settle(Resolved(Some("application/json"), Some("{\"a\":1}"))).response == "{\"a\":1}"
    ensures Settle(Resolved(Some("image/png"), Some(""))) == Settlement(DownloadDone, Some(DownloadName))
    ensures !IsDownloadType("application/octet-stream; charset=x") && !IsDownloadType("Image/png")
  {
    assert "image/" <= "image/png";
    NotPrefix("image/", "application/json", 0);
    NotPrefix("audio/", "application/json", 1);
    NotPrefix("video/", "application/json", 0);
    NotPrefix("image/", "application/octet-stream; charset=x", 0);
    NotPrefix("audio/", "application/octet-stream; charset=x", 1);
    NotPrefix("video/", "application/octet-stream; charset=x", 0);
    NotPrefix("image/", "Image/png", 0);
    NotPrefix("audio/", "Image/png", 0);
    NotPrefix("video/", "Image/png", 0);
  }

  /** The response panel cannot tell a failure from a successful response whose
      body happens to be the error text. */
  lemma ErrorIndistinguishable()
    ensures Settle(Rejected).response == Settle(Resolved(Some("text/plain"), Some(FetchError))).response
  {
    NotPrefix("image/", "text/plain", 0);
    NotPrefix("audio/", "text/plain", 0);
    NotPrefix("video/", "text/plain", 0);
  }
}
