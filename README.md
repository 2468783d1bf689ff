# Request form and request helper of a browser HTTP client

This project models the two pieces of logic of a small browser-based HTTP
client (a lightweight Postman-like page):

- **The request form component** (`frontend/src/components/Request.tsx`). It keeps
  the URL, the method, three editable row tables (query parameters, form-data
  body fields, custom headers), a credential pair, the raw body text, the body
  mode, the response text and a loading flag. Every edit of a parameter row,
  and every parameter row removal, rewrites the URL's query string from the
  table. The send button checks the URL, builds the body and the header object,
  calls `fetch`, and then either offers a download (for image, audio, video and
  octet-stream responses) or shows the response text, or shows a fixed error.
  The component is the class `RequestComponent.Request`: its fields are the
  component's state slots and its methods are the event handlers. The pure parts
  are functions: the row updates (`Rows`), the URL synchroniser (`Query`), and
  the body, header and outcome rules of the send button (`Submit`).
- **The Go helper `APICall`** (`APICall.go`). It folds the form rows into a
  key→value map that is JSON-encoded as the body, sets the custom headers, then
  the bearer header, then a default `Content-Type: application/json`, sends the
  request, and returns the response body. When a step fails it returns that
  step's fixed error string instead; for the third step, the failed exchange,
  the client's error text is appended to it. `ApiCall.APICall` is a method with the helper's two loops. It is
  proved equal to the specification function `ApiCall.Call`, and the lemmas
  about `Call` state the helper's rules.

Both sides build a map from rows in which later rows overwrite earlier ones:
`Object.fromEntries` in the browser, and the `dataMap` and `Header.Set` loops
in Go. That fold is defined once, as `Assoc.Assign`. Its two lemmas say which
keys are present and which row's value each key carries.

The library and browser behaviour the code relies on is an input of the model.
For the browser this is `FetchOutcome`: the call was rejected, or it resolved
with a content type and a readable or unreadable body. For Go it is the
`Runtime` fields: header-name canonicalisation, `json.Marshal`, whether
`http.NewRequest` accepts the request, and the exchange with the server.

Two behaviours of the code are kept as written, and they differ between the
two sides:

- In the browser, the header object always has an `Authorization` key. Its
  value is `''` when the credential is empty and `Bearer <value>` otherwise.
  The custom rows are spread after it, so a custom `Authorization` row wins
  (`Submit.CustomAuthorizationWins`, `Submit.EmptyCredentialKeepsKey`).
- In Go, the bearer header is set after the custom headers, so it wins. This
  holds even when the key is empty (`ApiCall.BearerWins`).

## Model

| member | source | states |
|---|---|---|
| Assoc.AssignKeys | frontend/src/components/Request.tsx:95 | a key is in the folded map exactly when some row assigns it |
| Assoc.AssignLastWins | APICall.go:35-38 | the value of a key is the one written by the last row assigning it |
| Rows.ReplaceAt | frontend/src/components/Request.tsx:146-148 | copy-and-assign keeps the length, puts the new row at `i`, leaves every other row unchanged |
| Rows.FilterIndex | frontend/src/components/Request.tsx:169 | filtering by a running index drops exactly the row at the chosen index, or nothing when it is out of range |
| Rows.RemoveAt | frontend/src/components/Request.tsx:167-175 | removing row `i` shortens the list by one and keeps the rows before and after `i` in order |
| Rows.RemoveAtReinsert | frontend/src/components/Request.tsx:247-253 | putting the removed row back at `i` gives the original list: only row `i` is dropped |
| Query.Split | frontend/src/components/Request.tsx:152 | `split` yields at least one part and no part contains the separator |
| Query.Base | frontend/src/components/Request.tsx:152 | `url.split('?')[0]` is the prefix before the first `?`, or the whole URL when it has none |
| Query.RenderAll | frontend/src/components/Request.tsx:150 | every row renders as `key=value`, in row order, nothing encoded |
| Query.SplitJoin | frontend/src/components/Request.tsx:150-152 | splitting joined parts gives the parts back when none contains the separator |
| Query.RecomputeUrlRoundTrip | frontend/src/components/Request.tsx:150-152 | the new URL keeps the old base, and its query string reads back as the table when no key or value needs encoding |
| Query.RecomputeUrlIdempotent | frontend/src/components/Request.tsx:161-163 | recomputing the URL a second time with the same rows changes nothing |
| Query.QueryStringAppend | frontend/src/components/Request.tsx:150-152 | the query string of a table with one more row (the add button at line 181) is the old query string plus `&key=value` |
| Query.Join | frontend/src/components/Request.tsx:150 | `join` starts with the first part, and contains the separator exactly when there are two or more separator-free parts; `Query.SplitJoin` states the round trip |
| Query.QueryString | frontend/src/components/Request.tsx:150 | the query string is empty exactly when the table is; `Query.QueryStringAppend` and `Query.RecomputeUrlRoundTrip` state its contents |
| Query.RecomputeUrl | frontend/src/components/Request.tsx:152 | the rewritten URL always has a `?` and keeps the old URL's base; `Query.RecomputeUrlRoundTrip` and `Query.RecomputeUrlIdempotent` state the rest |
| Query.BlankRowQuery | frontend/src/components/Request.tsx:150-152 | one blank row gives `base?=`; an empty key gives a `=value` segment |
| Query.ReplacesOldQuery | frontend/src/components/Request.tsx:161-163 | `http://x.com/search?old=1` with row `q=cats` becomes `http://x.com/search?q=cats` |
| Submit.TrimStart | frontend/src/components/Request.tsx:72 | removes exactly the leading white space and line terminators |
| Submit.TrimEnd | frontend/src/components/Request.tsx:72 | removes exactly the trailing white space and line terminators |
| Submit.Trim | frontend/src/components/Request.tsx:72 | the trimmed URL is no longer than the original and neither starts nor ends with white space |
| Submit.TrimEmpty | frontend/src/components/Request.tsx:72 | the URL check rejects exactly the URLs made only of white space |
| Submit.FormEntries | frontend/src/components/Request.tsx:79-81 | entries have non-empty names, there is none exactly when every key is empty |
| Submit.FormEntriesConcat | frontend/src/components/Request.tsx:79-81 | entries follow row order with duplicates kept: the entries of two stretches of rows are concatenated |
| Submit.FormEntriesOfRow | frontend/src/components/Request.tsx:79-81 | a single row gives its own key and value as an entry when the key is non-empty, and nothing otherwise |
| Submit.FormEntriesMembers | frontend/src/components/Request.tsx:79-81 | an entry is exactly the key and value of some row with a non-empty key |
| Submit.CollectFormData | frontend/src/components/Request.tsx:76-81 | the `forEach` loop appends exactly the form entries of the rows |
| Submit.SentBody | frontend/src/components/Request.tsx:92 | the body sent is the drafted one or none, and it is none for `get` and `head` |
| Submit.SentBodyByMethod | frontend/src/components/Request.tsx:74-92 | `get` and `head` never send a body; otherwise raw mode sends the text and form-data mode the entries |
| Submit.AuthValue | frontend/src/components/Request.tsx:94 | the derived value is empty exactly when the credential is, and otherwise `Bearer ` plus the credential |
| Submit.HeaderObject | frontend/src/components/Request.tsx:93-96 | the header object always has an `Authorization` key; `Submit.HeaderObjectKeys` and `Submit.HeaderObjectValues` state its keys and values |
| Submit.HeaderObjectKeys | frontend/src/components/Request.tsx:93-96 | the header object has `Authorization` and exactly the non-empty row names |
| Submit.HeaderObjectValues | frontend/src/components/Request.tsx:95 | each named header carries the value of its last row |
| Submit.HeaderObjectDefaultAuthorization | frontend/src/components/Request.tsx:94 | with no `Authorization` row, `Authorization` carries the credential-derived value |
| Submit.CustomAuthorizationWins | frontend/src/components/Request.tsx:93-96 | a custom `Authorization` row overrides the bearer value |
| Submit.EmptyCredentialKeepsKey | frontend/src/components/Request.tsx:94 | a credential with an empty value, whatever its key, still yields the key `Authorization`, with value `''` |
| Submit.HeaderObjectExample | frontend/src/components/Request.tsx:93-96 | rows `('', 'x')`, `('X-Id', '42')` and credential `tok123` give `Authorization: Bearer tok123`, `X-Id: 42` |
| Submit.Settle | frontend/src/components/Request.tsx:99-120 | when a file is offered the panel shows the confirmation; otherwise it shows the generic error or the readable response body |
| Submit.SettleCases | frontend/src/components/Request.tsx:99-120 | a file named `file` is offered exactly for a readable download-type response, with the confirmation text; other readable responses are shown verbatim; every failure shows the generic error |
| Submit.MissingContentTypeShowsText | frontend/src/components/Request.tsx:101 | a missing content type counts as `''`, so the body is shown as text |
| Submit.SettleExamples | frontend/src/components/Request.tsx:103-116 | JSON is shown verbatim, `image/png` is downloaded, the octet-stream rule is exact and the prefixes are case-sensitive |
| Submit.ErrorIndistinguishable | frontend/src/components/Request.tsx:116-120 | a failure and a response whose body is the error text show the same panel |
| RequestComponent.StoredOr | frontend/src/components/Request.tsx:36-37 | a present, non-empty stored value is returned; an absent or empty one gives the fallback; so the result is empty only when both are |
| RequestComponent.Request.constructor | frontend/src/components/Request.tsx:36-47 | one blank row per table; URL and method from storage, an absent or empty stored value falling back to `''` and `get` |
| RequestComponent.Request.SelectMethod | frontend/src/components/Request.tsx:53-56 | sets and persists the method |
| RequestComponent.Request.EditUrl | frontend/src/components/Request.tsx:67-70 | sets and persists the URL |
| RequestComponent.Request.EditParamKey | frontend/src/components/Request.tsx:146-155 | replaces the key of row `i` only and rewrites the URL from the rows, without persisting it |
| RequestComponent.Request.EditParamValue | frontend/src/components/Request.tsx:157-166 | replaces the value of row `i` only and rewrites the URL from the rows |
| RequestComponent.Request.RemoveParam | frontend/src/components/Request.tsx:167-175 | for `i != 0`, drops row `i` and rewrites the URL from the remaining rows |
| RequestComponent.Request.AddParam | frontend/src/components/Request.tsx:181 | appends one blank row and leaves the URL alone |
| RequestComponent.Request.EditBodyKey | frontend/src/components/Request.tsx:207-212 | replaces the key of body row `i` only |
| RequestComponent.Request.SelectBodyKind | frontend/src/components/Request.tsx:213-218 | sets the kind of body row `i`, clears its value, keeps its key |
| RequestComponent.Request.PickBodyFile | frontend/src/components/Request.tsx:231-239 | no file list changes nothing; otherwise row `i` takes the first file, or `undefined` for an empty list |
| RequestComponent.Request.EditBodyText | frontend/src/components/Request.tsx:240-245 | replaces the text value of body row `i` only |
| RequestComponent.Request.RemoveBodyRow | frontend/src/components/Request.tsx:247-253 | for `i != 0`, drops body row `i` |
| RequestComponent.Request.AddBodyRow | frontend/src/components/Request.tsx:261 | appends one blank text row |
| RequestComponent.Request.SelectBodyType | frontend/src/components/Request.tsx:188 | switches the body mode without touching either body |
| RequestComponent.Request.EditRaw | frontend/src/components/Request.tsx:284 | sets the raw body text |
| RequestComponent.Request.EditCredentialKey | frontend/src/components/Request.tsx:305 | sets the credential key, keeps its value |
| RequestComponent.Request.EditCredentialValue | frontend/src/components/Request.tsx:309 | sets the credential value, keeps its key |
| RequestComponent.Request.EditHeaderName | frontend/src/components/Request.tsx:341-346 | replaces the name of header row `i` only |
| RequestComponent.Request.EditHeaderValue | frontend/src/components/Request.tsx:349-354 | replaces the value of header row `i` only |
| RequestComponent.Request.RemoveHeader | frontend/src/components/Request.tsx:355-361 | for `i != 0`, drops header row `i` |
| RequestComponent.Request.AddHeader | frontend/src/components/Request.tsx:370 | appends one blank header row |
| RequestComponent.Request.BeginSend | frontend/src/components/Request.tsx:71-97 | a blank URL sends nothing and changes nothing; otherwise the loading flag is raised and the request carries the URL, the method, the body and the header object |
| RequestComponent.Request.FinishSend | frontend/src/components/Request.tsx:99-121 | lowers the loading flag, shows the outcome's text and records the download if one is offered |
| RequestComponent.Request.Send | frontend/src/components/Request.tsx:71-122 | a whole click: nothing happens for a blank URL; otherwise the request is issued, the panel shows the outcome with the loading flag lowered, and the offered download, if any, is recorded |
| ApiCall.FormMapKeys | APICall.go:33-39 | rows with an empty key are skipped; every other key is in the form map |
| ApiCall.FormMapLastWins | APICall.go:35-38 | for a duplicated key the last row's value is kept |
| ApiCall.BodyPresence | APICall.go:31-48 | a body exists exactly when some form row has a non-empty key, and is the encoding of the form map |
| ApiCall.CustomHeaderKeys | APICall.go:57-61 | empty-name header rows are skipped; a canonical name is present exactly when a named row has it |
| ApiCall.CustomHeaderLastWins | APICall.go:57-61 | a later row with the same canonical name overwrites an earlier one |
| ApiCall.WithBearer | APICall.go:63-65 | with the flag, `Authorization` becomes `Bearer ` plus the key; every other header is kept and no other header is added |
| ApiCall.WithJsonDefault | APICall.go:67-69 | only the content type can be added; it is non-empty afterwards exactly when it was before, or the method is `POST`, `PUT` or `PATCH` and a body exists |
| ApiCall.BearerWins | APICall.go:63-65 | with the API-key flag, `Authorization` is `Bearer ` plus the key, over any custom value, even for an empty key |
| ApiCall.NoFlagKeepsCustomAuthorization | APICall.go:63-65 | without the flag, `Authorization` is whatever the custom rows made it |
| ApiCall.UserContentTypeKept | APICall.go:67-69 | a non-empty `Content-Type` from the rows is never overwritten |
| ApiCall.JsonDefaultAdded | APICall.go:67-69 | `POST`, `PUT` or `PATCH` with a body get `application/json` whenever the rows left the content type empty |
| ApiCall.JsonDefaultWithoutContentTypeRow | APICall.go:57-69 | in particular, the default is added when no row names the content type |
| ApiCall.NoJsonDefault | APICall.go:67-69 | without a body, or for any other method including lower-case `post`, no content type is added |
| ApiCall.CallResults | APICall.go:23-85 | each failing step returns its fixed string (the client error appended for step 3); once the body is encoded and the request built, the request sent carries the method, the URL, the encoded form map or no body, and the final headers; a read response returns its body |
| ApiCall.APICall | APICall.go:23-86 | the helper's loops and steps compute exactly the trace of `Call` |

## Left out

- The browser calls `fetch`, `blob()`, `text()`, `document.createElement('a')`, `URL.createObjectURL`, `click()` and the `console.error` logging in the failure branch are not modelled. Their outcome is the input `FetchOutcome`, and a download is recorded as the offered file name.
- RequestComponent.Request.FinishSend: the handler lowers the loading flag before it reads the body (`blob()` or `text()`). The model settles both in one step, so the moment when the flag is already down and the body is still being read is not represented.
- Overlapping clicks of the send button, where the last call to settle wins the response panel, are not modelled. That behaviour comes from asynchronous interleaving.
- The persisted `url` and `method` are two optional string fields. Reading them happens once, in the constructor. The browser's storage itself is not modelled.
- The raw-language selector, the password-visibility toggle, the method colours, the rendering and the code editor wrapper (`frontend/src/components/code-block.tsx`) are not modelled. They only affect what is displayed.
- What `FormData.append` and `fetch` do with the entries is not modelled. In particular, an `undefined` value (`Absent`) is sent as the text `undefined`. The model keeps the values as picked.
- How `fetch` merges header names that differ only in case, and how it treats an empty `Authorization` value, is not modelled. The model stops at the header object.
- Row handlers require the row index to be in range, because the tables render one handler per existing row. Handlers from stale renders are not modelled.
- Go's `http.NewRequest` validity rules, `http.Client.Do`, `io.ReadAll`, `json.Marshal` and header-name canonicalisation are uninterpreted fields of `Runtime`. The `fmt.Println` logging and the closing of the response body are not modelled.
- Go headers are multi-valued. The helper only uses `Header.Set`, which leaves one value per name, so the model keeps one string per canonical name.
