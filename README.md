# FogBugz API client — a verified model

This project models the Python FogBugz client class `FogBugz`
(`fogbugz/fogbugz.py`) in Dafny. The client does four things, and the model
covers all four.

- **Endpoint discovery.** The base URL gets a trailing `/`. The client then
  fetches `api.xml` under it and appends the endpoint path that document
  advertises.
- **The session token.** It is set at construction or by `token(t)`,
  obtained by `logon` and dropped by `logoff`. Only a non-empty token is
  sent.
- **Command dispatch.** Attribute lookup for a name not starting with `__`
  gives a handler. The handler is created once and cached. Calling it sends
  the command.
- **Request preparation.** The keyword arguments get `cmd` and the held
  token. The `Files` argument becomes the attachments. Everything is encoded
  as `multipart/form-data` with a `Content-Length`, and the reply is
  classified as a connection error, an API error or a result.

## Modules

| file | module | contents |
|---|---|---|
| `wrappers.dfy` | `Wrappers` | `Option` and `Result` |
| `dicts.dfy` | `Dicts` | Python's insertion-ordered `dict`: a sequence of pairs with `Get`, `Put` (update in place or append) and `Remove` (`del`), plus their laws |
| `decimal.dfy` | `Decimal` | `str(n)` for naturals, and a parser that reads it back |
| `multipart.dfy` | `Multipart` | the encoder `Encode` (a loop over fields and files, proved equal to the layout function `Body`), and the RFC 2046 section 5.1 framing it is proved to produce |
| `multipart_decode.dfy` | `MultipartDecode` | a decoder for that framing, and the round trip "decode of the encoded body gives back the fields and files" |
| `client.dfy` | `FogBugz` | error kinds, replies, request preparation, and the classes `Client` and `Handler` |

## The model in more detail

**The network and the XML parser are oracles.**
- `Client.Open` takes a `discover` function from a URL to `Unreachable` or
  to the advertised endpoint path.
- The sending methods take a `send` function from an encoded `Request` to
  `ConnFailure` or to a parsed `Response`.
- A `Response` carries its error node (code and message), its token
  element and an opaque payload.
- The multipart boundary is a parameter of every sending method, because
  the client draws it at random for each request.

**Errors are a datatype.**
- `ApiError(code, message)`, `LogonError(cause)` and `ConnectionError`
  model the three exception classes at lines 12-21. `IsApiFailure` says
  which errors `except FogBugzAPIError` catches.
- Because both subclasses derive from the API error, `logon` also wraps a
  connection error as `LogonError(ConnectionError)`.
- `NoSuchAttribute(name)` is the `AttributeError` raised for names starting
  with `__`.
- `NoTokenInResponse` is the `AttributeError` of `None.string` when a logon
  reply has no `<token>` element. It is raised outside the `try`, so it is
  not wrapped.
- `ArgumentClash` is Python's `TypeError` when a handler is called with a
  keyword named `cmd` or `self`. Those names collide with the parameters of
  `__makerequest`.

**The token follows Python truthiness.**
- A token is *held* when it is present and not empty.
- `token("")` stores an empty token, which is never sent.
- The constructor and `logon` store no token for an empty text. For
  `logon` this is an empty `<token></token>`, whose `.string` is `None`.

**`Client.sent` records every command request issued.** It is a ghost
field. Through it the contracts state:
- which requests `logon`, `logoff` and a handler send, and in what order;
- that a reserved name, a clashing argument or a failed logoff sends
  nothing more.

**Two consequences of the code worth stating:**
- `logoff` clears the token only when its request succeeds. Line 67 is
  skipped when line 66 raises, so after a failed logoff the token is kept
  and the error is returned.
- The prepared fields carry `token` whenever a token is held. When none is
  held, they carry whatever `token` argument the caller passed. Nothing in
  the code stops a caller from passing one.

## Model

| member | source | states |
|---|---|---|
| FogBugz.Classify | fogbugz/fogbugz.py:89-100 | a transport failure is a connection error; a reply is a result exactly when it is a response with no error node, and then it is returned unchanged; an error node gives an API error with that node's code and message; every failure is one `except FogBugzAPIError` catches |
| FogBugz.NormalizeBase | fogbugz/fogbugz.py:27-28 | the base URL always ends with `/`, a URL already ending with `/` is unchanged, and otherwise exactly one `/` is appended to the original URL |
| FogBugz.StoredToken | fogbugz/fogbugz.py:30-33 | a token text is kept (and then held, equal to the text) exactly when it is non-empty; an empty text keeps no token |
| FogBugz.Client.constructor | fogbugz/fogbugz.py:25-34 | the endpoint is the normalised base followed by the advertised path; the initial token is kept only when non-empty; the handler cache and the request record start empty |
| FogBugz.Client.Open | fogbugz/fogbugz.py:35-42 | discovery fetches `api.xml` under the normalised URL; an unreachable descriptor fails with a connection error and builds no client; otherwise a fresh, consistent client on the advertised endpoint |
| FogBugz.SessionArgs | fogbugz/fogbugz.py:76-78 | adding `cmd` and the held token keeps the arguments well-typed (unique names, attachments exactly under `Files`) |
| FogBugz.SessionArgsSpec | fogbugz/fogbugz.py:76-81 | after injection, `cmd` reads as the command name, `token` as the held token when there is one, every other name as the caller's value, and the attachments are the caller's |
| FogBugz.FieldsOfSpec | fogbugz/fogbugz.py:80-83 | the text fields have unique names, never contain `Files`, and give every other name the argument's text |
| FogBugz.PreparedFields | fogbugz/fogbugz.py:76-83 | the fields of a prepared request: `cmd` is the command name; `token` is the held token, or without one only the caller's `token` argument; `Files` is never a field; all other names carry the caller's text; names are unique; the attachments are the caller's `Files` |
| FogBugz.RequestHeaders | fogbugz/fogbugz.py:85-90 | a request goes to the endpoint, with content type `multipart/form-data; boundary=` plus the boundary and a `Content-Length` that parses back to the body's length |
| FogBugz.RequestRoundTrip | fogbugz/fogbugz.py:75-87 | when the boundary has no CR, the field names and filenames have no CR, and no value or file contents is unsafe (CRLF followed by the value must not contain the delimiter CRLF `--` boundary), decoding a request's body gives back the prepared fields (plus `nFileCount` when there are files) and then the caller's attachments, numbered from 1 |
| FogBugz.LogonArgs | fogbugz/fogbugz.py:54 | the logon arguments are exactly `email` then `password`, well-typed, carrying the user name and the password |
| FogBugz.Client.MakeRequest | fogbugz/fogbugz.py:75-100 | sends exactly the prepared request for the command, records it, and returns the classification of the reply |
| FogBugz.Client.Logoff | fogbugz/fogbugz.py:62-67 | sends one `logoff` request with the current token; on success no token is left; on failure the error is returned and the token is unchanged |
| FogBugz.Client.Logon | fogbugz/fogbugz.py:45-60 | with a held token, a `logoff` goes first and its failure is returned unwrapped with nothing more sent; then one `logon` request with the credentials; its failure becomes a logon error wrapping the cause; a reply without a token element fails as `NoTokenInResponse`; otherwise the reply's token is kept (none when empty) |
| FogBugz.Client.SendLogon | fogbugz/fogbugz.py:53-60 | sends one `logon` request with the given credentials and the current token; a failure becomes a logon error wrapping the cause with the token unchanged; a reply without a token element fails as `NoTokenInResponse` with the token unchanged; otherwise the reply's token is kept (none when empty) |
| FogBugz.Client.SetToken | fogbugz/fogbugz.py:69-73 | the token becomes the given text, and no request is sent |
| FogBugz.Client.GetAttr | fogbugz/fogbugz.py:102-119 | a name starting with `__` fails as no such attribute and changes nothing; a cached name returns its cached handler; a new name gets a fresh handler for that name and the cache changes only at that name; the cache stays consistent |
| FogBugz.Client.Invoke | fogbugz/fogbugz.py:102-119 | a command call: a reserved name fails with nothing sent; a clashing argument fails with nothing sent; otherwise exactly the prepared request for that command is sent and its reply classified; a cached name leaves the cache unchanged, and a new name adds one handler at that name only |
| FogBugz.Handler.constructor | fogbugz/fogbugz.py:115-116 | a handler remembers its command name and its client |
| FogBugz.Handler.Call | fogbugz/fogbugz.py:115-116 | an argument named `cmd` or `self` fails with nothing sent; otherwise the handler sends the prepared request for its own command on its own client and classifies the reply |
| Multipart.WithFileCount | fogbugz/fogbugz.py:130-131 | with files, `nFileCount` reads as their number in decimal and every other field is unchanged; with no files the fields are unchanged; unique names stay unique |
| Multipart.Encode | fogbugz/fogbugz.py:121-152 | the content type is `multipart/form-data; boundary=` plus the boundary, and the body built by the two loops is exactly the specified layout of the fields (with the file count) and the files |
| Multipart.BodyEnds | fogbugz/fogbugz.py:150 | every body ends with `--boundary--` CRLF, preceded by exactly the field sections and then the file sections |
| Multipart.FieldSectionJoin | fogbugz/fogbugz.py:139 | the `CRLF`-join written for a field is its section: dash-boundary, disposition naming the field, blank line, value, CRLF |
| Multipart.FileSectionJoin | fogbugz/fogbugz.py:144-148 | the four writes for a file form its section: dash-boundary, disposition naming `File<n>` and the filename, the octet-stream type, blank line, contents, CRLF |
| Multipart.FieldSectionsFrame | fogbugz/fogbugz.py:136-139 | the field sections are the RFC 2046 encapsulations of one single-header part per field, in order |
| Multipart.FileSectionsFrame | fogbugz/fogbugz.py:141-148 | the file sections are the RFC 2046 encapsulations of one two-header part per file, numbered from 1 in order, with the contents unmodified |
| Multipart.EncapsulationsAppend | fogbugz/fogbugz.py:136-148 | the encapsulations of two part lists are those of the first then those of the second, so the field loop and the file loop compose |
| Multipart.LayoutIsFrame | fogbugz/fogbugz.py:133-150 | the body is exactly an RFC 2046 multipart frame of the field parts followed by the file parts, closed by the close delimiter |
| MultipartDecode.UnframeFrame | fogbugz/fogbugz.py:133-150 | with a CR-free boundary and no part containing the delimiter, splitting a frame at its delimiters gives back the text of every part, in order |
| MultipartDecode.SplitHeadersPartText | fogbugz/fogbugz.py:139 | a part's text splits back into its header lines and its content when the headers are non-empty and CR-free |
| MultipartDecode.DecodeFieldPart | fogbugz/fogbugz.py:139 | a field part decodes to that field's name and value |
| MultipartDecode.DecodeFilePart | fogbugz/fogbugz.py:144-147 | a file part decodes to its slot number, filename and contents |
| MultipartDecode.DecodeLayout | fogbugz/fogbugz.py:136-150 | when the boundary, names and filenames are CR-free and no value or contents, with the CRLF before it, contains the delimiter, decoding the layout gives back every field then every file, numbered from 1 |
| MultipartDecode.DecodeBody | fogbugz/fogbugz.py:128-152 | under the same conditions, decoding an encoded body gives back the fields with the file count, then the files |
| Decimal.NatToString | fogbugz/fogbugz.py:87 | `str(n)` is a non-empty digit string, without a leading zero unless `n` is 0, of one digit exactly when `n < 10` |
| Decimal.ParseNatToString | fogbugz/fogbugz.py:87 | reading `str(n)` back as a decimal gives `n`, so the `Content-Length` and `nFileCount` values carry the exact numbers |
| Decimal.NatToStringInjective | fogbugz/fogbugz.py:131 | different counts give different decimal texts |
| Dicts.GetSpec | fogbugz/fogbugz.py:81 | a dict lookup finds nothing exactly when the key is absent, and with unique keys it finds the entry stored under that key |
| Dicts.PutGet | fogbugz/fogbugz.py:76-78 | after `d[k] = v`, `k` reads as `v` and every other key reads as before |
| Dicts.PutOrder | fogbugz/fogbugz.py:76-78 | `d[k] = v` on an existing key keeps the key order, and on a new key appends the entry at the end |
| Dicts.PutKeys | fogbugz/fogbugz.py:131 | the keys after `d[k] = v` are the old keys plus `k` |
| Dicts.PutUnique | fogbugz/fogbugz.py:131 | `d[k] = v` keeps keys unique |
| Dicts.RemoveGet | fogbugz/fogbugz.py:82-83 | after `del d[k]`, `k` is absent and every other key reads as before; deleting an absent key changes nothing |
| Dicts.RemoveEntries | fogbugz/fogbugz.py:82-83 | every entry left after `del d[k]` was in the dict and is not under `k` |
| Dicts.RemoveUnique | fogbugz/fogbugz.py:82-83 | `del d[k]` keeps keys unique |

## Left out

- Network I/O (`build_opener`, `open`, `Request`) and the XML parser (BeautifulSoup, the `CData` check) are abstracted as the `discover` and `send` functions and the `Reply` datatype. The `CData` re-encoding has no counterpart, because tokens are plain text here.
- Client.MakeRequest: the transport is a function of the request alone, so the model cannot express a server whose answer to the same request changes over time.
- The random boundary of `email.mime.choose_boundary()` is a parameter. `Client.Logon` takes one boundary for its optional logoff request and one for the logon request.
- `h.read()` on file handles: attachment contents are given strings.
- The bytes/text coercion (line 80 encodes text values to bytes and line 139 applies `str` to them) is not reproduced. Values are modelled as text throughout.
- FogBugz.WellTypedArgs: argument values are text, or attachments under `Files`. Other Python values (numbers, or a non-dict `Files`) are outside the model.
- Debug output (`DEBUG` printing at lines 137-138) is left out.
- The `UnicodeDecodeError` branch (lines 94-96) is not modelled: `Reply` has no outcome for a reply that fails to decode. In the code that error is printed and re-raised as it is; it is not a `FogBugzAPIError`, so `logon` would not wrap it either.
- The message texts of the exceptions are replaced by structured fields. The connection-error message at line 41 reads `self._url` before it is assigned; only the fact that a connection error is raised is modelled.
- `self.currentFilter = None` (line 43) and `self._opener` hold no logic that the core uses.
- Client.GetAttr: this is Python's `__getattr__`, which runs only when ordinary lookup fails. Names of ordinary attributes (`logon`, `logoff`, `token`, ...) therefore never reach it. The model does not model ordinary lookup.
- Multipart.Encode: it is a module-level method rather than a static method of the client class, since it uses no client state.
- MultipartDecode.DecodeBody and FogBugz.RequestRoundTrip assume that the boundary has no CR, that field names and filenames have no CR, and that for every value and file contents, CRLF followed by it does not contain the delimiter CRLF `--` boundary. This also rules out a value that starts with `--` and the boundary. The random boundary makes a collision unlikely, but nothing in the source checks for one.
- Determinism: encoding the same fields and files with the same boundary always gives the same body. This holds because `Body` is a function, so no lemma states it.
