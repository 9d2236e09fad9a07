/**
 * The FogBugz API client: endpoint discovery, the session token, the
 * per-command handlers and the preparation, sending and classification of
 * command requests.
 *
 * The HTTP transport and the XML parser are not modelled: the transport is an
 * oracle passed to the methods that send, mapping an encoded request to a
 * connection failure or to the parsed response (its error node, if any, its
 * token text, if any, and an opaque payload). The multipart boundary, which
 * the client draws at random per request, is a parameter.
 */
module FogBugz {
  import opened Wrappers
  import opened Dicts
  import opened Decimal
  import opened Multipart
  import opened MultipartDecode

  /** The failures a client operation ends with. */
  datatype Error =
    /** `FogBugzAPIError`: the response carried an error node. */
    | ApiError(code: string, message: string)
    /** `FogBugzLogonError`: the logon request failed. */
    | LogonError(cause: Error)
    /** `FogBugzConnectionError`: the transport failed. */
    | ConnectionError
    /** `AttributeError` from attribute lookup: a name reserved for Python itself. */
    | NoSuchAttribute(name: string)
    /** `AttributeError` from a logon response without a token element. */
    | NoTokenInResponse
    /** `TypeError`: a handler called with an argument named `cmd` or `self`,
        which clash with the request method's own parameters. */
    | ArgumentClash

  /** The errors that `except FogBugzAPIError` catches: the API error class
      and its two subclasses. */
  predicate IsApiFailure(e: Error) {
    e.ApiError? || e.LogonError? || e.ConnectionError?
  }

  /** An `<error code="...">message</error>` node. */
  datatype Fault = Fault(code: string, message: string)

  /** What sending a request gives: a transport failure, or the parsed
      `<response>` element. */
  datatype Reply =
    | ConnFailure
    | Response(error: Option<Fault>, token: Option<string>, payload: string)

  /** What fetching the descriptor document gives: a transport failure, or
      the endpoint path it advertises. */
  datatype Discovery = Unreachable | Descriptor(endpointPath: string)

  /** Values of a command's keyword arguments: text, or the attachments that
      travel under the reserved argument name `Files` (filename to contents). */
  datatype Value = Text(text: string) | Attachments(files: Dict<string>)

  /** A command request as handed to the transport. */
  datatype Request = Request(url: string, contentType: string, contentLength: string, body: string)

  const FILES_ARG := "Files"
  const DESCRIPTOR_PATH := "api.xml"

  // ---------------------------------------------------------------------
  // Endpoint and token

  /** The base URL with a trailing `/` added when it lacks one. */
  function NormalizeBase(url: string): (r: string)
    ensures |r| > 0 && r[|r| - 1] == '/'
    ensures url != [] && url[|url| - 1] == '/' ==> r == url
    ensures |url| <= |r| <= |url| + 1 && r[..|url|] == url
  {
    if url != [] && url[|url| - 1] == '/' then url else url + "/"
  }

  /** A token counts as held when it is present and not empty: Python's
      truth value of the stored string. */
  predicate Held(token: Option<string>) {
    token.Some? && token.value != ""
  }

  /** Names starting with `__` are left to Python's own attribute lookup. */
  predicate IsPrivateName(name: string) {
    |name| >= 2 && name[..2] == "__"
  }

  // ---------------------------------------------------------------------
  // Preparing a request

  /** What a caller may pass as keyword arguments: unique names, attachments
      exactly under `Files`, text everywhere else. */
  ghost predicate WellTypedArgs(args: Dict<Value>) {
    && UniqueKeys(args)
    && forall i :: 0 <= i < |args| ==> (args[i].0 == FILES_ARG <==> args[i].1.Attachments?)
  }

  /** The caller's text argument under `k`, if any. */
  function ArgText(args: Dict<Value>, k: string): Option<string> {
    var g := Get(args, k);
    if g.Some? && g.value.Text? then Some(g.value.text) else None
  }

  /** The arguments with the command name and, when a token is held, the
      token added; well-typed arguments stay well-typed. */
  function SessionArgs(cmd: string, args: Dict<Value>, token: Option<string>): (r: Dict<Value>)
    ensures WellTypedArgs(args) ==> WellTypedArgs(r)
  {
    var withCmd := Put(args, "cmd", Text(cmd));
    PutTextWellTyped(args, "cmd", cmd);
    PutTextWellTyped(withCmd, "token", if Held(token) then token.value else "");
    if Held(token) then Put(withCmd, "token", Text(token.value)) else withCmd
  }

  /** The attachments under `Files`, or none. */
  function FilesOf(args: Dict<Value>): Dict<string> {
    var g := Get(args, FILES_ARG);
    if g.Some? && g.value.Attachments? then g.value.files else []
  }

  function Texts(d: Dict<Value>): Dict<string>
    requires forall i :: 0 <= i < |d| ==> d[i].1.Text?
  {
    seq(|d|, i requires 0 <= i < |d| => (d[i].0, d[i].1.text))
  }

  /** The text fields: every argument except `Files`, in order. */
  function FieldsOf(args: Dict<Value>): Dict<string>
    requires WellTypedArgs(args)
  {
    RemoveEntries(args, FILES_ARG);
    Texts(Remove(args, FILES_ARG))
  }

  /** The request the client sends for command `cmd`. */
  function BuildRequest(endpoint: string, cmd: string, args: Dict<Value>, token: Option<string>, boundary: string): Request
    requires WellTypedArgs(args)
  {
    var session := SessionArgs(cmd, args, token);
    var body := Body(boundary, FieldsOf(session), FilesOf(session));
    Request(endpoint, ContentType(boundary), NatToString(|body|), body)
  }

  /** What a reply means to the caller: a transport failure is a connection
      error, an error node an API error, anything else the response itself. */
  function Classify(reply: Reply): (r: Result<Reply, Error>)
    ensures reply.ConnFailure? ==> r == Failure(ConnectionError)
    ensures r.Success? <==> reply.Response? && reply.error.None?
    ensures r.Success? ==> r.value == reply
    ensures r.Failure? ==> IsApiFailure(r.error)
    ensures reply.Response? && reply.error.Some? ==>
      r.Failure? && r.error.ApiError? &&
      r.error.code == reply.error.value.code && r.error.message == reply.error.value.message
  {
    match reply
    case ConnFailure => Failure(ConnectionError)
    case Response(Some(fault), _, _) => Failure(ApiError(fault.code, fault.message))
    case Response(None, _, _) => Success(reply)
  }

  lemma {:induction false} PutTextWellTyped(d: Dict<Value>, k: string, s: string)
    requires k != FILES_ARG
    ensures WellTypedArgs(d) ==> WellTypedArgs(Put(d, k, Text(s)))
  {
    var r := Put(d, k, Text(s));
    PutUnique(d, k, Text(s));
    PutEntries(d, k, Text(s));
    if WellTypedArgs(d) {
      forall i | 0 <= i < |r| ensures (r[i].0 == FILES_ARG <==> r[i].1.Attachments?) {
        assert r[i] in r;
      }
    }
  }

  lemma {:induction false} GetTexts(d: Dict<Value>, k: string)
    requires forall i :: 0 <= i < |d| ==> d[i].1.Text?
    ensures Get(Texts(d), k) == ArgText(d, k)
  {
    if d != [] {
      GetTexts(d[1..], k);
      assert Texts(d)[1..] == Texts(d[1..]);
    }
  }

  lemma {:induction false} TextsKeys(d: Dict<Value>)
    requires forall i :: 0 <= i < |d| ==> d[i].1.Text?
    ensures Keys(Texts(d)) == Keys(d)
    ensures UniqueKeys(d) ==> UniqueKeys(Texts(d))
  {
    if d != [] {
      TextsKeys(d[1..]);
      assert Texts(d)[1..] == Texts(d[1..]);
      assert Keys(Texts(d)) == [d[0].0] + Keys(Texts(d[1..]));
      assert Keys(d) == [d[0].0] + Keys(d[1..]);
    }
  }

  /** The text fields of well-typed arguments: each name but `Files` keeps
      its text, and names stay unique. */
  lemma {:induction false} FieldsOfSpec(args: Dict<Value>)
    requires WellTypedArgs(args)
    ensures UniqueKeys(FieldsOf(args)) && !HasKey(FieldsOf(args), FILES_ARG)
    ensures forall k :: k != FILES_ARG ==> Get(FieldsOf(args), k) == ArgText(args, k)
  {
    var kept := Remove(args, FILES_ARG);
    RemoveEntries(args, FILES_ARG);
    RemoveGet(args, FILES_ARG);
    RemoveUnique(args, FILES_ARG);
    TextsKeys(kept);
    forall k | k != FILES_ARG ensures Get(FieldsOf(args), k) == ArgText(args, k) {
      GetTexts(kept, k);
    }
  }

  /** The session arguments: `cmd` set, `token` set when held, the rest as
      the caller passed them. */
  lemma {:induction false} SessionArgsSpec(cmd: string, args: Dict<Value>, token: Option<string>, k: string)
    ensures ArgText(SessionArgs(cmd, args, token), k) ==
      if k == "cmd" then Some(cmd)
      else if k == "token" && Held(token) then Some(token.value)
      else ArgText(args, k)
    ensures FilesOf(SessionArgs(cmd, args, token)) == FilesOf(args)
  {
    var withCmd := Put(args, "cmd", Text(cmd));
    PutGet(args, "cmd", Text(cmd));
    if Held(token) {
      PutGet(withCmd, "token", Text(token.value));
    }
  }

  /** The fields of a prepared request: `cmd` is the command, `token` is the
      held token when there is one (and otherwise only what the caller
      passed), every other name carries the caller's text, `Files` is never
      a field, no name occurs twice, and the attachments are the caller's. */
  lemma {:induction false} PreparedFields(cmd: string, args: Dict<Value>, token: Option<string>)
    requires WellTypedArgs(args)
    ensures var session := SessionArgs(cmd, args, token);
      var fields := FieldsOf(session);
      && UniqueKeys(fields)
      && Get(fields, "cmd") == Some(cmd)
      && (Held(token) ==> Get(fields, "token") == Some(token.value))
      && (!Held(token) ==> Get(fields, "token") == ArgText(args, "token"))
      && !HasKey(fields, FILES_ARG)
      && (forall k :: k != "cmd" && k != "token" && k != FILES_ARG ==> Get(fields, k) == ArgText(args, k))
      && FilesOf(session) == FilesOf(args)
  {
    var session := SessionArgs(cmd, args, token);
    FieldsOfSpec(session);
    SessionArgsSpec(cmd, args, token, "cmd");
    SessionArgsSpec(cmd, args, token, "token");
    forall k | k != "cmd" && k != "token" && k != FILES_ARG
      ensures Get(FieldsOf(session), k) == ArgText(args, k)
    {
      SessionArgsSpec(cmd, args, token, k);
    }
  }

  /** The headers of a request: the multipart content type with the
      boundary, and a `Content-Length` that reads back as the body's length. */
  lemma {:induction false} RequestHeaders(endpoint: string, cmd: string, args: Dict<Value>, token: Option<string>, boundary: string)
    requires WellTypedArgs(args)
    ensures var r := BuildRequest(endpoint, cmd, args, token, boundary);
      && r.url == endpoint
      && r.contentType == "multipart/form-data; boundary=" + boundary
      && ParseNat(r.contentLength) == Some(|r.body|)
  {
    var r := BuildRequest(endpoint, cmd, args, token, boundary);
    ParseNatToString(|r.body|);
  }

  /** Whatever the arguments, a request whose values keep clear of the
      boundary decodes to the prepared fields (with the file count) followed
      by the caller's attachments. */
  lemma {:induction false} RequestRoundTrip(endpoint: string, cmd: string, args: Dict<Value>, token: Option<string>, boundary: string)
    requires WellTypedArgs(args)
    requires Encodable(boundary, FieldsOf(SessionArgs(cmd, args, token)), FilesOf(args))
    ensures var fields := FieldsOf(SessionArgs(cmd, args, token));
      DecodeForm(boundary, BuildRequest(endpoint, cmd, args, token, boundary).body)
        == Some(Items(WithFileCount(fields, FilesOf(args)), FilesOf(args)))
  {
    SessionArgsSpec(cmd, args, token, "cmd");
    DecodeBody(boundary, FieldsOf(SessionArgs(cmd, args, token)), FilesOf(args));
  }

  // ---------------------------------------------------------------------
  // The client

  /** The token a client keeps for a given token text: an empty text keeps
      none. */
  function StoredToken(t: string): (r: Option<string>)
    ensures Held(r) <==> t != ""
    ensures Held(r) ==> r.value == t
    ensures !Held(r) ==> r == None
  {
    if t == "" then None else Some(t)
  }

  /** The arguments of a logon request. */
  function LogonArgs(username: string, password: string): (r: Dict<Value>)
    ensures WellTypedArgs(r)
    ensures Keys(r) == ["email", "password"]
    ensures ArgText(r, "email") == Some(username) && ArgText(r, "password") == Some(password)
  {
    var r := [("email", Text(username)), ("password", Text(password))];
    assert r[1..][1..] == [];
    assert Keys(r[1..]) == ["password"];
    assert UniqueKeys(r[1..]);
    assert Get(r, "password") == Get(r[1..], "password") == Some(Text(password));
    r
  }

  /** A connection to one FogBugz installation. */
  class Client {
    /** The command endpoint: the normalised base URL followed by the path
        the descriptor document advertises. */
    const endpoint: string
    /** The session token, if any; only a non-empty one is sent. */
    var token: Option<string>
    /** Handlers created so far, by command name. */
    var handlers: map<string, Handler>
    /** Every command request sent so far, oldest first. */
    ghost var sent: seq<Request>

    /** Each cached handler runs the command it is cached under, on this
        client, and no reserved name is cached. */
    ghost predicate Valid()
      reads this
    {
      forall n :: n in handlers ==>
        handlers[n].name == n && handlers[n].client == this && !IsPrivateName(n)
    }

    constructor (base: string, endpointPath: string, initialToken: Option<string>)
      ensures endpoint == NormalizeBase(base) + endpointPath
      ensures token == if initialToken.Some? then StoredToken(initialToken.value) else None
      ensures handlers == map[] && sent == []
      ensures Valid()
    {
      endpoint := NormalizeBase(base) + endpointPath;
      token := if initialToken.Some? then StoredToken(initialToken.value) else None;
      handlers := map[];
      sent := [];
    }

    /** Connects to the installation at `url`: fetches `api.xml` under the
        normalised URL and builds a client on the endpoint it advertises. */
    static method Open(url: string, initialToken: Option<string>, discover: string -> Discovery)
      returns (r: Result<Client, Error>)
      ensures discover(NormalizeBase(url) + DESCRIPTOR_PATH).Unreachable? <==> r.Failure?
      ensures r.Failure? ==> r.error == ConnectionError
      ensures r.Success? ==>
        && fresh(r.value) && r.value.Valid()
        && r.value.endpoint == NormalizeBase(url) + discover(NormalizeBase(url) + DESCRIPTOR_PATH).endpointPath
        && r.value.token == (if initialToken.Some? then StoredToken(initialToken.value) else None)
        && r.value.handlers == map[] && r.value.sent == []
    {
      var base := NormalizeBase(url);
      var descriptor := discover(base + DESCRIPTOR_PATH);
      if descriptor.Unreachable? {
        return Failure(ConnectionError);
      }
      var c := new Client(url, descriptor.endpointPath, initialToken);
      return Success(c);
    }

    /** Sends command `cmd` with `args`: adds `cmd` and the held token,
        moves the attachments out of the fields, encodes the form, and
        classifies the reply. */
    method MakeRequest(cmd: string, args: Dict<Value>, boundary: string, send: Request -> Reply)
      returns (r: Result<Reply, Error>)
      requires WellTypedArgs(args)
      modifies this`sent
      ensures sent == old(sent) + [BuildRequest(endpoint, cmd, args, token, boundary)]
      ensures r == Classify(send(BuildRequest(endpoint, cmd, args, token, boundary)))
    {
      var kwargs := Put(args, "cmd", Text(cmd));
      if Held(token) {
        kwargs := Put(kwargs, "token", Text(token.value));
      }
      assert kwargs == SessionArgs(cmd, args, token);
      var files := FilesOf(kwargs);
      var fields := FieldsOf(kwargs);
      var contentType, body := Encode(fields, files, boundary);
      var request := Request(endpoint, contentType, NatToString(|body|), body);
      assert request == BuildRequest(endpoint, cmd, args, token, boundary);
      sent := sent + [request];
      var reply := send(request);
      if reply.ConnFailure? {
        return Failure(ConnectionError);
      }
      if reply.error.Some? {
        return Failure(ApiError(reply.error.value.code, reply.error.value.message));
      }
      return Success(reply);
    }

    /** Ends the session: on success no token is left; on failure the token
        is kept and the error is returned. */
    method Logoff(boundary: string, send: Request -> Reply) returns (err: Option<Error>)
      requires Valid()
      modifies this`token, this`sent
      ensures Valid()
      ensures var request := BuildRequest(endpoint, "logoff", [], old(token), boundary);
        && sent == old(sent) + [request]
        && (Classify(send(request)).Failure? ==>
              err == Some(Classify(send(request)).error) && token == old(token))
        && (Classify(send(request)).Success? ==> err == None && token == None)
    {
      assert WellTypedArgs([]);
      var r := MakeRequest("logoff", [], boundary, send);
      if r.Failure? {
        return Some(r.error);
      }
      token := None;
      return None;
    }

    /** Logs on with an e-mail address and password, ending a held session
        first. A failed logoff is returned as it is; a failed logon request
        as a logon error wrapping its cause; a reply without a token
        element as `NoTokenInResponse`; otherwise the reply's token is
        kept. */
    method Logon(username: string, password: string, logoffBoundary: string, boundary: string,
                 send: Request -> Reply)
      returns (err: Option<Error>)
      requires Valid()
      modifies this`token, this`sent
      ensures Valid()
      ensures var logoff := BuildRequest(endpoint, "logoff", [], old(token), logoffBoundary);
        var logoffFailed := Held(old(token)) && Classify(send(logoff)).Failure?;
        var before := if Held(old(token)) then old(sent) + [logoff] else old(sent);
        var during := if Held(old(token)) then None else old(token);
        var logon := BuildRequest(endpoint, "logon", LogonArgs(username, password), during, boundary);
        var outcome := Classify(send(logon));
        && (logoffFailed ==>
              sent == before && token == old(token) && err == Some(Classify(send(logoff)).error))
        && (!logoffFailed ==> sent == before + [logon])
        && (!logoffFailed && outcome.Failure? ==>
              token == during && err == Some(LogonError(outcome.error)))
        && (!logoffFailed && outcome.Success? && outcome.value.token.None? ==>
              token == during && err == Some(NoTokenInResponse))
        && (!logoffFailed && outcome.Success? && outcome.value.token.Some? ==>
              token == StoredToken(outcome.value.token.value) && err == None)
    {
      if Held(token) {
        var e := Logoff(logoffBoundary, send);
        if e.Some? {
          return e;
        }
      }
      err := SendLogon(LogonArgs(username, password), boundary, send);
    }

    /** The logon request itself, with the given credentials and whatever
        token is then kept: a
        failure becomes a logon error wrapping its cause, a reply without a
        token element fails as `NoTokenInResponse`, and otherwise the reply's
        token is kept. */
    method SendLogon(credentials: Dict<Value>, boundary: string, send: Request -> Reply)
      returns (err: Option<Error>)
      requires Valid() && WellTypedArgs(credentials)
      modifies this`token, this`sent
      ensures Valid()
      ensures var logon := BuildRequest(endpoint, "logon", credentials, old(token), boundary);
        var outcome := Classify(send(logon));
        && sent == old(sent) + [logon]
        && (outcome.Failure? ==> token == old(token) && err == Some(LogonError(outcome.error)))
        && (outcome.Success? && outcome.value.token.None? ==>
              token == old(token) && err == Some(NoTokenInResponse))
        && (outcome.Success? && outcome.value.token.Some? ==>
              token == StoredToken(outcome.value.token.value) && err == None)
    {
      var r := MakeRequest("logon", credentials, boundary, send);
      if r.Failure? {
        return Some(LogonError(r.error));
      }
      if r.value.token.None? {
        return Some(NoTokenInResponse);
      }
      token := StoredToken(r.value.token.value);
      return None;
    }

    /** Sets the token without a request. */
    method SetToken(t: string)
      modifies this`token
      ensures token == Some(t)
    {
      token := Some(t);
    }

    /** Attribute lookup for command names: a reserved name fails with no
        change; any other name gets its cached handler, created on first use. */
    method GetAttr(name: string) returns (r: Result<Handler, Error>)
      requires Valid()
      modifies this`handlers
      ensures Valid()
      ensures IsPrivateName(name) ==>
        r == Failure(NoSuchAttribute(name)) && handlers == old(handlers)
      ensures !IsPrivateName(name) && name in old(handlers) ==>
        r == Success(old(handlers)[name]) && handlers == old(handlers)
      ensures !IsPrivateName(name) && name !in old(handlers) ==>
        r.Success? && fresh(r.value) && handlers == old(handlers)[name := r.value]
      ensures r.Success? ==> r.value.name == name && r.value.client == this && handlers[name] == r.value
    {
      if |name| >= 2 && name[..2] == "__" {
        return Failure(NoSuchAttribute(name));
      }
      if name !in handlers {
        var h := new Handler(name, this);
        handlers := handlers[name := h];
      }
      return Success(handlers[name]);
    }

    /** A command call `client.<name>(**args)`: look the handler up, then
        call it. */
    method Invoke(name: string, args: Dict<Value>, boundary: string, send: Request -> Reply)
      returns (r: Result<Reply, Error>)
      requires Valid() && WellTypedArgs(args)
      modifies this`handlers, this`sent
      ensures Valid()
      ensures IsPrivateName(name) ==>
        r == Failure(NoSuchAttribute(name)) && sent == old(sent) && handlers == old(handlers)
      ensures !IsPrivateName(name) && name in old(handlers) ==> handlers == old(handlers)
      ensures !IsPrivateName(name) && name !in old(handlers) ==>
        name in handlers && handlers == old(handlers)[name := handlers[name]]
      ensures !IsPrivateName(name) && Clashes(args) ==>
        r == Failure(ArgumentClash) && sent == old(sent)
      ensures !IsPrivateName(name) && !Clashes(args) ==>
        var request := BuildRequest(endpoint, name, args, token, boundary);
        sent == old(sent) + [request] && r == Classify(send(request))
    {
      var h := GetAttr(name);
      if h.Failure? {
        return Failure(h.error);
      }
      r := h.value.Call(args, boundary, send);
    }
  }

  /** Whether the arguments name a parameter of the request method itself. */
  predicate Clashes(args: Dict<Value>) {
    HasKey(args, "cmd") || HasKey(args, "self")
  }

  /** The callable returned for a command name. */
  class Handler {
    const name: string
    const client: Client

    constructor (name: string, client: Client)
      ensures this.name == name && this.client == client
    {
      this.name := name;
      this.client := client;
    }

    /** Runs the command with `args`, unless an argument clashes with the
        request method's own parameters. */
    method Call(args: Dict<Value>, boundary: string, send: Request -> Reply)
      returns (r: Result<Reply, Error>)
      requires WellTypedArgs(args)
      modifies client`sent
      ensures Clashes(args) ==> r == Failure(ArgumentClash) && client.sent == old(client.sent)
      ensures !Clashes(args) ==>
        var request := BuildRequest(client.endpoint, name, args, client.token, boundary);
        client.sent == old(client.sent) + [request] && r == Classify(send(request))
    {
      if HasKey(args, "cmd") || HasKey(args, "self") {
        return Failure(ArgumentClash);
      }
      r := client.MakeRequest(name, args, boundary, send);
    }
  }
}
