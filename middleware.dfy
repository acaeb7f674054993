/** `src/middleware.rs`: the decision every request goes through — authentication from the
    `Authorization` header, route parsing, repository lookup and access check — reduced to
    a function from the request and the configuration to the response. */
module Middleware {
  import opened Wrappers
  import opened Strings
  import opened Ascii
  import Git = Repository
  import Config
  import Settings = Configuration

  /** The unwraps and the index in `is_request_authorized` that panic on a malformed header. */
  datatype Panic =
    | HeaderNotVisibleAscii   // `HeaderValue::to_str` fails
    | MissingBasicPrefix      // `strip_prefix("Basic ")` returns `None`
    | InvalidBase64           // `base64::decode` fails
    | InvalidUtf8             // `String::from_utf8` fails
    | NoColon                 // `login_pwd[1]` is out of bounds

  datatype AuthenticationState = Unauthorized | Authorized(login: string, password: string)

  datatype Query = Invalid | Success(repository: string, path: string, branch: string)

  /** A byte. */
  newtype byte = x: int | 0 <= x < 0x100

  /** The two decoders the middleware relies on: `base64::decode` and `String::from_utf8`,
      each `None` where the library reports an error. */
  datatype Codecs = Codecs(base64: string -> Option<seq<byte>>, utf8: seq<byte> -> Option<string>)

  /** What the middleware reads of a request: the first `Authorization` header value, if any, and the path. */
  datatype Request = Request(authorization: Option<string>, path: string)

  datatype Header = Header(name: string, value: string)

  datatype HttpResponse = HttpResponse(status: nat, headers: seq<Header>, body: string)

  /** The middleware either answers or the worker panics. */
  datatype Outcome = Respond(response: HttpResponse) | Panicked(reason: Panic)

  const WwwAuthenticate: string := "WWW-Authenticate"
  const Challenge: string := "Basic realm=\"ConfigServer\", charset=\"UTF-8\""
  const BasicPrefix: string := "Basic "
  const Greeting: string := "Hey there!"

  /** `ConfigServerMiddleware::not_found`. */
  function NotFoundResponse(): (r: HttpResponse)
    ensures r.status == 404 && r.headers == [] && r.body == ""
  {
    HttpResponse(404, [], "")
  }

  /** `ConfigServerMiddleware::unauthorized`: 401 with the Basic challenge. */
  function UnauthorizedResponse(): (r: HttpResponse)
    ensures r.status == 401 && r.headers == [Header(WwwAuthenticate, Challenge)] && r.body == ""
  {
    HttpResponse(401, [Header(WwwAuthenticate, Challenge)], "")
  }

  /** The answer when every check passes. */
  function OkResponse(): (r: HttpResponse)
    ensures r.status == 200 && r.headers == [] && r.body == Greeting
  {
    HttpResponse(200, [], Greeting)
  }

  /** `HeaderValue::to_str` accepts only visible ASCII and the tab. */
  predicate IsVisibleAscii(c: char)
  {
    c == '\t' || (' ' <= c <= '~')
  }

  predicate AllVisibleAscii(s: string)
  {
    forall i :: 0 <= i < |s| ==> IsVisibleAscii(s[i])
  }

  /** The credential text of a header value: `to_str`, `strip_prefix("Basic ")`, base64, UTF-8,
      with the step that panics. */
  function DecodedCredentials(header: string, codecs: Codecs): (r: Result<string, Panic>)
    ensures r == Failure(HeaderNotVisibleAscii) <==> !AllVisibleAscii(header)
    ensures r == Failure(MissingBasicPrefix) <==> AllVisibleAscii(header) && !(BasicPrefix <= header)
    ensures r == Failure(InvalidBase64) <==>
      AllVisibleAscii(header) && BasicPrefix <= header && codecs.base64(header[|BasicPrefix|..]).None?
    ensures r.Success? <==> (AllVisibleAscii(header) && BasicPrefix <= header &&
      codecs.base64(header[|BasicPrefix|..]).Some? && codecs.utf8(codecs.base64(header[|BasicPrefix|..]).value).Some?)
    ensures r == Failure(InvalidUtf8) <==> (AllVisibleAscii(header) && BasicPrefix <= header &&
      codecs.base64(header[|BasicPrefix|..]).Some? && codecs.utf8(codecs.base64(header[|BasicPrefix|..]).value).None?)
    ensures r.Success? ==> Some(r.value) == codecs.utf8(codecs.base64(header[|BasicPrefix|..]).value)
  {
    if !AllVisibleAscii(header) then Failure(HeaderNotVisibleAscii)
    else if !(BasicPrefix <= header) then Failure(MissingBasicPrefix)
    else match codecs.base64(header[|BasicPrefix|..])
      case None => Failure(InvalidBase64)
      case Some(bytes) =>
        match codecs.utf8(bytes)
        case None => Failure(InvalidUtf8)
        case Some(text) => Result.Success(text)
  }

  /** `credentials.split(":")` followed by `login_pwd[0]` and `login_pwd[1]`: the login is the
      text before the first `:`, the password the text between the first and the second `:`,
      and anything after a second `:` is dropped; without a `:` the index panics. */
  function SplitCredentials(credentials: string): (r: Result<(string, string), Panic>)
    ensures r.Failure? <==> ':' !in credentials
    ensures r.Failure? ==> r.error == NoColon
    ensures r.Success? ==> ':' !in r.value.0 && ':' !in r.value.1
    ensures r.Success? ==> CredentialsPrefix(credentials, r.value.0, r.value.1)
  {
    var parts := Split(credentials, ':');
    if |parts| < 2 then Failure(NoColon)
    else
      SplitSecond(credentials, ':');
      PiecesFormPrefix(credentials, parts[0], parts[1]);
      Result.Success((parts[0], parts[1]))
  }

  /** `credentials` starts with `login:password`, followed by nothing or by another `:`. */
  predicate CredentialsPrefix(credentials: string, login: string, password: string)
  {
    var n := |login| + 1 + |password|;
    n <= |credentials| && credentials[..n] == login + ":" + password &&
    (n < |credentials| ==> credentials[n] == ':')
  }

  lemma PiecesFormPrefix(credentials: string, login: string, password: string)
    requires ':' in credentials
    requires login == Before(credentials, ':')
    requires password == Before(credentials[IndexOf(credentials, ':') + 1..], ':')
    ensures CredentialsPrefix(credentials, login, password)
  {
    var i := IndexOf(credentials, ':');
    var j := IndexOf(credentials[i + 1..], ':');
    ColonPiecesFormPrefix(credentials, i, j);
  }

  /** Cutting at a `:` at `i` and at `i + 1 + j`, or at the end, gives a `login:password` prefix. */
  lemma ColonPiecesFormPrefix(c: string, i: nat, j: nat)
    requires i < |c| && c[i] == ':' && i + 1 + j <= |c|
    requires i + 1 + j < |c| ==> c[i + 1 + j] == ':'
    ensures CredentialsPrefix(c, c[..i], c[i + 1..][..j])
  {
    var n := i + 1 + j;
    assert c[i + 1..][..j] == c[i + 1..n];
    assert c[..n] == c[..i] + [c[i]] + c[i + 1..n];
  }

  /** `is_request_authorized`: no header means Unauthorized; a header is decoded and split into
      login and password, or the worker panics. */
  function IsRequestAuthorized(authorization: Option<string>, codecs: Codecs): (r: Result<AuthenticationState, Panic>)
    ensures authorization.None? <==> r == Result.Success(Unauthorized)
    ensures r.Failure? ==> (authorization.Some? &&
      (DecodedCredentials(authorization.value, codecs).Failure? || (r.error == NoColon && DecodedCredentials(authorization.value, codecs).Success?)))
    ensures r.Success? && r.value.Authorized? ==> (authorization.Some? &&
      DecodedCredentials(authorization.value, codecs).Success? &&
      SplitCredentials(DecodedCredentials(authorization.value, codecs).value) == Result.Success((r.value.login, r.value.password)))
    ensures authorization.Some? && DecodedCredentials(authorization.value, codecs).Failure? ==>
      r == Failure(DecodedCredentials(authorization.value, codecs).error)
    ensures authorization.Some? && DecodedCredentials(authorization.value, codecs).Success? ==>
      var credentials := DecodedCredentials(authorization.value, codecs).value;
      (':' !in credentials ==> r == Failure(NoColon)) &&
      (':' in credentials ==> r == Result.Success(Authorized(
        SplitCredentials(credentials).value.0, SplitCredentials(credentials).value.1)))
  {
    match authorization
    case None => Result.Success(Unauthorized)
    case Some(header) =>
      match DecodedCredentials(header, codecs)
      case Failure(p) => Failure(p)
      case Success(credentials) =>
        match SplitCredentials(credentials)
        case Failure(p) => Failure(p)
        case Success((login, password)) => Result.Success(Authorized(login, password))
  }

  /** The repository segment of a path: the text between its first `/` and the next one. */
  function RouteSegment(path: string): string
    requires '/' in path
  {
    Before(path[IndexOf(path, '/') + 1..], '/')
  }

  /** `parse_query`: Invalid exactly when the path has no `/`; otherwise the repository is the
      second `/`-separated element and path and branch are the placeholder `" "`. */
  function ParseQuery(path: string): (q: Query)
    ensures q.Invalid? <==> '/' !in path
    ensures q.Success? ==> q.repository == RouteSegment(path) && q.path == " " && q.branch == " "
  {
    var elements := Split(path, '/');
    if |elements| < 2 then Invalid
    else
      SplitSecond(path, '/');
      Query.Success(elements[1], " ", " ")
  }

  /** `ConfigServerMiddleware::call`: authenticate, route, look the repository up (the source's
      `repo_with_name`), check access (`is_acces_granted`), answer. */
  function Call(config: Config.Configuration, request: Request, codecs: Codecs): (r: Outcome)
    ensures request.authorization.None? ==> r == Respond(UnauthorizedResponse())
    ensures r.Panicked? ==> request.authorization.Some? && IsRequestAuthorized(request.authorization, codecs).Failure?
    ensures r.Respond? ==> r.response == UnauthorizedResponse() || r.response == NotFoundResponse() || r.response == OkResponse()
    ensures r.Respond? && r.response.status == 401 ==> Header(WwwAuthenticate, Challenge) in r.response.headers
    ensures r == Respond(OkResponse()) ==> (request.authorization.Some? && '/' in request.path &&
      Config.Repository(config, RouteSegment(request.path)).Some?)
    ensures r == Respond(NotFoundResponse()) ==> (request.authorization.Some? &&
      ('/' !in request.path || Config.Repository(config, RouteSegment(request.path)).None?))
  {
    match IsRequestAuthorized(request.authorization, codecs)
    case Failure(p) => Panicked(p)
    case Success(Unauthorized) => Respond(UnauthorizedResponse())
    case Success(Authorized(login, password)) =>
      match ParseQuery(request.path)
      case Invalid => Respond(NotFoundResponse())
      case Success(repo, _, _) =>
        match Config.Repository(config, repo)
        case None => Respond(NotFoundResponse())
        case Some(repoConfig) =>
          if !Config.IsAccessGranted(repoConfig, login, password) then Respond(UnauthorizedResponse())
          else Respond(OkResponse())
  }

  /** The route is the second `/`-separated element of the path, as `split('/')` gives it. */
  lemma ParseQueryTakesSecondElement(path: string)
    requires ParseQuery(path).Success?
    ensures |Split(path, '/')| >= 2 && ParseQuery(path).repository == Split(path, '/')[1]
  {
    SplitSecond(path, '/');
  }

  /** `/<name>` and `/<name>/<rest>` name the repository `<name>`, whatever follows. */
  lemma {:induction false} RouteNamesRepository(name: string, rest: string)
    requires '/' !in name
    requires rest == [] || rest[0] == '/'
    ensures ParseQuery("/" + name + rest) == Query.Success(name, " ", " ")
  {
    var path := "/" + name + rest;
    assert path[0] == '/';
    assert IndexOf(path, '/') == 0;
    assert path[1..] == name + rest;
    BeforeStopsAtSlash(name, rest);
  }

  lemma BeforeStopsAtSlash(name: string, rest: string)
    requires '/' !in name
    requires rest == [] || rest[0] == '/'
    ensures Before(name + rest, '/') == name
  {
    var s := name + rest;
    forall k | 0 <= k < |name| ensures s[k] != '/' {
      assert s[k] == name[k];
    }
    if rest == [] {
      assert s == name;
    } else {
      assert s[|name|] == rest[0];
    }
    assert IndexOf(s, '/') == |name|;
    assert s[..|name|] == name;
  }

  /** Credentials without a further `:` split back into the login and the password. */
  lemma CredentialsRoundTrip(login: string, password: string)
    requires ':' !in login && ':' !in password
    ensures SplitCredentials(login + ":" + password) == Result.Success((login, password))
  {
    var c := login + ":" + password;
    var r := SplitCredentials(c);
    assert c[|login|] == ':';
    assert r.Success?;
    PrefixPiecesUnique(c, r.value.0, r.value.1, login, password);
  }

  /** Everything after a second `:` is dropped from the password. */
  lemma PasswordEndsAtSecondColon(login: string, password: string, extra: string)
    requires ':' !in login && ':' !in password
    ensures SplitCredentials(login + ":" + password + ":" + extra) == Result.Success((login, password))
  {
    var c := login + ":" + password + ":" + extra;
    var r := SplitCredentials(c);
    assert c[|login|] == ':';
    assert r.Success?;
    PrefixPiecesUnique(c, r.value.0, r.value.1, login, password);
  }

  /** Two colon-free pairs that both form a prefix of the same credential text are equal. */
  lemma PrefixPiecesUnique(c: string, l1: string, p1: string, l2: string, p2: string)
    requires ':' !in l1 && ':' !in p1 && ':' !in l2 && ':' !in p2
    requires CredentialsPrefix(c, l1, p1)
    requires |l2| + 1 + |p2| <= |c| && c[..|l2| + 1 + |p2|] == l2 + ":" + p2
    requires |l2| + 1 + |p2| == |c| || c[|l2| + 1 + |p2|] == ':'
    ensures l1 == l2 && p1 == p2
  {
    FirstColon(c, l1);
    FirstColon(c, l2);
    var rest := c[|l1| + 1..];
    assert c[..|l1| + 1 + |p1|] == l1 + ":" + p1;
    FirstColon(rest, p1);
    FirstColon(rest, p2);
  }

  /** A colon-free `x` followed in `c` by a `:` or by the end of `c` is the text before `c`'s first `:`. */
  lemma FirstColon(c: string, x: string)
    requires ':' !in x && |x| <= |c| && c[..|x|] == x
    requires |x| == |c| || c[|x|] == ':'
    ensures x == Before(c, ':')
  {
    forall k | 0 <= k < |x| ensures c[k] != ':' {
      assert c[k] == x[k];
    }
    assert IndexOf(c, ':') == |x|;
  }

  /** The server answers 200 exactly when the header yields credentials, the path has a route,
      the route names a configured repository and that repository grants the credentials. */
  lemma OkExactlyWhenGranted(config: Config.Configuration, request: Request, codecs: Codecs)
    ensures Call(config, request, codecs) == Respond(OkResponse()) <==>
      (var auth := IsRequestAuthorized(request.authorization, codecs);
       auth.Success? && auth.value.Authorized? && '/' in request.path &&
       Config.Repository(config, RouteSegment(request.path)).Some? &&
       Config.IsAccessGranted(Config.Repository(config, RouteSegment(request.path)).value, auth.value.login, auth.value.password))
  {
  }

  /** The server answers 401 exactly when no header is sent, or when valid credentials are
      refused by the repository the route names. */
  lemma UnauthorizedExactly(config: Config.Configuration, request: Request, codecs: Codecs)
    ensures Call(config, request, codecs) == Respond(UnauthorizedResponse()) <==>
      (request.authorization.None? ||
       (var auth := IsRequestAuthorized(request.authorization, codecs);
        auth.Success? && auth.value.Authorized? && '/' in request.path &&
        Config.Repository(config, RouteSegment(request.path)).Some? &&
        !Config.IsAccessGranted(Config.Repository(config, RouteSegment(request.path)).value, auth.value.login, auth.value.password)))
  {
  }

  /** The server answers 404 exactly for an authenticated request whose path has no route or
      whose route names no configured repository; credentials are checked only after the lookup. */
  lemma NotFoundExactly(config: Config.Configuration, request: Request, codecs: Codecs)
    ensures Call(config, request, codecs) == Respond(NotFoundResponse()) <==>
      (var auth := IsRequestAuthorized(request.authorization, codecs);
       auth.Success? && auth.value.Authorized? &&
       ('/' !in request.path || Config.Repository(config, RouteSegment(request.path)).None?))
  {
  }

  /** The worker panics exactly when a header is sent that does not yield credentials, and
      the panic names the step that failed. */
  lemma PanicsExactlyOnMalformedHeader(config: Config.Configuration, request: Request, codecs: Codecs)
    ensures Call(config, request, codecs).Panicked? <==> IsRequestAuthorized(request.authorization, codecs).Failure?
    ensures Call(config, request, codecs).Panicked? ==>
      Call(config, request, codecs).reason == IsRequestAuthorized(request.authorization, codecs).error
  {
  }

  /** A header with a character outside visible ASCII panics in `to_str`. */
  lemma InvisibleHeaderPanics(config: Config.Configuration, request: Request, codecs: Codecs)
    requires request.authorization.Some? && !AllVisibleAscii(request.authorization.value)
    ensures Call(config, request, codecs) == Panicked(HeaderNotVisibleAscii)
  {
  }

  /** A header that is not `Basic ` credentials panics in `strip_prefix`, even a `Bearer` token. */
  lemma NonBasicHeaderPanics(config: Config.Configuration, request: Request, codecs: Codecs)
    requires request.authorization.Some? && AllVisibleAscii(request.authorization.value)
    requires !(BasicPrefix <= request.authorization.value)
    ensures Call(config, request, codecs) == Panicked(MissingBasicPrefix)
  {
  }

  /** Credentials that are not base64 panic in the decoder. */
  lemma InvalidBase64Panics(config: Config.Configuration, request: Request, codecs: Codecs)
    requires request.authorization.Some? && AllVisibleAscii(request.authorization.value)
    requires BasicPrefix <= request.authorization.value
    requires codecs.base64(request.authorization.value[|BasicPrefix|..]).None?
    ensures Call(config, request, codecs) == Panicked(InvalidBase64)
  {
  }

  /** Decoded bytes that are not UTF-8 panic in `String::from_utf8`. */
  lemma InvalidUtf8Panics(config: Config.Configuration, request: Request, codecs: Codecs, bytes: seq<byte>)
    requires request.authorization.Some? && AllVisibleAscii(request.authorization.value)
    requires BasicPrefix <= request.authorization.value
    requires codecs.base64(request.authorization.value[|BasicPrefix|..]) == Some(bytes)
    requires codecs.utf8(bytes).None?
    ensures Call(config, request, codecs) == Panicked(InvalidUtf8)
  {
  }

  /** Decoded credentials without a `:` panic at `login_pwd[1]`. */
  lemma MissingColonPanics(config: Config.Configuration, request: Request, codecs: Codecs, credentials: string)
    requires request.authorization.Some?
    requires DecodedCredentials(request.authorization.value, codecs) == Result.Success(credentials)
    requires ':' !in credentials
    ensures Call(config, request, codecs) == Panicked(NoColon)
  {
  }

  /** The header `Basic <b64>` whose payload decodes to `login:password`. */
  lemma BasicHeaderAuthorizes(b64: string, bytes: seq<byte>, login: string, password: string, codecs: Codecs)
    requires AllVisibleAscii(b64)
    requires codecs.base64(b64) == Some(bytes) && codecs.utf8(bytes) == Some(login + ":" + password)
    requires ':' !in login && ':' !in password
    ensures IsRequestAuthorized(Some(BasicPrefix + b64), codecs) == Result.Success(Authorized(login, password))
  {
    var header := BasicPrefix + b64;
    assert header[|BasicPrefix|..] == b64;
    forall i | 0 <= i < |header| ensures IsVisibleAscii(header[i]) {
      if i >= |BasicPrefix| { assert header[i] == b64[i - |BasicPrefix|]; }
    }
    CredentialsRoundTrip(login, password);
  }

  /** A decoded `login:password:extra` authorizes `login` with `password`: the text after the
      second `:` is dropped. */
  lemma ExtraColonDropped(b64: string, bytes: seq<byte>, login: string, password: string, extra: string, codecs: Codecs)
    requires AllVisibleAscii(b64)
    requires codecs.base64(b64) == Some(bytes) && codecs.utf8(bytes) == Some(login + ":" + password + ":" + extra)
    requires ':' !in login && ':' !in password
    ensures IsRequestAuthorized(Some(BasicPrefix + b64), codecs) == Result.Success(Authorized(login, password))
  {
    var header := BasicPrefix + b64;
    assert header[|BasicPrefix|..] == b64;
    forall i | 0 <= i < |header| ensures IsVisibleAscii(header[i]) {
      if i >= |BasicPrefix| { assert header[i] == b64[i - |BasicPrefix|]; }
    }
    PasswordEndsAtSecondColon(login, password, extra);
  }

  /** The configuration of the examples: one repository `alpha` open to `bob` with `secret`. */
  function AlphaConfig(): Config.Configuration
  {
    Config.Configuration("configserver", Settings.Net("127.0.0.1", 8080),
      [Config.Repo("alpha", "https://example.org/alpha.git", "", "", 60, Some([Git.Credential("bob", "secret")]))])
  }

  /** The repository `alpha` of the example configuration. */
  function Alpha(): Config.Repo
  {
    AlphaConfig().repositories[0]
  }

  lemma AlphaFound()
    ensures Config.Repository(AlphaConfig(), "alpha") == Some(Alpha())
  {
    assert EqIgnoreAsciiCase(Alpha().name, "alpha");
  }

  lemma UnknownMissing()
    ensures Config.Repository(AlphaConfig(), "unknown") == None
  {
    assert !EqIgnoreAsciiCase(Alpha().name, "unknown");
  }

  lemma AlphaGrants()
    ensures Config.IsAccessGranted(Alpha(), "bob", "secret")
    ensures !Config.IsAccessGranted(Alpha(), "alice", "wrong")
  {
    var users := Alpha().credentials.value;
    assert users[0].user_name == "bob";
    assert EqIgnoreAsciiCase("bob", "bob");
    assert !EqIgnoreAsciiCase("bob", "alice");
  }

  lemma BobHeader(codecs: Codecs, bob: seq<byte>)
    requires codecs.base64("Ym9iOnNlY3JldA==") == Some(bob) && codecs.utf8(bob) == Some("bob:secret")
    ensures IsRequestAuthorized(Some("Basic Ym9iOnNlY3JldA=="), codecs) == Result.Success(Authorized("bob", "secret"))
  {
    assert "bob:secret" == "bob" + ":" + "secret";
    assert "Basic Ym9iOnNlY3JldA==" == BasicPrefix + "Ym9iOnNlY3JldA==";
    BasicHeaderAuthorizes("Ym9iOnNlY3JldA==", bob, "bob", "secret", codecs);
  }

  lemma AliceHeader(codecs: Codecs, alice: seq<byte>)
    requires codecs.base64("YWxpY2U6d3Jvbmc=") == Some(alice) && codecs.utf8(alice) == Some("alice:wrong")
    ensures IsRequestAuthorized(Some("Basic YWxpY2U6d3Jvbmc="), codecs) == Result.Success(Authorized("alice", "wrong"))
  {
    assert "alice:wrong" == "alice" + ":" + "wrong";
    assert "Basic YWxpY2U6d3Jvbmc=" == BasicPrefix + "YWxpY2U6d3Jvbmc=";
    BasicHeaderAuthorizes("YWxpY2U6d3Jvbmc=", alice, "alice", "wrong", codecs);
  }

  lemma AlphaRoute()
    ensures ParseQuery("/alpha/app.yml") == Query.Success("alpha", " ", " ")
  {
    assert "/alpha/app.yml" == "/" + "alpha" + "/app.yml";
    RouteNamesRepository("alpha", "/app.yml");
  }

  lemma UnknownRoute()
    ensures ParseQuery("/unknown/app.yml") == Query.Success("unknown", " ", " ")
  {
    assert "/unknown/app.yml" == "/" + "unknown" + "/app.yml";
    RouteNamesRepository("unknown", "/app.yml");
  }

  /** One pass through the decision chain, stage by stage. */
  lemma CallSteps(config: Config.Configuration, request: Request, codecs: Codecs, login: string, password: string, name: string)
    requires IsRequestAuthorized(request.authorization, codecs) == Result.Success(Authorized(login, password))
    requires ParseQuery(request.path) == Query.Success(name, " ", " ")
    ensures Config.Repository(config, name).None? ==> Call(config, request, codecs) == Respond(NotFoundResponse())
    ensures Config.Repository(config, name).Some? ==>
      Call(config, request, codecs) ==
      (if Config.IsAccessGranted(Config.Repository(config, name).value, login, password) then Respond(OkResponse())
       else Respond(UnauthorizedResponse()))
  {
  }

  /** `GET /alpha/app.yml` as `bob:secret` gets 200 with the greeting. */
  lemma BobScenario(codecs: Codecs, bob: seq<byte>)
    requires codecs.base64("Ym9iOnNlY3JldA==") == Some(bob) && codecs.utf8(bob) == Some("bob:secret")
    ensures Call(AlphaConfig(), Request(Some("Basic Ym9iOnNlY3JldA=="), "/alpha/app.yml"), codecs) == Respond(OkResponse())
  {
    var request := Request(Some("Basic Ym9iOnNlY3JldA=="), "/alpha/app.yml");
    BobHeader(codecs, bob);
    AlphaRoute();
    AlphaFound();
    AlphaGrants();
    CallSteps(AlphaConfig(), request, codecs, "bob", "secret", "alpha");
  }

  /** The same request as `alice:wrong` gets 401. */
  lemma AliceScenario(codecs: Codecs, alice: seq<byte>)
    requires codecs.base64("YWxpY2U6d3Jvbmc=") == Some(alice) && codecs.utf8(alice) == Some("alice:wrong")
    ensures Call(AlphaConfig(), Request(Some("Basic YWxpY2U6d3Jvbmc="), "/alpha/app.yml"), codecs) == Respond(UnauthorizedResponse())
  {
    var request := Request(Some("Basic YWxpY2U6d3Jvbmc="), "/alpha/app.yml");
    AliceHeader(codecs, alice);
    AlphaRoute();
    AlphaFound();
    AlphaGrants();
    CallSteps(AlphaConfig(), request, codecs, "alice", "wrong", "alpha");
  }

  /** `GET /unknown/app.yml` with valid credentials gets 404. */
  lemma UnknownRepositoryScenario(codecs: Codecs, bob: seq<byte>)
    requires codecs.base64("Ym9iOnNlY3JldA==") == Some(bob) && codecs.utf8(bob) == Some("bob:secret")
    ensures Call(AlphaConfig(), Request(Some("Basic Ym9iOnNlY3JldA=="), "/unknown/app.yml"), codecs) == Respond(NotFoundResponse())
  {
    var request := Request(Some("Basic Ym9iOnNlY3JldA=="), "/unknown/app.yml");
    BobHeader(codecs, bob);
    UnknownRoute();
    UnknownMissing();
    CallSteps(AlphaConfig(), request, codecs, "bob", "secret", "unknown");
  }
}
