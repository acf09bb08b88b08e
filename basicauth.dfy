/** HTTP Basic authentication (section 2 of RFC 7617) as the collector's basicauth
    extension implements it. In the server role it checks an
    `Authorization: Basic <token>` header against an htpasswd credential store; in the
    client role it adds that header to outgoing HTTP requests and gRPC calls. */
module BasicAuth {
  import opened Wrappers
  import opened Base64

  /** The extension's error values. */
  datatype Error =
    | NoCredentialSource   // errNoCredentialSource
    | NoAuth               // errNoAuth: "no basic auth provided"
    | InvalidCredentials   // errInvalidCredentials
    | InvalidSchemePrefix  // errInvalidSchemePrefix
    | InvalidFormat        // errInvalidFormat
    | OpenHtpasswdFile     // "open htpasswd file: ..."
    | ReadHtpasswdContent  // "read htpasswd content: ..."

  /** Request headers or call metadata: each name maps to its list of values. */
  type Header = map<Bytes, seq<Bytes>>

  /** The credential store's check: does this password match the hash stored for this
      user? It is false for an unknown user, just as for a wrong password. */
  type MatchFunc = (Bytes, Bytes) -> bool

  datatype HtpasswdSettings = HtpasswdSettings(file: Bytes, inline: Bytes)
  datatype ClientAuthSettings = ClientAuthSettings(username: Bytes, password: Bytes)

  /** The extension's configuration; a nil settings pointer is `None`. */
  datatype Config = Config(htpasswd: Option<HtpasswdSettings>, clientAuth: Option<ClientAuthSettings>)

  const BasicPrefix: Bytes := "Basic "
  const CanonicalHeaderKey: Bytes := "Authorization"
  const MetadataKey: Bytes := "authorization"
  const Colon: Octet := ':'
  const Newline: Bytes := "\n"

  // ---------------------------------------------------------------- byte strings

  function ToLower(c: Octet): Octet {
    if 'A' <= c <= 'Z' then (c as int + 32) as char else c
  }

  /** `strings.EqualFold`, restricted to what this extension compares: a string against
      "Basic " or "authorization". For those, Unicode simple case folding is ASCII case
      folding of the bytes. */
  predicate EqualFold(a: Bytes, b: Bytes) {
    |a| == |b| && forall i | 0 <= i < |a| :: ToLower(a[i]) == ToLower(b[i])
  }

  /** `strings.IndexByte`: the position of the first `c`, or -1. */
  function IndexByte(s: Bytes, c: Octet): (i: int)
    ensures -1 <= i < |s|
    ensures i == -1 <==> c !in s
    ensures 0 <= i ==> s[i] == c && c !in s[..i]
  {
    if |s| == 0 then -1
    else if s[0] == c then 0
    else
      var j := IndexByte(s[1..], c);
      if j < 0 then -1
      else
        assert s[..j + 1] == [s[0]] + s[1..][..j];
        j + 1
  }

  /** The header value a client sends: "Basic " and the base64 of "username:password". */
  function BasicAuthValue(username: Bytes, password: Bytes): Bytes {
    BasicPrefix + Encode(username + [Colon] + password)
  }

  // ---------------------------------------------------------------- the verified identity

  /** What a successful authentication attaches to the call: the parsed user name and
      password and the undecoded token. */
  datatype AuthData = AuthData(username: Bytes, password: Bytes, raw: Bytes) {

    /** The attribute view; `None` is Go's nil interface value. Exactly the listed names
        have a value: the user name or the token, never anything else. */
    function GetAttribute(name: Bytes): (v: Option<Bytes>)
      ensures v.Some? <==> name in GetAttributeNames()
      ensures name == "username" ==> v == Some(username)
      ensures name == "raw" ==> v == Some(raw)
    {
      if name == "username" then Some(username)
      else if name == "raw" then Some(raw)
      else None
    }

    /** The two attribute names, each listed once. */
    function GetAttributeNames(): (names: seq<Bytes>)
      ensures |names| == 2 && names[0] != names[1]
      ensures forall n :: n in names <==> n == "username" || n == "raw"
    {
      ["username", "raw"]
    }
  }

  /** Exactly the listed attributes have a value, and none of them is the password
      (unless the password happens to equal the user name or the token). */
  lemma AttributesHidePassword(a: AuthData, name: Bytes)
    ensures a.GetAttribute("username") == Some(a.username)
    ensures a.GetAttribute("raw") == Some(a.raw)
    ensures a.GetAttribute(name).Some? <==> name in a.GetAttributeNames()
    ensures a.GetAttribute(name).Some? ==> a.GetAttribute(name).value in {a.username, a.raw}
    ensures |a.GetAttributeNames()| == 2
  {
  }

  // ---------------------------------------------------------------- parsing the header value

  /** The value starts with "Basic " in any letter case. */
  predicate HasBasicPrefix(auth: Bytes) {
    |auth| >= |BasicPrefix| && EqualFold(auth[..|BasicPrefix|], BasicPrefix)
  }

  /** `parseBasicAuth`: splits the decoded token at its first colon. */
  function ParseBasicAuth(auth: Bytes): (r: Result<AuthData, Error>)
    ensures r.Failure? ==> r.error == InvalidSchemePrefix || r.error == InvalidFormat
    ensures r == Failure(InvalidSchemePrefix) <==> !HasBasicPrefix(auth)
    ensures r == Failure(InvalidFormat) <==>
              HasBasicPrefix(auth) &&
              (Decode(auth[|BasicPrefix|..]).None? || Colon !in Decode(auth[|BasicPrefix|..]).value)
    ensures r.Success? ==>
              && r.value.raw == auth[|BasicPrefix|..]
              && Colon !in r.value.username
              && Decode(r.value.raw) == Some(r.value.username + [Colon] + r.value.password)
  {
    if |auth| < |BasicPrefix| || !EqualFold(auth[..|BasicPrefix|], BasicPrefix) then
      Failure(InvalidSchemePrefix)
    else
      var encoded := auth[|BasicPrefix|..];
      match Decode(encoded)
      case None => Failure(InvalidFormat)
      case Some(decoded) =>
        var si := IndexByte(decoded, Colon);
        if si < 0 then Failure(InvalidFormat)
        else
          SplitAround(decoded, si);
          Success(AuthData(decoded[..si], decoded[si + 1..], encoded))
  }

  /** A sequence is its part before position `i`, the element there and the part after. */
  lemma SplitAround(d: Bytes, i: nat)
    requires i < |d|
    ensures d == d[..i] + [d[i]] + d[i + 1..]
  {
  }

  /** The first colon of "user:password" is the separator when the user has none. */
  lemma ColonPosition(u: Bytes, p: Bytes)
    requires Colon !in u
    ensures IndexByte(u + [Colon] + p, Colon) == |u|
  {
    var s := u + [Colon] + p;
    assert s[|u|] == Colon;
    assert s[..|u|] == u;
  }

  /** A user name without a colon is recovered from "user:password" whatever the password. */
  lemma SplitAtFirstColon(u: Bytes, p: Bytes, u': Bytes, p': Bytes)
    requires Colon !in u && Colon !in u'
    requires u + [Colon] + p == u' + [Colon] + p'
    ensures u == u' && p == p'
  {
    var s := u + [Colon] + p;
    ColonPosition(u, p);
    ColonPosition(u', p');
    assert u == s[..|u|] == u';
    assert p == s[|u| + 1..] == p';
  }

  lemma EqualFoldReflexive(a: Bytes)
    ensures EqualFold(a, a)
  {
  }

  /** Parsing what a client sends gives back its user name, password and token. */
  lemma ParseRoundTrip(u: Bytes, p: Bytes)
    requires Colon !in u
    ensures ParseBasicAuth(BasicAuthValue(u, p)) == Success(AuthData(u, p, Encode(u + [Colon] + p)))
  {
    var token := Encode(u + [Colon] + p);
    var auth := BasicAuthValue(u, p);
    assert auth[..|BasicPrefix|] == BasicPrefix;
    assert auth[|BasicPrefix|..] == token;
    EqualFoldReflexive(BasicPrefix);
    DecodeEncode(u + [Colon] + p);
    assert Colon in u + [Colon] + p by {
      assert (u + [Colon] + p)[|u|] == Colon;
    }
    var r := ParseBasicAuth(auth);
    SplitAtFirstColon(u, p, r.value.username, r.value.password);
  }

  /** A token whose decoded text has no colon is a format error. */
  lemma MissingColonRejected(d: Bytes)
    requires Colon !in d
    ensures ParseBasicAuth(BasicPrefix + Encode(d)) == Failure(InvalidFormat)
  {
    var auth := BasicPrefix + Encode(d);
    assert auth[..|BasicPrefix|] == BasicPrefix;
    assert auth[|BasicPrefix|..] == Encode(d);
    EqualFoldReflexive(BasicPrefix);
    DecodeEncode(d);
  }

  /** The empty value and a bearer token are scheme errors. */
  lemma SchemeErrorExamples()
    ensures ParseBasicAuth("") == Failure(InvalidSchemePrefix)
    ensures ParseBasicAuth("Bearer xyz") == Failure(InvalidSchemePrefix)
  {
    var bearer: Bytes := "Bearer xyz";
    assert ToLower(bearer[1]) != ToLower(BasicPrefix[1]);
    assert bearer[..|BasicPrefix|][1] == bearer[1];
  }

  /** The three quanta of the credential "svc:p@ss". */
  lemma SvcBlock() ensures EncodeBlock('s', 'v', 'c') == "c3Zj" {
    assert Digit(28) == 'c' && Digit(55) == '3' && Digit(25) == 'Z' && Digit(35) == 'j';
  }

  lemma ColonBlock() ensures EncodeBlock(':', 'p', '@') == "OnBA" {
    assert Digit(14) == 'O' && Digit(39) == 'n' && Digit(1) == 'B' && Digit(0) == 'A';
  }

  lemma SsBlock() ensures EncodeTwo('s', 's') == "c3M=" {
    assert Digit(28) == 'c' && Digit(55) == '3' && Digit(12) == 'M';
  }

  /** Eight bytes encode as two full quanta and a padded one. */
  lemma EncodeEight(s: Bytes)
    requires |s| == 8
    ensures Encode(s) == EncodeBlock(s[0], s[1], s[2]) + EncodeBlock(s[3], s[4], s[5]) + EncodeTwo(s[6], s[7])
  {
    var rest := s[3..];
    assert Encode(rest[3..]) == EncodeTwo(s[6], s[7]) by {
      assert rest[3..] == [s[6], s[7]];
    }
    assert Encode(rest) == EncodeBlock(s[3], s[4], s[5]) + EncodeTwo(s[6], s[7]) by {
      EncodeUnfold(rest);
    }
    assert Encode(s) == EncodeBlock(s[0], s[1], s[2]) + Encode(rest) by {
      EncodeUnfold(s);
    }
  }

  /** The token for user "svc" with password "p@ss". */
  lemma SvcToken()
    ensures Encode("svc:p@ss") == "c3ZjOnBAc3M="
  {
    EncodeEight("svc:p@ss");
    SvcBlock();
    ColonBlock();
    SsBlock();
  }

  /** The header a client configured with user "svc" and password "p@ss" sends. */
  lemma ClientHeaderExample()
    ensures BasicAuthValue("svc", "p@ss") == "Basic c3ZjOnBAc3M="
  {
    assert "svc" + [Colon] + "p@ss" == "svc:p@ss";
    SvcToken();
  }

  // ---------------------------------------------------------------- finding the header

  /** The value of a header entry: its first value, or "" for an empty list. */
  function FirstValue(values: seq<Bytes>): Bytes {
    if |values| == 0 then [] else values[0]
  }

  /** The values `getAuthHeader` may return: "Authorization" first, then "authorization",
      and only when neither key is present the first value of some key equal to
      "authorization" ignoring case (the map's iteration order picks which). */
  ghost predicate IsAuthHeader(h: Header, r: Bytes) {
    if CanonicalHeaderKey in h then r == FirstValue(h[CanonicalHeaderKey])
    else if MetadataKey in h then r == FirstValue(h[MetadataKey])
    else if exists k :: k in h && EqualFold(k, MetadataKey) then
      exists k :: k in h && EqualFold(k, MetadataKey) && r == FirstValue(h[k])
    else r == []
  }

  /** `getAuthHeader`. */
  method GetAuthHeader(h: Header) returns (r: Bytes)
    ensures IsAuthHeader(h, r)
  {
    var ok := CanonicalHeaderKey in h;
    var authHeaders: seq<Bytes> := if ok then h[CanonicalHeaderKey] else [];
    if !ok {
      ok := MetadataKey in h;
      authHeaders := if ok then h[MetadataKey] else [];
    }
    ghost var chosen: Option<Bytes> := None;
    if !ok {
      var unvisited := h.Keys;
      while unvisited != {}
        invariant unvisited <= h.Keys
        invariant authHeaders == [] && chosen == None
        invariant forall k | k in h && k !in unvisited :: !EqualFold(k, MetadataKey)
        decreases unvisited
      {
        var k :| k in unvisited;
        if EqualFold(k, MetadataKey) {
          authHeaders := h[k];
          chosen := Some(k);
          break;
        }
        unvisited := unvisited - {k};
      }
    }
    assert chosen.Some? ==>
      !ok && chosen.value in h && EqualFold(chosen.value, MetadataKey) && authHeaders == h[chosen.value];
    assert !ok && chosen.None? ==> authHeaders == [] && forall k | k in h :: !EqualFold(k, MetadataKey);
    if |authHeaders| == 0 {
      return [];
    }
    return authHeaders[0];
  }

  /** A single authorization key is found whatever its letter case. */
  lemma AnyCaseKeyFound(k: Bytes, values: seq<Bytes>, r: Bytes)
    requires EqualFold(k, MetadataKey)
    ensures IsAuthHeader(map[k := values], r) <==> r == FirstValue(values)
  {
    var h := map[k := values];
    if k != CanonicalHeaderKey && k != MetadataKey {
      assert k in h && EqualFold(k, MetadataKey);
      if IsAuthHeader(h, r) {
        var k' :| k' in h && EqualFold(k', MetadataKey) && r == FirstValue(h[k']);
        assert k' == k;
      }
    }
  }

  // ---------------------------------------------------------------- authenticating

  /** The decision `authenticate` takes on the header value it found. */
  function AuthenticateValue(auth: Bytes, matches: MatchFunc): (r: Result<AuthData, Error>)
    ensures r == Failure(NoAuth) <==> auth == []
    ensures auth != [] && ParseBasicAuth(auth).Failure? ==> r == ParseBasicAuth(auth)
    ensures r == Failure(InvalidCredentials) <==>
              auth != [] && ParseBasicAuth(auth).Success? &&
              !matches(ParseBasicAuth(auth).value.username, ParseBasicAuth(auth).value.password)
    ensures r.Success? <==>
              auth != [] && ParseBasicAuth(auth).Success? &&
              matches(ParseBasicAuth(auth).value.username, ParseBasicAuth(auth).value.password)
    ensures r.Success? ==> r == ParseBasicAuth(auth)
  {
    if auth == [] then Failure(NoAuth)
    else
      match ParseBasicAuth(auth)
      case Failure(e) => Failure(e)
      case Success(authData) =>
        if !matches(authData.username, authData.password) then Failure(InvalidCredentials)
        else Success(authData)
  }

  /** A header built by a client authenticates exactly when the store accepts its
      credentials, and then yields the client's user name and token. */
  lemma AuthenticateClientValue(u: Bytes, p: Bytes, matches: MatchFunc)
    requires Colon !in u
    ensures AuthenticateValue(BasicAuthValue(u, p), matches) ==
              if matches(u, p) then Success(AuthData(u, p, Encode(u + [Colon] + p)))
              else Failure(InvalidCredentials)
  {
    ParseRoundTrip(u, p);
  }

  // ---------------------------------------------------------------- the client adapters

  /** gRPC per-call credentials holding a fixed metadata map. */
  datatype PerRPCAuth = PerRPCAuth(metadata: map<Bytes, Bytes>) {

    /** The map fixed at construction, the same on every call; its error result is always
        nil and not modelled. */
    function GetRequestMetadata(): (m: map<Bytes, Bytes>)
      ensures m == metadata
    {
      metadata
    }

    function RequireTransportSecurity(): (required: bool)
      ensures required
    {
      true
    }
  }

  /** An outgoing HTTP request; only the header is touched. */
  datatype Request = Request(verb: Bytes, url: Bytes, header: Header, body: Bytes)

  /** The HTTP decorator: it sends a copy of each request carrying the Basic header. */
  datatype BasicAuthRoundTripper = BasicAuthRoundTripper(authData: ClientAuthSettings) {

    /** The request `RoundTrip` hands to the wrapped transport: a copy of `request` whose
        "Authorization" header is replaced by the Basic value. */
    function RoundTrip(request: Request): (forwarded: Request)
      ensures forwarded.verb == request.verb && forwarded.url == request.url
      ensures forwarded.body == request.body
      ensures forwarded.header.Keys == request.header.Keys + {CanonicalHeaderKey}
      ensures forwarded.header[CanonicalHeaderKey] == [BasicAuthValue(authData.username, authData.password)]
      ensures forall k | k in request.header && k != CanonicalHeaderKey ::
                forwarded.header[k] == request.header[k]
    {
      request.(header := request.header[CanonicalHeaderKey := [BasicAuthValue(authData.username, authData.password)]])
    }
  }

  /** The server finds the value the decorator set, whatever else the request carries. */
  lemma RoundTripHeaderFound(rt: BasicAuthRoundTripper, request: Request, r: Bytes)
    ensures IsAuthHeader(rt.RoundTrip(request).header, r) <==>
              r == BasicAuthValue(rt.authData.username, rt.authData.password)
  {
  }

  /** Call metadata as the server sees it: each entry a one-element list. */
  function MetadataHeader(metadata: map<Bytes, Bytes>): (h: Header)
    ensures h.Keys == metadata.Keys
    ensures forall k | k in metadata :: h[k] == [metadata[k]]
  {
    map k | k in metadata :: [metadata[k]]
  }

  // ---------------------------------------------------------------- the extension object

  /** The extension's state: which role it was configured for and, once the server has
      started, the credential store's check. */
  class BasicAuthExtension {
    var htpasswd: Option<HtpasswdSettings>
    var clientAuth: Option<ClientAuthSettings>
    var matchFunc: Option<MatchFunc>

    constructor (htpasswd: Option<HtpasswdSettings>, clientAuth: Option<ClientAuthSettings>)
      ensures this.htpasswd == htpasswd && this.clientAuth == clientAuth
      ensures matchFunc == None
    {
      this.htpasswd := htpasswd;
      this.clientAuth := clientAuth;
      matchFunc := None;
    }

    /** `serverStart`: loads the store from the file's content (when a file is set)
        followed by the inline content. `fileContent` is what reading the file gives,
        `None` when it cannot be opened; `load` is the htpasswd parser, `None` when the
        content does not parse. */
    method ServerStart(fileContent: Option<Bytes>, load: Bytes -> Option<MatchFunc>) returns (err: Option<Error>)
      requires htpasswd.Some?
      modifies this
      ensures htpasswd == old(htpasswd) && clientAuth == old(clientAuth)
      ensures htpasswd.value.file != [] && fileContent.None? ==>
                err == Some(OpenHtpasswdFile) && matchFunc == old(matchFunc)
      ensures !(htpasswd.value.file != [] && fileContent.None?) ==>
                var loaded := load(CredentialStream(htpasswd.value, fileContent.GetOr([])));
                if loaded.None? then err == Some(ReadHtpasswdContent) && matchFunc == old(matchFunc)
                else err == None && matchFunc == loaded
    {
      var settings := htpasswd.value;
      var rs: seq<Bytes> := [];
      if settings.file != [] {
        if fileContent.None? {
          return Some(OpenHtpasswdFile);
        }
        rs := rs + [fileContent.value];
        rs := rs + [Newline];
      }
      // The inline content is read last, so that its entries override the file's.
      rs := rs + [settings.inline];
      ConcatStream(settings, fileContent.GetOr([]), rs);
      var htp := load(Concat(rs));
      if htp.None? {
        return Some(ReadHtpasswdContent);
      }
      matchFunc := htp;
      return None;
    }

    /** `authenticate`; success stands for the context that now carries the identity. */
    method Authenticate(headers: Header) returns (r: Result<AuthData, Error>)
      requires matchFunc.Some?
      ensures exists auth :: IsAuthHeader(headers, auth) && r == AuthenticateValue(auth, matchFunc.value)
    {
      var auth := GetAuthHeader(headers);
      r := AuthenticateValue(auth, matchFunc.value);
    }

    /** `roundTripper`: the HTTP decorator, refused for a user name with a colon. */
    function RoundTripper(): (r: Result<BasicAuthRoundTripper, Error>)
      requires clientAuth.Some?
      reads this
      ensures r.Failure? <==> Colon in clientAuth.value.username
      ensures r.Failure? ==> r.error == InvalidFormat
      ensures r.Success? ==> r.value.authData == clientAuth.value
    {
      if Colon in clientAuth.value.username then Failure(InvalidFormat)
      else Success(BasicAuthRoundTripper(clientAuth.value))
    }

    /** `perRPCCredentials`: one precomputed "authorization" entry, refused for a user name
        with a colon. */
    function PerRPCCredentials(): (r: Result<PerRPCAuth, Error>)
      requires clientAuth.Some?
      reads this
      ensures r.Failure? <==> Colon in clientAuth.value.username
      ensures r.Failure? ==> r.error == InvalidFormat
      ensures r.Success? ==>
                r.value.GetRequestMetadata() ==
                  map[MetadataKey := BasicAuthValue(clientAuth.value.username, clientAuth.value.password)]
      ensures r.Success? ==>
                ParseBasicAuth(r.value.GetRequestMetadata()[MetadataKey]) ==
                  Success(AuthData(clientAuth.value.username, clientAuth.value.password,
                                   Encode(clientAuth.value.username + [Colon] + clientAuth.value.password)))
    {
      var settings := clientAuth.value;
      if Colon in settings.username then Failure(InvalidFormat)
      else
        ParseRoundTrip(settings.username, settings.password);
        Success(PerRPCAuth(map[MetadataKey := BasicAuthValue(settings.username, settings.password)]))
    }
  }

  /** A server that receives the per-call metadata as headers authenticates the
      configured client exactly when the store accepts its credentials. */
  lemma PerRPCAuthenticates(ext: BasicAuthExtension, matches: MatchFunc, auth: Bytes)
    requires ext.clientAuth.Some? && ext.PerRPCCredentials().Success?
    requires IsAuthHeader(MetadataHeader(ext.PerRPCCredentials().value.GetRequestMetadata()), auth)
    ensures var u, p := ext.clientAuth.value.username, ext.clientAuth.value.password;
            AuthenticateValue(auth, matches) ==
              if matches(u, p) then Success(AuthData(u, p, Encode(u + [Colon] + p)))
              else Failure(InvalidCredentials)
  {
    var u, p := ext.clientAuth.value.username, ext.clientAuth.value.password;
    var h := MetadataHeader(ext.PerRPCCredentials().value.GetRequestMetadata());
    assert h == map[MetadataKey := [BasicAuthValue(u, p)]];
    AnyCaseKeyFound(MetadataKey, [BasicAuthValue(u, p)], auth);
    AuthenticateClientValue(u, p, matches);
  }

  /** A server that receives a request sent through the decorator authenticates the
      configured client exactly when the store accepts its credentials. */
  lemma RoundTripAuthenticates(ext: BasicAuthExtension, request: Request, matches: MatchFunc, auth: Bytes)
    requires ext.clientAuth.Some? && ext.RoundTripper().Success?
    requires IsAuthHeader(ext.RoundTripper().value.RoundTrip(request).header, auth)
    ensures var u, p := ext.clientAuth.value.username, ext.clientAuth.value.password;
            AuthenticateValue(auth, matches) ==
              if matches(u, p) then Success(AuthData(u, p, Encode(u + [Colon] + p)))
              else Failure(InvalidCredentials)
  {
    RoundTripHeaderFound(ext.RoundTripper().value, request, auth);
    AuthenticateClientValue(ext.clientAuth.value.username, ext.clientAuth.value.password, matches);
  }

  // ---------------------------------------------------------------- loading the store

  /** `io.MultiReader`: the readers' contents one after another. */
  function Concat(parts: seq<Bytes>): Bytes {
    if |parts| == 0 then [] else parts[0] + Concat(parts[1..])
  }

  /** The text the htpasswd parser reads: the file's content, a line break and the
      inline content when a file is set, the inline content alone otherwise. */
  function CredentialStream(settings: HtpasswdSettings, fileContent: Bytes): Bytes {
    if settings.file != [] then fileContent + Newline + settings.inline else settings.inline
  }

  /** The inline content always ends the stream, after the whole file and a line break. */
  lemma InlineReadLast(settings: HtpasswdSettings, fileContent: Bytes)
    ensures var s := CredentialStream(settings, fileContent);
            |s| >= |settings.inline| && s[|s| - |settings.inline|..] == settings.inline
    ensures settings.file != [] ==>
              var s := CredentialStream(settings, fileContent);
              s[..|fileContent|] == fileContent && s[|fileContent|] == '\n'
  {
  }

  /** The readers `serverStart` assembles concatenate to the credential stream. */
  lemma ConcatStream(settings: HtpasswdSettings, fileContent: Bytes, rs: seq<Bytes>)
    requires rs == (if settings.file != [] then [fileContent, Newline] else []) + [settings.inline]
    ensures Concat(rs) == CredentialStream(settings, fileContent)
  {
    if settings.file != [] {
      assert rs[1..] == [Newline, settings.inline];
      assert rs[1..][1..] == [settings.inline];
      assert Concat(rs[1..][1..]) == settings.inline;
      assert Concat(rs) == fileContent + (Newline + settings.inline);
    } else {
      assert Concat(rs[1..]) == [];
      assert Concat(rs) == settings.inline + [];
    }
  }

  // ---------------------------------------------------------------- construction

  /** `newClientAuthExtension`: needs client settings with a user name. */
  method NewClientAuthExtension(cfg: Config) returns (r: Result<BasicAuthExtension, Error>)
    ensures r.Failure? <==> cfg.clientAuth.None? || cfg.clientAuth.value.username == []
    ensures r.Failure? ==> r.error == NoCredentialSource
    ensures r.Success? ==>
              && fresh(r.value)
              && r.value.clientAuth == cfg.clientAuth && r.value.htpasswd == None
              && r.value.matchFunc == None
  {
    if cfg.clientAuth.None? || cfg.clientAuth.value.username == [] {
      return Failure(NoCredentialSource);
    }
    var ba := new BasicAuthExtension(None, cfg.clientAuth);
    return Success(ba);
  }

  /** `newServerAuthExtension`: needs htpasswd settings naming a file or inline content. */
  method NewServerAuthExtension(cfg: Config) returns (r: Result<BasicAuthExtension, Error>)
    ensures r.Failure? <==>
              cfg.htpasswd.None? || (cfg.htpasswd.value.file == [] && cfg.htpasswd.value.inline == [])
    ensures r.Failure? ==> r.error == NoCredentialSource
    ensures r.Success? ==>
              && fresh(r.value)
              && r.value.htpasswd == cfg.htpasswd && r.value.clientAuth == None
              && r.value.matchFunc == None
  {
    if cfg.htpasswd.None? || (cfg.htpasswd.value.file == [] && cfg.htpasswd.value.inline == []) {
      return Failure(NoCredentialSource);
    }
    var ba := new BasicAuthExtension(cfg.htpasswd, None);
    return Success(ba);
  }
}
