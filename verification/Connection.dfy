/** The connection manager: validate, decide about endpoint discovery, connect; retry until it
    works or cannot work. What the network and the file system answer is an input. */
module Connection {
  import opened Outcomes
  import opened Text
  import opened Security

  datatype Settings = Settings(
    securityMode: string, securityPolicy: string, authMode: string,
    username: string, certificateFile: string, privateKeyFile: string)
  {
    function Auth(): AuthConfig { AuthConfig(authMode, username, certificateFile, privateKeyFile) }

    function Selector(): EndpointSelector { EndpointSelector(securityMode, securityPolicy, authMode) }
  }

  /** What the outside world answers during one attempt. */
  datatype World = World(files: Files, dialled: bool, offered: Option<seq<Endpoint>>, connected: bool)

  datatype Client = Insecure(authMode: string) | Secure(endpoint: Endpoint, token: TokenType)

  datatype ConnectError = Permanent(cause: SecurityError) | Rejected(why: SecurityError) | NetworkFailure

  function Validate(files: Files, s: Settings): Option<SecurityError> {
    var auth := ValidateAuthConfig(files, s.Auth());
    if auth.Some? then auth
    else ValidateWithCertificates(files, s.securityMode, s.securityPolicy, s.certificateFile, s.privateKeyFile)
  }

  predicate NeedsDiscovery(s: Settings) {
    if s.securityMode != "None" then true else s.authMode != "Anonymous" && s.authMode != ""
  }

  /** Loading a certificate and its key; the files must be named, exist, and parse. */
  predicate Loads(files: Files, cert: string, key: string) {
    cert != "" && key != "" && files.exist(cert) && files.exist(key) && files.parse(cert, key)
  }

  function InsecureOptions(files: Files, auth: AuthConfig): Option<SecurityError> {
    if auth.mode == "Certificate" && !Loads(files, auth.certificateFile, auth.privateKeyFile) then Some(CertificateNotLoaded)
    else None
  }

  function SecureOptions(files: Files, auth: AuthConfig, ep: Endpoint): Result<TokenType, SecurityError> {
    match TokenLookup(auth.mode, ep)
    case Err(e) => Err(e)
    case Ok(token) =>
      var loads := Loads(files, auth.certificateFile, auth.privateKeyFile);
      if auth.mode == "Certificate" && !loads then Err(CertificateNotLoaded)
      else if auth.certificateFile != "" && auth.privateKeyFile != "" then
        if !loads then Err(CertificateNotLoaded)
        else if !files.isRSA(auth.certificateFile, auth.privateKeyFile) then Err(KeyNotRSA)
        else Ok(token)
      else Ok(token)
  }

  function ConnectWithDiscovery(world: World, s: Settings): Result<Client, ConnectError> {
    if !world.dialled || world.offered.None? then Err(NetworkFailure)
    else match s.Selector().Selection(world.offered.value)
      case Err(e) => Err(Rejected(e))
      case Ok(ep) =>
        match SecureOptions(world.files, s.Auth(), ep)
        case Err(e) => Err(Rejected(e))
        case Ok(token) => if world.connected then Ok(Secure(ep, token)) else Err(NetworkFailure)
  }

  function ConnectInsecure(world: World, s: Settings): Result<Client, ConnectError> {
    match InsecureOptions(world.files, s.Auth())
    case Some(e) => Err(Rejected(e))
    case None => if world.connected then Ok(Insecure(s.authMode)) else Err(NetworkFailure)
  }

  function Attempt(world: World, s: Settings): Result<Client, ConnectError> {
    match Validate(world.files, s)
    case Some(e) => Err(Permanent(e))
    case None => if NeedsDiscovery(s) then ConnectWithDiscovery(world, s) else ConnectInsecure(world, s)
  }

  /** Nothing more is tried after success, or after an error that cannot go away. */
  predicate Final(r: Result<Client, ConnectError>) {
    r.Ok? || r.error.Permanent?
  }

  /** Attempt i succeeds, and those before it fail in a way that is retried. */
  predicate SucceedsAt(worlds: seq<World>, s: Settings, i: int) {
    0 <= i < |worlds| && Attempt(worlds[i], s).Ok? && forall j | 0 <= j < i :: !Final(Attempt(worlds[j], s))
  }

  predicate Connects(worlds: seq<World>, s: Settings) {
    exists i :: 0 <= i < |worlds| && SucceedsAt(worlds, s, i)
  }

  class Manager {
    const settings: Settings
    var client: Option<Client>

    constructor (settings: Settings)
      ensures this.settings == settings && client == None
    {
      this.settings := settings;
      client := None;
    }

    /** `worlds` are the attempts that the retry policy leaves time for. */
    method Connect(worlds: seq<World>) returns (r: Option<Client>)
      modifies this
      ensures r.Some? ==> client == r
      ensures r.None? ==> client == old(client)
      ensures r.Some? <==> Connects(worlds, settings)
      ensures r.Some? ==> exists i :: SucceedsAt(worlds, settings, i) && Attempt(worlds[i], settings) == Ok(r.value)
    {
      for i := 0 to |worlds|
        invariant client == old(client)
        invariant forall j | 0 <= j < i :: !Final(Attempt(worlds[j], settings))
      {
        match Attempt(worlds[i], settings) {
          case Ok(c) =>
            assert SucceedsAt(worlds, settings, i);
            client := Some(c);
            return client;
          case Err(Permanent(_)) =>
            assert Final(Attempt(worlds[i], settings));
            return None;
          case Err(_) =>
        }
      }
      r := None;
    }
  }

  // ---------- what validation guarantees ----------

  /** Which settings are accepted. Certificate files are looked at when the authentication or the
      mode asks for them, and then both are missing or both exist. */
  lemma AcceptedExactly(files: Files, s: Settings)
    ensures Validate(files, s) == None <==>
            && (s.authMode == "Anonymous" || (s.authMode == "Username" && s.username != "") || s.authMode == "Certificate")
            && (if s.securityMode == "None" then s.securityPolicy == "None"
                else s.securityMode in {"Sign", "SignAndEncrypt"}
                     && s.securityPolicy in {"Basic128Rsa15", "Basic256", "Basic256Sha256"}
                     && s.certificateFile != "" && s.privateKeyFile != "")
            && (s.authMode == "Certificate" || s.securityMode != "None" ==>
                  || (s.certificateFile == "" && s.privateKeyFile == "")
                  || (s.certificateFile != "" && s.privateKeyFile != ""
                      && files.exist(s.certificateFile) && files.exist(s.privateKeyFile)))
  {
  }

  lemma ValidatedShape(files: Files, s: Settings)
    requires Validate(files, s) == None
    ensures ParseMode(s.securityMode).Some? && TokenFor(s.authMode).Some? && KnownPolicy(s.securityPolicy)
    ensures s.securityMode == "None" <==> s.securityPolicy == "None"
    ensures s.securityMode != "None" ==> s.certificateFile != "" && s.privateKeyFile != ""
  {
  }

  /** Accepted settings skip discovery exactly for anonymous access with mode and policy None; there
      the options for the client cannot fail. */
  lemma DirectExactly(files: Files, s: Settings)
    requires Validate(files, s) == None
    ensures !NeedsDiscovery(s) <==> s.authMode == "Anonymous" && s.securityMode == "None"
    ensures !NeedsDiscovery(s) ==> s.securityPolicy == "None" && InsecureOptions(files, s.Auth()) == None
  {
    ValidatedShape(files, s);
  }

  /** For accepted settings that take the discovery path the fallback is out of reach: whatever the
      server offers, selection succeeds if and only if something offered has all that is asked for,
      and yields the first such endpoint, where the token can be looked up. */
  lemma NoFallbackAfterDiscovery(files: Files, s: Settings, offered: seq<Endpoint>)
    requires Validate(files, s) == None && NeedsDiscovery(s)
    ensures !s.Selector().MayFallBack()
    ensures s.Selector().Selection(offered).Ok? <==> exists ep :: ep in offered && AskedFor(s.Selector(), ep)
    ensures s.Selector().Selection(offered).Ok? ==>
              var ep := s.Selector().Selection(offered).value;
              && (exists i :: FirstAskedFor(s.Selector(), offered, i) && offered[i] == ep)
              && TokenLookup(s.authMode, ep).Ok? && TokenLookup(s.authMode, ep).value in ep.tokens
              && IsTokenFor(s.authMode, TokenLookup(s.authMode, ep).value)
  {
    hide EndpointSelector.Selection, AskedFor;
    ValidatedShape(files, s);
    SelectsAsAsked(s.Selector(), offered);
    if s.Selector().Selection(offered).Ok? {
      SelectedSupportsAuth(s.Selector(), offered);
    }
  }

  /** Every connection that an attempt makes is what the settings ask for, and the server took part. */
  lemma ConnectedAsConfigured(world: World, s: Settings)
    requires Attempt(world, s).Ok?
    ensures world.connected && (Attempt(world, s).value.Secure? ==> world.dialled)
    ensures match Attempt(world, s).value
            case Insecure(auth) =>
              auth == s.authMode == "Anonymous" && s.securityMode == "None" && s.securityPolicy == "None"
            case Secure(ep, token) =>
              && world.offered.Some? && ep in world.offered.value
              && IsModeFor(s.securityMode, ep.mode) && PolicyMatches(s.securityPolicy, ep.policyURI)
              && IsTokenFor(s.authMode, token) && token in ep.tokens
  {
    hide PolicyMatches;
    DirectExactly(world.files, s);
    if NeedsDiscovery(s) {
      NoFallbackAfterDiscovery(world.files, s, world.offered.value);
    }
  }

  /** And which policy that is, on servers that use standard URIs: a secure connection has the
      configured one if and only if Basic256Sha256 did not come before Basic256 where that was asked. */
  lemma ServedAsConfigured(world: World, s: Settings)
    requires Attempt(world, s).Ok? && Attempt(world, s).value.Secure?
    requires StandardURIs(world.offered.value)
    ensures Attempt(world, s).value.endpoint.policyURI == PolicyURI(s.securityPolicy) <==>
            !Overtaken(s.Selector(), world.offered.value)
  {
    hide PolicyMatches, StandardURIs, Overtaken;
    ValidatedShape(world.files, s);
    NoFallbackAfterDiscovery(world.files, s, world.offered.value);
    ServedPolicy(s.Selector(), world.offered.value);
  }

  // ---------- when an attempt succeeds ----------

  /** A server in this world answers with what the settings ask for. */
  ghost predicate Answers(world: World, s: Settings) {
    && world.dialled && world.offered.Some?
    && exists ep :: ep in world.offered.value && AskedFor(s.Selector(), ep)
  }

  /** Nothing in this world stands in the way of a connection: anonymous access in mode None needs the
      server only, everything else also a fitting endpoint and usable certificates. */
  ghost predicate Reaches(world: World, s: Settings) {
    && world.connected
    && ((s.securityMode == "None" && s.authMode == "Anonymous")
        || (Answers(world, s) && CertificatesUsable(world.files, s)))
  }

  /** In every world: accepted settings connect if and only if nothing stands in the way, with the
      client that the path calls for; otherwise the failure is retried. Settings that are not accepted
      fail for good. */
  lemma AttemptsExactly(world: World, s: Settings)
    ensures Attempt(world, s).Ok? <==> Validate(world.files, s) == None && Reaches(world, s)
    ensures Attempt(world, s).Ok? ==>
              if s.securityMode == "None" && s.authMode == "Anonymous"
              then Attempt(world, s).value == Insecure("Anonymous")
              else && Attempt(world, s).value.Secure?
                   && exists i :: && FirstAskedFor(s.Selector(), world.offered.value, i)
                                  && world.offered.value[i] == Attempt(world, s).value.endpoint
    ensures Final(Attempt(world, s)) <==> Attempt(world, s).Ok? || Validate(world.files, s) != None
  {
    hide AskedFor, Validate, EndpointSelector.Selection, TokenLookup;
    if Validate(world.files, s) == None {
      DirectExactly(world.files, s);
      if NeedsDiscovery(s) && world.offered.Some? {
        NoFallbackAfterDiscovery(world.files, s, world.offered.value);
      }
    }
  }

  /** So a manager connects if and only if some attempt meets a world in which nothing stands in the
      way, and none before it finds the settings unacceptable. */
  lemma ConnectsExactly(worlds: seq<World>, s: Settings)
    ensures Connects(worlds, s) <==>
            exists i :: && 0 <= i < |worlds| && Reaches(worlds[i], s)
                        && forall j | 0 <= j <= i :: Validate(worlds[j].files, s) == None
  {
    hide Reaches, Validate, Attempt;
    forall world: World
      ensures Attempt(world, s).Ok? <==> Validate(world.files, s) == None && Reaches(world, s)
      ensures Final(Attempt(world, s)) <==> Attempt(world, s).Ok? || Validate(world.files, s) != None
    {
      AttemptsExactly(world, s);
    }
    if i :| 0 <= i < |worlds| && Reaches(worlds[i], s) && forall j | 0 <= j <= i :: Validate(worlds[j].files, s) == None {
      FirstSuccess(worlds, s, i);
    }
    if i :| 0 <= i < |worlds| && SucceedsAt(worlds, s, i) {
      forall j | 0 <= j <= i ensures Validate(worlds[j].files, s) == None {
        if j < i {
          assert !Final(Attempt(worlds[j], s));
        }
      }
    }
  }

  lemma {:induction false} FirstSuccess(worlds: seq<World>, s: Settings, i: nat)
    requires i < |worlds| && Attempt(worlds[i], s).Ok?
    requires forall j | 0 <= j < i :: Final(Attempt(worlds[j], s)) ==> Attempt(worlds[j], s).Ok?
    ensures Connects(worlds, s)
  {
    hide Attempt;
    if j :| 0 <= j < i && Attempt(worlds[j], s).Ok? {
      FirstSuccess(worlds, s, j);
    } else {
      assert SucceedsAt(worlds, s, i);
    }
  }

  // ---------- settings that can never connect ----------

  /** What the client options ask of the certificate files: wherever both are named, or a certificate
      logs in, they can be read as a pair, and for the channel the key is an RSA key. */
  predicate CertificatesUsable(files: Files, s: Settings) {
    var cert, key := s.certificateFile, s.privateKeyFile;
    && (s.authMode == "Certificate" ==> cert != "" && key != "")
    && (cert != "" && key != "" ==>
          files.exist(cert) && files.exist(key) && files.parse(cert, key) && files.isRSA(cert, key))
  }

  /** When the options for a client can be made, whatever the settings: for a direct connection a login
      by certificate needs a pair of files that loads; for a chosen endpoint the token must be listed,
      and the files be usable wherever they are asked for or both named. */
  lemma OptionsExactly(files: Files, s: Settings, ep: Endpoint)
    ensures InsecureOptions(files, s.Auth()) == None <==>
            var cert, key := s.certificateFile, s.privateKeyFile;
            s.authMode == "Certificate" ==>
              cert != "" && key != "" && files.exist(cert) && files.exist(key) && files.parse(cert, key)
    ensures SecureOptions(files, s.Auth(), ep).Ok? <==> HasTokenFor(s.authMode, ep) && CertificatesUsable(files, s)
  {
  }

  /** A server that offers just what the settings ask for. */
  function IdealWorld(files: Files, s: Settings): World
    requires ParseMode(s.securityMode).Some? && TokenFor(s.authMode).Some?
  {
    var uri := if s.securityPolicy == "None" then "" else PolicyURI(s.securityPolicy);
    World(files, true, Some([Endpoint("", ParseMode(s.securityMode).value, uri, [TokenFor(s.authMode).value])]), true)
  }

  lemma IdealEndpointSelected(files: Files, s: Settings)
    requires Validate(files, s) == None
    ensures ParseMode(s.securityMode).Some? && TokenFor(s.authMode).Some?
    ensures s.Selector().Selection(IdealWorld(files, s).offered.value) == Ok(IdealWorld(files, s).offered.value[0])
  {
    ValidatedShape(files, s);
    PolicyMatchExactly(s.securityPolicy, s.securityPolicy);
    var ep := IdealWorld(files, s).offered.value[0];
    assert PolicyMatches(s.securityPolicy, ep.policyURI);
    assert Supports(s.authMode, ep);
  }

  /** Validation does not open the certificates. Accepted settings on the discovery path connect in
      some world if and only if their certificates are usable; with unusable ones every attempt
      fails, and is retried. */
  lemma AcceptedConnectsExactly(files: Files, s: Settings)
    requires Validate(files, s) == None && NeedsDiscovery(s)
    ensures CertificatesUsable(files, s) <==> exists w: World :: w.files == files && Attempt(w, s).Ok?
    ensures !CertificatesUsable(files, s) ==>
              forall w: World | w.files == files :: Attempt(w, s).Err? && !Final(Attempt(w, s))
  {
    hide PolicyMatches, ValidateAuthConfig, ValidateWithCertificates, Supports;
    IdealEndpointSelected(files, s);
    var ideal := IdealWorld(files, s);
    if CertificatesUsable(files, s) {
      SelectedSupportsAuth(s.Selector(), ideal.offered.value);
      assert Attempt(ideal, s).Ok?;
    }
  }

  /** Certificate authentication without files, in mode None, is accepted and can never connect. */
  lemma CertificateWithoutFiles(files: Files, world: World)
    requires world.files == files
    ensures var s := Settings("None", "None", "Certificate", "", "", "");
            Validate(files, s) == None && Attempt(world, s).Err? && !Final(Attempt(world, s))
  {
    var s := Settings("None", "None", "Certificate", "", "", "");
    assert Validate(files, s) == None;
    AcceptedConnectsExactly(files, s);
  }
}
