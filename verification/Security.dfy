/** Security settings: their validation, the choice of a server endpoint, and the token lookup. */
module Security {
  import opened Outcomes
  import opened Text

  datatype MessageSecurityMode = InvalidMode | NoneMode | SignMode | SignAndEncryptMode

  datatype TokenType = AnonymousToken | UserNameToken | CertificateToken | IssuedToken

  datatype Endpoint = Endpoint(url: string, mode: MessageSecurityMode, policyURI: string, tokens: seq<TokenType>)

  datatype AuthConfig = AuthConfig(mode: string, username: string, certificateFile: string, privateKeyFile: string)

  datatype SecurityError =
    | UnsupportedAuthMode | UsernameMissing
    | CertificateFileMissing | PrivateKeyFileMissing | NoSuchCertificateFile | NoSuchPrivateKeyFile
    | UnsupportedMode | UnsupportedPolicy | NoneModeWithPolicy | ModeWithoutPolicy | FilesRequired
    | NoEndpoints | NoCompatibleEndpoint | AuthNotSupported
    | CertificateNotLoaded | KeyNotRSA

  /** The file system and the certificate library, as far as they decide anything here. */
  datatype Files = Files(exist: string -> bool, parse: (string, string) -> bool, isRSA: (string, string) -> bool)

  // ---------- validation ----------

  function ValidateCertificateFiles(files: Files, cert: string, key: string): Option<SecurityError> {
    if cert == "" && key == "" then None
    else if cert == "" then Some(CertificateFileMissing)
    else if key == "" then Some(PrivateKeyFileMissing)
    else if !files.exist(cert) then Some(NoSuchCertificateFile)
    else if !files.exist(key) then Some(NoSuchPrivateKeyFile)
    else None
  }

  function ValidateAuthConfig(files: Files, cfg: AuthConfig): Option<SecurityError> {
    if cfg.mode == "Anonymous" then None
    else if cfg.mode == "Username" then (if cfg.username == "" then Some(UsernameMissing) else None)
    else if cfg.mode == "Certificate" then ValidateCertificateFiles(files, cfg.certificateFile, cfg.privateKeyFile)
    else Some(UnsupportedAuthMode)
  }

  predicate KnownMode(mode: string) {
    mode == "None" || mode == "Sign" || mode == "SignAndEncrypt"
  }

  predicate KnownPolicy(policy: string) {
    policy == "None" || policy == "Basic128Rsa15" || policy == "Basic256" || policy == "Basic256Sha256"
  }

  function ValidateSecurityConfig(mode: string, policy: string): Option<SecurityError> {
    if !KnownMode(mode) then Some(UnsupportedMode)
    else if !KnownPolicy(policy) then Some(UnsupportedPolicy)
    else if mode == "None" && policy != "None" then Some(NoneModeWithPolicy)
    else if mode != "None" && policy == "None" then Some(ModeWithoutPolicy)
    else None
  }

  predicate RequiresCertificates(mode: string, policy: string) {
    if mode == "None" then false
    else if policy == "None" then false
    else true
  }

  function ValidateWithCertificates(files: Files, mode: string, policy: string, cert: string, key: string): Option<SecurityError> {
    var basic := ValidateSecurityConfig(mode, policy);
    if basic.Some? then basic
    else if !RequiresCertificates(mode, policy) then None
    else if cert == "" || key == "" then Some(FilesRequired)
    else ValidateCertificateFiles(files, cert, key)
  }

  // ---------- tokens ----------

  function TokenFor(authMode: string): Option<TokenType> {
    if authMode == "Anonymous" then Some(AnonymousToken)
    else if authMode == "Username" then Some(UserNameToken)
    else if authMode == "Certificate" then Some(CertificateToken)
    else None
  }

  predicate Supports(authMode: string, ep: Endpoint) {
    TokenFor(authMode).Some? && TokenFor(authMode).value in ep.tokens
  }

  /** The token that goes with the text of a setting, spelled out. */
  predicate IsTokenFor(authMode: string, token: TokenType) {
    && (token == AnonymousToken <==> authMode == "Anonymous")
    && (token == UserNameToken <==> authMode == "Username")
    && (token == CertificateToken <==> authMode == "Certificate")
    && token != IssuedToken
  }

  predicate HasTokenFor(authMode: string, ep: Endpoint) {
    || (authMode == "Anonymous" && AnonymousToken in ep.tokens)
    || (authMode == "Username" && UserNameToken in ep.tokens)
    || (authMode == "Certificate" && CertificateToken in ep.tokens)
  }

  function TokenLookup(authMode: string, ep: Endpoint): Result<TokenType, SecurityError> {
    match TokenFor(authMode)
    case None => Err(UnsupportedAuthMode)
    case Some(token) => if token in ep.tokens then Ok(token) else Err(AuthNotSupported)
  }

  method GetUserTokenTypeForAuth(authMode: string, ep: Endpoint) returns (r: Result<TokenType, SecurityError>)
    ensures r == TokenLookup(authMode, ep)
    ensures r.Ok? <==> HasTokenFor(authMode, ep)
    ensures r.Ok? ==> r.value in ep.tokens && IsTokenFor(authMode, r.value)
    ensures r == Err(UnsupportedAuthMode) <==> authMode !in {"Anonymous", "Username", "Certificate"}
  {
    var wanted := TokenFor(authMode);
    if wanted.None? {
      return Err(UnsupportedAuthMode);
    }
    for i := 0 to |ep.tokens|
      invariant wanted.value !in ep.tokens[..i]
    {
      if ep.tokens[i] == wanted.value {
        return Ok(wanted.value);
      }
    }
    r := Err(AuthNotSupported);
  }

  method IsAuthModeSupported(authMode: string, ep: Endpoint) returns (supported: bool)
    ensures supported == Supports(authMode, ep) == HasTokenFor(authMode, ep)
  {
    var wanted := TokenFor(authMode);
    if wanted.None? {
      return false;
    }
    for i := 0 to |ep.tokens|
      invariant wanted.value !in ep.tokens[..i]
    {
      if ep.tokens[i] == wanted.value {
        return true;
      }
    }
    supported := false;
  }

  // ---------- selection ----------

  function ParseMode(mode: string): Option<MessageSecurityMode> {
    if mode == "None" then Some(NoneMode)
    else if mode == "Sign" then Some(SignMode)
    else if mode == "SignAndEncrypt" then Some(SignAndEncryptMode)
    else None
  }

  /** The text that a policy URI is searched for; the empty text for an unknown policy. */
  function PolicyName(policy: string): string {
    if KnownPolicy(policy) then policy else ""
  }

  predicate PolicyMatches(policy: string, uri: string) {
    if PolicyName(policy) == "None" then HasSuffix(uri, "#None") || uri == ""
    else Contains(uri, PolicyName(policy))
  }

  datatype EndpointSelector = EndpointSelector(securityMode: string, securityPolicy: string, authMode: string)
  {
    predicate IsExact(mode: MessageSecurityMode, ep: Endpoint) {
      ep.mode == mode && PolicyMatches(securityPolicy, ep.policyURI) && Supports(authMode, ep)
    }

    function Exact(mode: MessageSecurityMode): Endpoint -> bool {
      (ep: Endpoint) => IsExact(mode, ep)
    }

    function Compatible(mode: MessageSecurityMode): Endpoint -> bool {
      (ep: Endpoint) => Supports(authMode, ep) && !IsExact(mode, ep)
    }

    predicate MayFallBack() {
      authMode == "Anonymous" && securityMode == "None"
    }

    predicate IsFallback(ep: Endpoint) {
      ep.mode == NoneMode && Supports(authMode, ep)
    }

    function Fallback(): Endpoint -> bool {
      (ep: Endpoint) => IsFallback(ep)
    }

    /** The choice, in terms of the first endpoint in the server's order with a property. */
    function Selection(endpoints: seq<Endpoint>): Result<Endpoint, SecurityError> {
      if endpoints == [] then Err(NoEndpoints)
      else match ParseMode(securityMode)
        case None => Err(UnsupportedMode)
        case Some(mode) =>
          match First(endpoints, Exact(mode))
          case Some(ep) => Ok(ep)
          case None =>
            if !MayFallBack() then Err(NoCompatibleEndpoint)
            else match First(endpoints, Fallback())
              case Some(ep) => Ok(ep)
              case None => Err(NoCompatibleEndpoint)
    }

    method SelectEndpoint(endpoints: seq<Endpoint>) returns (r: Result<Endpoint, SecurityError>)
      ensures r == Selection(endpoints)
    {
      hide PolicyMatches, Supports;
      if |endpoints| == 0 {
        return Err(NoEndpoints);
      }
      var parsed := ParseMode(securityMode);
      if parsed.None? {
        return Err(UnsupportedMode);
      }
      var mode := parsed.value;
      var exactMatches, compatibleMatches := [], [];
      for i := 0 to |endpoints|
        invariant exactMatches == Filter(endpoints[..i], Exact(mode))
        invariant compatibleMatches == Filter(endpoints[..i], Compatible(mode))
      {
        var ep := endpoints[i];
        assert endpoints[..i + 1] == endpoints[..i] + [ep];
        FilterSnoc(endpoints[..i], ep, Exact(mode));
        FilterSnoc(endpoints[..i], ep, Compatible(mode));
        var securityModeMatch := ep.mode == mode;
        var policyMatch := PolicyMatches(securityPolicy, ep.policyURI);
        var authSupported := IsAuthModeSupported(authMode, ep);
        if securityModeMatch && policyMatch && authSupported {
          exactMatches := exactMatches + [ep];
        } else if authSupported {
          compatibleMatches := compatibleMatches + [ep];
        }
      }
      assert endpoints[..|endpoints|] == endpoints;
      FirstOfFilter(endpoints, Exact(mode));
      if |exactMatches| > 0 {
        return Ok(exactMatches[0]);
      }
      if authMode == "Anonymous" && securityMode == "None" {
        ghost var fallback := Fallback();
        FirstInFilter(endpoints, Compatible(mode), fallback);
        for i := 0 to |compatibleMatches|
          invariant First(compatibleMatches[i..], fallback) == First(compatibleMatches, fallback)
        {
          assert compatibleMatches[i..][1..] == compatibleMatches[i + 1..];
          assert compatibleMatches[i] in compatibleMatches;
          if compatibleMatches[i].mode == NoneMode {
            return Ok(compatibleMatches[i]);
          }
        }
      }
      r := Err(NoCompatibleEndpoint);
    }
  }

  function First<T>(s: seq<T>, p: T -> bool): Option<T> {
    if s == [] then None else if p(s[0]) then Some(s[0]) else First(s[1..], p)
  }

  lemma {:induction false} FirstOfFilter<T>(s: seq<T>, p: T -> bool)
    ensures First(s, p) == if Filter(s, p) == [] then None else Some(Filter(s, p)[0])
  {
    if s != [] && !p(s[0]) {
      FirstOfFilter(s[1..], p);
    }
  }

  /** Searching a filtered list is searching the list, if the filter lets through what is sought. */
  lemma {:induction false} FirstInFilter<T>(s: seq<T>, keep: T -> bool, p: T -> bool)
    requires forall x | x in s :: p(x) ==> keep(x)
    ensures First(Filter(s, keep), p) == First(s, p)
  {
    if s != [] {
      FirstInFilter(s[1..], keep, p);
      if keep(s[0]) {
        assert ([s[0]] + Filter(s[1..], keep))[1..] == Filter(s[1..], keep);
      }
    }
  }

  predicate IsFirstAt<T>(s: seq<T>, p: T -> bool, i: int) {
    0 <= i < |s| && p(s[i]) && forall j | 0 <= j < i :: !p(s[j])
  }

  lemma {:induction false} FirstIsFirst<T>(s: seq<T>, p: T -> bool)
    ensures First(s, p).None? <==> forall x | x in s :: !p(x)
    ensures First(s, p).Some? ==> exists i :: IsFirstAt(s, p, i) && s[i] == First(s, p).value
  {
    if s != [] {
      FirstIsFirst(s[1..], p);
      if p(s[0]) {
        assert IsFirstAt(s, p, 0);
      } else if First(s[1..], p).Some? {
        var i :| IsFirstAt(s[1..], p, i) && s[1..][i] == First(s[1..], p).value;
        forall j | 0 <= j < i + 1 ensures !p(s[j]) {
          if j > 0 {
            assert !p(s[1..][j - 1]);
          }
        }
        assert IsFirstAt(s, p, i + 1);
      }
    }
  }

  // ---------- what is selected ----------

  /** With a parsable mode: the first exact endpoint in the server's order; without any, and only
      for anonymous access in mode None, the first endpoint of mode None that supports it; and an
      error exactly when there is neither. */
  lemma SelectionIsFirst(sel: EndpointSelector, endpoints: seq<Endpoint>)
    requires ParseMode(sel.securityMode).Some?
    ensures var exact := sel.Exact(ParseMode(sel.securityMode).value);
            var someExact := exists ep :: ep in endpoints && exact(ep);
            && (someExact ==>
                  exists i :: IsFirstAt(endpoints, exact, i) && sel.Selection(endpoints) == Ok(endpoints[i]))
            && (!someExact && sel.MayFallBack() && (exists ep :: ep in endpoints && sel.IsFallback(ep)) ==>
                  exists i :: IsFirstAt(endpoints, sel.Fallback(), i) && sel.Selection(endpoints) == Ok(endpoints[i]))
            && (sel.Selection(endpoints).Err? <==>
                  !someExact && !(sel.MayFallBack() && exists ep :: ep in endpoints && sel.IsFallback(ep)))
  {
    var exact := sel.Exact(ParseMode(sel.securityMode).value);
    FirstIsFirst(endpoints, exact);
    FirstIsFirst(endpoints, sel.Fallback());
    if First(endpoints, sel.Fallback()).Some? {
      var i :| IsFirstAt(endpoints, sel.Fallback(), i);
      assert sel.IsFallback(endpoints[i]);
    }
  }

  /** The mode that goes with the text of a setting, spelled out. */
  predicate IsModeFor(securityMode: string, mode: MessageSecurityMode) {
    && (mode == NoneMode <==> securityMode == "None")
    && (mode == SignMode <==> securityMode == "Sign")
    && (mode == SignAndEncryptMode <==> securityMode == "SignAndEncrypt")
    && mode != InvalidMode
  }

  /** An endpoint with everything that the three settings ask for. */
  predicate AskedFor(sel: EndpointSelector, ep: Endpoint) {
    && IsModeFor(sel.securityMode, ep.mode)
    && PolicyMatches(sel.securityPolicy, ep.policyURI)
    && HasTokenFor(sel.authMode, ep)
  }

  /** Endpoint i, and no earlier one, is asked for. */
  ghost predicate FirstAskedFor(sel: EndpointSelector, endpoints: seq<Endpoint>, i: int) {
    0 <= i < |endpoints| && AskedFor(sel, endpoints[i]) && forall j | 0 <= j < i :: !AskedFor(sel, endpoints[j])
  }

  lemma AskedForIsExact(sel: EndpointSelector, ep: Endpoint)
    ensures AskedFor(sel, ep) <==>
            ParseMode(sel.securityMode).Some? && sel.IsExact(ParseMode(sel.securityMode).value, ep)
  {
    hide PolicyMatches;
  }

  /** Selection succeeds if and only if an endpoint is asked for, or, for anonymous access in mode None,
      one of mode None takes the anonymous token. It then yields the first that is asked for, if there
      is one; and the mode and the token are the configured ones in any case. */
  lemma SelectsAsAsked(sel: EndpointSelector, endpoints: seq<Endpoint>)
    ensures var r := sel.Selection(endpoints);
            var asked := exists ep :: ep in endpoints && AskedFor(sel, ep);
            && (r.Ok? <==>
                  || asked
                  || (&& sel.securityMode == "None" && sel.authMode == "Anonymous"
                      && exists ep :: ep in endpoints && ep.mode == NoneMode && AnonymousToken in ep.tokens))
            && (asked ==> exists i :: FirstAskedFor(sel, endpoints, i) && r == Ok(endpoints[i]))
            && (r.Ok? ==>
                  r.value in endpoints && IsModeFor(sel.securityMode, r.value.mode) && HasTokenFor(sel.authMode, r.value))
            && (r == Err(NoEndpoints) <==> endpoints == [])
            && (r == Err(UnsupportedMode) <==>
                  endpoints != [] && sel.securityMode !in {"None", "Sign", "SignAndEncrypt"})
  {
    hide PolicyMatches, First;
    forall ep ensures AskedFor(sel, ep) <==>
                      ParseMode(sel.securityMode).Some? && sel.IsExact(ParseMode(sel.securityMode).value, ep)
    {
      AskedForIsExact(sel, ep);
    }
    if ParseMode(sel.securityMode).Some? {
      var exact := sel.Exact(ParseMode(sel.securityMode).value);
      SelectionIsFirst(sel, endpoints);
      forall i | IsFirstAt(endpoints, exact, i) ensures FirstAskedFor(sel, endpoints, i) {
        assert forall j | 0 <= j < i :: !exact(endpoints[j]);
      }
      forall ep ensures sel.MayFallBack() ==> (sel.IsFallback(ep) <==> ep.mode == NoneMode && AnonymousToken in ep.tokens) {}
    }
  }

  /** The user token for a selected endpoint can always be looked up, and is the one of the mode. */
  lemma SelectedSupportsAuth(sel: EndpointSelector, endpoints: seq<Endpoint>)
    requires sel.Selection(endpoints).Ok?
    ensures sel.Selection(endpoints).value in endpoints
    ensures TokenFor(sel.authMode).Some?
    ensures TokenLookup(sel.authMode, sel.Selection(endpoints).value) == Ok(TokenFor(sel.authMode).value)
  {
    SelectionIsFirst(sel, endpoints);
  }

  // ---------- matching a policy by substring ----------

  const POLICY_BASE := "http://opcfoundation.org/UA/SecurityPolicy#"

  function PolicyURI(policy: string): string { POLICY_BASE + policy }

  lemma NoB()
    ensures 'B' !in POLICY_BASE
  {
  }

  lemma NoBInBase(name: string, i: nat)
    requires i < |PolicyURI(name)|
    ensures i < |POLICY_BASE| ==> PolicyURI(name)[i] != 'B'
  {
    NoB();
    if i < |POLICY_BASE| {
      assert PolicyURI(name)[i] == POLICY_BASE[i];
    }
  }

  /** Every policy name with encryption starts with a B, which the common part of the URIs lacks, so
      a match lies within the name at its end. */
  lemma MatchInName(policy: string, name: string)
    requires policy != [] && policy[0] == 'B'
    ensures Contains(PolicyURI(name), policy) <==> Contains(name, policy)
  {
    var uri, n := PolicyURI(name), |POLICY_BASE|;
    forall i | OccursAt(uri, policy, i) ensures i >= n && OccursAt(name, policy, i - n) {
      FirstCharacter(uri, policy, i);
      NoBInBase(name, i);
      assert uri[i..i + |policy|] == name[i - n..i - n + |policy|];
    }
    forall i | OccursAt(name, policy, i) ensures OccursAt(uri, policy, n + i) {
      assert uri[n + i..n + i + |policy|] == name[i..i + |policy|];
    }
  }

  lemma FirstCharacter(s: string, sub: string, i: int)
    requires OccursAt(s, sub, i) && sub != []
    ensures i < |s| && s[i] == sub[0]
  {
    assert s[i..i + |sub|][0] == s[i];
  }

  /** What a policy matches among the URIs of the standard form: for None the name None, or a name
      that ends in "#None"; for the others every name that contains the policy's. On the four names
      that a configuration can use the match is exact but for one pair: an endpoint with
      Basic256Sha256 also satisfies a request for Basic256. An empty URI stands for None, and a policy
      that no configuration can have matches everything. */
  lemma PolicyMatchExactly(policy: string, name: string)
    ensures KnownPolicy(policy) ==>
              (PolicyMatches(policy, PolicyURI(name)) <==>
               if policy == "None" then name == "None" || HasSuffix(name, "#None") else Contains(name, policy))
    ensures KnownPolicy(policy) && KnownPolicy(name) ==>
              (PolicyMatches(policy, PolicyURI(name)) <==>
               name == policy || (policy == "Basic256" && name == "Basic256Sha256"))
    ensures PolicyMatches(policy, "") <==> policy !in {"Basic128Rsa15", "Basic256", "Basic256Sha256"}
    ensures policy !in {"None", "Basic128Rsa15", "Basic256", "Basic256Sha256"} ==>
              forall uri :: PolicyMatches(policy, uri)
  {
    if policy == "None" {
      SuffixOfURI(name);
    } else if KnownPolicy(policy) {
      MatchInName(policy, name);
      if KnownPolicy(name) {
        NameContains(policy, name);
      }
    } else {
      forall uri ensures PolicyMatches(policy, uri) {
        assert OccursAt(uri, "", 0);
      }
    }
  }

  lemma NameContains(policy: string, name: string)
    requires KnownPolicy(policy) && policy != "None" && KnownPolicy(name)
    ensures Contains(name, policy) <==> name == policy || (policy == "Basic256" && name == "Basic256Sha256")
  {
    if name == policy || (policy == "Basic256" && name == "Basic256Sha256") {
      assert OccursAt(name, policy, 0);
    }
    forall i | OccursAt(name, policy, i)
      ensures name == policy || (policy == "Basic256" && name == "Basic256Sha256")
    {
      FirstCharacter(name, policy, i);
      OnlyFirstB(name, i);
      PrefixExactly(policy, name);
    }
  }

  lemma PrefixExactly(policy: string, name: string)
    requires KnownPolicy(policy) && KnownPolicy(name) && OccursAt(name, policy, 0)
    ensures name == policy || (policy == "Basic256" && name == "Basic256Sha256")
  {
    assert name[0..|policy|][0] == name[0];
    if |policy| > 5 {
      assert name[0..|policy|][5] == name[5];
    }
  }

  lemma OnlyFirstB(name: string, i: nat)
    requires KnownPolicy(name) && i < |name| && name[i] == 'B'
    ensures i == 0
  {
  }

  lemma SuffixOfURI(name: string)
    ensures HasSuffix(PolicyURI(name), "#None") <==> name == "None" || HasSuffix(name, "#None")
    ensures KnownPolicy(name) ==> !HasSuffix(name, "#None")
  {
    var uri, n := PolicyURI(name), |name|;
    var end := uri[|uri| - 5..];
    if n >= 5 {
      assert end == name[n - 5..];
    } else {
      assert end[4 - n] == uri[|uri| - n - 1] == '#';
      assert end[5 - n..] == name;
    }
    if KnownPolicy(name) && n >= 5 {
      assert name[n - 5..][4] == name[n - 1];
    }
  }

  // ---------- the policy that is served ----------

  const KNOWN_POLICIES := {"None", "Basic128Rsa15", "Basic256", "Basic256Sha256"}

  /** The server describes every endpoint by the URI of one of the four configurable policies. */
  predicate StandardURIs(endpoints: seq<Endpoint>) {
    forall ep | ep in endpoints :: exists name | name in KNOWN_POLICIES :: ep.policyURI == PolicyURI(name)
  }

  /** Endpoint i has the wanted mode and token, and exactly this policy. */
  predicate OffersAt(sel: EndpointSelector, endpoints: seq<Endpoint>, policy: string, i: int) {
    && 0 <= i < |endpoints|
    && ParseMode(sel.securityMode) == Some(endpoints[i].mode)
    && Supports(sel.authMode, endpoints[i])
    && endpoints[i].policyURI == PolicyURI(policy)
  }

  /** Basic256 is asked for, and an endpoint with Basic256Sha256 comes before all with Basic256. */
  ghost predicate Overtaken(sel: EndpointSelector, endpoints: seq<Endpoint>) {
    && sel.securityPolicy == "Basic256"
    && exists i :: OffersAt(sel, endpoints, "Basic256Sha256", i)
                   && forall j | 0 <= j < i :: !OffersAt(sel, endpoints, "Basic256", j)
  }

  lemma PolicyURIInjective(a: string, b: string)
    requires PolicyURI(a) == PolicyURI(b)
    ensures a == b
  {
    assert a == PolicyURI(a)[|POLICY_BASE|..];
    assert b == PolicyURI(b)[|POLICY_BASE|..];
  }

  /** On standard URIs an endpoint is an exact match if it offers the configured policy, or
      Basic256Sha256 where Basic256 is configured. */
  lemma ExactOffers(sel: EndpointSelector, endpoints: seq<Endpoint>, i: int)
    requires KnownPolicy(sel.securityPolicy) && ParseMode(sel.securityMode).Some?
    requires StandardURIs(endpoints) && 0 <= i < |endpoints|
    ensures sel.IsExact(ParseMode(sel.securityMode).value, endpoints[i]) <==>
            || OffersAt(sel, endpoints, sel.securityPolicy, i)
            || (sel.securityPolicy == "Basic256" && OffersAt(sel, endpoints, "Basic256Sha256", i))
  {
    hide PolicyMatches, Supports;
    assert endpoints[i] in endpoints;
    var name :| name in KNOWN_POLICIES && endpoints[i].policyURI == PolicyURI(name);
    PolicyMatchExactly(sel.securityPolicy, name);
    if endpoints[i].policyURI == PolicyURI(sel.securityPolicy) {
      PolicyURIInjective(name, sel.securityPolicy);
    }
    if endpoints[i].policyURI == PolicyURI("Basic256Sha256") {
      PolicyURIInjective(name, "Basic256Sha256");
    }
  }

  /** Which server lists are served with the configured policy: the selected endpoint has it if and
      only if some endpoint of the wanted mode and token offers it and Basic256Sha256 does not get
      in before. Where there is no fallback the first of these is implied. */
  lemma ServedPolicy(sel: EndpointSelector, endpoints: seq<Endpoint>)
    requires KnownPolicy(sel.securityPolicy) && ParseMode(sel.securityMode).Some? && StandardURIs(endpoints)
    requires sel.Selection(endpoints).Ok?
    ensures sel.Selection(endpoints).value.policyURI == PolicyURI(sel.securityPolicy) <==>
            (exists i :: OffersAt(sel, endpoints, sel.securityPolicy, i)) && !Overtaken(sel, endpoints)
    ensures !sel.MayFallBack() ==>
              (sel.Selection(endpoints).value.policyURI == PolicyURI(sel.securityPolicy) <==> !Overtaken(sel, endpoints))
  {
    hide PolicyMatches, Supports;
    SelectionIsFirst(sel, endpoints);
    var mode := ParseMode(sel.securityMode).value;
    forall i | 0 <= i < |endpoints|
      ensures sel.Exact(mode)(endpoints[i]) <==>
              || OffersAt(sel, endpoints, sel.securityPolicy, i)
              || (sel.securityPolicy == "Basic256" && OffersAt(sel, endpoints, "Basic256Sha256", i))
    {
      ExactOffers(sel, endpoints, i);
    }
    if exists ep :: ep in endpoints && sel.Exact(mode)(ep) {
      var k :| IsFirstAt(endpoints, sel.Exact(mode), k) && sel.Selection(endpoints) == Ok(endpoints[k]);
      FirstExactServes(sel, endpoints, k);
    } else {
      var k :| IsFirstAt(endpoints, sel.Fallback(), k) && sel.Selection(endpoints) == Ok(endpoints[k]);
      forall i ensures !OffersAt(sel, endpoints, sel.securityPolicy, i) {
        if 0 <= i < |endpoints| {
          assert endpoints[i] in endpoints;
        }
      }
      assert !OffersAt(sel, endpoints, sel.securityPolicy, k);
    }
  }

  lemma FirstExactServes(sel: EndpointSelector, endpoints: seq<Endpoint>, k: int)
    requires KnownPolicy(sel.securityPolicy) && ParseMode(sel.securityMode).Some? && StandardURIs(endpoints)
    requires IsFirstAt(endpoints, sel.Exact(ParseMode(sel.securityMode).value), k)
    ensures endpoints[k].policyURI == PolicyURI(sel.securityPolicy) <==>
            OffersAt(sel, endpoints, sel.securityPolicy, k)
    ensures OffersAt(sel, endpoints, sel.securityPolicy, k) <==> !Overtaken(sel, endpoints)
  {
    hide PolicyMatches, Supports;
    var mode := ParseMode(sel.securityMode).value;
    ExactOffers(sel, endpoints, k);
    forall j | 0 <= j < k
      ensures !OffersAt(sel, endpoints, sel.securityPolicy, j)
      ensures sel.securityPolicy == "Basic256" ==> !OffersAt(sel, endpoints, "Basic256Sha256", j)
    {
      assert !sel.Exact(mode)(endpoints[j]);
      ExactOffers(sel, endpoints, j);
    }
    if OffersAt(sel, endpoints, "Basic256", k) && OffersAt(sel, endpoints, "Basic256Sha256", k) {
      PolicyURIInjective("Basic256", "Basic256Sha256");
    }
  }

  /** So a request for Basic256 can be served with Basic256Sha256 although Basic256 is on offer. */
  lemma Basic256TakesSha256()
    ensures var offered := Endpoint("a", SignMode, PolicyURI("Basic256Sha256"), [AnonymousToken]);
            var asked := Endpoint("b", SignMode, PolicyURI("Basic256"), [AnonymousToken]);
            EndpointSelector("Sign", "Basic256", "Anonymous").Selection([offered, asked]) == Ok(offered)
  {
    var sel := EndpointSelector("Sign", "Basic256", "Anonymous");
    var offered := Endpoint("a", SignMode, PolicyURI("Basic256Sha256"), [AnonymousToken]);
    PolicyMatchExactly("Basic256", "Basic256Sha256");
    assert sel.IsExact(SignMode, offered);
    assert sel.Exact(SignMode)(offered);
  }
}
