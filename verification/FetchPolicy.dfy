// Which addresses safe-fetch.ts may request: the validation of an address, the registrable-domain and downgrade
// rules added to it, and the robots file of an address.
module FetchPolicy {
  import opened Text

  datatype Url = Url(protocol: string, username: string, password: string, hostname: string, port: string, path: string)

  type Byte = bv8

  /** Foreign code: address parsing, the public suffix list, address ranges, decoding and the robots parser. */
  datatype Platform = Platform(
    parse: string -> Option<Url>,
    resolve: (string, Url) -> Option<string>,      // a location header read against the current address
    lower: string -> string,
    isAddress: string -> bool,                     // the host is written as an IP address
    isPublic: string -> bool,                      // a public unicast address
    registrable: string -> Option<string>,         // registrable domain of a host, private suffixes included
    decode: seq<Byte> -> string,
    robotsAllow: (Url, string, Url) -> Option<bool>)

  datatype Options = Options(maxBytes: int, timeoutMs: int, maxRedirects: int, allowedHosts: seq<string>,
                             respectRobots: bool, registrableDomain: Option<string>, forbidHttpsDowngrade: bool)

  datatype Error =
    | BadOptions | UrlTooLong | InvalidUrl | SchemeForbidden | CredentialsForbidden | PortForbidden | LocalhostForbidden
    | SocialNetworkForbidden | NonPublicHost | HostNotAllowed | OutsideDomain | DowngradeForbidden
    | TimedOut | LookupFailed | NoAddress | NonPublicAnswer | TransportFailed
    | TooManyRedirects | NoLocation | HttpStatus(code: int) | UnsupportedType | TooLarge
    | BlockedByRobots | RobotsCheckFailed(cause: Error)

  datatype Result<+T> = Ok(value: T) | Failed(error: Error)

  datatype Response = Response(status: int, location: Option<string>, contentType: string, chunks: seq<seq<Byte>>)

  // ---------------------------------------------------------------- the policy on addresses

  const SOCIAL_HOSTS := ["linkedin.com", "instagram.com", "facebook.com", "tiktok.com", "snapchat.com"]
  const MAX_SAFE_INTEGER := 9007199254740991

  function WithoutFinalDot(host: string): string {
    if host != "" && host[|host| - 1] == '.' then host[..|host| - 1] else host
  }

  function WithoutBrackets(host: string): string {
    var inner := if host != "" && host[0] == '[' then host[1..] else host;
    if inner != "" && inner[|inner| - 1] == ']' then inner[..|inner| - 1] else inner
  }

  predicate EndsWith(s: string, suffix: string) {
    |suffix| <= |s| && s[|s| - |suffix|..] == suffix
  }

  predicate HostMatches(platform: Platform, hostname: string, domain: string) {
    var host, suffix := WithoutFinalDot(platform.lower(hostname)), WithoutFinalDot(platform.lower(domain));
    host == suffix || EndsWith(host, "." + suffix)
  }

  function BareHost(platform: Platform, url: Url): string {
    WithoutFinalDot(WithoutBrackets(platform.lower(url.hostname)))
  }

  /** The first rule of `validateUrl` a parsed address breaks. */
  function Violation(platform: Platform, url: Url, allowedHosts: seq<string>): Option<Error> {
    var host := BareHost(platform, url);
    if url.protocol != "http:" && url.protocol != "https:" then Some(SchemeForbidden)
    else if url.username != "" || url.password != "" then Some(CredentialsForbidden)
    else if url.port != "" && !(url.protocol == "http:" && url.port == "80")
        && !(url.protocol == "https:" && url.port == "443") then Some(PortForbidden)
    else if host == "" || host == "localhost" || EndsWith(host, ".localhost") then Some(LocalhostForbidden)
    else if exists d | d in SOCIAL_HOSTS :: HostMatches(platform, host, d) then Some(SocialNetworkForbidden)
    else if platform.isAddress(host) && !platform.isPublic(host) then Some(NonPublicHost)
    else if !exists h | h in allowedHosts :: HostMatches(platform, host, h) then Some(HostNotAllowed)
    else None
  }

  function Validate(platform: Platform, raw: string, allowedHosts: seq<string>): Result<Url> {
    if |raw| > 2048 then Failed(UrlTooLong)
    else if platform.parse(raw).None? then Failed(InvalidUrl)
    else
      var url := platform.parse(raw).value;
      if Violation(platform, url, allowedHosts).Some? then Failed(Violation(platform, url, allowedHosts).value)
          else Ok(url)
  }

  function RegistrableDomainOf(platform: Platform, hostname: string): Option<string> {
    var host := WithoutFinalDot(WithoutBrackets(platform.lower(hostname)));
    if host == "" || platform.isAddress(host) then None else platform.registrable(host)
  }

  predicate InDomain(platform: Platform, options: Options, url: Url) {
    options.registrableDomain.Some? ==> RegistrableDomainOf(platform, url.hostname) == options.registrableDomain
  }

  /** The policy added to `validateUrl`; `from` is the address that redirected here. */
  function Enforce(platform: Platform, options: Options, url: Url, from: Option<Url>): Result<Url> {
    if !InDomain(platform, options, url) then Failed(OutsideDomain)
    else if options.forbidHttpsDowngrade && from.Some? && from.value.protocol == "https:" && url.protocol != "https:"
        then Failed(DowngradeForbidden)
    else Ok(url)
  }

  /** An address any request may go to. */
  predicate Permitted(platform: Platform, options: Options, url: Url) {
    Violation(platform, url, options.allowedHosts).None? && InDomain(platform, options, url)
  }

  /** The host is one of these, or under one of these. */
  predicate Under(platform: Platform, host: string, domains: seq<string>) {
    exists d | d in domains :: HostMatches(platform, host, d)
  }

  /**
   What an address needs to be requested: http or https, no credentials, the default port of its scheme, a host that is
   neither local, nor a social network, nor a private address, and that is allowed and in the authorized domain.
   */
  lemma PermittedIff(platform: Platform, options: Options, url: Url)
    ensures Permitted(platform, options, url) <==>
            var host := BareHost(platform, url);
            && (url.protocol == "http:" || url.protocol == "https:")
            && url.username == "" && url.password == ""
            && (url.port == "" || url.port == if url.protocol == "http:" then "80" else "443")
            && host != "" && host != "localhost" && !EndsWith(host, ".localhost")
            && !Under(platform, host, SOCIAL_HOSTS) && (platform.isAddress(host) ==> platform.isPublic(host))
            && Under(platform, host, options.allowedHosts)
            && (options.registrableDomain.Some? ==>
                  RegistrableDomainOf(platform, url.hostname) == options.registrableDomain)
  {
  }

  /** An address is under a domain when it is the domain or ends with a dot and it: never by its letters alone. */
  lemma UnderIsWholeLabels(platform: Platform, host: string, domain: string)
    requires platform.lower(host) == host && platform.lower(domain) == domain
    requires WithoutFinalDot(host) == host && WithoutFinalDot(domain) == domain
    ensures HostMatches(platform, host, domain)
       <==> host == domain || exists labels: string :: host == labels + "." + domain
  {
    if EndsWith(host, "." + domain) {
      var labels := host[..|host| - |domain| - 1];
      assert host == labels + host[|labels|..] == labels + ("." + domain);
      assert host == labels + "." + domain;
    }
    if labels: string :| host == labels + "." + domain {
      assert host[|labels|..] == "." + domain;
    }
  }

  function RobotsUrl(target: Url): Url {
    target.(path := "/robots.txt")
  }

  /** The robots file of a permitted address is a permitted address: the policy only reads the authority. */
  lemma RobotsFileIsPermitted(platform: Platform, options: Options, target: Url)
    requires Permitted(platform, options, target)
    ensures Permitted(platform, options, RobotsUrl(target))
  {
    assert BareHost(platform, RobotsUrl(target)) == BareHost(platform, target);
  }

  /** The address a redirect answered at `from` leads to, once validated and within the policy. */
  function Target(platform: Platform, options: Options, from: Url, response: Response): Result<Url> {
    if !Truthy(response.location) then Failed(NoLocation)
    else
      var raw := platform.resolve(response.location.value, from);
      if raw.None? then Failed(InvalidUrl)
      else
        var checked := Validate(platform, raw.value, options.allowedHosts);
        if checked.Failed? then checked else Enforce(platform, options, checked.value, Some(from))
  }

  // ---------------------------------------------------------------- the policy as one value

  /** The rules a fetch runs under, as functions of what it meets. */
  datatype Policy = Policy(
    validated: Url -> bool,                        // passes validateUrl
    permitted: Url -> bool,                        // passes validateUrl and enforcePolicy
    admit: Url -> Result<Url>,                     // enforcePolicy of an initial address
    follow: (Url, Response) -> Result<Url>,        // the validated address a redirect leads to
    isPublic: string -> bool,
    decode: seq<Byte> -> string,
    clears: (Url, string) -> bool)                 // a robots file explicitly allows this address

  function PolicyOf(platform: Platform, options: Options): Policy {
    Policy(
      u => Violation(platform, u, options.allowedHosts).None?,
      u => Permitted(platform, options, u),
      u => Enforce(platform, options, u, None),
      (u, r) => Target(platform, options, u, r),
      platform.isPublic,
      platform.decode,
      (u, body) => platform.robotsAllow(RobotsUrl(u), body, u) == Some(true))
  }

  /** What the automaton needs to know about its policy. */
  ghost predicate Lawful(policy: Policy, noDowngrade: bool) {
    && (forall u: Url :: policy.validated(u) && policy.admit(u).Ok? ==> policy.permitted(u))
    && (forall u: Url :: policy.permitted(u) ==> policy.validated(RobotsUrl(u)) && policy.admit(RobotsUrl(u)).Ok?)
    && (forall u: Url, r: Response :: policy.follow(u, r).Ok? ==> policy.permitted(policy.follow(u, r).value))
    && (forall u: Url, r: Response :: policy.follow(u, r).Failed? ==> OfTheAddress(policy.follow(u, r).error))
    && (noDowngrade ==> forall u: Url, r: Response ::
          policy.follow(u, r).Ok? && u.protocol == "https:" ==> policy.follow(u, r).value.protocol == "https:")
  }

  /** Failures that come from the clock, the name service or the connection. */
  predicate ByEnvironment(error: Error) {
    error in {TimedOut, LookupFailed, NoAddress, NonPublicAnswer, TransportFailed}
  }

  /** A refusal of an address: neither the environment's, nor for too many redirects, nor the robots check's. */
  predicate OfTheAddress(error: Error) {
    !ByEnvironment(error) && error != TooManyRedirects && error != BlockedByRobots && !error.RobotsCheckFailed?
  }

  /** Refusing a redirect is never taken for another failure. */
  lemma TargetErrors(platform: Platform, options: Options, u: Url, r: Response)
    ensures Target(platform, options, u, r).Failed? ==> OfTheAddress(Target(platform, options, u, r).error)
  {
  }

  lemma RedirectsStayPermitted(platform: Platform, options: Options, u: Url, r: Response)
    requires Target(platform, options, u, r).Ok?
    ensures Permitted(platform, options, Target(platform, options, u, r).value)
    ensures options.forbidHttpsDowngrade && u.protocol == "https:" ==>
        Target(platform, options, u, r).value.protocol == "https:"
  {
  }

  /**
   A redirect is followed, and a robots file asked for, only within the policy; with the downgrade rule https stays
   https.
   */
  lemma PolicyIsLawful(platform: Platform, options: Options)
    ensures Lawful(PolicyOf(platform, options), options.forbidHttpsDowngrade)
  {
    forall u: Url | Permitted(platform, options, u)
      ensures Violation(platform, RobotsUrl(u), options.allowedHosts).None?
          && Enforce(platform, options, RobotsUrl(u), None).Ok?
    {
      RobotsFileIsPermitted(platform, options, u);
    }
    forall u: Url, r: Response
      ensures Target(platform, options, u, r).Failed? ==> OfTheAddress(Target(platform, options, u, r).error)
    {
      TargetErrors(platform, options, u, r);
    }
    forall u: Url, r: Response | Target(platform, options, u, r).Ok?
      ensures Permitted(platform, options, Target(platform, options, u, r).value)
      ensures options.forbidHttpsDowngrade && u.protocol == "https:" ==>
          Target(platform, options, u, r).value.protocol == "https:"
    {
      RedirectsStayPermitted(platform, options, u, r);
    }
  }
}
