/** The configuration and decision helpers of the heartbeat agent: reading its
    environment, building the ping URL, choosing the address to report and
    telling a successful ping from a failed one. The process environment and the
    outcomes of the socket calls are parameters. */
module Agent {
  import opened Wrappers
  import opened Text

  /** The process environment, as `os.environ` holds it. */
  type Env = map<string, string>

  const PingUrlVar := "AGENT_PING_URL"
  const BaseUrlVar := "AGENT_BASE_URL"
  const PingPathVar := "AGENT_PING_PATH"
  const InsecureSslVar := "AGENT_INSECURE_SSL"

  const DefaultBaseUrl := "http://localhost:5083"
  /** The default path of the code; the module's own documentation says
      `/api/host/ping`, in lower case, instead. */
  const DefaultPingPath := "/api/Host/ping"
  const LastResortIp := "127.0.0.1"
  const UnknownHostname := "unknown"

  /** The values `bool_from_env` accepts as true, once trimmed and lowered. */
  const TruthyWords: set<string> := {"1", "true", "yes", "on"}

  /** `os.getenv(name)`. */
  function GetEnv(env: Env, name: string): Option<string> {
    if name in env then Some(env[name]) else None
  }

  /** `os.getenv(name, default)`: a variable set to the empty string is returned
      as it is, not replaced by the default. */
  function GetEnvOr(env: Env, name: string, default: string): string {
    GetEnv(env, name).GetOr(default)
  }

  // ---------------------------------------------------------------- bool_from_env

  function BoolFromEnv(env: Env, name: string, default: bool): bool {
    match GetEnv(env, name)
    case None => default
    case Some(v) => LowerAscii(Strip(v)) in TruthyWords
  }

  /** The default is the answer for an unset variable, and only for one: once the
      variable is set, the default no longer matters. */
  lemma BoolFromEnvDefault(env: Env, name: string, default: bool)
    ensures name !in env ==> BoolFromEnv(env, name, default) == default
    ensures name in env ==> BoolFromEnv(env, name, default) == BoolFromEnv(env, name, !default)
  {
  }

  /** A variable that is set but empty or all whitespace reads as false, whatever
      the default. */
  lemma BoolFromEnvBlank(env: Env, name: string, default: bool)
    requires name in env && AllSpace(env[name])
    ensures !BoolFromEnv(env, name, default)
  {
    assert env[name] == env[name] + [] + [];
    StripUnique(env[name], [], []);
  }

  /** Any of the four words, in any mix of ASCII case and with any whitespace
      around it, reads as true. */
  lemma BoolFromEnvAccepts(env: Env, name: string, w1: string, word: string, w2: string, default: bool)
    requires AllSpace(w1) && AllSpace(w2) && LowerAscii(word) in TruthyWords
    ensures BoolFromEnv(env[name := w1 + word + w2], name, default)
  {
    TruthyWordsTrimmed(LowerAscii(word));
    LowerKeepsTrimmed(word);
    assert word == [] + word + [];
    StripUnique([], word, []);
    StripIgnoresPadding(w1, word, w2);
    assert Strip(w1 + word + w2) == word;
  }

  lemma TruthyWordsTrimmed(w: string)
    requires w in TruthyWords
    ensures Trimmed(w)
  {
  }

  /** Conversely, every value that reads as true is one of the four words, in some
      mix of ASCII case, with whitespace around it. */
  lemma BoolFromEnvTrueShape(env: Env, name: string, default: bool) returns (w1: string, word: string, w2: string)
    requires name in env && BoolFromEnv(env, name, default)
    ensures env[name] == w1 + word + w2
    ensures AllSpace(w1) && AllSpace(w2) && LowerAscii(word) in TruthyWords
  {
    word := Strip(env[name]);
    w1, w2 := StripParts(env[name]);
  }

  /** Changing the ASCII case of a value never changes how it reads. */
  lemma BoolFromEnvIgnoresCase(env: Env, name: string, v: string, default: bool)
    ensures BoolFromEnv(env[name := LowerAscii(v)], name, default) == BoolFromEnv(env[name := v], name, default)
  {
    StripLowerCommute(v);
    LowerAsciiIdempotent(Strip(v));
  }

  /** `make_ssl_context_if_needed` disables certificate checks exactly when
      `AGENT_INSECURE_SSL` reads as true; the context object itself is not modelled. */
  function InsecureTls(env: Env): (insecure: bool)
    ensures insecure <==> InsecureSslVar in env && LowerAscii(Strip(env[InsecureSslVar])) in TruthyWords
  {
    BoolFromEnv(env, InsecureSslVar, false)
  }

  // --------------------------------------------------------------- build_ping_url

  /** The path with a `/` in front when it does not start with one. */
  function NormalizePath(path: string): (r: string)
    ensures StartsWith(r, "/")
    ensures |path| <= |r| <= |path| + 1 && r[|r| - |path|..] == path
    ensures StartsWith(path, "/") ==> r == path
  {
    if StartsWith(path, "/") then path else "/" + path
  }

  lemma NormalizePathIdempotent(path: string)
    ensures NormalizePath(NormalizePath(path)) == NormalizePath(path)
  {
  }

  /** True when `AGENT_PING_URL` overrides the base URL and path: Python treats an
      empty value as unset. */
  predicate HasUrlOverride(env: Env) {
    GetEnvOr(env, PingUrlVar, "") != ""
  }

  function BuildPingUrl(env: Env): (url: string)
    ensures HasUrlOverride(env) ==> url == env[PingUrlVar]
  {
    if HasUrlOverride(env) then env[PingUrlVar]
    else
      var base := RStripChar(GetEnvOr(env, BaseUrlVar, DefaultBaseUrl), '/');
      var path := NormalizePath(GetEnvOr(env, PingPathVar, DefaultPingPath));
      base + path
  }

  /** Without an override the URL is the configured base with its trailing slashes
      removed, followed by the path with exactly one `/` added when it lacked one. */
  lemma BuildPingUrlParts(env: Env) returns (base: string, path: string)
    requires !HasUrlOverride(env)
    ensures BuildPingUrl(env) == base + path
    ensures base == [] || base[|base| - 1] != '/'
    ensures var b := GetEnvOr(env, BaseUrlVar, DefaultBaseUrl);
              |base| <= |b| && base == b[..|base|] && forall k :: |base| <= k < |b| ==> b[k] == '/'
    ensures StartsWith(path, "/")
    ensures var p := GetEnvOr(env, PingPathVar, DefaultPingPath);
              path == if StartsWith(p, "/") then p else "/" + p
  {
    base := RStripChar(GetEnvOr(env, BaseUrlVar, DefaultBaseUrl), '/');
    path := NormalizePath(GetEnvOr(env, PingPathVar, DefaultPingPath));
    var p := GetEnvOr(env, PingPathVar, DefaultPingPath);
    if !StartsWith(p, "/") {
      assert path[1..] == p;
      assert path[..1] == "/";
      assert path == "/" + p;
    }
  }

  /** Any number of slashes at the end of the base URL gives the same ping URL. */
  lemma BuildPingUrlTrailingSlashes(env: Env, base: string, slashes: string)
    requires !HasUrlOverride(env) && (base == [] || base[|base| - 1] != '/')
    requires forall k :: 0 <= k < |slashes| ==> slashes[k] == '/'
    ensures BuildPingUrl(env[BaseUrlVar := base + slashes]) == BuildPingUrl(env[BaseUrlVar := base])
  {
    var slashed, bare := env[BaseUrlVar := base + slashes], env[BaseUrlVar := base];
    assert GetEnvOr(slashed, PingUrlVar, "") == GetEnvOr(env, PingUrlVar, "");
    assert GetEnvOr(bare, PingUrlVar, "") == GetEnvOr(env, PingUrlVar, "");
    assert GetEnvOr(slashed, PingPathVar, DefaultPingPath) == GetEnvOr(env, PingPathVar, DefaultPingPath);
    assert GetEnvOr(bare, PingPathVar, DefaultPingPath) == GetEnvOr(env, PingPathVar, DefaultPingPath);
    var s := base + slashes;
    assert s[..|base|] == base;
    assert forall k :: |base| <= k < |s| ==> s[k] == slashes[k - |base|];
    RStripCharUnique(s, base, '/');
    RStripCharUnique(base, base, '/');
    assert RStripChar(GetEnvOr(slashed, BaseUrlVar, DefaultBaseUrl), '/') == base;
    assert RStripChar(GetEnvOr(bare, BaseUrlVar, DefaultBaseUrl), '/') == base;
  }

  /** With nothing configured the agent pings `http://localhost:5083/api/Host/ping`. */
  lemma BuildPingUrlDefault()
    ensures BuildPingUrl(map[]) == "http://localhost:5083/api/Host/ping"
  {
    var env: Env := map[];
    assert !HasUrlOverride(env);
    assert GetEnvOr(env, BaseUrlVar, DefaultBaseUrl) == DefaultBaseUrl;
    assert GetEnvOr(env, PingPathVar, DefaultPingPath) == DefaultPingPath;
    DefaultsNormalized();
    assert DefaultBaseUrl + DefaultPingPath == "http://localhost:5083/api/Host/ping";
  }

  lemma DefaultsNormalized()
    ensures RStripChar(DefaultBaseUrl, '/') == DefaultBaseUrl
    ensures NormalizePath(DefaultPingPath) == DefaultPingPath
  {
    assert DefaultBaseUrl[|DefaultBaseUrl| - 1] == '3';
    assert DefaultPingPath[..1] == "/";
  }

  // --------------------------------------------------------- get_hostname, get_ip

  /** `get_hostname`: the name the system reports, or `"unknown"` when the lookup
      raised. `reported` is the outcome of `socket.gethostname()`. */
  function GetHostname(reported: Option<string>): (hostname: string)
    ensures reported.Some? ==> hostname == reported.value
    ensures reported.None? ==> hostname == UnknownHostname
  {
    reported.GetOr(UnknownHostname)
  }

  predicate IsLoopback(ip: string) {
    StartsWith(ip, "127.")
  }

  /** An address found by route discovery that `get_ip_address` accepts. */
  predicate RouteUsable(discovered: Option<string>) {
    discovered.Some? && discovered.value != "" && !IsLoopback(discovered.value)
  }

  /** `get_ip_address`. `discovered` is the local address of the UDP socket
      connected towards 8.8.8.8 (`None` when any step raised); `resolved` is what
      `gethostbyname(gethostname())` returned (`None` when it raised). */
  function GetIpAddress(discovered: Option<string>, resolved: Option<string>): (ip: string)
    ensures ip != ""
    ensures ip == LastResortIp || Some(ip) == discovered || Some(ip) == resolved
  {
    if RouteUsable(discovered) then discovered.value
    else if resolved.Some? && resolved.value != "" then resolved.value
    else LastResortIp
  }

  /** A usable discovered address wins, whatever the resolver says; otherwise a
      non-empty resolved address, otherwise the loopback address. */
  lemma GetIpAddressPreference(discovered: Option<string>, resolved: Option<string>)
    ensures RouteUsable(discovered) ==> GetIpAddress(discovered, resolved) == discovered.value
    ensures !RouteUsable(discovered) && resolved.Some? && resolved.value != "" ==>
              GetIpAddress(discovered, resolved) == resolved.value
    ensures !RouteUsable(discovered) && (resolved.None? || resolved.value == "") ==>
              GetIpAddress(discovered, resolved) == LastResortIp
  {
  }

  /** A loopback address is reported only when route discovery gave nothing usable;
      the resolver's answer is not filtered, so it may be a `127.` address itself. */
  lemma GetIpAddressLoopback(discovered: Option<string>, resolved: string)
    ensures IsLoopback(GetIpAddress(discovered, Some(resolved))) ==> !RouteUsable(discovered)
    ensures !RouteUsable(discovered) && resolved != "" && IsLoopback(resolved) ==>
              GetIpAddress(discovered, Some(resolved)) == resolved
  {
  }

  // ----------------------------------------------------------------- ping status

  /** The success test of the main loop, `200 <= status < 300 or status == 204`:
      the second disjunct adds nothing. */
  function IsSuccess(status: int): (ok: bool)
    ensures ok <==> 200 <= status < 300
  {
    200 <= status < 300 || status == 204
  }
}
