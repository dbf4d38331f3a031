# nginx-manager heartbeat agent, modelled in Dafny

The repository pairs an ASP.NET service with a small Python agent
(`agent/agent.py`) that runs on each managed host and, every few seconds, POSTs
the host's name and address to the service. The service's code holds no
behaviour yet: its only controller action returns the constant `"Hello World!"`,
and its `Host` entity is ORM configuration. The model therefore covers the agent
only.

What the agent does, and what the model states about it:

- **`bool_from_env`** reads a flag: unset gives the default; set gives true exactly
  for `1`, `true`, `yes` or `on` after trimming whitespace and lowering case.
- **`build_ping_url`** uses `AGENT_PING_URL` verbatim when it is non-empty;
  otherwise it joins `AGENT_BASE_URL` stripped of trailing slashes with
  `AGENT_PING_PATH` given a leading `/`. A base URL set to the empty string stays
  empty (Python's `getenv` default applies only to unset variables). The code's
  default path is `/api/Host/ping`; the module's docstring says `/api/host/ping`.
- **`get_hostname`** and **`get_ip_address`** choose between the outcomes of
  socket calls, which are inputs: prefer a discovered non-loopback address, then
  the resolver's answer (which may itself be a `127.` address), then `127.0.0.1`.
- **`main`** reads its configuration once, then loops: choose the address, print
  "Using IP" when it differs from the last one, POST the heartbeat, and print a
  failure for any status outside 200-299 or for a raised error.

Modules: `Wrappers` (an `Option` type), `Text` (ASCII `strip`, `lower`,
`startswith` and `rstrip(c)`), `Agent` (the helper functions of `agent.py`),
`AgentLoop` (the main loop). The environment is a `map<string, string>`. Each
socket or HTTP result is an `Option` or a `PostOutcome` parameter. The endless
loop runs over a finite sequence of `Round`s. Printed lines are a returned
sequence of `Message`s and POSTs a returned sequence of `Request`s.

## Model

| member | source | states |
|---|---|---|
| `Agent.GetEnv` | agent/agent.py:61 | definition of `os.getenv(name)`: the value when the variable is set, `None` otherwise; used by the rows for `BoolFromEnv` and `GetEnvOr` |
| `Agent.GetEnvOr` | agent/agent.py:73-74 | definition of `os.getenv(name, default)`: a set variable, even an empty one, is returned as it is; used by the rows for `BuildPingUrl` |
| `Agent.BoolFromEnv` | agent/agent.py:60-64 | definition; its properties are in the rows for `BoolFromEnvDefault`, `BoolFromEnvBlank`, `BoolFromEnvAccepts`, `BoolFromEnvTrueShape` and `BoolFromEnvIgnoresCase` |
| `Agent.HasUrlOverride` | agent/agent.py:69-70 | definition of `if full:`: an unset or empty `AGENT_PING_URL` is no override; its use is stated in the rows for `BuildPingUrl` and `BuildPingUrlParts` |
| `Agent.BoolFromEnvDefault` | agent/agent.py:60-64 | an unset variable yields the default; once it is set, the default has no influence on the result |
| `Agent.BoolFromEnvBlank` | agent/agent.py:60-64 | a variable set to the empty string or to whitespace only yields false, whatever the default |
| `Agent.BoolFromEnvAccepts` | agent/agent.py:64 | any of `1`, `true`, `yes`, `on`, in any ASCII case and with any whitespace around it, yields true |
| `Agent.BoolFromEnvTrueShape` | agent/agent.py:64 | conversely, a set value yields true only if it is whitespace, one of the four words in some case, whitespace |
| `Agent.BoolFromEnvIgnoresCase` | agent/agent.py:64 | lowering the ASCII case of the value never changes the result |
| `Agent.InsecureTls` | agent/agent.py:80-86 | certificate checks are turned off exactly when `AGENT_INSECURE_SSL` is set to one of the truthy words (after trimming and lowering) |
| `Text.IsSpace` | agent/agent.py:64 | definition of the whitespace `strip()` removes, on ASCII: space, tab to carriage return, and 0x1C-0x1F; used by every `Strip` row |
| `Text.LowerChar` | agent/agent.py:64 | definition of `lower()` on one character: A-Z move to a-z, every other character is kept; used by the rows for `LowerAscii` |
| `Text.StartsWith` | agent/agent.py:75 | definition of `str.startswith`: the string begins with the prefix; used by the rows for `NormalizePath`, `IsLoopback` and `BuildPingUrlParts` |
| `Text.Strip` | agent/agent.py:64 | `strip()` returns text that neither starts nor ends with whitespace and is no longer than its input |
| `Text.StripParts` | agent/agent.py:64 | every string is whitespace, then its stripped form, then whitespace |
| `Text.StripUnique` | agent/agent.py:64 | whitespace around a trimmed middle is exactly what `strip()` removes: the result is that middle |
| `Text.StripIgnoresPadding` | agent/agent.py:64 | adding whitespace on either side never changes what `strip()` returns |
| `Text.LowerAscii` | agent/agent.py:64 | `lower()` keeps the length and lowers each ASCII letter in place |
| `Text.LowerAsciiIdempotent` | agent/agent.py:64 | no upper-case ASCII letter is left after lowering, so lowering twice equals lowering once |
| `Text.StripLowerCommute` | agent/agent.py:64 | stripping then lowering equals lowering then stripping |
| `Text.RStripChar` | agent/agent.py:73 | `rstrip("/")` returns a prefix of its input that does not end in `/`, and everything it removed is `/` |
| `Text.RStripCharUnique` | agent/agent.py:73 | a string that does not end in `/`, followed by any number of `/`, is returned unchanged by `rstrip("/")` without those slashes |
| `Agent.NormalizePath` | agent/agent.py:74-76 | the path part starts with `/`, ends with the configured path and is at most one character longer; a path that already starts with `/` is unchanged |
| `Agent.NormalizePathIdempotent` | agent/agent.py:74-76 | normalising a normalised path changes nothing |
| `Agent.BuildPingUrl` | agent/agent.py:67-71 | a non-empty `AGENT_PING_URL` is returned verbatim |
| `Agent.BuildPingUrlParts` | agent/agent.py:72-77 | without an override, the URL is a base part not ending in `/`, which is the configured base minus trailing slashes only, followed by a path part starting with `/` that is the configured path or `/` plus it |
| `Agent.BuildPingUrlTrailingSlashes` | agent/agent.py:73 | any number of trailing slashes on the base URL yields the same ping URL |
| `Agent.BuildPingUrlDefault` | agent/agent.py:73-74 | with no variable set the URL is `http://localhost:5083/api/Host/ping` |
| `Agent.GetHostname` | agent/agent.py:30-34 | the system's hostname is used verbatim when the lookup succeeds, and `unknown` when it raises |
| `Agent.IsLoopback` | agent/agent.py:44 | definition of `ip.startswith("127.")`; used by the rows for `RouteUsable` and `GetIpAddressLoopback` |
| `Agent.RouteUsable` | agent/agent.py:40-47 | definition of the test `ip and not ip.startswith("127.")` on the discovered address, with `None` for the swallowed exception; used by the rows for `GetIpAddressPreference` and `GetIpAddressLoopback` |
| `Agent.GetIpAddress` | agent/agent.py:37-57 | the chosen address is never empty, and it is the discovered address, the resolved address or `127.0.0.1` |
| `Agent.GetIpAddressPreference` | agent/agent.py:40-57 | a usable discovered address wins whatever the resolver says; otherwise a non-empty resolved address; otherwise `127.0.0.1` |
| `Agent.GetIpAddressLoopback` | agent/agent.py:44-53 | a `127.` address is reported only when discovery gave nothing usable, and when discovery gave nothing usable any non-empty `127.` answer of the resolver is passed through unchanged |
| `Agent.IsSuccess` | agent/agent.py:136 | a ping succeeds exactly when 200 <= status < 300; the `== 204` test adds no case |
| `AgentLoop.RoundIp` | agent/agent.py:127 | definition of `ip = get_ip_address()` in one round, from that round's socket outcomes; used by the rows for `PingOnce`, `PingRounds` and `RunAgent` |
| `AgentLoop.PostStatus` | agent/agent.py:97-102 | definition of the status `post_json` returns: `getcode() or 0` for a response, the error's code for an HTTP error; used by `PostLog` |
| `AgentLoop.PostLog` | agent/agent.py:134-145 | definition of what a POST prints: `Ping error` when it raised, `Ping failed` with the status when that is not a success, nothing otherwise; its use is stated in the rows for `PingOnce` and `SilentWhileSteady` |
| `AgentLoop.RoundLog` | agent/agent.py:127-145 | definition of what one round prints; its properties are in the rows for `PingOnce` and `RoundAnnouncesChange` |
| `AgentLoop.Transcript` | agent/agent.py:125-147 | definition of what a run of rounds prints, round after round; its properties are in the rows for `PingRounds`, `AnnouncesAddressChanges` and `SilentWhileSteady` |
| `AgentLoop.StartupLog` | agent/agent.py:121-123 | definition of the start-up lines: the URL, then the TLS warning when `InsecureTls` holds; used by the row for `RunAgent` |
| `AgentLoop.PingOnce` | agent/agent.py:126-145 | one pass of the loop prints what `RoundLog` gives, posts `{hostname, ip}` to the URL, and leaves `last_ip` equal to the round's address |
| `AgentLoop.RunAgent` | agent/agent.py:108-147 | the printout is the start-up lines (the URL, then the TLS warning only when verification is off) followed by every round's lines; one POST per round, each to the configured URL with the looked-up hostname and that round's address; afterwards `last_ip` is the last round's address |
| `AgentLoop.PingRounds` | agent/agent.py:119-147 | starting with `last_ip = None`, the loop prints exactly the transcript of the rounds, posts once per round in order, and after each round `last_ip` is that round's address |
| `AgentLoop.AnnouncesAddressChanges` | agent/agent.py:119-131 | the "Using IP" lines name the first round's address and then each address that differs from the previous round's, and nothing else |
| `AgentLoop.AnnouncementsAfter` | agent/agent.py:127-131 | the same, for rounds that start after some address was already announced |
| `AgentLoop.RoundAnnouncesChange` | agent/agent.py:129-131 | a round prints "Using IP" exactly when its address differs from the last announced one |
| `AgentLoop.CollapseNoRepeats` | agent/agent.py:129-131 | no two consecutive "Using IP" lines name the same address |
| `AgentLoop.CollapseKeepsValues` | agent/agent.py:129-131 | every address any round used is announced at some point, and no other address is |
| `AgentLoop.CollapseLast` | agent/agent.py:129-131 | the last "Using IP" line names the last round's address |
| `AgentLoop.SilentWhileSteady` | agent/agent.py:129-138 | rounds that keep the announced address and whose pings succeed print nothing |

## Left out

- The service (`nginx-manager/Program.cs`, `Models/AppDbContext.cs`, `controllers/HostController.cs`): bootstrap, ORM schema and a stub action returning a constant. No ping ingestion, ordering or recent-hosts window exists there to model. The 255 and 64 column bounds are declarations that no code path enforces.
- Socket, DNS and HTTP calls (`gethostname`, the UDP connect and `getsockname`, `gethostbyname`, `urlopen`), and the JSON encoding in `post_json`: foreign I/O. Only their outcomes enter, as parameters.
- The SSL context object built by `make_ssl_context_if_needed`: a library wrapper. Only the decision to build one, `InsecureTls`, is modelled. A `Request` does not record whether certificate checks were off for that POST (`context=ssl_ctx`), nor its 5-second timeout (agent.py:134).
- The interval: parsing `AGENT_PING_INTERVAL` with `float`, clamping to at least 1.0, falling back to 5.0 on `ValueError`, and `time.sleep`. It is floating-point parsing and timing. `Starting` therefore carries the URL and not the interval.
- The endlessness of `while True`, and leaving the loop on `KeyboardInterrupt`: the model runs a finite list of rounds. The text of the `Ping error` line (the exception message) is not kept.
- Unicode: `strip()` also removes non-ASCII whitespace and `lower()` also lowers non-ASCII letters. The model treats only ASCII whitespace and the letters A-Z.
