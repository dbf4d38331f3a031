/** The agent's `main`: read the configuration once, then, round after round,
    pick the address to report, announce it when it changed, post the heartbeat
    and report a failed ping. The endless loop is modelled on a finite sequence of
    rounds, each carrying what the outside world answered in that round. */
module AgentLoop {
  import opened Wrappers
  import opened Agent

  /** What `post_json` did: the server answered (`getcode()`, which may be
      `None`), the server answered with an HTTP error code, or the request raised. */
  datatype PostOutcome = Response(code: Option<int>) | HttpError(errorCode: int) | Raised

  /** What the outside world answered in one round of the loop. */
  datatype Round = Round(discovered: Option<string>, resolved: Option<string>, post: PostOutcome)

  /** The lines the agent prints. */
  datatype Message =
    | Starting(url: string)
    | TlsDisabled
    | UsingIp(ip: string)
    | PingFailed(status: int)
    | PingError

  /** One heartbeat POST: the URL and the JSON body `{hostname, ip}`. */
  datatype Request = Request(url: string, hostname: string, ip: string)

  function RoundIp(round: Round): string {
    GetIpAddress(round.discovered, round.resolved)
  }

  /** The status `post_json` returns when it does not raise: `getcode() or 0`, or
      the code of the HTTP error. */
  function PostStatus(outcome: PostOutcome): int
    requires !outcome.Raised?
  {
    match outcome
    case Response(code) => code.GetOr(0)
    case HttpError(errorCode) => errorCode
  }

  /** What the loop prints about the POST of one round. */
  function PostLog(outcome: PostOutcome): seq<Message> {
    if outcome.Raised? then [PingError]
    else if IsSuccess(PostStatus(outcome)) then []
    else [PingFailed(PostStatus(outcome))]
  }

  /** What one round prints, given the address announced last. */
  function RoundLog(lastIp: Option<string>, round: Round): seq<Message> {
    var ip := RoundIp(round);
    (if Some(ip) != lastIp then [UsingIp(ip)] else []) + PostLog(round.post)
  }

  /** What the rounds print, given the address announced before them. */
  function Transcript(lastIp: Option<string>, rounds: seq<Round>): seq<Message>
    decreases |rounds|
  {
    if rounds == [] then []
    else RoundLog(lastIp, rounds[0]) + Transcript(Some(RoundIp(rounds[0])), rounds[1..])
  }

  /** The transcript of the rounds from `i` on starts with what round `i` prints. */
  lemma TranscriptUnfold(lastIp: Option<string>, rounds: seq<Round>, i: nat)
    requires i < |rounds|
    ensures Transcript(lastIp, rounds[i..]) == RoundLog(lastIp, rounds[i]) + Transcript(Some(RoundIp(rounds[i])), rounds[i + 1..])
  {
    assert rounds[i..][1..] == rounds[i + 1..];
  }

  lemma TranscriptDone(lastIp: Option<string>, rounds: seq<Round>)
    ensures Transcript(lastIp, rounds[|rounds|..]) == []
  {
    assert rounds[|rounds|..] == [];
  }

  /** One more round moves its printout from the pending transcript to the log. */
  lemma TranscriptStep(log: seq<Message>, printed: seq<Message>, lastIp: Option<string>, rounds: seq<Round>, i: nat, goal: seq<Message>)
    requires i < |rounds| && log + Transcript(lastIp, rounds[i..]) == goal
    requires printed == RoundLog(lastIp, rounds[i])
    ensures (log + printed) + Transcript(Some(RoundIp(rounds[i])), rounds[i + 1..]) == goal
  {
    TranscriptUnfold(lastIp, rounds, i);
    var rest := Transcript(Some(RoundIp(rounds[i])), rounds[i + 1..]);
    Associative(log, printed, rest);
  }

  lemma Associative(a: seq<Message>, b: seq<Message>, c: seq<Message>)
    ensures a + (b + c) == (a + b) + c
  {
  }

  /** What the agent prints before its first round. */
  function StartupLog(env: Env): seq<Message> {
    [Starting(BuildPingUrl(env))] + (if InsecureTls(env) then [TlsDisabled] else [])
  }

  /** One pass through the body of the `while True` loop of `main`: choose the
      address, announce it if it changed, post the heartbeat and report the result. */
  method PingOnce(url: string, hostname: string, lastIp: Option<string>, round: Round)
    returns (printed: seq<Message>, request: Request, newLastIp: Option<string>)
    ensures printed == RoundLog(lastIp, round)
    ensures request == Request(url, hostname, RoundIp(round))
    ensures newLastIp == Some(RoundIp(round))
  {
    newLastIp := lastIp;
    printed := [];
    var ip := GetIpAddress(round.discovered, round.resolved);
    if Some(ip) != newLastIp {
      printed := printed + [UsingIp(ip)];
      newLastIp := Some(ip);
    }
    request := Request(url, hostname, ip);
    match round.post {
      case Raised =>
        printed := printed + [PingError];
      case _ =>
        var status := PostStatus(round.post);
        if !IsSuccess(status) {
          printed := printed + [PingFailed(status)];
        }
    }
  }

  /** `main` run for the given rounds. `reportedHostname` is the outcome of
      `socket.gethostname()`. */
  method RunAgent(env: Env, reportedHostname: Option<string>, rounds: seq<Round>)
    returns (log: seq<Message>, requests: seq<Request>, lastIp: Option<string>)
    ensures log == StartupLog(env) + Transcript(None, rounds)
    ensures |requests| == |rounds|
    ensures forall i :: 0 <= i < |rounds| ==>
              requests[i] == Request(BuildPingUrl(env), GetHostname(reportedHostname), RoundIp(rounds[i]))
    ensures lastIp == if rounds == [] then None else Some(RoundIp(rounds[|rounds| - 1]))
  {
    var url := BuildPingUrl(env);
    var sslInsecure := InsecureTls(env);
    var hostname := GetHostname(reportedHostname);
    log := [Starting(url)];
    if sslInsecure {
      log := log + [TlsDisabled];
    }
    assert log == StartupLog(env);
    var printed;
    printed, requests, lastIp := PingRounds(url, hostname, rounds);
    log := log + printed;
  }

  /** The `while True` loop of `main`, starting with no address announced. */
  method PingRounds(url: string, hostname: string, rounds: seq<Round>)
    returns (log: seq<Message>, requests: seq<Request>, lastIp: Option<string>)
    ensures log == Transcript(None, rounds)
    ensures |requests| == |rounds|
    ensures forall i :: 0 <= i < |rounds| ==> requests[i] == Request(url, hostname, RoundIp(rounds[i]))
    ensures lastIp == if rounds == [] then None else Some(RoundIp(rounds[|rounds| - 1]))
  {
    lastIp := None;
    log := [];
    requests := [];
    var i := 0;
    assert rounds[0..] == rounds;
    ghost var goal := Transcript(None, rounds);
    while i < |rounds|
      invariant 0 <= i <= |rounds|
      invariant log + Transcript(lastIp, rounds[i..]) == goal
      invariant |requests| == i
      invariant forall k :: 0 <= k < i ==> requests[k] == Request(url, hostname, RoundIp(rounds[k]))
      invariant lastIp == if i == 0 then None else Some(RoundIp(rounds[i - 1]))
    {
      ghost var before := lastIp;
      var printed, request;
      printed, request, lastIp := PingOnce(url, hostname, lastIp, rounds[i]);
      TranscriptStep(log, printed, before, rounds, i, goal);
      log := log + printed;
      requests := requests + [request];
      i := i + 1;
    }
    TranscriptDone(lastIp, rounds);
  }

  // ------------------------------------------------------------ announcements

  /** The addresses of the "Using IP" lines, in order. */
  function Announcements(log: seq<Message>): seq<string>
    decreases |log|
  {
    if log == [] then []
    else (if log[0].UsingIp? then [log[0].ip] else []) + Announcements(log[1..])
  }

  lemma {:induction false} AnnouncementsConcat(x: seq<Message>, y: seq<Message>)
    ensures Announcements(x + y) == Announcements(x) + Announcements(y)
    decreases |x|
  {
    if x == [] {
      assert x + y == y;
    } else {
      assert (x + y)[1..] == x[1..] + y;
      AnnouncementsConcat(x[1..], y);
    }
  }

  /** The address of every round, in order. */
  function RoundIps(rounds: seq<Round>): (ips: seq<string>)
    ensures |ips| == |rounds|
    decreases |rounds|
  {
    if rounds == [] then [] else [RoundIp(rounds[0])] + RoundIps(rounds[1..])
  }

  /** `s` with every run of equal neighbours reduced to one element. */
  function Collapse(s: seq<string>): (r: seq<string>)
    ensures s != [] ==> r != [] && r[0] == s[0]
    decreases |s|
  {
    if |s| <= 1 then s
    else if s[0] == s[1] then Collapse(s[1..])
    else [s[0]] + Collapse(s[1..])
  }

  lemma {:induction false} CollapseLast(s: seq<string>)
    requires s != []
    ensures Collapse(s) != [] && Collapse(s)[|Collapse(s)| - 1] == s[|s| - 1]
    decreases |s|
  {
    if |s| > 1 {
      CollapseLast(s[1..]);
    }
  }

  /** No two neighbouring elements of `Collapse(s)` are equal. */
  lemma {:induction false} CollapseNoRepeats(s: seq<string>)
    ensures forall i :: 0 <= i < |Collapse(s)| - 1 ==> Collapse(s)[i] != Collapse(s)[i + 1]
    decreases |s|
  {
    if |s| > 1 {
      CollapseNoRepeats(s[1..]);
      if s[0] != s[1] {
        var c, t := Collapse(s), Collapse(s[1..]);
        assert c == [s[0]] + t;
        forall i | 0 <= i < |c| - 1 ensures c[i] != c[i + 1] {
          if i > 0 { assert c[i] == t[i - 1] && c[i + 1] == t[i]; }
        }
      }
    }
  }

  /** `Collapse` drops only repeats: it keeps every value of `s` and adds none. */
  lemma {:induction false} CollapseKeepsValues(s: seq<string>)
    ensures forall x :: x in Collapse(s) <==> x in s
    decreases |s|
  {
    if |s| > 1 {
      CollapseKeepsValues(s[1..]);
      assert s == [s[0]] + s[1..];
      assert s[0] == s[1] ==> s[0] in s[1..];
    }
  }

  /** Putting `p` in front of `u` adds an element to `Collapse(u)` only when `p`
      differs from the first element of `u`. */
  lemma CollapseCons(p: string, u: seq<string>)
    requires u != []
    ensures Collapse([p] + u)[1..] == if p == u[0] then Collapse(u)[1..] else Collapse(u)
  {
    assert ([p] + u)[1..] == u;
  }

  /** Starting from the address `p`, the rounds announce the addresses that follow
      `p` in the collapsed list of round addresses. */
  lemma {:induction false} AnnouncementsAfter(p: string, rounds: seq<Round>)
    ensures Announcements(Transcript(Some(p), rounds)) == Collapse([p] + RoundIps(rounds))[1..]
    decreases |rounds|
  {
    if rounds != [] {
      var ip, rest := RoundIp(rounds[0]), rounds[1..];
      assert RoundIps(rounds) == [ip] + RoundIps(rest);
      assert rounds[0..] == rounds;
      TranscriptUnfold(Some(p), rounds, 0);
      AnnouncementsConcat(RoundLog(Some(p), rounds[0]), Transcript(Some(ip), rest));
      RoundAnnouncesChange(Some(p), rounds[0]);
      AnnouncementsAfter(ip, rest);
      CollapseCons(p, [ip] + RoundIps(rest));
    }
  }

  /** The "Using IP" lines name the address of the first round and then each
      address that differs from the one of the round before, and nothing else: the
      round addresses with repeats collapsed. */
  lemma AnnouncesAddressChanges(rounds: seq<Round>)
    ensures Announcements(Transcript(None, rounds)) == Collapse(RoundIps(rounds))
  {
    if rounds != [] {
      var ip, rest := RoundIp(rounds[0]), rounds[1..];
      var u := [ip] + RoundIps(rest);
      assert RoundIps(rounds) == u;
      assert rounds[0..] == rounds;
      TranscriptUnfold(None, rounds, 0);
      AnnouncementsConcat(RoundLog(None, rounds[0]), Transcript(Some(ip), rest));
      RoundAnnouncesChange(None, rounds[0]);
      AnnouncementsAfter(ip, rest);
      assert Collapse(u) == [ip] + Collapse(u)[1..];
    }
  }

  /** Rounds that keep the announced address and whose pings succeed print nothing. */
  lemma {:induction false} SilentWhileSteady(p: string, rounds: seq<Round>)
    requires forall i :: 0 <= i < |rounds| ==> RoundIp(rounds[i]) == p
    requires forall i :: 0 <= i < |rounds| ==> !rounds[i].post.Raised? && IsSuccess(PostStatus(rounds[i].post))
    ensures Transcript(Some(p), rounds) == []
    decreases |rounds|
  {
    if rounds != [] {
      assert RoundIp(rounds[0]) == p;
      SilentWhileSteady(p, rounds[1..]);
    }
  }

  /** A round prints "Using IP" exactly when its address differs from the one
      announced last. */
  lemma RoundAnnouncesChange(lastIp: Option<string>, round: Round)
    ensures Announcements(RoundLog(lastIp, round)) == if Some(RoundIp(round)) != lastIp then [RoundIp(round)] else []
  {
    var ip := RoundIp(round);
    AnnouncementsConcat(if Some(ip) != lastIp then [UsingIp(ip)] else [], PostLog(round.post));
  }
}
