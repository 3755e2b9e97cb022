/** `RateLimitFilter`: a fixed one-minute window request counter per client
    address for paths under "/api/". The client address is the first entry of
    `X-Forwarded-For`, or the connection's remote address without that
    header. The limit is the global `API_RATE_LIMIT_PER_MINUTE` setting,
    100 when absent or not an int. The clock is `now` in milliseconds. */
module RateLimit {
  import opened Wrappers
  import opened Text
  import SecuritySettings

  const ApiPrefix: string := "/api/"
  const WindowMillis: int := 60000
  const DefaultLimit: int := 100
  const LimitKey: string := "API_RATE_LIMIT_PER_MINUTE"

  /** One client's window: when it started and how many requests it counted. */
  datatype Counter = Counter(windowStart: int, count: int)

  type Counters = map<string, Counter>

  datatype Request = Request(path: string, forwardedFor: Option<string>, remoteAddr: string, now: int)

  datatype Decision = Forwarded | Rejected   // Rejected: status 429, body "Too many requests"

  // ---- client address ----------------------------------------------------

  /** The pieces of `s` between the separator `c`, all of them, in order. */
  function Pieces(s: string, c: char): (ps: seq<string>)
    ensures |ps| >= 1
    ensures Lacks(s, c) ==> ps == [s]
    ensures forall i :: 0 <= i < |ps| ==> Lacks(ps[i], c)
    decreases |s|
  {
    match IndexOf(s, c)
    case None => [s]
    case Some(k) => [s[..k]] + Pieces(s[k + 1..], c)
  }

  /** Java's `String.split` with a one-character separator: the pieces with
      trailing empty ones removed, except that a string without the separator
      comes back whole. */
  function JavaSplit(s: string, c: char): (parts: seq<string>)
  {
    if Lacks(s, c) then [s] else DropTrailingEmpty(Pieces(s, c))
  }

  function DropTrailingEmpty(ps: seq<string>): (r: seq<string>)
    ensures r <= ps
    ensures |r| > 0 ==> r[|r| - 1] != ""
    ensures forall i :: |r| <= i < |ps| ==> ps[i] == ""
  {
    if |ps| == 0 then []
    else if ps[|ps| - 1] == "" then DropTrailingEmpty(ps[..|ps| - 1])
    else ps
  }

  /** `getClientIp` as written: `xfHeader.split(",")[0]`. `None` is the
      array-index failure on a header that splits into no pieces. */
  function ClientIpAsWritten(forwardedFor: Option<string>, remoteAddr: string): (r: Option<string>)
  {
    if forwardedFor.None? then Some(remoteAddr)
    else
      var parts := JavaSplit(forwardedFor.value, ',');
      if |parts| == 0 then None else Some(parts[0])
  }

  /** A header made only of commas splits into nothing, and the filter fails
      on it instead of picking an address. */
  lemma ClientIpAsWrittenFailsOnCommas()
    ensures ClientIpAsWritten(Some(","), "10.0.0.1") == None
  {
    assert !Lacks(",", ',') by { assert ","[0] == ','; }
    assert IndexOf(",", ',') == Some(0);
    assert ","[1..] == "";
    assert Pieces("", ',') == [""];
    assert Pieces(",", ',') == ["", ""];
  }

  /** The first hop of a forwarded-for header: everything before the first comma. */
  function FirstHop(header: string): (hop: string)
    ensures hop <= header && Lacks(hop, ',')
    ensures |hop| < |header| ==> header[|hop|] == ','
  {
    match IndexOf(header, ',')
    case None => header
    case Some(k) => header[..k]
  }

  /** `getClientIp` with the evident intent kept: the first hop, which is
      never missing (it is empty for a header that starts with a comma). */
  function ClientIp(forwardedFor: Option<string>, remoteAddr: string): (ip: string)
    ensures forwardedFor.None? ==> ip == remoteAddr
    ensures forwardedFor.Some? ==> ip <= forwardedFor.value && Lacks(ip, ',')
  {
    if forwardedFor.None? then remoteAddr else FirstHop(forwardedFor.value)
  }

  /** The first piece is the text before the first separator. */
  lemma FirstPieceIsFirstHop(s: string)
    ensures Pieces(s, ',')[0] == FirstHop(s)
  {
  }

  /** Wherever the code as written returns an address, it is the first hop. */
  lemma ClientIpAgrees(forwardedFor: Option<string>, remoteAddr: string)
    requires ClientIpAsWritten(forwardedFor, remoteAddr).Some?
    ensures ClientIpAsWritten(forwardedFor, remoteAddr).value == ClientIp(forwardedFor, remoteAddr)
  {
    if forwardedFor.Some? && !Lacks(forwardedFor.value, ',') {
      FirstPieceIsFirstHop(forwardedFor.value);
    }
  }

  // ---- the filter --------------------------------------------------------

  /** The per-minute limit from the global settings snapshot. */
  function EffectiveLimit(global: SecuritySettings.Snapshot): (limit: int)
    ensures LimitKey !in global ==> limit == DefaultLimit
    ensures IntMin <= limit <= IntMax
  {
    var raw := if LimitKey in global then global[LimitKey] else Some("100");
    assert DigitsValue("100") == 100 by {
      assert "100"[..2] == "10" && "10"[..1] == "1";
    }
    match SecuritySettings.ParseIntOrNull(raw)
    case Some(n) => n
    case None => DefaultLimit
  }

  /** The counter after counting one request at `now`: a fresh window when
      the old one is more than a minute old, then one more request (a Java
      `int` counter). */
  function Tick(c: Counter, now: int): (c2: Counter)
    ensures now - c.windowStart > WindowMillis ==> c2 == Counter(now, 1)
    ensures now - c.windowStart <= WindowMillis ==> c2 == Counter(c.windowStart, WrapInt(c.count + 1))
  {
    var c1 := if now - c.windowStart > WindowMillis then Counter(now, 0) else c;
    c1.(count := WrapInt(c1.count + 1))
  }

  /** `doFilterInternal`: non-API paths pass untouched; an API request is
      counted, then rejected when the count exceeds the limit. */
  function Filter(counters: Counters, req: Request, global: SecuritySettings.Snapshot): (r: (Decision, Counters))
    ensures !StartsWith(req.path, ApiPrefix) ==> r == (Forwarded, counters)
    ensures StartsWith(req.path, ApiPrefix) ==>
              var ip := ClientIp(req.forwardedFor, req.remoteAddr);
              && r.1.Keys == counters.Keys + {ip}
              && (forall other :: other in counters && other != ip ==> r.1[other] == counters[other])
              && (r.0 == Rejected <==> r.1[ip].count > EffectiveLimit(global))
  {
    if !StartsWith(req.path, ApiPrefix) then (Forwarded, counters)
    else
      var ip := ClientIp(req.forwardedFor, req.remoteAddr);
      var c := if ip in counters then counters[ip] else Counter(req.now, 0);
      var c2 := Tick(c, req.now);
      (if c2.count > EffectiveLimit(global) then Rejected else Forwarded, counters[ip := c2])
  }

  /** A request that opens a new window is forwarded whenever the limit is positive. */
  lemma NewWindowForwarded(counters: Counters, req: Request, global: SecuritySettings.Snapshot)
    requires StartsWith(req.path, ApiPrefix) && EffectiveLimit(global) >= 1
    requires var ip := ClientIp(req.forwardedFor, req.remoteAddr);
             ip !in counters || req.now - counters[ip].windowStart > WindowMillis
    ensures Filter(counters, req, global).0 == Forwarded
  {
  }

  /** Runs the filter over requests in order: how many were forwarded, and the counters after. */
  function Run(counters: Counters, reqs: seq<Request>, global: SecuritySettings.Snapshot): (r: (nat, Counters))
    ensures r.0 <= |reqs|
    decreases |reqs|
  {
    if |reqs| == 0 then (0, counters)
    else
      var (d, next) := Filter(counters, reqs[0], global);
      var (n, last) := Run(next, reqs[1..], global);
      (n + (if d == Forwarded then 1 else 0), last)
  }

  /** The rate limit holds: API requests from one client inside its current
      window are forwarded at most `limit - count` times (never negative),
      and every request is counted. */
  lemma {:induction false} WindowBound(counters: Counters, reqs: seq<Request>, global: SecuritySettings.Snapshot, ip: string)
    requires ip in counters && counters[ip].count >= 0
    requires counters[ip].count + |reqs| <= IntMax
    requires forall i :: 0 <= i < |reqs| ==>
               StartsWith(reqs[i].path, ApiPrefix) && ClientIp(reqs[i].forwardedFor, reqs[i].remoteAddr) == ip
               && reqs[i].now - counters[ip].windowStart <= WindowMillis
    ensures var (n, last) := Run(counters, reqs, global);
            && ip in last && last[ip] == Counter(counters[ip].windowStart, counters[ip].count + |reqs|)
            && n <= Max0(EffectiveLimit(global) - counters[ip].count)
    decreases |reqs|
  {
    if |reqs| > 0 {
      var (d, next) := Filter(counters, reqs[0], global);
      assert next[ip] == Counter(counters[ip].windowStart, counters[ip].count + 1);
      assert forall i :: 0 <= i < |reqs[1..]| ==> reqs[1..][i] == reqs[i + 1];
      WindowBound(next, reqs[1..], global, ip);
    }
  }

  function Max0(x: int): nat {
    if x < 0 then 0 else x
  }
}
