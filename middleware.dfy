/**
 * The request-interception middleware: extract the client address, refuse
 * blocked addresses, and log every other request before passing it on.
 */
module Middleware {
  import opened Wrappers
  import opened Strings
  import opened Http
  import opened Models

  /** What the middleware answers: a 403 refusal, or the downstream handler's response. */
  datatype Response = Forbidden(message: string) | PassThrough

  const BLOCKED_MESSAGE := "Your IP has been blocked."

  /** Whether the raw forwarded-for header decides the address (it is set and not empty). */
  predicate UsesForwardedHeader(request: Request)
  {
    var forwarded := MetaGet(request.meta, X_FORWARDED_FOR);
    forwarded.Some? && forwarded.value != ""
  }

  /**
   * `get_client_ip`: the first comma-separated entry of `X-Forwarded-For`,
   * stripped of whitespace, when that header is set and not empty; otherwise
   * `REMOTE_ADDR`, which may itself be missing.
   */
  function GetClientIp(request: Request): (ip: Option<string>)
    ensures UsesForwardedHeader(request) ==>
      && ip.Some?
      && ',' !in ip.value
      && (ip.value == [] || (!IsSpace(ip.value[0]) && !IsSpace(ip.value[|ip.value| - 1])))
    ensures !UsesForwardedHeader(request) ==> ip == MetaGet(request.meta, REMOTE_ADDR)
  {
    var forwarded := MetaGet(request.meta, X_FORWARDED_FOR);
    if forwarded.Some? && forwarded.value != "" then
      Some(Strip(FirstField(forwarded.value, ',')))
    else
      MetaGet(request.meta, REMOTE_ADDR)
  }

  /**
   * Where the forwarded address sits in the header: it is `header[start..end]`,
   * `comma` is the end of the first entry (the first comma, or the end of the
   * header), and only whitespace separates the address from the start of the
   * header and from the end of the first entry.
   */
  lemma ForwardedAddressIsFirstEntry(request: Request) returns (start: nat, end: nat, comma: nat)
    requires UsesForwardedHeader(request)
    ensures var header := request.meta[X_FORWARDED_FOR];
      && start <= end <= comma <= |header|
      && GetClientIp(request) == Some(header[start..end])
      && ',' !in header[..comma]
      && (comma == |header| || header[comma] == ',')
      && (forall k :: 0 <= k < start ==> IsSpace(header[k]))
      && (forall k :: end <= k < comma ==> IsSpace(header[k]))
  {
    var header := request.meta[X_FORWARDED_FOR];
    start, end, comma := StrippedFirstField(header, ',');
  }

  /** An address the block list names. A missing address matches no row. */
  predicate IsBlocked(blocked: set<string>, ip: Option<string>)
  {
    ip.Some? && ip.value in blocked
  }

  /**
   * One pass of the middleware over the block list and the request log, as
   * a value: the response and the log afterwards. `now` is the one timestamp
   * read before the block check.
   */
  function Handle(blocked: set<string>, logs: seq<LogEntry>, request: Request, now: int): (r: (Response, seq<LogEntry>))
    ensures r.0.Forbidden? <==> IsBlocked(blocked, GetClientIp(request))
    ensures r.0.Forbidden? ==> r.0.message == BLOCKED_MESSAGE && r.1 == logs
    ensures r.0.PassThrough? ==> r.1 == logs + [LogEntry(GetClientIp(request), request.path, now)]
  {
    var ip := GetClientIp(request);
    if IsBlocked(blocked, ip) then
      (Forbidden(BLOCKED_MESSAGE), logs)
    else
      (PassThrough, logs + [LogEntry(ip, request.path, now)])
  }

  /** The middleware object, with the two tables it reads and writes as fields. */
  class IPTrackingMiddleware {
    /** The `ip_address` column of the `BlockedIP` table. */
    var blocked: set<string>
    /** The `RequestLog` table, in insertion order. */
    var logs: seq<LogEntry>

    constructor (blocked: set<string>, logs: seq<LogEntry>)
      ensures this.blocked == blocked && this.logs == logs
    {
      this.blocked := blocked;
      this.logs := logs;
    }

    /** `__call__`: deny a blocked address, or log the request and pass it on. */
    method Call(request: Request, now: int) returns (response: Response)
      modifies this`logs
      ensures blocked == old(blocked)
      ensures (response, logs) == Handle(blocked, old(logs), request, now)
    {
      var ip := GetClientIp(request);
      var path := request.path;
      var timestamp := now;
      if ip.Some? && ip.value in blocked {
        return Forbidden(BLOCKED_MESSAGE);
      }
      logs := logs + [LogEntry(ip, path, timestamp)];
      response := PassThrough;
    }
  }

  /** A blocked address is refused and nothing is logged. */
  lemma BlockedRequestIsDenied(blocked: set<string>, logs: seq<LogEntry>, request: Request, now: int)
    requires IsBlocked(blocked, GetClientIp(request))
    ensures Handle(blocked, logs, request, now) == (Forbidden(BLOCKED_MESSAGE), logs)
  {
  }

  /**
   * Any other request is passed on and leaves exactly one new log entry,
   * with the extracted address, the request path and the captured time.
   */
  lemma AllowedRequestIsLoggedOnce(blocked: set<string>, logs: seq<LogEntry>, request: Request, now: int)
    requires !IsBlocked(blocked, GetClientIp(request))
    ensures var (response, after) := Handle(blocked, logs, request, now);
      && response == PassThrough
      && |after| == |logs| + 1
      && after[..|logs|] == logs
      && after[|logs|] == LogEntry(GetClientIp(request), request.path, now)
  {
  }

  /** The log after the middleware has handled a series of (request, time) arrivals in order. */
  function Replay(blocked: set<string>, logs: seq<LogEntry>, arrivals: seq<(Request, int)>): (after: seq<LogEntry>)
  {
    if arrivals == [] then logs
    else
      var last := arrivals[|arrivals| - 1];
      Handle(blocked, Replay(blocked, logs, arrivals[..|arrivals| - 1]), last.0, last.1).1
  }

  /** How many of the arrivals get past the block list. */
  function AllowedCount(blocked: set<string>, arrivals: seq<(Request, int)>): (n: nat)
  {
    if arrivals == [] then 0
    else
      AllowedCount(blocked, arrivals[..|arrivals| - 1])
      + (if IsBlocked(blocked, GetClientIp(arrivals[|arrivals| - 1].0)) then 0 else 1)
  }

  /**
   * Over any series of requests the log only grows: earlier entries stay as
   * they were, one entry is added per allowed request, and no added entry
   * carries a blocked address.
   */
  lemma {:induction false} ReplayOnlyAppends(blocked: set<string>, logs: seq<LogEntry>, arrivals: seq<(Request, int)>)
    ensures var after := Replay(blocked, logs, arrivals);
      && |after| == |logs| + AllowedCount(blocked, arrivals)
      && after[..|logs|] == logs
      && forall k :: |logs| <= k < |after| ==> !IsBlocked(blocked, after[k].ip)
  {
    if arrivals != [] {
      var prefix := arrivals[..|arrivals| - 1];
      ReplayOnlyAppends(blocked, logs, prefix);
      var before := Replay(blocked, logs, prefix);
      var last := arrivals[|arrivals| - 1];
      if !IsBlocked(blocked, GetClientIp(last.0)) {
        AllowedRequestIsLoggedOnce(blocked, before, last.0, last.1);
      }
    }
  }

  /**
   * A header `first, rest` whose first entry carries no surrounding
   * whitespace yields exactly that entry, whatever `REMOTE_ADDR` says.
   */
  lemma ForwardedFirstEntry(request: Request, first: string, rest: string)
    requires MetaGet(request.meta, X_FORWARDED_FOR) == Some(first + "," + rest)
    requires ',' !in first
    requires first == [] || (!IsSpace(first[0]) && !IsSpace(first[|first| - 1]))
    ensures GetClientIp(request) == Some(first)
  {
    FirstFieldOfJoin(first, ',', rest);
    StripUntrimmed(first);
  }

  /** The sample header of a proxied request yields its first address. */
  lemma ForwardedExample()
    ensures GetClientIp(Request(map[X_FORWARDED_FOR := "203.0.113.5, 70.41.3.18", REMOTE_ADDR := "10.0.0.1"], "/", AnonymousUser))
      == Some("203.0.113.5")
  {
    var request := Request(map[X_FORWARDED_FOR := "203.0.113.5, 70.41.3.18", REMOTE_ADDR := "10.0.0.1"], "/", AnonymousUser);
    assert "203.0.113.5, 70.41.3.18" == "203.0.113.5" + "," + " 70.41.3.18";
    ForwardedFirstEntry(request, "203.0.113.5", " 70.41.3.18");
  }

  /** Without the header the peer address is used. */
  lemma PeerAddressExample()
    ensures GetClientIp(Request(map[REMOTE_ADDR := "198.51.100.9"], "/", AnonymousUser)) == Some("198.51.100.9")
    ensures GetClientIp(Request(map[X_FORWARDED_FOR := "", REMOTE_ADDR := "198.51.100.9"], "/", AnonymousUser)) == Some("198.51.100.9")
  {
  }

  /**
   * The fallback is decided on the raw header: a header whose first entry is
   * blank yields the empty address, not `REMOTE_ADDR`.
   */
  lemma BlankFirstEntryExample()
    ensures GetClientIp(Request(map[X_FORWARDED_FOR := " ,1.2.3.4", REMOTE_ADDR := "10.0.0.1"], "/", AnonymousUser)) == Some("")
  {
    assert " ,1.2.3.4" == " " + [','] + "1.2.3.4";
    FirstFieldOfJoin(" ", ',', "1.2.3.4");
  }
}
