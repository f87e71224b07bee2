/**
 * One proxied request as a single step on the backend table: selection, the request
 * sent upstream, the counters, and the response the client gets.
 */
module Pipeline {
  import opened Options
  import opened Headers
  import opened Registry
  import opened Selection

  /** The parts of an inbound request the proxy uses; `peer` is the client address, when the transport knows it. */
  datatype Request = Request(verb: string, pathQs: string, scheme: string, headers: seq<Header>,
                             cookies: map<string, string>, peer: Option<string>, body: seq<bv8>)

  /** How the upstream call ended: a response, or a network failure (timeout, refused connection). */
  datatype Upstream = Answered(status: int, headers: seq<Header>, payload: seq<bv8>) | Failed

  /** The request sent to the chosen backend. */
  datatype Forwarded = Forwarded(verb: string, target: string, headers: map<string, string>, body: seq<bv8>)

  datatype Cookie = Cookie(name: string, value: string, maxAge: nat, path: string, httpOnly: bool)

  /** What the client gets: 503, 502, or the relayed upstream response. */
  datatype Response =
    | NoHealthyBackends
    | UpstreamFailure
    | Relayed(status: int, headers: seq<Header>, payload: seq<bv8>, setCookie: Option<Cookie>, servedBy: string)

  function StatusCode(r: Response): int {
    match r
    case NoHealthyBackends => 503
    case UpstreamFailure => 502
    case Relayed(status, _, _, _, _) => status
  }

  /** Stickiness is on when a cookie name is configured and not empty. */
  predicate StickyEnabled(sticky: Option<string>) {
    sticky.Some? && sticky.value != ""
  }

  /** The affinity token the request presents: the sticky cookie's value, when stickiness is on. */
  function CookieChoice(sticky: Option<string>, cookies: map<string, string>): Option<string> {
    if StickyEnabled(sticky) && sticky.value in cookies then Some(cookies[sticky.value]) else None
  }

  function PolicyFor(sticky: Option<string>, cookieChoice: Option<string>): Policy {
    if StickyEnabled(sticky) then Sticky(cookieChoice) else RoundRobin
  }

  function ClientIp(peer: Option<string>): string {
    if peer.Some? then peer.value else "unknown"
  }

  /**
   * The affinity cookie attached to a relayed response: issued exactly when stickiness
   * is on and the presented token is not the serving backend's name.
   */
  function StickyCookieFor(sticky: Option<string>, presented: Option<string>, servedBy: string): (c: Option<Cookie>)
    ensures c.Some? <==> StickyEnabled(sticky) && presented != Some(servedBy)
    ensures c.Some? ==> c.value.name == sticky.value && c.value.value == servedBy
                        && c.value.maxAge == StickyTtlSeconds && c.value.path == "/"
  {
    if StickyEnabled(sticky) && presented != Some(servedBy) then
      Some(Cookie(sticky.value, servedBy, StickyTtlSeconds, "/", false))
    else None
  }

  /** The counters after an attempt on backend `i`: ok for any upstream answer, fail for a network failure. */
  function Record(bs: seq<Backend>, i: nat, up: Upstream): seq<Backend>
    requires i < |bs|
  {
    match up
    case Failed => bs[i := bs[i].(fail := bs[i].fail + 1)]
    case Answered(_, _, _) => bs[i := bs[i].(ok := bs[i].ok + 1)]
  }

  /**
   * The table and cursor after one request, the backend chosen, the response, and in
   * `sent` the request the proxy attempted to send to that backend. On a failed upstream
   * call `sent` is still the attempted request, although the failure may have happened
   * before any of it reached the backend.
   */
  datatype Outcome = Outcome(backends: seq<Backend>, cursor: nat, chosen: Option<nat>,
                             sent: Option<Forwarded>, response: Response)

  /** The request sent to backend `b`: same verb and body, the backend's URL, rewritten headers. */
  function Outbound(b: Backend, req: Request): Forwarded {
    Forwarded(req.verb, b.url + req.pathQs,
              ForwardRequestHeaders(req.headers, ClientIp(req.peer), req.scheme), req.body)
  }

  /** The client's response once backend `b` was tried. */
  function Reply(sticky: Option<string>, presented: Option<string>, b: Backend, up: Upstream): Response {
    match up
    case Failed => UpstreamFailure
    case Answered(status, headers, payload) =>
      Relayed(status, FilterHeaders(headers), payload, StickyCookieFor(sticky, presented, b.name), b.name)
  }

  /**
   * One request: select; with no backend answer 503 and touch nothing; otherwise send
   * the request to base URL plus path and query, count the attempt as ok (any upstream
   * status) or fail (network failure, answered with 502), and relay the filtered response
   * with the affinity cookie when needed. The in-flight count goes up and back down, so
   * its net change is zero.
   */
  function Handle(bs: seq<Backend>, cursor: nat, sticky: Option<string>, req: Request, up: Upstream): Outcome {
    var presented := CookieChoice(sticky, req.cookies);
    var p := Select(bs, PolicyFor(sticky, presented), cursor);
    match p.choice
    case None => Outcome(bs, p.cursor, None, None, NoHealthyBackends)
    case Some(i) =>
      Outcome(Record(bs, i, up), p.cursor, Some(i), Some(Outbound(bs[i], req)), Reply(sticky, presented, bs[i], up))
  }

  /** With no healthy backend the request is answered 503, nothing is sent and nothing changes. */
  lemma NoBackendChangesNothing(bs: seq<Backend>, cursor: nat, sticky: Option<string>, req: Request, up: Upstream)
    ensures var o := Handle(bs, cursor, sticky, req, up);
      && (o.response == NoHealthyBackends <==> forall i :: 0 <= i < |bs| ==> !bs[i].healthy)
      && (o.response == NoHealthyBackends ==>
            o.backends == bs && o.cursor == cursor && o.chosen.None? && o.sent.None?
            && StatusCode(o.response) == 503)
  {
  }

  function TotalOk(bs: seq<Backend>): int {
    if bs == [] then 0 else TotalOk(bs[..|bs| - 1]) + bs[|bs| - 1].ok
  }

  function TotalFail(bs: seq<Backend>): int {
    if bs == [] then 0 else TotalFail(bs[..|bs| - 1]) + bs[|bs| - 1].fail
  }

  /** Changing one record changes the totals by that record's change. */
  lemma {:induction false} TotalsUpdate(bs: seq<Backend>, i: nat, b: Backend)
    requires i < |bs|
    ensures TotalOk(bs[i := b]) == TotalOk(bs) - bs[i].ok + b.ok
    ensures TotalFail(bs[i := b]) == TotalFail(bs) - bs[i].fail + b.fail
    decreases |bs|
  {
    var n := |bs| - 1;
    assert bs[i := b][..n] == if i == n then bs[..n] else bs[..n][i := b];
    if i < n {
      TotalsUpdate(bs[..n], i, b);
    }
  }

  /**
   * Counter bookkeeping of one attempt on backend `i`: only its record changes; ok grows
   * by one on an answer and fail by one on a network failure; names, URLs, weights,
   * health flags and in-flight counts are as before.
   */
  lemma RecordBookkeeping(bs: seq<Backend>, i: nat, up: Upstream)
    requires i < |bs|
    ensures var bs' := Record(bs, i, up);
      && SameIdentities(bs, bs') && SameHealth(bs, bs')
      && (forall j :: 0 <= j < |bs| ==> bs'[j].active == bs[j].active)
      && (forall j :: 0 <= j < |bs| && j != i ==> bs'[j] == bs[j])
      && (up.Failed? ==> bs'[i].fail == bs[i].fail + 1 && bs'[i].ok == bs[i].ok)
      && (up.Answered? ==> bs'[i].ok == bs[i].ok + 1 && bs'[i].fail == bs[i].fail)
  {
  }

  /** Each attempt adds exactly one to the table's total of successes or of failures. */
  lemma RecordTotals(bs: seq<Backend>, i: nat, up: Upstream)
    requires i < |bs|
    ensures var bs' := Record(bs, i, up);
      && (up.Failed? ==> TotalFail(bs') == TotalFail(bs) + 1 && TotalOk(bs') == TotalOk(bs))
      && (up.Answered? ==> TotalOk(bs') == TotalOk(bs) + 1 && TotalFail(bs') == TotalFail(bs))
  {
    TotalsUpdate(bs, i, Record(bs, i, up)[i]);
  }

  /**
   * A request that finds a healthy backend goes to a healthy backend: the upstream gets
   * base URL plus the original path and query, the counters move as `Record` says, and
   * the client gets 502 on a network failure or the upstream's own status otherwise.
   */
  lemma DispatchBookkeeping(bs: seq<Backend>, cursor: nat, sticky: Option<string>, req: Request, up: Upstream)
    requires exists i :: 0 <= i < |bs| && bs[i].healthy
    ensures var o := Handle(bs, cursor, sticky, req, up);
      && o.chosen.Some? && o.chosen.value < |bs| && bs[o.chosen.value].healthy
      && o.backends == Record(bs, o.chosen.value, up)
      && o.sent.Some? && o.sent.value.target == bs[o.chosen.value].url + req.pathQs
      && o.sent.value.verb == req.verb && o.sent.value.body == req.body
      && (up.Failed? ==> o.response == UpstreamFailure && StatusCode(o.response) == 502)
      && (up.Answered? ==>
            o.response.Relayed? && StatusCode(o.response) == up.status
            && o.response.servedBy == bs[o.chosen.value].name)
  {
  }

  /**
   * The relayed response carries no hop-by-hop header, keeps every other upstream
   * header in order, and passes status and payload through.
   */
  lemma RelayedResponseFiltered(bs: seq<Backend>, cursor: nat, sticky: Option<string>, req: Request, up: Upstream)
    requires up.Answered?
    ensures var r := Handle(bs, cursor, sticky, req, up).response;
      r.Relayed? ==>
        && (forall p :: p in r.headers ==> !IsHopByHop(p.0))
        && r.headers == FilterHeaders(up.headers)
        && r.status == up.status && r.payload == up.payload
  {
    FilterHeadersMembers(up.headers);
  }

  /**
   * The affinity cookie of a relayed response is set exactly when stickiness is on and
   * the presented token differs from the serving backend's name; it names that backend.
   */
  lemma StickyCookieDecision(bs: seq<Backend>, cursor: nat, sticky: Option<string>, req: Request, up: Upstream)
    ensures var r := Handle(bs, cursor, sticky, req, up).response;
      r.Relayed? ==>
        && (r.setCookie.Some? <==> StickyEnabled(sticky) && CookieChoice(sticky, req.cookies) != Some(r.servedBy))
        && (r.setCookie.Some? ==> r.setCookie.value.value == r.servedBy
                                  && r.setCookie.value.maxAge == StickyTtlSeconds)
  {
  }

  /**
   * Failover: when the backend a sticky cookie names is not healthy but another one is,
   * the request is served by round-robin and the response carries a fresh cookie naming
   * the backend that served it.
   */
  lemma StickyFailover(bs: seq<Backend>, cursor: nat, sticky: Option<string>, req: Request, up: Upstream)
    requires StickyEnabled(sticky) && up.Answered?
    requires CookieChoice(sticky, req.cookies).Some?
    requires forall i :: 0 <= i < |bs| && bs[i].healthy ==> bs[i].name != CookieChoice(sticky, req.cookies).value
    requires exists i :: 0 <= i < |bs| && bs[i].healthy
    ensures var o := Handle(bs, cursor, sticky, req, up);
      && o.chosen == PickRR(bs, cursor).choice && o.cursor == cursor + 1
      && o.response.Relayed?
      && o.response.setCookie == Some(Cookie(sticky.value, o.response.servedBy, StickyTtlSeconds, "/", false))
  {
    var c := CookieChoice(sticky, req.cookies);
    StickyFallsBackToRR(bs, c, cursor);
  }

  /**
   * One request when exactly one backend is healthy: that backend serves it, only its
   * counters move, and it is still the only healthy one, so the next request goes to it too.
   */
  lemma SingleHealthyStep(bs: seq<Backend>, cursor: nat, sticky: Option<string>, req: Request, up: Upstream, i0: nat)
    requires i0 < |bs| && HealthyIndices(bs) == [i0]
    ensures var o := Handle(bs, cursor, sticky, req, up);
      && o.backends == Record(bs, i0, up)
      && HealthyIndices(o.backends) == [i0]
      && (up.Answered? ==> o.response.Relayed? && o.response.servedBy == bs[i0].name)
      && (up.Failed? ==> o.response == UpstreamFailure)
  {
    var o := Handle(bs, cursor, sticky, req, up);
    assert bs[i0].healthy by { assert i0 in HealthyIndices(bs); }
    DispatchBookkeeping(bs, cursor, sticky, req, up);
    HealthyIndicesComplete(bs, o.chosen.value);
    RecordBookkeeping(bs, i0, up);
    HealthyIndicesOnlyHealth(bs, o.backends);
  }
}
