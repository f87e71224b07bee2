/**
 * The balancer's shared state as one object: the backend table and the round-robin
 * cursor, with the operations that change them. Each request and each health probe
 * is one step; every method is proved against the specification functions of the
 * Selection, Pipeline and Registry modules.
 */
module Balancer {
  import opened Options
  import opened Headers
  import opened Registry
  import opened Selection
  import opened Pipeline

  class LoadBalancer {
    var backends: seq<Backend>
    var cursor: nat
    /** The sticky cookie's name; stickiness is off when it is absent or empty. */
    const sticky: Option<string>

    /** Between steps no request is in flight and no counter is negative. */
    ghost predicate Valid()
      reads this
    {
      forall i :: 0 <= i < |backends| ==> Quiescent(backends[i])
    }

    constructor (table: seq<Backend>, sticky: Option<string>)
      requires forall i :: 0 <= i < |table| ==> Quiescent(table[i])
      ensures Valid()
      ensures backends == table && cursor == 0 && this.sticky == sticky
    {
      backends := table;
      cursor := 0;
      this.sticky := sticky;
    }

    /** The configured table and sticky cookie, cursor at zero. */
    constructor Default()
      ensures Valid()
      ensures backends == DefaultBackends && cursor == 0 && sticky == StickyCookie
    {
      backends := DefaultBackends;
      cursor := 0;
      sticky := StickyCookie;
    }

    /** Round-robin over the healthy backends, advancing the shared cursor. */
    method PickBackendRR() returns (choice: Option<nat>)
      modifies this`cursor
      ensures Pick(choice, cursor) == PickRR(backends, old(cursor))
      ensures choice.None? <==> forall i :: 0 <= i < |backends| ==> !backends[i].healthy
      ensures choice.None? ==> cursor == old(cursor)
      ensures choice.Some? ==>
                && choice.value < |backends| && backends[choice.value].healthy
                && choice.value == HealthyIndices(backends)[old(cursor) % |HealthyIndices(backends)|]
                && cursor == old(cursor) + 1
    {
      var healthy := HealthyIndices(backends);
      if |healthy| == 0 {
        return None;
      }
      choice := Some(healthy[cursor % |healthy|]);
      cursor := cursor + 1;
    }

    /** The healthy backend the cookie names, else round-robin. */
    method PickBackendSticky(cookie: Option<string>) returns (choice: Option<nat>)
      modifies this`cursor
      ensures Pick(choice, cursor) == PickSticky(backends, cookie, old(cursor))
    {
      var healthy := HealthyIndices(backends);
      if |healthy| == 0 {
        return None;
      }
      if Presented(cookie) {
        var named := FindSticky(backends, cookie.value);
        if named.Some? {
          return named;
        }
      }
      choice := PickBackendRR();
    }

    /** Selects a backend by the configured policy for the cookie the client presented. */
    method Choose(presented: Option<string>) returns (choice: Option<nat>)
      modifies this`cursor
      ensures Pick(choice, cursor) == Select(backends, PolicyFor(sticky, presented), old(cursor))
    {
      if StickyEnabled(sticky) {
        choice := PickBackendSticky(presented);
      } else {
        choice := PickBackendRR();
      }
    }

    /** Counts backend `i` in flight around the upstream call and records its outcome. */
    method Count(i: nat, up: Upstream)
      requires i < |backends|
      modifies this`backends
      ensures backends == Record(old(backends), i, up)
      ensures old(Valid()) ==> Valid()
    {
      var b := backends[i];
      backends := backends[i := b.(active := b.active + 1)];
      match up {
        case Failed =>
          backends := backends[i := backends[i].(fail := backends[i].fail + 1)];
        case Answered(_, _, _) =>
          backends := backends[i := backends[i].(ok := backends[i].ok + 1)];
      }
      backends := backends[i := backends[i].(active := backends[i].active - 1)];
    }

    /**
     * One proxied request: select a backend, count it as in flight, send the rewritten
     * request, count the outcome, and stop counting it as in flight.
     */
    method Proxy(req: Request, up: Upstream) returns (sent: Option<Forwarded>, response: Response)
      requires Valid()
      modifies this`backends, this`cursor
      ensures Valid()
      ensures var o := Handle(old(backends), old(cursor), sticky, req, up);
        backends == o.backends && cursor == o.cursor && sent == o.sent && response == o.response
    {
      var presented := CookieChoice(sticky, req.cookies);
      var choice := Choose(presented);
      if choice.None? {
        return None, NoHealthyBackends;
      }
      var i := choice.value;
      var b := backends[i];
      sent := Some(Outbound(b, req));
      Count(i, up);
      response := Reply(sticky, presented, b, up);
    }

    /** Records one health probe: backend `i` is healthy exactly when it answered 200. */
    method CheckBackend(i: nat, probe: ProbeOutcome)
      requires i < |backends|
      modifies this`backends
      ensures backends == AfterProbe(old(backends), i, probe)
      ensures old(Valid()) ==> Valid()
    {
      backends := backends[i := backends[i].(healthy := ProbeHealthy(probe))];
    }

    /** One round of the health monitor: the result of every backend's probe recorded. */
    method HealthCycle(probes: seq<ProbeOutcome>)
      requires |probes| == |backends|
      modifies this`backends
      ensures |backends| == |old(backends)|
      ensures forall i :: 0 <= i < |backends| ==>
                backends[i] == old(backends)[i].(healthy := ProbeHealthy(probes[i]))
      ensures old(Valid()) ==> Valid()
    {
      for i := 0 to |probes|
        invariant |backends| == |old(backends)|
        invariant forall j :: 0 <= j < i ==>
                    backends[j] == old(backends)[j].(healthy := ProbeHealthy(probes[j]))
        invariant forall j :: i <= j < |backends| ==> backends[j] == old(backends)[j]
      {
        CheckBackend(i, probes[i]);
      }
    }
  }
}
