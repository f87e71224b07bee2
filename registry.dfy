/**
 * The backend table: one record per configured upstream with its health flag and
 * request counters, the indices of the currently healthy backends, and the mapping
 * of one health probe to the health flag.
 */
module Registry {
  import opened Options

  /** One configured upstream; `active`, `ok` and `fail` are its request counters. */
  datatype Backend = Backend(name: string, url: string, healthy: bool, weight: int,
                             active: int, ok: int, fail: int)

  /** The table as configured: two local upstreams, healthy, counters at zero. */
  const DefaultBackends: seq<Backend> := [
    Backend("s1", "http://127.0.0.1:8001", true, 1, 0, 0, 0),
    Backend("s2", "http://127.0.0.1:8002", true, 1, 0, 0, 0)
  ]
  /** The sticky cookie's name; `None` (or an empty name) turns stickiness off. */
  const StickyCookie: Option<string> := Some("LB_NODE")
  const StickyTtlSeconds: nat := 600

  /** A record between requests: nothing in flight and no negative counter. */
  predicate Quiescent(b: Backend) {
    b.active == 0 && b.ok >= 0 && b.fail >= 0
  }

  /** Two tables describe the same backends: same length, names, URLs and weights. */
  predicate SameIdentities(bs: seq<Backend>, bs': seq<Backend>) {
    |bs| == |bs'| &&
    forall i :: 0 <= i < |bs| ==>
      bs'[i].name == bs[i].name && bs'[i].url == bs[i].url && bs'[i].weight == bs[i].weight
  }

  /** Two tables agree on which backends are healthy. */
  predicate SameHealth(bs: seq<Backend>, bs': seq<Backend>) {
    |bs| == |bs'| && forall i :: 0 <= i < |bs| ==> bs'[i].healthy == bs[i].healthy
  }

  /**
   * The indices of the healthy backends, in table order: the list that both
   * selection functions build before they choose.
   */
  function HealthyIndices(bs: seq<Backend>): (h: seq<nat>)
    ensures forall m :: 0 <= m < |h| ==> h[m] < |bs| && bs[h[m]].healthy
  {
    if bs == [] then []
    else HealthyIndices(bs[..|bs| - 1]) + (if bs[|bs| - 1].healthy then [|bs| - 1] else [])
  }

  /** Every healthy backend is in the healthy list. */
  lemma {:induction false} HealthyIndicesComplete(bs: seq<Backend>, i: nat)
    requires i < |bs| && bs[i].healthy
    ensures i in HealthyIndices(bs)
  {
    var init := bs[..|bs| - 1];
    if i < |bs| - 1 {
      HealthyIndicesComplete(init, i);
    }
    assert HealthyIndices(bs) == HealthyIndices(init) + (if bs[|bs| - 1].healthy then [|bs| - 1] else []);
  }

  /** The healthy list is empty exactly when no backend is healthy. */
  lemma HealthyIndicesEmpty(bs: seq<Backend>)
    ensures |HealthyIndices(bs)| == 0 <==> forall i :: 0 <= i < |bs| ==> !bs[i].healthy
  {
    if i :| 0 <= i < |bs| && bs[i].healthy {
      HealthyIndicesComplete(bs, i);
    }
  }

  /** The healthy list is in table order, so no backend appears in it twice. */
  predicate Increasing(h: seq<nat>) {
    forall m, n :: 0 <= m < n < |h| ==> h[m] < h[n]
  }

  lemma {:induction false} HealthyIndicesSorted(bs: seq<Backend>)
    ensures Increasing(HealthyIndices(bs))
  {
    if bs != [] {
      var init := bs[..|bs| - 1];
      HealthyIndicesSorted(init);
      var h0, h := HealthyIndices(init), HealthyIndices(bs);
      var tail: seq<nat> := if bs[|bs| - 1].healthy then [|bs| - 1] else [];
      assert h == h0 + tail;
      forall m, n | 0 <= m < n < |h| ensures h[m] < h[n] {
        if n < |h0| {
          assert h[m] == h0[m] && h[n] == h0[n];
        } else {
          assert h[m] == h0[m] && h0[m] < |init| && h[n] == tail[0] == |bs| - 1;
        }
      }
    }
  }

  /** The healthy list depends on the health flags alone, never on the counters. */
  lemma {:induction false} HealthyIndicesOnlyHealth(bs: seq<Backend>, bs': seq<Backend>)
    requires SameHealth(bs, bs')
    ensures HealthyIndices(bs) == HealthyIndices(bs')
  {
    if bs != [] {
      HealthyIndicesOnlyHealth(bs[..|bs| - 1], bs'[..|bs'| - 1]);
    }
  }

  /** Whether some backend is healthy, scanning the table in order. */
  function AnyHealthy(bs: seq<Backend>): (r: bool)
    ensures r <==> exists i :: 0 <= i < |bs| && bs[i].healthy
  {
    if bs == [] then false
    else bs[0].healthy || AnyHealthy(bs[1..])
  }

  /** The healthy list is empty exactly when no backend is healthy. */
  lemma AnyHealthyIffHealthyIndices(bs: seq<Backend>)
    ensures AnyHealthy(bs) <==> |HealthyIndices(bs)| > 0
  {
    if AnyHealthy(bs) {
      var i :| 0 <= i < |bs| && bs[i].healthy;
      HealthyIndicesComplete(bs, i);
    }
  }

  /** What one health probe came back with: a status code, or an error (timeout, refused connection). */
  datatype ProbeOutcome = ProbeResponse(status: int) | ProbeError

  /** The health flag a probe leaves behind: healthy exactly on status 200. */
  function ProbeHealthy(o: ProbeOutcome): (r: bool)
    ensures r <==> o == ProbeResponse(200)
  {
    match o
    case ProbeResponse(status) => status == 200
    case ProbeError => false
  }

  /** The table after one probe result was recorded for backend `i`: only its health flag changes. */
  function AfterProbe(bs: seq<Backend>, i: nat, o: ProbeOutcome): (bs': seq<Backend>)
    requires i < |bs|
    ensures SameIdentities(bs, bs')
    ensures bs'[i].healthy <==> o == ProbeResponse(200)
    ensures forall j :: 0 <= j < |bs| && j != i ==> bs'[j] == bs[j]
    ensures bs'[i].(healthy := bs[i].healthy) == bs[i]
  {
    bs[i := bs[i].(healthy := ProbeHealthy(o))]
  }

  /** A backend whose probe fails is no longer among the healthy ones; the others keep their place. */
  lemma FailedProbeExcludes(bs: seq<Backend>, i: nat, o: ProbeOutcome)
    requires i < |bs| && o != ProbeResponse(200)
    ensures i !in HealthyIndices(AfterProbe(bs, i, o))
    ensures forall j :: 0 <= j < |bs| && j != i ==>
              (j in HealthyIndices(AfterProbe(bs, i, o)) <==> j in HealthyIndices(bs))
  {
    var h, h' := HealthyIndices(bs), HealthyIndices(AfterProbe(bs, i, o));
    forall j | 0 <= j < |bs| && j != i
      ensures j in h' <==> j in h
    {
      if j in h {
        var m :| 0 <= m < |h| && h[m] == j;
        HealthyIndicesComplete(AfterProbe(bs, i, o), j);
      }
      if j in h' {
        var m :| 0 <= m < |h'| && h'[m] == j;
        HealthyIndicesComplete(bs, j);
      }
    }
  }
}
