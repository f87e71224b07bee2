/** The two read-only endpoints: the aggregate health report and the per-backend metrics. */
module Control {
  import opened Options
  import opened Registry
  import opened Selection

  datatype HealthStatus = Ok | Degraded

  /** The health endpoint: "ok" while at least one backend is healthy, "degraded" otherwise. */
  function Health(bs: seq<Backend>): (s: HealthStatus)
    ensures s == Ok <==> exists i :: 0 <= i < |bs| && bs[i].healthy
  {
    if AnyHealthy(bs) then Ok else Degraded
  }

  /** The health report is "ok" exactly when a request can be given a backend, under either policy. */
  lemma HealthOkIffSelectable(bs: seq<Backend>, policy: Policy, cursor: nat)
    ensures Health(bs) == Ok <==> Select(bs, policy, cursor).choice.Some?
  {
  }

  /** A JSON value of a metrics entry. */
  datatype Field = Text(text: string) | Flag(flag: bool) | Number(number: int)

  /** The keys every metrics entry carries. */
  const MetricKeys: set<string> := {"name", "url", "healthy", "active", "ok", "fail", "weight"}

  /** One backend's metrics entry. */
  function Snapshot(b: Backend): (m: map<string, Field>)
    ensures m.Keys == MetricKeys
  {
    map["name" := Text(b.name), "url" := Text(b.url), "healthy" := Flag(b.healthy),
        "active" := Number(b.active), "ok" := Number(b.ok), "fail" := Number(b.fail),
        "weight" := Number(b.weight)]
  }

  /** Reads a backend record back from a metrics entry; `None` when a key is missing or mistyped. */
  function FromSnapshot(m: map<string, Field>): Option<Backend> {
    if MetricKeys <= m.Keys
       && m["name"].Text? && m["url"].Text? && m["healthy"].Flag?
       && m["active"].Number? && m["ok"].Number? && m["fail"].Number? && m["weight"].Number?
    then Some(Backend(m["name"].text, m["url"].text, m["healthy"].flag, m["weight"].number,
                      m["active"].number, m["ok"].number, m["fail"].number))
    else None
  }

  /**
   * The metrics endpoint: one entry per backend, in table order, with exactly the
   * seven keys, from which the whole backend record can be read back.
   */
  function Metrics(bs: seq<Backend>): (r: seq<map<string, Field>>)
    ensures |r| == |bs|
    ensures forall i :: 0 <= i < |bs| ==> r[i].Keys == MetricKeys && FromSnapshot(r[i]) == Some(bs[i])
  {
    seq(|bs|, i requires 0 <= i < |bs| => Snapshot(bs[i]))
  }

  /** Entries of different records differ: the metrics view loses nothing. */
  lemma SnapshotInjective(b: Backend, b': Backend)
    requires Snapshot(b) == Snapshot(b')
    ensures b == b'
  {
    assert FromSnapshot(Snapshot(b)) == Some(b);
    assert FromSnapshot(Snapshot(b')) == Some(b');
  }
}
