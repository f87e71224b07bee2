/**
 * Backend selection: round-robin over the healthy backends with one shared cursor,
 * and cookie stickiness that falls back to round-robin.
 */
module Selection {
  import opened Options
  import opened Registry

  /** One selection: the chosen backend's index (if any) and the cursor afterwards. */
  datatype Pick = Pick(choice: Option<nat>, cursor: nat)

  /**
   * Round-robin: the healthy backend at position `cursor mod count` of the healthy
   * list, after which the cursor moves on by one; nothing, and no move, when no
   * backend is healthy.
   */
  function PickRR(bs: seq<Backend>, cursor: nat): (p: Pick)
    ensures p.choice.None? <==> forall i :: 0 <= i < |bs| ==> !bs[i].healthy
    ensures p.choice.None? ==> p.cursor == cursor
    ensures p.choice.Some? ==>
              && p.choice.value < |bs| && bs[p.choice.value].healthy
              && p.cursor == cursor + 1
  {
    HealthyIndicesEmpty(bs);
    var healthy := HealthyIndices(bs);
    if |healthy| == 0 then Pick(None, cursor)
    else Pick(Some(healthy[cursor % |healthy|]), cursor + 1)
  }

  /** The first backend of the list `h` (indices into `bs`) whose name is `name`. */
  function FirstNamed(bs: seq<Backend>, h: seq<nat>, name: string): Option<nat>
    requires forall m :: 0 <= m < |h| ==> h[m] < |bs|
  {
    if h == [] then None
    else if bs[h[0]].name == name then Some(h[0])
    else FirstNamed(bs, h[1..], name)
  }

  lemma {:induction false} FirstNamedSpec(bs: seq<Backend>, h: seq<nat>, name: string)
    requires forall m :: 0 <= m < |h| ==> h[m] < |bs|
    ensures FirstNamed(bs, h, name).None? <==> forall m :: 0 <= m < |h| ==> bs[h[m]].name != name
    ensures FirstNamed(bs, h, name).Some? ==>
              exists m0 :: 0 <= m0 < |h| && h[m0] == FirstNamed(bs, h, name).value
                           && bs[h[m0]].name == name
                           && forall m :: 0 <= m < m0 ==> bs[h[m]].name != name
  {
    if h != [] && bs[h[0]].name != name {
      FirstNamedSpec(bs, h[1..], name);
      if FirstNamed(bs, h, name).Some? {
        var m0 :| 0 <= m0 < |h[1..]| && h[1..][m0] == FirstNamed(bs, h, name).value
                  && bs[h[1..][m0]].name == name
                  && forall m :: 0 <= m < m0 ==> bs[h[1..][m]].name != name;
        assert h[m0 + 1] == h[1..][m0];
        forall m | 0 <= m < m0 + 1 ensures bs[h[m]].name != name {
          if m > 0 { assert h[m] == h[1..][m - 1]; }
        }
      }
    }
  }

  /** No name match in the healthy list means no healthy backend has that name. */
  lemma FirstNamedHealthyNone(bs: seq<Backend>, name: string)
    requires FirstNamed(bs, HealthyIndices(bs), name).None?
    ensures forall i :: 0 <= i < |bs| && bs[i].healthy ==> bs[i].name != name
  {
    var h := HealthyIndices(bs);
    FirstNamedSpec(bs, h, name);
    forall i | 0 <= i < |bs| && bs[i].healthy ensures bs[i].name != name {
      HealthyIndicesComplete(bs, i);
      var m :| 0 <= m < |h| && h[m] == i;
    }
  }

  /** A name match in the healthy list is a healthy backend of that name, and no earlier healthy one has it. */
  lemma FirstNamedHealthySome(bs: seq<Backend>, name: string)
    requires FirstNamed(bs, HealthyIndices(bs), name).Some?
    ensures var i0 := FirstNamed(bs, HealthyIndices(bs), name).value;
      && i0 < |bs| && bs[i0].healthy && bs[i0].name == name
      && forall i :: 0 <= i < i0 && bs[i].healthy ==> bs[i].name != name
  {
    var h := HealthyIndices(bs);
    FirstNamedSpec(bs, h, name);
    var m0 :| 0 <= m0 < |h| && h[m0] == FirstNamed(bs, h, name).value
              && bs[h[m0]].name == name
              && forall m :: 0 <= m < m0 ==> bs[h[m]].name != name;
    HealthyIndicesSorted(bs);
    forall i | 0 <= i < h[m0] && bs[i].healthy ensures bs[i].name != name {
      HealthyIndicesComplete(bs, i);
      var m :| 0 <= m < |h| && h[m] == i;
    }
  }

  /** The first name match in the healthy list is the first healthy backend of that name in the table. */
  lemma FirstNamedHealthy(bs: seq<Backend>, name: string)
    ensures var r := FirstNamed(bs, HealthyIndices(bs), name);
      && (r.None? <==> forall i :: 0 <= i < |bs| && bs[i].healthy ==> bs[i].name != name)
      && (r.Some? ==> r.value < |bs| && bs[r.value].healthy && bs[r.value].name == name)
      && (r.Some? ==> forall i :: 0 <= i < r.value && bs[i].healthy ==> bs[i].name != name)
  {
    if FirstNamed(bs, HealthyIndices(bs), name).None? {
      FirstNamedHealthyNone(bs, name);
    } else {
      FirstNamedHealthySome(bs, name);
    }
  }

  /** The healthy backend a sticky cookie names: the first healthy one with that name, if any. */
  function StickyMatch(bs: seq<Backend>, name: string): (r: Option<nat>)
    ensures r.None? <==> forall i :: 0 <= i < |bs| && bs[i].healthy ==> bs[i].name != name
    ensures r.Some? ==> r.value < |bs| && bs[r.value].healthy && bs[r.value].name == name
    ensures r.Some? ==> forall i :: 0 <= i < r.value && bs[i].healthy ==> bs[i].name != name
  {
    FirstNamedHealthy(bs, name);
    FirstNamed(bs, HealthyIndices(bs), name)
  }

  /** The search of the sticky selection, written as the loop over the healthy list that it is. */
  method FindSticky(bs: seq<Backend>, name: string) returns (r: Option<nat>)
    ensures r == StickyMatch(bs, name)
  {
    var healthy := HealthyIndices(bs);
    var j := 0;
    while j < |healthy|
      invariant 0 <= j <= |healthy|
      invariant FirstNamed(bs, healthy[j..], name) == FirstNamed(bs, healthy, name)
    {
      if bs[healthy[j]].name == name {
        return Some(healthy[j]);
      }
      assert healthy[j..][1..] == healthy[j + 1..];
      j := j + 1;
    }
    return None;
  }

  /** Whether a presented cookie value counts: Python truthiness, so neither `None` nor empty. */
  predicate Presented(cookie: Option<string>) {
    cookie.Some? && cookie.value != ""
  }

  /**
   * Sticky selection: nothing when no backend is healthy; the healthy backend the
   * cookie names, without moving the cursor; otherwise round-robin.
   */
  function PickSticky(bs: seq<Backend>, cookie: Option<string>, cursor: nat): (p: Pick)
    ensures p.choice.None? <==> forall i :: 0 <= i < |bs| ==> !bs[i].healthy
    ensures p.choice.None? ==> p.cursor == cursor
    ensures p.choice.Some? ==> p.choice.value < |bs| && bs[p.choice.value].healthy
  {
    HealthyIndicesEmpty(bs);
    var healthy := HealthyIndices(bs);
    if |healthy| == 0 then Pick(None, cursor)
    else if Presented(cookie) && StickyMatch(bs, cookie.value).Some? then
      Pick(StickyMatch(bs, cookie.value), cursor)
    else PickRR(bs, cursor)
  }

  /** A cookie naming a healthy backend selects that backend and leaves the cursor alone. */
  lemma StickyHonoursCookie(bs: seq<Backend>, name: string, cursor: nat, i: nat)
    requires name != "" && i < |bs| && bs[i].healthy && bs[i].name == name
    ensures var p := PickSticky(bs, Some(name), cursor);
      p.cursor == cursor && p.choice.Some? && bs[p.choice.value].name == name
      && p.choice.value <= i
  {
    HealthyIndicesComplete(bs, i);
  }

  /**
   * Without a usable cookie (absent, empty, or naming no healthy backend) sticky
   * selection is round-robin, including the empty result when nothing is healthy.
   */
  lemma StickyFallsBackToRR(bs: seq<Backend>, cookie: Option<string>, cursor: nat)
    requires !Presented(cookie) || StickyMatch(bs, cookie.value).None?
    ensures PickSticky(bs, cookie, cursor) == PickRR(bs, cursor)
  {
  }

  /** The selection mode of a request: round-robin, or sticky with the presented cookie value. */
  datatype Policy = RoundRobin | Sticky(cookie: Option<string>)

  function Select(bs: seq<Backend>, policy: Policy, cursor: nat): (p: Pick)
    ensures p.choice.None? <==> forall i :: 0 <= i < |bs| ==> !bs[i].healthy
    ensures p.choice.None? ==> p.cursor == cursor
    ensures p.choice.Some? ==> p.choice.value < |bs| && bs[p.choice.value].healthy
  {
    match policy
    case RoundRobin => PickRR(bs, cursor)
    case Sticky(cookie) => PickSticky(bs, cookie, cursor)
  }

  /** `n` consecutive selections on an unchanged table: the choices in order and the final cursor. */
  function Repeat(bs: seq<Backend>, policy: Policy, cursor: nat, n: nat): (seq<Option<nat>>, nat)
    decreases n
  {
    if n == 0 then ([], cursor)
    else
      var p := Select(bs, policy, cursor);
      var rest := Repeat(bs, policy, p.cursor, n - 1);
      ([p.choice] + rest.0, rest.1)
  }

  /** A round-robin run starts with the pick at the current cursor and continues one position on. */
  lemma RepeatRoundRobinHead(bs: seq<Backend>, cursor: nat, n: nat)
    requires n > 0 && |HealthyIndices(bs)| > 0
    ensures var h := HealthyIndices(bs);
      Repeat(bs, RoundRobin, cursor, n)
        == ([Some(h[cursor % |h|])] + Repeat(bs, RoundRobin, cursor + 1, n - 1).0, cursor + n)
    decreases n
  {
    if n > 1 {
      RepeatRoundRobinHead(bs, cursor + 1, n - 1);
    }
  }

  /** Consecutive round-robin picks walk the healthy list cyclically, one step per call. */
  lemma {:induction false} RoundRobinRotates(bs: seq<Backend>, cursor: nat, n: nat)
    requires |HealthyIndices(bs)| > 0
    ensures var r, h := Repeat(bs, RoundRobin, cursor, n), HealthyIndices(bs);
      && |r.0| == n && r.1 == cursor + n
      && forall t :: 0 <= t < n ==> r.0[t] == Some(h[(cursor + t) % |h|])
    decreases n
  {
    if n > 0 {
      RoundRobinRotates(bs, cursor + 1, n - 1);
      var r, h := Repeat(bs, RoundRobin, cursor, n), HealthyIndices(bs);
      var rest := Repeat(bs, RoundRobin, cursor + 1, n - 1);
      forall t | 0 <= t < n ensures r.0[t] == Some(h[(cursor + t) % |h|]) {
        if t > 0 {
          assert r.0[t] == rest.0[t - 1];
          assert cursor + 1 + (t - 1) == cursor + t;
        }
      }
    }
  }

  /** How many of the `n` consecutive integers starting at `c` leave remainder `j` modulo `k`. */
  function ResidueCount(c: nat, n: nat, k: nat, j: nat): nat
    requires k > 0
    decreases n
  {
    if n == 0 then 0
    else (if c % k == j then 1 else 0) + ResidueCount(c + 1, n - 1, k, j)
  }

  lemma ResidueCountStep(c: nat, n: nat, k: nat, j: nat)
    requires 0 < n && 0 < k
    ensures ResidueCount(c, n, k, j) == (if c % k == j then 1 else 0) + ResidueCount(c + 1, n - 1, k, j)
  {
  }

  lemma {:induction false} ResidueSplit(c: nat, a: nat, b: nat, k: nat, j: nat)
    requires k > 0
    ensures ResidueCount(c, a + b, k, j) == ResidueCount(c, a, k, j) + ResidueCount(c + a, b, k, j)
    decreases a
  {
    if a > 0 {
      ResidueSplit(c + 1, a - 1, b, k, j);
      assert c + 1 + (a - 1) == c + a;
    }
  }

  lemma {:induction false} ResidueFromZero(m: nat, k: nat, j: nat)
    requires 0 < k && m <= k
    ensures ResidueCount(0, m, k, j) == if j < m then 1 else 0
  {
    if m > 0 {
      ResidueFromZero(m - 1, k, j);
      ResidueSplit(0, m - 1, 1, k, j);
      assert (m - 1) % k == m - 1;
    }
  }

  lemma {:induction false} MulAtLeast(a: int, k: int)
    requires 1 <= a && 0 < k
    ensures a * k >= k
    decreases a
  {
    if a > 1 {
      MulAtLeast(a - 1, k);
      assert a * k == (a - 1) * k + k;
    }
  }

  /** Quotient and remainder are determined by any representation `x == q * k + r` with `0 <= r < k`. */
  lemma DivModUnique(x: int, k: int, q: int, r: int)
    requires 0 < k && 0 <= r < k && x == q * k + r
    ensures x / k == q && x % k == r
  {
    var q', r' := x / k, x % k;
    assert x == q' * k + r';
    assert (q - q') * k == r' - r;
    if q > q' {
      MulAtLeast(q - q', k);
    } else if q < q' {
      MulAtLeast(q' - q, k);
    }
  }

  /** Every window of `k` consecutive integers holds each remainder below `k` exactly once. */
  lemma {:induction false} ResidueWindow(c: nat, k: nat, j: nat)
    requires 0 < k && j < k
    ensures ResidueCount(c, k, k, j) == 1
    decreases c
  {
    if c == 0 {
      ResidueFromZero(k, k, j);
    } else {
      ResidueWindow(c - 1, k, j);
      ResidueSplit(c - 1, 1, k - 1, k, j);
      ResidueSplit(c, k - 1, 1, k, j);
      DivModUnique(c - 1 + k, k, (c - 1) / k + 1, (c - 1) % k);
    }
  }

  lemma {:induction false} ResidueQuotient(c: nat, q: nat, r: nat, k: nat, j: nat)
    requires 0 < k && j < k && r < k
    ensures q <= ResidueCount(c, q * k + r, k, j) <= q + (if r == 0 then 0 else 1)
    decreases q
  {
    if q == 0 {
      ResidueWindow(c, k, j);
      ResidueSplit(c, r, k - r, k, j);
    } else {
      var m := (q - 1) * k + r;
      assert q * k + r == k + m;
      ResidueWindow(c, k, j);
      ResidueSplit(c, k, m, k, j);
      ResidueQuotient(c + k, q - 1, r, k, j);
    }
  }

  /** With `n == q * k + r`, ceil(n/k) is `q` when `k` divides `n` and `q + 1` otherwise. */
  lemma CeilQuotient(n: nat, k: nat, q: nat, r: nat)
    requires 0 < k && r < k && n == q * k + r
    ensures (n + k - 1) / k == if r == 0 then q else q + 1
  {
    if r == 0 {
      DivModUnique(n + k - 1, k, q, k - 1);
    } else {
      DivModUnique(n + k - 1, k, q + 1, r - 1);
    }
  }

  /** Among `n` consecutive cursor values, each remainder modulo `k` occurs floor(n/k) or ceil(n/k) times. */
  lemma ResidueBounds(c: nat, n: nat, k: nat, j: nat)
    requires 0 < k && j < k
    ensures n / k <= ResidueCount(c, n, k, j) <= (n + k - 1) / k
  {
    var q, r := n / k, n % k;
    ResidueQuotient(c, q, r, k, j);
    CeilQuotient(n, k, q, r);
  }

  /** In a round-robin run, the healthy backend at position `j` is chosen once per matching cursor value. */
  lemma {:induction false} RoundRobinCount(bs: seq<Backend>, cursor: nat, n: nat, j: nat)
    requires 0 <= j < |HealthyIndices(bs)|
    ensures var h := HealthyIndices(bs);
      multiset(Repeat(bs, RoundRobin, cursor, n).0)[Some(h[j])] == ResidueCount(cursor, n, |h|, j)
    decreases n
  {
    var h := HealthyIndices(bs);
    if n == 0 {
      assert Repeat(bs, RoundRobin, cursor, n).0 == [];
    } else {
      RoundRobinCount(bs, cursor + 1, n - 1, j);
      RepeatRoundRobinHead(bs, cursor, n);
      var first := Some(h[cursor % |h|]);
      var rest := Repeat(bs, RoundRobin, cursor + 1, n - 1).0;
      var hit := if cursor % |h| == j then 1 else 0;
      var r := Repeat(bs, RoundRobin, cursor, n).0;
      assert r == [first] + rest;
      assert multiset(r) == multiset([first]) + multiset(rest);
      assert multiset([first])[Some(h[j])] == hit by {
        HealthyIndicesSorted(bs);
      }
      assert multiset(r)[Some(h[j])] == hit + multiset(rest)[Some(h[j])];
      ResidueCountStep(cursor, n, |h|, j);
    }
  }

  /**
   * Fairness of round-robin: over `n` consecutive calls with `k` healthy backends,
   * each healthy backend is chosen at least floor(n/k) and at most ceil(n/k) times.
   */
  lemma RoundRobinFair(bs: seq<Backend>, cursor: nat, n: nat, i: nat)
    requires i < |bs| && bs[i].healthy
    ensures var k := |HealthyIndices(bs)|;
      k > 0 && n / k <= multiset(Repeat(bs, RoundRobin, cursor, n).0)[Some(i)] <= (n + k - 1) / k
  {
    var h := HealthyIndices(bs);
    HealthyIndicesComplete(bs, i);
    var j :| 0 <= j < |h| && h[j] == i;
    RoundRobinCount(bs, cursor, n, j);
    ResidueBounds(cursor, n, |h|, j);
  }

  /** Any number of requests carrying a cookie that names a healthy backend all go to that backend, and the cursor never moves. */
  lemma {:induction false} StickyRepeatsChoice(bs: seq<Backend>, name: string, cursor: nat, n: nat)
    requires name != "" && StickyMatch(bs, name).Some?
    ensures var r := Repeat(bs, Sticky(Some(name)), cursor, n);
      && r.1 == cursor && |r.0| == n
      && forall t :: 0 <= t < n ==> r.0[t] == StickyMatch(bs, name)
  {
    if n > 0 {
      StickyRepeatsChoice(bs, name, cursor, n - 1);
      HealthyIndicesComplete(bs, StickyMatch(bs, name).value);
    }
  }
}
