/**
 * Header rewriting of the proxy: hop-by-hop headers are dropped in both directions,
 * the inbound list is collapsed into a plain dictionary, and the forwarding headers
 * X-Forwarded-For and X-Forwarded-Proto are set.
 */
module Headers {
  import opened Options

  /** A header as a (name, value) pair, the name spelled as it arrived. */
  type Header = (string, string)

  /** The hop-by-hop set of section 13.5.1 of RFC 2616, in lower case. */
  const HopByHop: set<string> :=
    {"connection", "keep-alive", "proxy-authenticate", "proxy-authorization",
     "te", "trailers", "transfer-encoding", "upgrade"}

  const ForwardedForKey: string := "X-Forwarded-For"
  const ForwardedProtoKey: string := "X-Forwarded-Proto"

  function LowerChar(c: char): char {
    if 'A' <= c <= 'Z' then (c as int + 32) as char else c
  }

  /** ASCII lower-casing of a header name. */
  function Lower(s: string): string {
    seq(|s|, i requires 0 <= i < |s| => LowerChar(s[i]))
  }

  /** A name is hop-by-hop when its lower-case form is in the set, whatever its spelling. */
  predicate IsHopByHop(name: string) {
    Lower(name) in HopByHop
  }

  /**
   * The header list with every hop-by-hop header removed, the others kept in order
   * (the comprehensions that build the forwarded and the relayed headers).
   */
  function FilterHeaders(hs: seq<Header>): seq<Header> {
    if hs == [] then []
    else (if IsHopByHop(hs[0].0) then [] else [hs[0]]) + FilterHeaders(hs[1..])
  }

  /** The filtered list holds exactly the headers of the original that are not hop-by-hop. */
  lemma {:induction false} FilterHeadersMembers(hs: seq<Header>)
    ensures |FilterHeaders(hs)| <= |hs|
    ensures forall p :: p in FilterHeaders(hs) <==> p in hs && !IsHopByHop(p.0)
  {
    if hs != [] {
      FilterHeadersMembers(hs[1..]);
      assert hs == [hs[0]] + hs[1..];
    }
  }

  /** Filtering distributes over concatenation, so the relative order of kept headers is unchanged. */
  lemma {:induction false} FilterHeadersConcat(a: seq<Header>, b: seq<Header>)
    ensures FilterHeaders(a + b) == FilterHeaders(a) + FilterHeaders(b)
  {
    if a == [] {
      assert a + b == b;
    } else {
      assert (a + b)[1..] == a[1..] + b;
      FilterHeadersConcat(a[1..], b);
    }
  }

  /** A list without hop-by-hop headers is relayed unchanged. */
  lemma {:induction false} FilterHeadersKeepsClean(hs: seq<Header>)
    requires forall i :: 0 <= i < |hs| ==> !IsHopByHop(hs[i].0)
    ensures FilterHeaders(hs) == hs
  {
    if hs != [] {
      FilterHeadersKeepsClean(hs[1..]);
    }
  }

  /** Filtering twice is filtering once. */
  lemma FilterHeadersIdempotent(hs: seq<Header>)
    ensures FilterHeaders(FilterHeaders(hs)) == FilterHeaders(hs)
  {
    var r := FilterHeaders(hs);
    FilterHeadersMembers(hs);
    forall i | 0 <= i < |r| ensures !IsHopByHop(r[i].0) {
      assert r[i] in r;
    }
    FilterHeadersKeepsClean(r);
  }

  /** The value of the last header named exactly `k`, if any: what a dictionary built from `hs` holds. */
  function Lookup(hs: seq<Header>, k: string): Option<string> {
    if hs == [] then None
    else if hs[|hs| - 1].0 == k then Some(hs[|hs| - 1].1)
    else Lookup(hs[..|hs| - 1], k)
  }

  /** A lookup finds nothing exactly when no header has that name, and otherwise the value of the last one. */
  lemma {:induction false} LookupSpec(hs: seq<Header>, k: string)
    ensures Lookup(hs, k).None? <==> forall i :: 0 <= i < |hs| ==> hs[i].0 != k
    ensures Lookup(hs, k).Some? ==>
              exists i :: 0 <= i < |hs| && hs[i] == (k, Lookup(hs, k).value)
                          && forall j :: i < j < |hs| ==> hs[j].0 != k
  {
    if hs != [] && hs[|hs| - 1].0 != k {
      var init := hs[..|hs| - 1];
      LookupSpec(init, k);
      if Lookup(init, k).Some? {
        var i :| 0 <= i < |init| && init[i] == (k, Lookup(init, k).value)
                 && forall j :: i < j < |init| ==> init[j].0 != k;
        assert hs[i] == init[i];
      }
    }
  }

  /**
   * The dictionary built from a header list: names keep their spelling, and of
   * several headers with the same name the last one wins.
   */
  function ToDict(hs: seq<Header>): map<string, string> {
    if hs == [] then map[]
    else ToDict(hs[..|hs| - 1])[hs[|hs| - 1].0 := hs[|hs| - 1].1]
  }

  /** The dictionary holds a name exactly when the list does, with the value of its last header. */
  lemma {:induction false} ToDictLookup(hs: seq<Header>, k: string)
    ensures k in ToDict(hs) <==> Lookup(hs, k).Some?
    ensures k in ToDict(hs) ==> ToDict(hs)[k] == Lookup(hs, k).value
  {
    if hs != [] {
      ToDictLookup(hs[..|hs| - 1], k);
    }
  }

  /** Appending a header makes it the one a lookup of its name finds. */
  lemma LookupAppend(hs: seq<Header>, p: Header, k: string)
    ensures Lookup(hs + [p], k) == if p.0 == k then Some(p.1) else Lookup(hs, k)
  {
    assert (hs + [p])[..|hs|] == hs;
  }

  /** Looking a name up in the filtered list finds what the full list holds, unless the name is hop-by-hop. */
  lemma {:induction false} LookupFiltered(hs: seq<Header>, k: string)
    ensures Lookup(FilterHeaders(hs), k) == if IsHopByHop(k) then None else Lookup(hs, k)
  {
    if hs != [] {
      var init, last := hs[..|hs| - 1], hs[|hs| - 1];
      assert hs == init + [last];
      FilterHeadersConcat(init, [last]);
      LookupFiltered(init, k);
      LookupAppend(init, last, k);
      assert FilterHeaders([last]) == if IsHopByHop(last.0) then [] else [last];
      if !IsHopByHop(last.0) {
        LookupAppend(FilterHeaders(init), last, k);
      } else {
        assert FilterHeaders(hs) == FilterHeaders(init) + [] == FilterHeaders(init);
        assert last.0 == k ==> IsHopByHop(k);
      }
    }
  }

  /** Neither forwarding header is hop-by-hop in any spelling. */
  lemma ForwardingKeysNotHopByHop()
    ensures !IsHopByHop(ForwardedForKey) && !IsHopByHop(ForwardedProtoKey)
  {
    var f, p := Lower(ForwardedForKey), Lower(ForwardedProtoKey);
    assert |f| == 15 && f[0] == 'x';
    assert |p| == 17 && p[0] == 'x';
  }

  /** The new X-Forwarded-For value: the client address appended to a non-empty prior value, or alone. */
  function ForwardedFor(prior: Option<string>, clientIp: string): (r: string)
    ensures |clientIp| <= |r| && r[|r| - |clientIp|..] == clientIp
    ensures prior.Some? && prior.value != "" ==>
              && prior.value <= r && |r| == |prior.value| + 2 + |clientIp|
              && r[|prior.value|..|prior.value| + 2] == ", "
    ensures (prior.None? || prior.value == "") ==> r == clientIp
  {
    if prior.Some? && prior.value != "" then prior.value + ", " + clientIp else clientIp
  }

  /** The value a dictionary holds for `k`, if any. */
  function Get(m: map<string, string>, k: string): Option<string> {
    if k in m then Some(m[k]) else None
  }

  /**
   * The headers sent upstream: the inbound list without hop-by-hop headers, collapsed
   * into a dictionary, with X-Forwarded-For extended and X-Forwarded-Proto set to the
   * scheme. The prior X-Forwarded-For is looked up by its exact spelling.
   */
  function ForwardRequestHeaders(hs: seq<Header>, clientIp: string, scheme: string): map<string, string> {
    var d := ToDict(FilterHeaders(hs));
    d[ForwardedForKey := ForwardedFor(Get(d, ForwardedForKey), clientIp)][ForwardedProtoKey := scheme]
  }

  /** A name is in the dictionary built from the filtered list exactly when it is not hop-by-hop and arrived, with its last value. */
  lemma FilteredDict(hs: seq<Header>, k: string)
    ensures k in ToDict(FilterHeaders(hs)) <==> !IsHopByHop(k) && Lookup(hs, k).Some?
    ensures k in ToDict(FilterHeaders(hs)) ==> ToDict(FilterHeaders(hs))[k] == Lookup(hs, k).value
  {
    LookupFiltered(hs, k);
    ToDictLookup(FilterHeaders(hs), k);
  }

  /**
   * What the upstream receives: no hop-by-hop name in any spelling; every other inbound
   * name with its last value; X-Forwarded-For extended from the prior value under that
   * exact name; X-Forwarded-Proto equal to the scheme.
   */
  lemma ForwardRequestHeadersSpec(hs: seq<Header>, clientIp: string, scheme: string)
    ensures var m := ForwardRequestHeaders(hs, clientIp, scheme);
      && (forall k :: k in m ==> !IsHopByHop(k))
      && (forall k :: k != ForwardedForKey && k != ForwardedProtoKey ==>
            (k in m <==> !IsHopByHop(k) && Lookup(hs, k).Some?))
      && (forall k :: k != ForwardedForKey && k != ForwardedProtoKey && k in m ==>
            m[k] == Lookup(hs, k).value)
      && ForwardedProtoKey in m && m[ForwardedProtoKey] == scheme
      && ForwardedForKey in m && m[ForwardedForKey] == ForwardedFor(Lookup(hs, ForwardedForKey), clientIp)
  {
    var m := ForwardRequestHeaders(hs, clientIp, scheme);
    ForwardingKeysNotHopByHop();
    FilteredDict(hs, ForwardedForKey);
    forall k
      ensures k in m ==> !IsHopByHop(k)
      ensures k != ForwardedForKey && k != ForwardedProtoKey ==>
                (k in m <==> !IsHopByHop(k) && Lookup(hs, k).Some?)
      ensures k != ForwardedForKey && k != ForwardedProtoKey && k in m ==> m[k] == Lookup(hs, k).value
    {
      FilteredDict(hs, k);
    }
  }

  /**
   * The prior X-Forwarded-For is found only under its exact spelling: a client that
   * sends it in lower case gets a second, separate key holding only its own address.
   */
  lemma LowerCaseForwardedForNotExtended(prior: string, clientIp: string, scheme: string)
    ensures var m := ForwardRequestHeaders([("x-forwarded-for", prior)], clientIp, scheme);
      && m[ForwardedForKey] == clientIp
      && "x-forwarded-for" in m && m["x-forwarded-for"] == prior
  {
    var hs := [("x-forwarded-for", prior)];
    var l := Lower("x-forwarded-for");
    assert |l| == 15 && l[0] == 'x';
    assert !IsHopByHop("x-forwarded-for");
    assert FilterHeaders(hs) == hs;
    assert "x-forwarded-for" != ForwardedForKey by { assert ForwardedForKey[0] == 'X'; }
    assert "x-forwarded-for" != ForwardedProtoKey by { assert ForwardedProtoKey[0] == 'X'; }
    assert Get(ToDict(hs), ForwardedForKey) == None;
  }
}
