/**
 * The gRPC resolver for "consul://" targets: the endpoint "addr/service"
 * names the discovery agent and the service, and each resolution round
 * queries the healthy instances, reports the ones not seen before to the
 * client connection, and keeps the latest non-empty key-to-node map.
 */
module ConsulResolver {
  import opened Wrappers
  import opened Text
  import opened ConsulApi
  import opened Balancer

  /** The URL scheme the builder registers for. */
  const Scheme: string := "consul"

  /** The agent address and the service name carried by a target endpoint. */
  datatype Target = Target(addr: string, service: string)

  /** The endpoint split on '/': the first two pieces when there are two or more, else the whole endpoint and no service. */
  function ParseTarget(endpoint: string): (t: Target)
    ensures '/' !in endpoint ==> t == Target(endpoint, "")
    ensures '/' in endpoint ==> '/' !in t.addr && '/' !in t.service
  {
    SplitPieces(endpoint, '/');
    var ss := Split(endpoint, '/');
    if |ss| >= 2 then Target(ss[0], ss[1]) else Target(endpoint, "")
  }

  /** With a '/', the address is everything before the first '/', and the service the first piece of the rest. */
  lemma ParseTargetFields(endpoint: string)
    requires '/' in endpoint
    ensures var i := IndexOf(endpoint, '/');
      ParseTarget(endpoint) == Target(endpoint[..i], Split(endpoint[i + 1..], '/')[0])
  {
    SplitFirst(endpoint, '/');
  }

  /**
   * "addr/service" is a prefix of the endpoint that ends at the end or at a
   * '/', so an endpoint with one '/' parses to its two halves exactly.
   */
  lemma ParseTargetPrefix(endpoint: string)
    requires '/' in endpoint
    ensures var t := ParseTarget(endpoint); var n := |t.addr| + 1 + |t.service|;
      && t.addr + "/" + t.service <= endpoint
      && (n == |endpoint| || endpoint[n] == '/')
  {
    var i := IndexOf(endpoint, '/');
    var head, rest := endpoint[..i], endpoint[i + 1..];
    ParseTargetFields(endpoint);
    var service := Split(rest, '/')[0];
    SplitHead(rest, '/');
    var n := i + 1 + |service|;
    assert endpoint[..n] == head + "/" + rest[..|service|];
    assert endpoint[..n] <= endpoint;
    assert n == |endpoint| || endpoint[n] == rest[|service|];
  }

  /** The key-to-node map of a query result, built by the first loop of resolveOnce. */
  method CollectNodes(entries: seq<ServiceEntry>) returns (nodes: map<string, Node>)
    ensures nodes == NodeMap(entries)
  {
    ghost var pairs := Keyed(entries);
    nodes := map[];
    for i := 0 to |entries|
      invariant nodes == Insertions(pairs[..i])
    {
      assert pairs[..i + 1][..i] == pairs[..i];
      nodes := nodes[ServiceKey(entries[i]) := entries[i].node];
    }
    assert pairs[..|entries|] == pairs;
  }

  /** The keys a list of addresses covers. */
  function AddrKeys(addresses: seq<Address>): set<string>
  {
    set a | a in addresses :: a.addr
  }

  /**
   * The addresses reported to the client connection: one per key of the new
   * map absent from the known map, each carrying its node, none twice.
   */
  ghost predicate IsAdditions(known: map<string, Node>, nodes: map<string, Node>, added: seq<Address>)
  {
    && AddrKeys(added) == nodes.Keys - known.Keys
    && (forall k :: 0 <= k < |added| ==>
          added[k].addr in nodes && added[k].metadata == NodeMetadata(nodes[added[k].addr]))
    && (forall i, j :: 0 <= i < j < |added| ==> added[i].addr != added[j].addr)
  }

  lemma {:induction false} DistinctKeysCount(added: seq<Address>)
    requires forall i, j :: 0 <= i < j < |added| ==> added[i].addr != added[j].addr
    ensures |AddrKeys(added)| == |added|
  {
    if added != [] {
      var n := |added| - 1;
      var prefix := added[..n];
      DistinctKeysCount(prefix);
      assert added == prefix + [added[n]];
      assert AddrKeys(added) == AddrKeys(prefix) + {added[n].addr};
      assert added[n].addr !in AddrKeys(prefix) by {
        forall a | a in prefix ensures a.addr != added[n].addr {
          var k :| 0 <= k < n && prefix[k] == a;
        }
      }
    }
  }

  /**
   * The report names exactly the new keys: there are as many addresses as
   * new keys, and it is empty exactly when every key was known already.
   */
  lemma AdditionsComplete(known: map<string, Node>, nodes: map<string, Node>, added: seq<Address>)
    requires IsAdditions(known, nodes, added)
    ensures |added| == |nodes.Keys - known.Keys|
    ensures added == [] <==> nodes.Keys - known.Keys == {}
  {
    DistinctKeysCount(added);
    if added == [] {
      assert AddrKeys(added) == {};
    }
  }

  /** The second loop of resolveOnce: the new map walked in an arbitrary order, as Go walks its maps. */
  method NewAddresses(known: map<string, Node>, nodes: map<string, Node>) returns (added: seq<Address>)
    ensures IsAdditions(known, nodes, added)
  {
    added := [];
    var rest := nodes.Keys;
    while rest != {}
      invariant rest <= nodes.Keys
      invariant AddrKeys(added) == (nodes.Keys - rest) - known.Keys
      invariant forall k :: 0 <= k < |added| ==>
        added[k].addr in nodes && added[k].addr !in rest && added[k].metadata == NodeMetadata(nodes[added[k].addr])
      invariant forall i, j :: 0 <= i < j < |added| ==> added[i].addr != added[j].addr
      decreases rest
    {
      var key :| key in rest;
      rest := rest - {key};
      if key !in known {
        var a := Address(key, NodeMetadata(nodes[key]));
        assert AddrKeys(added + [a]) == AddrKeys(added) + {key} by {
          assert (added + [a])[|added|] == a;
          forall b | b in added + [a] ensures b in added || b == a {
            var k :| 0 <= k < |added| + 1 && (added + [a])[k] == b;
            if k < |added| { assert added[k] == b; }
          }
        }
        added := added + [a];
      }
    }
  }

  class Resolver {
    var consulAddress: string
    var service: string
    var addrs: map<string, Node>
    var lastIndex: nat
    var done: bool

    constructor (consulAddress: string, service: string)
      ensures this.consulAddress == consulAddress && this.service == service
      ensures addrs == map[] && lastIndex == 0 && !done
    {
      this.consulAddress := consulAddress;
      this.service := service;
      addrs := map[];
      lastIndex := 0;
      done := false;
    }

    /**
     * consulResolverBuilder.Build: parses the endpoint, and returns either the
     * error the client constructor reported (newClientErr) or a started
     * resolver for that agent and service with no known addresses.
     */
    static method Build(endpoint: string, newClientErr: Option<string>) returns (r: Resolver?, err: Option<string>)
      ensures newClientErr.Some? ==> r == null && err == newClientErr
      ensures newClientErr.None? ==>
        && r != null && fresh(r) && err.None?
        && r.consulAddress == ParseTarget(endpoint).addr
        && r.service == ParseTarget(endpoint).service
        && r.addrs == map[] && r.lastIndex == 0 && !r.done
    {
      var t := ParseTarget(endpoint);
      if newClientErr.Some? {
        return null, newClientErr;
      }
      r := new Resolver(t.addr, t.service);
      err := None;
    }

    /**
     * consulResolver.resolveOnce, given the outcome of its health query. An
     * error changes nothing and reports nothing. Otherwise the blocking index
     * is stored, the new keys are reported (when there are any), and the
     * known map is replaced by the result's map unless that map is empty.
     * Instances that disappear are never reported.
     */
    method ResolveOnce(result: QueryResult) returns (reported: Option<seq<Address>>)
      modifies this`addrs, this`lastIndex
      ensures result.QueryErr? ==> reported.None? && addrs == old(addrs) && lastIndex == old(lastIndex)
      ensures result.QueryOk? ==>
        var nodes := NodeMap(result.entries);
        && lastIndex == result.lastIndex
        && addrs == (if |nodes| != 0 then nodes else old(addrs))
        && (reported.Some? <==> nodes.Keys - old(addrs).Keys != {})
        && (reported.Some? ==> IsAdditions(old(addrs), nodes, reported.value) && reported.value != [])
    {
      if result.QueryErr? {
        return None;
      }
      lastIndex := result.lastIndex;
      var nodes := CollectNodes(result.entries);
      var added := NewAddresses(addrs, nodes);
      AdditionsComplete(addrs, nodes, added);
      reported := None;
      if |added| > 0 {
        reported := Some(added);
      }
      if |nodes| != 0 {
        addrs := nodes;
      }
    }

    /** consulResolver.ResolveNow: one resolution round. */
    method ResolveNow(result: QueryResult) returns (reported: Option<seq<Address>>)
      modifies this`addrs, this`lastIndex
      ensures result.QueryErr? ==> reported.None? && addrs == old(addrs) && lastIndex == old(lastIndex)
      ensures result.QueryOk? ==>
        var nodes := NodeMap(result.entries);
        && lastIndex == result.lastIndex
        && addrs == (if |nodes| != 0 then nodes else old(addrs))
        && (reported.Some? <==> nodes.Keys - old(addrs).Keys != {})
        && (reported.Some? ==> IsAdditions(old(addrs), nodes, reported.value) && reported.value != [])
    {
      reported := ResolveOnce(result);
    }

    /** consulResolver.Close: asks the watch loop to stop. */
    method Close()
      modifies this`done
      ensures done
    {
      done := true;
    }
  }
}
