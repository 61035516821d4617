/**
 * The legacy naming resolver: a watcher that long-polls the discovery
 * backend and, on each call to Next, reports the full difference between the
 * address set it knew and the first differing result: Delete updates for the
 * addresses that left, then Add updates for the ones that arrived.
 *
 * The backend queries Next would issue are the input sequence results,
 * consumed one per loop iteration.
 */
module NamingConsul {
  import opened Wrappers
  import opened ConsulApi

  datatype Op = Add | Delete

  /** A naming update: add or delete one address. */
  datatype Update = Update(op: Op, addr: string)

  /** The resolver's configuration: NewResolver builds this value from its two arguments. */
  datatype Resolver = Resolver(address: string, service: string)

  /** The addresses the updates delete. */
  function Deleted(updates: seq<Update>): set<string>
  {
    set u | u in updates && u.op == Delete :: u.addr
  }

  /** The addresses the updates add. */
  function Added(updates: seq<Update>): set<string>
  {
    set u | u in updates && u.op == Add :: u.addr
  }

  /** No Add update comes before a Delete update. */
  ghost predicate DeletesFirst(updates: seq<Update>)
  {
    forall i, j :: 0 <= i < j < |updates| && updates[j].op == Delete ==> updates[i].op == Delete
  }

  /** No address appears in two updates. */
  ghost predicate DistinctAddrs(updates: seq<Update>)
  {
    forall i, j :: 0 <= i < j < |updates| ==> updates[i].addr != updates[j].addr
  }

  /** The updates are the full difference from known to observed, deletions first. */
  ghost predicate IsDiff(known: set<string>, observed: set<string>, updates: seq<Update>)
  {
    && Deleted(updates) == known - observed
    && Added(updates) == observed - known
    && DeletesFirst(updates)
    && DistinctAddrs(updates)
  }

  /** What a consumer of the updates holds after applying them in order. */
  function Apply(known: set<string>, updates: seq<Update>): set<string>
    decreases |updates|
  {
    if updates == [] then known
    else
      var u := updates[0];
      Apply(if u.op == Delete then known - {u.addr} else known + {u.addr}, updates[1..])
  }

  /** Applying updates that mention each address once removes what they delete and adds what they add. */
  lemma {:induction false} ApplyDistinct(known: set<string>, updates: seq<Update>)
    requires DistinctAddrs(updates)
    ensures Apply(known, updates) == (known - Deleted(updates)) + Added(updates)
    decreases |updates|
  {
    if updates != [] {
      var u, rest := updates[0], updates[1..];
      assert updates == [u] + rest;
      var next := if u.op == Delete then known - {u.addr} else known + {u.addr};
      ApplyDistinct(next, rest);
      assert Deleted(updates) == (if u.op == Delete then {u.addr} else {}) + Deleted(rest);
      assert Added(updates) == (if u.op == Add then {u.addr} else {}) + Added(rest);
      assert u.addr !in Deleted(rest) && u.addr !in Added(rest) by {
        forall v | v in rest ensures v.addr != u.addr {
          var k :| 0 <= k < |rest| && rest[k] == v;
          assert updates[k + 1] == v;
        }
      }
    }
  }

  /** Round trip: applying the difference to the old set yields the new set. */
  lemma ApplyDiff(known: set<string>, observed: set<string>, updates: seq<Update>)
    requires IsDiff(known, observed, updates)
    ensures Apply(known, updates) == observed
  {
    ApplyDistinct(known, updates);
  }

  /** The difference is empty exactly when nothing changed. */
  lemma DiffEmptyIffSame(known: set<string>, observed: set<string>, updates: seq<Update>)
    requires IsDiff(known, observed, updates)
    ensures updates == [] <==> known == observed
  {
    if updates != [] {
      var u := updates[0];
      assert u in updates;
      assert u.addr in Deleted(updates) || u.addr in Added(updates);
    } else {
      assert Deleted(updates) == {} && Added(updates) == {};
    }
  }

  lemma DiffSnoc(updates: seq<Update>, u: Update)
    ensures Deleted(updates + [u]) == Deleted(updates) + (if u.op == Delete then {u.addr} else {})
    ensures Added(updates + [u]) == Added(updates) + (if u.op == Add then {u.addr} else {})
  {
    var us := updates + [u];
    assert us[|updates|] == u;
    forall v | v in us ensures v in updates || v == u {
      var k :| 0 <= k < |us| && us[k] == v;
      if k < |updates| { assert updates[k] == v; }
    }
  }

  /**
   * The two loops of Next that build the updates: a Delete for every known
   * address missing from the result, then an Add for every new address.
   * Each set is walked in an arbitrary order, as Go walks its maps.
   */
  method DiffUpdates(known: set<string>, observed: set<string>) returns (updates: seq<Update>)
    ensures IsDiff(known, observed, updates)
  {
    updates := [];
    var rest := known;
    while rest != {}
      invariant rest <= known
      invariant Deleted(updates) == (known - rest) - observed
      invariant Added(updates) == {}
      invariant forall k :: 0 <= k < |updates| ==>
        updates[k].op == Delete && updates[k].addr !in rest && updates[k].addr in known
      invariant DistinctAddrs(updates)
      decreases rest
    {
      var addr :| addr in rest;
      rest := rest - {addr};
      if addr !in observed {
        DiffSnoc(updates, Update(Delete, addr));
        updates := updates + [Update(Delete, addr)];
      }
    }
    rest := observed;
    while rest != {}
      invariant rest <= observed
      invariant Deleted(updates) == known - observed
      invariant Added(updates) == (observed - rest) - known
      invariant DeletesFirst(updates)
      invariant forall k :: 0 <= k < |updates| ==> updates[k].addr !in rest || updates[k].op == Delete
      invariant forall k :: 0 <= k < |updates| && updates[k].op == Delete ==> updates[k].addr in known
      invariant DistinctAddrs(updates)
      decreases rest
    {
      var addr :| addr in rest;
      rest := rest - {addr};
      if addr !in known {
        DiffSnoc(updates, Update(Add, addr));
        updates := updates + [Update(Add, addr)];
      }
    }
  }

  /** The address set of a query result, built by the loop in Next. */
  method CollectAddresses(entries: seq<ServiceEntry>) returns (addrs: set<string>)
    ensures addrs == AddressSet(entries)
  {
    addrs := {};
    for i := 0 to |entries|
      invariant addrs == AddressSet(entries[..i])
    {
      AddressSetSnoc(entries, i);
      addrs := addrs + {ServiceKey(entries[i])};
    }
    assert entries[..|entries|] == entries;
  }

  /** The results of queries that succeeded and showed exactly the known addresses. */
  ghost predicate Unchanged(results: seq<QueryResult>, known: set<string>)
  {
    forall k :: 0 <= k < |results| ==> results[k].QueryOk? && AddressSet(results[k].entries) == known
  }

  /** The blocking index after a run of successful results: the last one's, or the starting one. */
  function IndexAfter(results: seq<QueryResult>, start: nat): nat
  {
    if results == [] then start
    else match results[|results| - 1]
      case QueryOk(_, index) => index
      case QueryErr(_) => start
  }

  lemma UnchangedStep(results: seq<QueryResult>, k: nat, known: set<string>, start: nat)
    requires k < |results| && Unchanged(results[..k], known)
    requires results[k].QueryOk? && AddressSet(results[k].entries) == known
    ensures Unchanged(results[..k + 1], known)
    ensures IndexAfter(results[..k + 1], start) == results[k].lastIndex
  {
    assert results[..k + 1] == results[..k] + [results[k]];
  }

  /** How a call to Next ends. */
  datatype NextResult =
    | Updates(updates: seq<Update>, consumed: nat)  // returned updates after `consumed` queries
    | QueryFailed(err: string, consumed: nat)       // returned the error of query number `consumed`
    | Waiting                                       // every given result was unchanged: still polling

  class Watcher {
    var service: string
    var addresses: set<string>
    var lastIndex: nat

    constructor (service: string)
      ensures this.service == service && addresses == {} && lastIndex == 0
    {
      this.service := service;
      addresses := {};
      lastIndex := 0;
    }

    /**
     * consulResolver.Resolve: a watcher for the resolver's service with no
     * known addresses and blocking index 0, or the error the client
     * constructor reported (newClientErr).
     */
    static method Resolve(r: Resolver, newClientErr: Option<string>) returns (w: Watcher?, err: Option<string>)
      ensures newClientErr.Some? ==> w == null && err == newClientErr
      ensures newClientErr.None? ==>
        w != null && fresh(w) && err.None? && w.service == r.service && w.addresses == {} && w.lastIndex == 0
    {
      if newClientErr.Some? {
        return null, newClientErr;
      }
      w := new Watcher(r.service);
      err := None;
    }

    /**
     * consulWatcher.Next: queries until a result differs from the known set.
     * An error ends the call with the address set untouched (the index keeps
     * the value of the last successful query). Every successful query stores
     * its index; the first differing one replaces the address set wholesale
     * and is returned as the deletions-then-additions difference, which
     * applied to the old set gives the new one.
     */
    method Next(results: seq<QueryResult>) returns (out: NextResult)
      modifies this`addresses, this`lastIndex
      ensures out.Updates? ==>
        && 1 <= out.consumed <= |results|
        && Unchanged(results[..out.consumed - 1], old(addresses))
        && results[out.consumed - 1].QueryOk?
        && addresses == AddressSet(results[out.consumed - 1].entries)
        && addresses != old(addresses)
        && lastIndex == results[out.consumed - 1].lastIndex
        && IsDiff(old(addresses), addresses, out.updates)
        && out.updates != []
        && Apply(old(addresses), out.updates) == addresses
      ensures out.QueryFailed? ==>
        && 1 <= out.consumed <= |results|
        && Unchanged(results[..out.consumed - 1], old(addresses))
        && results[out.consumed - 1] == QueryErr(out.err)
        && addresses == old(addresses)
        && lastIndex == IndexAfter(results[..out.consumed - 1], old(lastIndex))
      ensures out.Waiting? ==>
        && Unchanged(results, old(addresses))
        && addresses == old(addresses)
        && lastIndex == IndexAfter(results, old(lastIndex))
    {
      var k := 0;
      while k < |results|
        invariant 0 <= k <= |results|
        invariant addresses == old(addresses)
        invariant Unchanged(results[..k], addresses)
        invariant lastIndex == IndexAfter(results[..k], old(lastIndex))
      {
        var result := results[k];
        if result.QueryErr? {
          return QueryFailed(result.err, k + 1);
        }
        lastIndex := result.lastIndex;
        var addrs := CollectAddresses(result.entries);
        var updates := DiffUpdates(addresses, addrs);
        DiffEmptyIffSame(addresses, addrs, updates);
        if |updates| != 0 {
          ApplyDiff(addresses, addrs, updates);
          addresses := addrs;
          return Updates(updates, k + 1);
        }
        UnchangedStep(results, k, addresses, old(lastIndex));
        k := k + 1;
      }
      assert results[..k] == results;
      return Waiting;
    }
  }
}
