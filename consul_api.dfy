/**
 * The shapes of the discovery backend's health query (Consul's
 * Health().Service) as the two resolvers see them, and the address
 * key each healthy instance is filed under.
 */
module ConsulApi {
  import opened Text

  /** The node an instance runs on (opaque to the resolvers). */
  datatype Node = Node(name: string, address: string)

  /** A registered service instance: its address, port and free-form metadata. */
  datatype AgentService = AgentService(address: string, port: int, meta: map<string, string>)

  /** One healthy instance returned by the health query. */
  datatype ServiceEntry = ServiceEntry(node: Node, service: AgentService)

  /**
   * The outcome of one blocking health query: the healthy instances and the
   * new blocking-query index, or an error.
   */
  datatype QueryResult =
    | QueryOk(entries: seq<ServiceEntry>, lastIndex: nat)
    | QueryErr(err: string)

  /** The "host:port" key an instance is known by. */
  function ServiceKey(e: ServiceEntry): string
  {
    JoinHostPort(e.service.address, Itoa(e.service.port))
  }

  /** The set of instance keys in a query result. */
  function AddressSet(entries: seq<ServiceEntry>): set<string>
  {
    set e | e in entries :: ServiceKey(e)
  }

  /** The map built by inserting the pairs in order: a later pair overwrites an earlier one with the same key. */
  function Insertions(pairs: seq<(string, Node)>): map<string, Node>
  {
    if pairs == [] then map[]
    else
      var last := pairs[|pairs| - 1];
      Insertions(pairs[..|pairs| - 1])[last.0 := last.1]
  }

  /** Each instance's key paired with its node, in result order. */
  function Keyed(entries: seq<ServiceEntry>): (pairs: seq<(string, Node)>)
    ensures |pairs| == |entries|
  {
    seq(|entries|, i requires 0 <= i < |entries| => (ServiceKey(entries[i]), entries[i].node))
  }

  /** The key-to-node map of a query result, as resolveOnce builds it. */
  function NodeMap(entries: seq<ServiceEntry>): map<string, Node>
  {
    Insertions(Keyed(entries))
  }

  lemma AddressSetSnoc(entries: seq<ServiceEntry>, i: nat)
    requires i < |entries|
    ensures AddressSet(entries[..i + 1]) == AddressSet(entries[..i]) + {ServiceKey(entries[i])}
  {
    assert entries[..i + 1] == entries[..i] + [entries[i]];
  }

  lemma {:induction false} InsertionsKeys(pairs: seq<(string, Node)>)
    ensures Insertions(pairs).Keys == set p | p in pairs :: p.0
  {
    if pairs != [] {
      var n := |pairs| - 1;
      InsertionsKeys(pairs[..n]);
      assert pairs == pairs[..n] + [pairs[n]];
    }
  }

  lemma {:induction false} InsertionsLastWins(pairs: seq<(string, Node)>, j: nat)
    requires j < |pairs|
    requires forall k :: j < k < |pairs| ==> pairs[k].0 != pairs[j].0
    ensures pairs[j].0 in Insertions(pairs)
    ensures Insertions(pairs)[pairs[j].0] == pairs[j].1
  {
    var n := |pairs| - 1;
    if j < n {
      assert pairs[..n][j] == pairs[j];
      InsertionsLastWins(pairs[..n], j);
    }
  }

  /** Every instance of the result, and nothing else, has a key in the node map. */
  lemma NodeMapKeys(entries: seq<ServiceEntry>)
    ensures NodeMap(entries).Keys == AddressSet(entries)
  {
    var pairs := Keyed(entries);
    InsertionsKeys(pairs);
    forall key | key in AddressSet(entries) ensures key in NodeMap(entries) {
      var e :| e in entries && ServiceKey(e) == key;
      var k :| 0 <= k < |entries| && entries[k] == e;
      assert pairs[k].0 == key;
    }
    forall key | key in NodeMap(entries) ensures key in AddressSet(entries) {
      var p :| p in pairs && p.0 == key;
      var k :| 0 <= k < |pairs| && pairs[k] == p;
      assert entries[k] in entries;
    }
  }

  /**
   * Instances with the same host:port collapse to one key, and the node of
   * the last such instance is the one kept.
   */
  lemma NodeMapLastWins(entries: seq<ServiceEntry>, j: nat)
    requires j < |entries|
    requires forall k :: j < k < |entries| ==> ServiceKey(entries[k]) != ServiceKey(entries[j])
    ensures ServiceKey(entries[j]) in NodeMap(entries)
    ensures NodeMap(entries)[ServiceKey(entries[j])] == entries[j].node
  {
    InsertionsLastWins(Keyed(entries), j);
  }
}
