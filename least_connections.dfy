/** Least connections: a per-URL count of open connections. A selection
    takes the first server, in list order, among those with the fewest
    connections and counts one more for it; a release counts one fewer,
    never going below 0. */
module LeastConnections {
  import opened Configurations

  /** Every server of the list has an entry in the count map. */
  ghost predicate Tracked(servers: seq<Server>, counts: map<string, int>) {
    forall i :: 0 <= i < |servers| ==> servers[i].url in counts
  }

  /** The index a stable sort by count puts first: the earliest server among
      those with the fewest connections. */
  function LeastLoaded(servers: seq<Server>, counts: map<string, int>): (k: nat)
    requires |servers| >= 1 && Tracked(servers, counts)
    ensures k < |servers|
    ensures forall i :: 0 <= i < |servers| ==> counts[servers[k].url] <= counts[servers[i].url]
    ensures forall i :: 0 <= i < k ==> counts[servers[i].url] > counts[servers[k].url]
  {
    if |servers| == 1 then 0
    else
      var k := LeastLoaded(servers[..|servers| - 1], counts);
      var last := |servers| - 1;
      if counts[servers[last].url] < counts[servers[k].url] then last else k
  }

  /** The update of a selection: one more connection for `url`, starting
      from 1 when the URL has no entry. */
  function Acquired(counts: map<string, int>, url: string): (r: map<string, int>)
    ensures r.Keys == counts.Keys + {url}
    ensures url in counts ==> r[url] == counts[url] + 1
    ensures url !in counts ==> r[url] == 1
  {
    counts[url := if url in counts then counts[url] + 1 else 1]
  }

  /** The update of a release: one fewer connection for `url`, floored at 0,
      and an entry of 0 when the URL has none. */
  function Released(counts: map<string, int>, url: string): (r: map<string, int>)
    ensures r.Keys == counts.Keys + {url} && r[url] >= 0
  {
    counts[url := if url in counts then (if counts[url] - 1 > 0 then counts[url] - 1 else 0) else 0]
  }

  /** No count is negative. */
  ghost predicate NonNegative(counts: map<string, int>) {
    forall u :: u in counts ==> counts[u] >= 0
  }

  /** Both updates touch only the given URL and keep every count
      non-negative; a selection adds exactly one, a release removes at most
      one. */
  lemma UpdatesAreLocal(counts: map<string, int>, url: string)
    requires NonNegative(counts)
    ensures NonNegative(Acquired(counts, url)) && NonNegative(Released(counts, url))
    ensures Acquired(counts, url).Keys == counts.Keys + {url}
    ensures Released(counts, url).Keys == counts.Keys + {url}
    ensures forall u :: u in counts && u != url ==>
      Acquired(counts, url)[u] == counts[u] && Released(counts, url)[u] == counts[u]
    ensures url in counts ==> Acquired(counts, url)[url] == counts[url] + 1
    ensures url in counts ==> Released(counts, url)[url] == (if counts[url] >= 1 then counts[url] - 1 else 0)
    ensures url !in counts ==> Acquired(counts, url)[url] == 1 && Released(counts, url)[url] == 0
  {
  }

  /** A selection followed by the release of the same server gives back
      the map it started from. */
  lemma ReleaseUndoesAcquire(counts: map<string, int>, url: string)
    requires url in counts && counts[url] >= 0
    ensures Released(Acquired(counts, url), url) == counts
  {
    assert Released(Acquired(counts, url), url)[url] == counts[url];
  }

  /** Releasing a server that never had a connection changes nothing. */
  lemma ReleaseIdle(counts: map<string, int>, url: string)
    requires url in counts && counts[url] == 0
    ensures Released(counts, url) == counts
  {
  }

  /** The counts of any two servers of the list differ by at most one. */
  ghost predicate Balanced(servers: seq<Server>, counts: map<string, int>)
    requires Tracked(servers, counts)
  {
    forall i, k :: 0 <= i < |servers| && 0 <= k < |servers| ==>
      counts[servers[i].url] <= counts[servers[k].url] + 1
  }

  /** A selection keeps balanced counts balanced, whether or not URLs repeat
      in the list: the chosen count was the minimum, so it becomes at most
      the old maximum. */
  lemma SelectKeepsBalance(servers: seq<Server>, counts: map<string, int>)
    requires |servers| >= 1 && Tracked(servers, counts) && Balanced(servers, counts)
    ensures Tracked(servers, Acquired(counts, servers[LeastLoaded(servers, counts)].url))
    ensures Balanced(servers, Acquired(counts, servers[LeastLoaded(servers, counts)].url))
  {
  }

  /** The counts after m selections and no release. */
  function SelectMany(servers: seq<Server>, counts: map<string, int>, m: nat): (r: map<string, int>)
    requires |servers| >= 1 && Tracked(servers, counts)
    ensures Tracked(servers, r)
  {
    if m == 0 then counts
    else
      var before := SelectMany(servers, counts, m - 1);
      Acquired(before, servers[LeastLoaded(servers, before)].url)
  }

  /** From counts that start equal, any number of selections leaves the
      largest and the smallest count at most one apart. */
  lemma {:induction false} SelectManyBalanced(servers: seq<Server>, counts: map<string, int>, m: nat)
    requires |servers| >= 1 && Tracked(servers, counts)
    requires forall i :: 0 <= i < |servers| ==> counts[servers[i].url] == 0
    ensures Balanced(servers, SelectMany(servers, counts, m))
  {
    if m > 0 {
      SelectManyBalanced(servers, counts, m - 1);
      SelectKeepsBalance(servers, SelectMany(servers, counts, m - 1));
    }
  }

  class LeastConnectionsStrategy {
    const servers: seq<Server>
    var connectionCounts: map<string, int>

    ghost predicate Valid()
      reads this
    {
      Tracked(servers, connectionCounts) && NonNegative(connectionCounts)
    }

    /** Every URL of the list starts with 0 connections. */
    constructor (servers: seq<Server>)
      ensures Valid() && this.servers == servers
      ensures connectionCounts.Keys == Urls(servers)
      ensures forall u :: u in connectionCounts ==> connectionCounts[u] == 0
    {
      this.servers := servers;
      var counts: map<string, int> := map[];
      var i := 0;
      while i < |servers|
        invariant 0 <= i <= |servers|
        invariant counts.Keys == Urls(servers[..i])
        invariant forall u :: u in counts ==> counts[u] == 0
      {
        assert servers[..i + 1] == servers[..i] + [servers[i]];
        counts := counts[servers[i].url := 0];
        i := i + 1;
      }
      assert servers[..i] == servers;
      connectionCounts := counts;
    }

    /** Picks the first least-loaded server and counts a connection for it.
        The list is non-empty because startup refuses an empty one. */
    method GetNextServer() returns (server: Server)
      requires Valid() && |servers| >= 1
      modifies this
      ensures Valid()
      ensures server == servers[LeastLoaded(servers, old(connectionCounts))]
      ensures connectionCounts == Acquired(old(connectionCounts), server.url)
    {
      var k := LeastLoaded(servers, connectionCounts);
      server := servers[k];
      connectionCounts := connectionCounts[server.url := connectionCounts[server.url] + 1];
    }

    /** Counts one connection fewer for the server, never below 0. */
    method ReleaseConnection(server: Server)
      requires Valid()
      modifies this
      ensures Valid()
      ensures connectionCounts == Released(old(connectionCounts), server.url)
    {
      var url := server.url;
      if url in connectionCounts {
        var count := connectionCounts[url];
        connectionCounts := connectionCounts[url := if count - 1 > 0 then count - 1 else 0];
      } else {
        connectionCounts := connectionCounts[url := 0];
      }
    }
  }

  /** The request path for this strategy: select a server, forward the
      request to it (I/O, not modelled), and release the connection whatever
      the forwarding did. The counts end as they began. */
  method ProcessRequestWithCleanup(strategy: LeastConnectionsStrategy) returns (server: Server)
    requires strategy.Valid() && |strategy.servers| >= 1
    modifies strategy
    ensures strategy.Valid()
    ensures server == strategy.servers[LeastLoaded(strategy.servers, old(strategy.connectionCounts))]
    ensures strategy.connectionCounts == old(strategy.connectionCounts)
  {
    server := strategy.GetNextServer();
    strategy.ReleaseConnection(server);
    ReleaseUndoesAcquire(old(strategy.connectionCounts), server.url);
  }
}
