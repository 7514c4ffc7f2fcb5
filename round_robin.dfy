/** Plain round robin: a cyclic index over a fixed, non-empty server list,
    read and advanced in one atomic step. */
module RoundRobin {
  import opened Configurations
  import Arith
  import Counting

  /** The indices returned by the first `m` calls: call k returns index k mod n. */
  function CyclicPicks(n: nat, m: nat): (r: seq<nat>)
    requires n >= 1
    ensures |r| == m && forall k :: 0 <= k < m ==> r[k] < n
  {
    if m == 0 then [] else CyclicPicks(n, m - 1) + [(m - 1) % n]
  }

  /** Moving from m to m + 1 either keeps the quotient and bumps the
      remainder, or wraps the remainder to 0 and bumps the quotient. */
  lemma DivModStep(m: nat, n: nat)
    requires n >= 1
    ensures m % n < n - 1 ==> (m + 1) / n == m / n && (m + 1) % n == m % n + 1
    ensures m % n == n - 1 ==> (m + 1) / n == m / n + 1 && (m + 1) % n == 0
  {
    var q, r := m / n, m % n;
    if r < n - 1 {
      Arith.DivModUnique(m + 1, n, q, r + 1);
    } else {
      Arith.DivModUnique(m + 1, n, q + 1, 0);
    }
  }

  /** Fairness: over m calls, index i < n is returned m / n times, plus one
      more when it lies before the point where the last round stopped. */
  lemma {:induction false} PicksFairness(n: nat, m: nat, i: nat)
    requires n >= 1 && i < n
    ensures Counting.Count(CyclicPicks(n, m), i) == m / n + (if i < m % n then 1 else 0)
  {
    if m > 0 {
      PicksFairness(n, m - 1, i);
      DivModStep(m - 1, n);
      var init := CyclicPicks(n, m - 1);
      assert CyclicPicks(n, m)[..|init|] == init;
    }
  }

  /** Every server is returned either floor(m / n) or ceil(m / n) times, and
      exactly m / n times after whole rounds. */
  lemma PicksBalanced(n: nat, m: nat, i: nat)
    requires n >= 1 && i < n
    ensures m / n <= Counting.Count(CyclicPicks(n, m), i) <= m / n + 1
    ensures m % n == 0 ==> Counting.Count(CyclicPicks(n, m), i) == m / n
  {
    PicksFairness(n, m, i);
  }

  /** Call k (counting from 0) returns index k mod n. */
  lemma {:induction false} CyclicPicksAt(n: nat, m: nat, k: nat)
    requires n >= 1 && k < m
    ensures |CyclicPicks(n, m)| == m && CyclicPicks(n, m)[k] == k % n
  {
    if k < m - 1 {
      CyclicPicksAt(n, m - 1, k);
    }
  }

  class RoundRobinStrategy {
    const servers: seq<Server>
    var currentIndex: int
    /** The indices returned so far, oldest first. */
    ghost var picks: seq<nat>

    ghost predicate Valid()
      reads this
    {
      && |servers| >= 1
      && 0 <= currentIndex < |servers|
      && picks == CyclicPicks(|servers|, |picks|)
      && currentIndex == |picks| % |servers|
    }

    /** The index starts at 0. The list is non-empty because startup
        refuses an empty one. */
    constructor (servers: seq<Server>)
      requires |servers| >= 1
      ensures Valid() && this.servers == servers
      ensures currentIndex == 0 && picks == []
    {
      this.servers := servers;
      currentIndex := 0;
      picks := [];
    }

    /** Returns the server at the index and advances the index cyclically;
        the k-th call returns servers[k mod N]. */
    method GetNextServer() returns (server: Server)
      requires Valid()
      modifies this
      ensures Valid()
      ensures server == servers[old(currentIndex)]
      ensures server == servers[|old(picks)| % |servers|]
      ensures currentIndex == (old(currentIndex) + 1) % |servers|
      ensures picks == old(picks) + [old(currentIndex)]
    {
      server := servers[currentIndex];
      var n, m := |servers|, |picks|;
      DivModStep(m, n);
      assert (currentIndex + 1) % n == (m + 1) % n by {
        if currentIndex + 1 < n {
          Arith.DivModUnique(currentIndex + 1, n, 0, currentIndex + 1);
        } else {
          Arith.DivModUnique(currentIndex + 1, n, 1, 0);
        }
      }
      currentIndex := (currentIndex + 1) % n;
      picks := picks + [m % n];
      assert picks == CyclicPicks(n, m + 1);
    }
  }
}
