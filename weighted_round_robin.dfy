/** Weighted round robin in the interleaved (LVS) style: the index sweeps the
    server list over and over; each time it wraps to the first server the
    current weight drops by the gcd of the weights (back to the maximum once
    it would reach 0 or below), and a server is chosen when its weight is at
    least the current weight. */
module WeightedRoundRobin {
  import opened Configurations
  import opened Wrappers
  import Arith
  import Counting

  /** The weights in use: a configured weight that is not positive becomes 1. */
  function EffectiveWeights(servers: seq<Server>): (ws: seq<int>)
    ensures |ws| == |servers|
    ensures forall i :: 0 <= i < |ws| ==> ws[i] >= 1
    ensures forall i :: 0 <= i < |ws| ==>
      ws[i] == (if servers[i].weight > 0 then servers[i].weight else 1)
  {
    seq(|servers|, i requires 0 <= i < |servers| =>
      if servers[i].weight > 0 then servers[i].weight else 1)
  }

  /** The largest weight of a non-empty list. */
  function MaxWeight(ws: seq<int>): (m: int)
    requires |ws| >= 1
    ensures m in ws
    ensures forall i :: 0 <= i < |ws| ==> ws[i] <= m
  {
    if |ws| == 1 then ws[0]
    else
      var rest := MaxWeight(ws[1..]);
      assert forall i :: 1 <= i < |ws| ==> ws[i] == ws[1..][i - 1];
      if ws[0] >= rest then ws[0] else rest
  }

  /** The position of the first server of maximal weight. */
  function FirstMaxIndex(ws: seq<int>): (k: nat)
    requires |ws| >= 1
    ensures k < |ws| && ws[k] == MaxWeight(ws)
    ensures forall i :: 0 <= i < k ==> ws[i] < ws[k]
  {
    if ws[0] == MaxWeight(ws) then 0
    else
      assert MaxWeight(ws[1..]) == MaxWeight(ws);
      1 + FirstMaxIndex(ws[1..])
  }

  /** Euclid's algorithm as the source writes it; both arguments are
      non-negative here, so C#'s remainder agrees with Dafny's. */
  function Gcd(a: int, b: int): (g: int)
    requires a > 0 && b >= 0
    ensures Arith.Divides(g, a) && Arith.Divides(g, b)
    decreases b
  {
    if b == 0 then a
    else
      var g := Gcd(b, a % b);
      Arith.CombinationMod(g, b, a % b, a / b, 1);
      assert a == b * (a / b) + (a % b) * 1;
      g
  }

  /** Every common divisor of a and b divides Gcd(a, b): it is the greatest. */
  lemma {:induction false} GcdGreatest(a: int, b: int, d: int)
    requires a > 0 && b >= 0
    requires Arith.Divides(d, a) && Arith.Divides(d, b)
    ensures Arith.Divides(d, Gcd(a, b))
    decreases b
  {
    if b > 0 {
      Arith.CombinationMod(d, a, b, 1, -(a / b));
      assert a % b == a * 1 + b * -(a / b);
      GcdGreatest(b, a % b, d);
    }
  }

  /** The left fold of Gcd over `ns`, starting from `acc`. */
  function GcdFold(acc: int, ns: seq<int>): (g: int)
    requires acc > 0 && forall i :: 0 <= i < |ns| ==> ns[i] >= 0
    ensures Arith.Divides(g, acc)
    ensures forall i :: 0 <= i < |ns| ==> Arith.Divides(g, ns[i])
    decreases |ns|
  {
    if |ns| == 0 then acc
    else
      var h := Gcd(acc, ns[0]);
      var g := GcdFold(h, ns[1..]);
      Arith.DividesTransitive(g, h, acc);
      Arith.DividesTransitive(g, h, ns[0]);
      assert forall i :: 1 <= i < |ns| ==> ns[i] == ns[1..][i - 1];
      g
  }

  /** The gcd of all weights: the fold seeded with the first weight. */
  function CalculateGcd(ns: seq<int>): (g: int)
    requires |ns| >= 1 && forall i :: 0 <= i < |ns| ==> ns[i] >= 1
    ensures forall i :: 0 <= i < |ns| ==> Arith.Divides(g, ns[i])
  {
    GcdFold(ns[0], ns)
  }

  /** Every common divisor of the seed and the elements divides the fold:
      the fold is their greatest common divisor. */
  lemma {:induction false} GcdFoldGreatest(acc: int, ns: seq<int>, d: int)
    requires acc > 0 && forall i :: 0 <= i < |ns| ==> ns[i] >= 0
    requires Arith.Divides(d, acc) && forall i :: 0 <= i < |ns| ==> Arith.Divides(d, ns[i])
    ensures Arith.Divides(d, GcdFold(acc, ns))
    decreases |ns|
  {
    if |ns| > 0 {
      GcdGreatest(acc, ns[0], d);
      assert forall i :: 0 <= i < |ns[1..]| ==> ns[1..][i] == ns[i + 1];
      GcdFoldGreatest(Gcd(acc, ns[0]), ns[1..], d);
    }
  }

  /** Every common divisor of the weights divides CalculateGcd. */
  lemma CalculateGcdGreatest(ns: seq<int>, d: int)
    requires |ns| >= 1 && forall i :: 0 <= i < |ns| ==> ns[i] >= 1
    requires forall i :: 0 <= i < |ns| ==> Arith.Divides(d, ns[i])
    ensures Arith.Divides(d, CalculateGcd(ns))
  {
    GcdFoldGreatest(ns[0], ns, d);
  }

  /** The fixed data the constructor derives from the server list. */
  datatype Schedule = Schedule(weights: seq<int>, maxWeight: int, gcd: int) {

    ghost predicate Valid() {
      && |weights| >= 1
      && gcd >= 1
      && maxWeight in weights
      && forall i :: 0 <= i < |weights| ==> 1 <= weights[i] <= maxWeight
    }

    /** The gcd divides every weight, hence also the maximum. */
    ghost predicate Divisible() {
      && Arith.Divides(gcd, maxWeight)
      && forall i :: 0 <= i < |weights| ==> Arith.Divides(gcd, weights[i])
    }

    /** The number of weight levels in one cycle. */
    function Levels(): int
      requires gcd >= 1
    {
      maxWeight / gcd
    }

    /** The pass at which cycle c starts: each cycle lasts Levels() passes. */
    function CycleStart(c: nat): nat
      requires gcd >= 1 && maxWeight >= 0
    {
      Arith.MulNonNegative(c, Levels());
      c * Levels()
    }

    /** The current weight during pass p, a pass being one sweep of the
        index from the first server to the last. */
    function PassWeight(p: nat): int
    {
      if p == 0 then maxWeight
      else
        var w := PassWeight(p - 1) - gcd;
        if w <= 0 then maxWeight else w
    }

    /** The servers chosen among the first n of pass p, in order. */
    function PassPicks(p: nat, n: nat): (r: seq<int>)
      requires n <= |weights|
    {
      if n == 0 then []
      else PassPicks(p, n - 1) + (if weights[n - 1] >= PassWeight(p) then [n - 1] else [])
    }

    /** The servers chosen during the first p passes, in order. */
    function Passes(p: nat): (r: seq<int>)
    {
      if p == 0 then [] else Passes(p - 1) + PassPicks(p - 1, |weights|)
    }

    /** How many of the first p passes choose server j. */
    function QualifyingPasses(p: nat, j: nat): nat
      requires j < |weights|
    {
      if p == 0 then 0
      else QualifyingPasses(p - 1, j) + (if weights[j] >= PassWeight(p - 1) then 1 else 0)
    }
  }

  /** The constructor's work: it throws on an empty list, and otherwise
      normalises the weights and computes their maximum and gcd. */
  function Prepare(servers: seq<Server>): (r: Result<Schedule, string>)
    ensures r.Failure? <==> |servers| == 0
    ensures r.Success? ==> r.value.Valid() && r.value.Divisible()
    ensures r.Success? ==> r.value.weights == EffectiveWeights(servers)
  {
    if |servers| == 0 then Failure("Servers list cannot be null or empty")
    else
      var ws := EffectiveWeights(servers);
      Success(Schedule(ws, MaxWeight(ws), CalculateGcd(ws)))
  }

  /** The prepared gcd is the greatest: every common divisor of the
      normalised weights divides it. */
  lemma PrepareGcdGreatest(servers: seq<Server>, d: int)
    requires |servers| >= 1
    requires forall i :: 0 <= i < |servers| ==> Arith.Divides(d, EffectiveWeights(servers)[i])
    ensures Prepare(servers).Success? && Arith.Divides(d, Prepare(servers).value.gcd)
  {
    CalculateGcdGreatest(EffectiveWeights(servers), d);
  }

  /** The stored maximum is the maximum of the weights. */
  lemma MaxWeightOf(s: Schedule)
    requires s.Valid()
    ensures MaxWeight(s.weights) == s.maxWeight
  {
    var m := MaxWeight(s.weights);
    var i :| 0 <= i < |s.weights| && s.weights[i] == m;
    var k :| 0 <= k < |s.weights| && s.weights[k] == s.maxWeight;
  }

  /** The current weight always lies in [1, maxWeight]. */
  lemma {:induction false} PassWeightBounds(s: Schedule, p: nat)
    requires s.Valid()
    ensures 1 <= s.PassWeight(p) <= s.maxWeight
  {
    if p > 0 {
      PassWeightBounds(s, p - 1);
    }
  }

  /** Every weight is gcd * a for some a in [1, K]. */
  lemma LevelOf(s: Schedule, j: nat)
    requires s.Valid() && s.Divisible() && j < |s.weights|
    ensures s.maxWeight == s.gcd * s.Levels() && s.weights[j] == s.gcd * (s.weights[j] / s.gcd)
    ensures 1 <= s.weights[j] / s.gcd <= s.Levels()
  {
    var g, k, a := s.gcd, s.Levels(), s.weights[j] / s.gcd;
    assert s.maxWeight == g * k;
    assert s.weights[j] == g * a;
    Arith.MulMonotone(g, a, k);
    Arith.MulMonotone(g, a, 1);
  }

  /** A cycle starts at each pass whose weight is the maximum; r passes
      later the weight is gcd * (K - r): the weights of a cycle run
      maxWeight, maxWeight - gcd, ..., gcd. */
  lemma {:induction false} PassWeightInCycle(s: Schedule, p: nat, r: nat)
    requires s.Valid() && s.Divisible() && s.PassWeight(p) == s.maxWeight
    requires r < s.Levels()
    ensures s.PassWeight(p + r) == s.gcd * (s.Levels() - r)
  {
    var g, k := s.gcd, s.Levels();
    assert s.maxWeight == g * k;
    if r > 0 {
      PassWeightInCycle(s, p, r - 1);
      assert g * (k - (r - 1)) == g * (k - r) + g;
      Arith.MulBounds(g, k - r);
    }
  }

  /** K passes after the start of a cycle the next cycle starts. */
  lemma CycleRestarts(s: Schedule, p: nat)
    requires s.Valid() && s.Divisible() && s.PassWeight(p) == s.maxWeight
    ensures s.Levels() >= 1 && s.PassWeight(p + s.Levels()) == s.maxWeight
  {
    LevelOf(s, 0);
    PassWeightInCycle(s, p, s.Levels() - 1);
    assert s.gcd * (s.Levels() - (s.Levels() - 1)) == s.gcd;
  }

  /** Who is chosen in a pass: exactly the servers whose weight reaches the
      pass weight, each once, in list order. */
  lemma {:induction false} PassPicksMembers(s: Schedule, p: nat, n: nat, j: nat)
    requires n <= |s.weights|
    ensures Counting.Count(s.PassPicks(p, n), j) ==
      (if j < n && s.weights[j] >= s.PassWeight(p) then 1 else 0)
  {
    if n > 0 {
      PassPicksMembers(s, p, n - 1, j);
      var before := s.PassPicks(p, n - 1);
      if s.weights[n - 1] >= s.PassWeight(p) {
        assert s.PassPicks(p, n) == before + [n - 1];
        Counting.CountSnoc(before, n - 1, j);
      } else {
        assert s.PassPicks(p, n) == before;
      }
    }
  }

  /** Server j occurs in the first p passes once for each pass that chooses it. */
  lemma {:induction false} PassesCount(s: Schedule, p: nat, j: nat)
    requires j < |s.weights|
    ensures Counting.Count(s.Passes(p), j) == s.QualifyingPasses(p, j)
  {
    if p > 0 {
      PassesCount(s, p - 1, j);
      PassPicksMembers(s, p - 1, |s.weights|, j);
      Counting.CountAppend(s.Passes(p - 1), s.PassPicks(p - 1, |s.weights|), j);
    }
  }

  /** Server j, of weight gcd * a, is chosen in the last a passes of a
      cycle of K passes. */
  lemma {:induction false} QualifyingInCycle(s: Schedule, p: nat, r: nat, j: nat)
    requires s.Valid() && s.Divisible() && j < |s.weights|
    requires s.PassWeight(p) == s.maxWeight && r <= s.Levels()
    ensures var a, k := s.weights[j] / s.gcd, s.Levels();
      s.QualifyingPasses(p + r, j) ==
        s.QualifyingPasses(p, j) + (if r > k - a then r - (k - a) else 0)
  {
    var g, k, a := s.gcd, s.Levels(), s.weights[j] / s.gcd;
    LevelOf(s, j);
    if r > 0 {
      QualifyingInCycle(s, p, r - 1, j);
      PassWeightInCycle(s, p, r - 1);
      Arith.MulMonotone(g, a, k - (r - 1));
    }
  }

  /** After c whole cycles server j has qualified in c * (weight_j / gcd)
      passes, and the next cycle starts. */
  lemma {:induction false} CycleCounts(s: Schedule, c: nat, j: nat)
    requires s.Valid() && s.Divisible() && j < |s.weights|
    ensures s.PassWeight(s.CycleStart(c)) == s.maxWeight
    ensures s.QualifyingPasses(s.CycleStart(c), j) == c * (s.weights[j] / s.gcd)
  {
    if c > 0 {
      CycleCounts(s, c - 1, j);
      var p, k, a := s.CycleStart(c - 1), s.Levels(), s.weights[j] / s.gcd;
      assert s.CycleStart(c) == p + k by {
        Arith.MulSucc(c, k);
      }
      LevelOf(s, j);
      QualifyingInCycle(s, p, k, j);
      CycleRestarts(s, p);
      var before, after := s.QualifyingPasses(p, j), s.QualifyingPasses(p + k, j);
      assert after == before + a && before == (c - 1) * a;
      assert after == c * a by {
        Arith.MulSucc(c, a);
      }
    } else {
      assert s.CycleStart(c) == 0;
    }
  }

  /** Proportionality: after c whole cycles of K = maxWeight / gcd passes,
      server j has been chosen exactly c * (weight_j / gcd) times. */
  lemma WeightedShare(s: Schedule, c: nat, j: nat)
    requires s.Valid() && s.Divisible() && j < |s.weights|
    ensures multiset(s.Passes(s.CycleStart(c)))[j] == c * (s.weights[j] / s.gcd)
  {
    CycleCounts(s, c, j);
    PassesCount(s, s.CycleStart(c), j);
    Counting.CountIsMultiplicity(s.Passes(s.CycleStart(c)), j);
  }

  /** A pass chooses, among the first n servers, only servers whose weight
      reaches the pass weight. */
  lemma {:induction false} PassPicksQualify(s: Schedule, p: nat, n: nat)
    requires n <= |s.weights|
    ensures forall k :: 0 <= k < |s.PassPicks(p, n)| ==>
      0 <= s.PassPicks(p, n)[k] < n && s.weights[s.PassPicks(p, n)[k]] >= s.PassWeight(p)
  {
    if n > 0 {
      PassPicksQualify(s, p, n - 1);
      var a := s.PassPicks(p, n - 1);
      if s.weights[n - 1] >= s.PassWeight(p) {
        assert s.PassPicks(p, n) == a + [n - 1];
      } else {
        assert s.PassPicks(p, n) == a;
      }
    }
  }

  /** The choices of whole passes are indices of the server list. */
  lemma {:induction false} PassesInRange(s: Schedule, p: nat)
    ensures forall k :: 0 <= k < |s.Passes(p)| ==> 0 <= s.Passes(p)[k] < |s.weights|
  {
    if p > 0 {
      PassesInRange(s, p - 1);
      PassPicksQualify(s, p - 1, |s.weights|);
      var a, b := s.Passes(p - 1), s.PassPicks(p - 1, |s.weights|);
      assert s.Passes(p) == a + b;
      forall k | 0 <= k < |a + b|
        ensures 0 <= (a + b)[k] < |s.weights|
      {
        if k >= |a| {
          assert (a + b)[k] == b[k - |a|];
        }
      }
    }
  }

  /** The picks of a pass grow by extension as the index advances. */
  lemma {:induction false} PassPicksPrefix(s: Schedule, p: nat, n: nat, n': nat)
    requires n <= n' <= |s.weights|
    ensures s.PassPicks(p, n) <= s.PassPicks(p, n')
    decreases n' - n
  {
    if n < n' {
      PassPicksPrefix(s, p, n, n' - 1);
    }
  }

  /** Earlier passes are a prefix of later ones. */
  lemma {:induction false} PassesPrefix(s: Schedule, p: nat, q: nat)
    requires p <= q
    ensures s.Passes(p) <= s.Passes(q)
    decreases q - p
  {
    if p < q {
      PassesPrefix(s, p, q - 1);
    }
  }

  /** The history of a strategy in pass p at position n is a prefix of the
      picks of every later whole number of passes. */
  lemma HistoryPrefix(s: Schedule, p: nat, n: nat, q: nat)
    requires s.Valid() && n <= |s.weights| && p < q
    ensures s.Passes(p) + s.PassPicks(p, n) <= s.Passes(q)
  {
    PassPicksPrefix(s, p, n, |s.weights|);
    PassesPrefix(s, p + 1, q);
  }

  /** A history exactly as long as the choices of q whole passes is those
      choices; with CycleCounts this gives the counts of a real history. */
  lemma HistoryIsPasses(s: Schedule, p: nat, n: nat, q: nat)
    requires s.Valid() && n <= |s.weights|
    requires |s.Passes(p) + s.PassPicks(p, n)| == |s.Passes(q)|
    ensures s.Passes(p) + s.PassPicks(p, n) == s.Passes(q)
  {
    var r := if p + 1 > q then p + 1 else q;
    var h := s.Passes(p) + s.PassPicks(p, n);
    HistoryPrefix(s, p, n, r);
    PassesPrefix(s, q, r);
    assert h == s.Passes(r)[..|h|] == s.Passes(q);
  }

  /** Every single pass chooses at least one server: the first server of
      maximal weight reaches any pass weight. */
  lemma EachPassChooses(s: Schedule, p: nat)
    requires s.Valid()
    ensures s.PassPicks(p, |s.weights|) != []
  {
    PassWeightBounds(s, p);
    PassPicksMembers(s, p, |s.weights|, FirstMaxIndex(s.weights));
  }

  /** After one or more whole passes the history is non-empty. */
  lemma PassesNonEmpty(s: Schedule, p: nat)
    requires s.Valid()
    ensures p >= 1 ==> s.Passes(p) != []
  {
    if p >= 1 {
      var m := FirstMaxIndex(s.weights);
      PassesPrefix(s, 1, p);
      PassPicksMembers(s, 0, |s.weights|, m);
      assert s.Passes(1) == s.PassPicks(0, |s.weights|);
    }
  }

  /** The first choice ever made is the first server of maximal weight. */
  lemma FirstChoice(s: Schedule, p: nat, n: nat)
    requires s.Valid() && n < |s.weights|
    requires s.Passes(p) + s.PassPicks(p, n) == []
    requires s.weights[n] >= s.PassWeight(p)
    ensures n == FirstMaxIndex(s.weights)
  {
    PassesNonEmpty(s, p);
    forall i | 0 <= i < n
      ensures s.weights[i] < s.maxWeight
    {
      PassPicksMembers(s, 0, n, i);
    }
  }

  /** The index moves on by one, wrapping from the last server to the first. */
  lemma NextIndex(i: int, n: int)
    requires n >= 1 && -1 <= i < n
    ensures (i + 1) % n == (if i + 1 < n then i + 1 else 0)
  {
    if i + 1 < n {
      Arith.DivModUnique(i + 1, n, 0, i + 1);
    } else {
      Arith.DivModUnique(i + 1, n, 1, 0);
    }
  }

  /** One step of the selection loop from (index i, weight w) in pass p moves
      to (i', w') in pass p', and extends the history exactly when server i'
      qualifies. */
  lemma Step(s: Schedule, p: nat, i: int, w: int, p': nat, i': int, w': int)
    requires s.Valid() && -1 <= i < |s.weights|
    requires i == -1 ==> w == 0 && p == 0
    requires i >= 0 ==> w == s.PassWeight(p)
    requires i' == (i + 1) % |s.weights|
    requires w' == (if i' != 0 then w else if w - s.gcd <= 0 then s.maxWeight else w - s.gcd)
    requires p' == (if i' == 0 && i >= 0 then p + 1 else p)
    ensures 0 <= i' < |s.weights| && w' == s.PassWeight(p')
    ensures 1 <= w' <= s.maxWeight
    ensures s.Passes(p') + s.PassPicks(p', i' + 1) ==
      s.Passes(p) + s.PassPicks(p, i + 1) + (if s.weights[i'] >= w' then [i'] else [])
  {
    NextIndex(i, |s.weights|);
    PassWeightBounds(s, p');
    if i' == 0 && i >= 0 {
      assert s.Passes(p') == s.Passes(p) + s.PassPicks(p, i + 1);
    }
  }

  /** Steps the index needs from `i` to reach `m` going round the list. */
  function Distance(i: int, m: int, n: int): int {
    if i < m then m - i else m - i + n
  }

  /** Each turn that does not land on m brings the index one step closer. */
  lemma DistanceStep(i: int, i': int, m: int, n: int)
    requires -1 <= i < n && 0 <= m < n
    requires i' == (if i + 1 < n then i + 1 else 0) && i' != m
    ensures 1 <= Distance(i', m, n) == Distance(i, m, n) - 1
  {
  }

  class WeightedRoundRobinStrategy {
    const servers: seq<Server>
    const weights: seq<int>
    const maxWeight: int
    const gcd: int
    var currentIndex: int
    var currentWeight: int
    /** The pass the index is in, and the indices chosen so far. */
    ghost var pass: nat
    ghost var history: seq<int>

    ghost function Sched(): Schedule {
      Schedule(weights, maxWeight, gcd)
    }

    ghost predicate Valid()
      reads this
    {
      && InPass()
      && history == Chosen()
    }

    /** Builds the strategy; an empty list is the case `Prepare` rejects. */
    constructor (servers: seq<Server>)
      requires Prepare(servers).Success?
      ensures Valid() && this.servers == servers
      ensures Prepare(servers) == Success(Sched())
      ensures currentIndex == -1 && currentWeight == 0 && history == []
    {
      var s := Prepare(servers).value;
      this.servers := servers;
      weights := s.weights;
      maxWeight := s.maxWeight;
      gcd := s.gcd;
      currentIndex := -1;
      currentWeight := 0;
      pass := 0;
      history := [];
    }

    /** The index and weight are where the schedule puts them in the
        current pass (before the first call: index -1, weight 0). */
    ghost predicate InPass()
      reads this
    {
      && Sched().Valid() && |weights| == |servers|
      && -1 <= currentIndex < |servers|
      && (currentIndex == -1 ==> currentWeight == 0 && pass == 0)
      && (currentIndex >= 0 ==> currentWeight == Sched().PassWeight(pass))
    }

    /** The choices the schedule has made up to the current position. */
    ghost function Chosen(): seq<int>
      reads this
      requires InPass()
    {
      Sched().Passes(pass) + Sched().PassPicks(pass, currentIndex + 1)
    }

    /** One turn of the selection loop: the index moves on, and on wrapping
        to the first server the weight drops by the gcd, back to the
        maximum when it would reach 0 or below. */
    method Advance()
      requires InPass()
      modifies this`currentIndex, this`currentWeight, this`pass
      ensures InPass() && 0 <= currentIndex < |servers|
      ensures currentIndex == if old(currentIndex) + 1 < |servers| then old(currentIndex) + 1 else 0
      ensures 1 <= currentWeight <= maxWeight
      ensures Chosen() == old(Chosen()) +
        (if weights[currentIndex] >= currentWeight then [currentIndex] else [])
      ensures old(Chosen()) == [] && weights[currentIndex] >= currentWeight ==>
        currentIndex == FirstMaxIndex(weights)
    {
      ghost var i, w, p := currentIndex, currentWeight, pass;
      currentIndex := (currentIndex + 1) % |servers|;
      if currentIndex == 0 {
        currentWeight := currentWeight - gcd;
        if currentWeight <= 0 {
          currentWeight := maxWeight;
        }
        if i >= 0 {
          pass := pass + 1;
        }
      }
      Step(Sched(), p, i, w, pass, currentIndex, currentWeight);
      NextIndex(i, |servers|);
      if Sched().Passes(p) + Sched().PassPicks(p, i + 1) == [] && weights[currentIndex] >= currentWeight {
        FirstChoice(Sched(), pass, currentIndex);
      }
    }

    /** Advances (index, weight) until a server's weight reaches the current
        weight, and returns that server. The loop ends within N turns,
        because a server of maximal weight always qualifies. */
    method GetNextServer() returns (server: Server, ghost steps: nat)
      requires Valid()
      modifies this
      ensures Valid()
      ensures 0 <= currentIndex < |servers| && server == servers[currentIndex]
      ensures 1 <= currentWeight <= maxWeight
      ensures weights[currentIndex] >= currentWeight
      ensures history == old(history) + [currentIndex]
      ensures old(history) == [] ==> currentIndex == FirstMaxIndex(weights)
      ensures 1 <= steps <= |servers|
    {
      ghost var m := FirstMaxIndex(weights);
      MaxWeightOf(Sched());
      ghost var start := Distance(currentIndex, m, |servers|);
      steps := 0;
      while true
        invariant InPass() && history == old(history) == Chosen()
        invariant steps + Distance(currentIndex, m, |servers|) == start <= |servers|
        decreases Distance(currentIndex, m, |servers|)
      {
        ghost var before := currentIndex;
        Advance();
        steps := steps + 1;
        if weights[currentIndex] >= currentWeight {
          history := history + [currentIndex];
          server := servers[currentIndex];
          return;
        }
        DistanceStep(before, currentIndex, m, |servers|);
      }
    }
  }

  /** Proportionality for a running strategy: once its history spans c
      whole cycles of passes, server j has been returned exactly
      c * (weight_j / gcd) times. */
  lemma StrategyShare(strategy: WeightedRoundRobinStrategy, c: nat, j: nat)
    requires strategy.Valid() && Prepare(strategy.servers) == Success(strategy.Sched())
    requires j < |strategy.servers|
    requires |strategy.history| == |strategy.Sched().Passes(strategy.Sched().CycleStart(c))|
    ensures multiset(strategy.history)[j] == c * (strategy.weights[j] / strategy.gcd)
  {
    var s := strategy.Sched();
    HistoryIsPasses(s, strategy.pass, strategy.currentIndex + 1, s.CycleStart(c));
    WeightedShare(s, c, j);
  }
}
