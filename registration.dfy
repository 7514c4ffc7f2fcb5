/** The choice of strategy at startup: an empty server list is fatal, and
    the configured name selects the strategy, with plain round robin for
    any name it does not know. */
module Registration {
  import opened Configurations
  import opened Wrappers
  import HashBased

  datatype StrategyKind =
    | RoundRobinKind
    | WeightedRoundRobinKind
    | StickyRoundRobinKind
    | HashBasedKind(mode: HashBased.HashMode)
    | LeastConnectionsKind

  /** The names the switch recognises. */
  const KnownNames: set<string> :=
    {"RoundRobin", "WeightedRoundRobin", "StickyRoundRobin", "IpHash", "UrlHash", "LeastConnections"}

  function ChooseStrategy(name: string, servers: seq<Server>): (r: Result<StrategyKind, string>)
    ensures r.Failure? <==> |servers| == 0
    ensures r.Success? && name !in KnownNames ==> r.value == RoundRobinKind
    ensures r.Success? && name == "IpHash" ==> r.value == HashBasedKind(HashBased.Ip)
    ensures r.Success? && name == "UrlHash" ==> r.value == HashBasedKind(HashBased.Url)
    ensures r.Success? && name == "WeightedRoundRobin" ==> r.value == WeightedRoundRobinKind
    ensures r.Success? && name == "StickyRoundRobin" ==> r.value == StickyRoundRobinKind
    ensures r.Success? && name == "LeastConnections" ==> r.value == LeastConnectionsKind
    ensures r.Success? && name == "RoundRobin" ==> r.value == RoundRobinKind
  {
    if |servers| == 0 then Failure("Invalid config.json: server list is empty.")
    else if name == "WeightedRoundRobin" then Success(WeightedRoundRobinKind)
    else if name == "StickyRoundRobin" then Success(StickyRoundRobinKind)
    else if name == "IpHash" then Success(HashBasedKind(HashBased.Ip))
    else if name == "UrlHash" then Success(HashBasedKind(HashBased.Url))
    else if name == "LeastConnections" then Success(LeastConnectionsKind)
    else Success(RoundRobinKind)
  }

  /** With the default name, a non-empty list gets plain round robin. */
  lemma DefaultIsRoundRobin(servers: seq<Server>)
    requires |servers| >= 1
    ensures ChooseStrategy(DefaultStrategyName, servers) == Success(RoundRobinKind)
  {
  }

  /** The throttler with its window and limit. */
  datatype ThrottlingKind = RejectingSlidingWindowKind(windowSize: int, requestLimit: int)

  /** Every throttling name, known or not, gets the rejecting sliding
      window with the configured window and limit. */
  function ChooseThrottling(name: string, windowSize: int, requestLimit: int): (r: ThrottlingKind)
    ensures r.windowSize == windowSize && r.requestLimit == requestLimit
  {
    if name == DefaultThrottlingName then RejectingSlidingWindowKind(windowSize, requestLimit)
    else RejectingSlidingWindowKind(windowSize, requestLimit)
  }

  /** The default throttling section: the sliding window admits 100 requests
      per one-second window. */
  lemma DefaultThrottling()
    ensures ChooseThrottling(DefaultThrottlingName, DefaultWindowSize, DefaultRequestLimit) ==
      RejectingSlidingWindowKind(TicksPerSecond, 100)
  {
  }
}
