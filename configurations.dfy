/** The typed configuration records the strategies are built from.
    Time is measured in integer ticks of 100 ns, as .NET's `TimeSpan` and
    `DateTime` count them. */
module Configurations {

  /** One upstream target. The weight is read by the weighted round robin
      only; a weight that is not positive counts as 1 there. */
  datatype Server = Server(url: string, weight: int)

  const TicksPerSecond: int := 10_000_000

  /** Defaults of the load-balancer section. */
  const DefaultStrategyName: string := "RoundRobin"
  const DefaultStickyDuration: int := 30 * 60 * TicksPerSecond

  /** Defaults of the throttling section. */
  const DefaultThrottlingName: string := "RejectingSlidingWindow"
  const DefaultRequestLimit: int := 100
  const DefaultWindowSize: int := TicksPerSecond

  /** The set of URLs of a server list: the keys of every per-server map. */
  ghost function Urls(servers: seq<Server>): set<string> {
    set s | s in servers :: s.url
  }
}
