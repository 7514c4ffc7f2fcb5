/** Sticky round robin: a client is bound to the server it was first given
    for a fixed time. The binding is keyed by the client's "sticky" cookie,
    else its address, else a fresh id that is handed back as a new cookie.
    New bindings take servers from an embedded plain round robin. */
module StickyRoundRobin {
  import opened Configurations
  import opened Wrappers
  import opened Http
  import Arith
  import RoundRobin

  const StickyCookieName: string := "sticky"

  /** The value of the request's "sticky" cookie, "" when there is none. */
  function CookieValue(context: Option<HttpContext>): (v: string)
    ensures context.Some? && context.value.stickyCookie.Some? ==> v == context.value.stickyCookie.value
    ensures context.None? || context.value.stickyCookie.None? ==> v == ""
  {
    match context
    case Some(c) => c.stickyCookie.GetOr("")
    case None => ""
  }

  /** The peer address as text, "" when there is none. */
  function AddressValue(context: Option<HttpContext>): (v: string)
    ensures context.Some? && context.value.remoteIp.Some? ==> v == context.value.remoteIp.value
    ensures context.None? || context.value.remoteIp.None? ==> v == ""
  {
    RemoteIpOf(context).GetOr("")
  }

  /** The key a request is known by, and the cookie appended to the
      response, if any. */
  datatype ClientId = ClientId(key: string, cookie: Option<Cookie>)

  /** The client key, by priority: a non-empty sticky cookie, else a
      non-empty address, else `freshId`. Only the last case appends a cookie
      carrying the key, and only when there is a response to append it to.
      `freshId` stands for the newly generated GUID, `now` for the clock. */
  function GetClientIdentifier(context: Option<HttpContext>, freshId: string, now: int, duration: int): (r: ClientId)
    ensures CookieValue(context) != "" ==> r.key == CookieValue(context)
    ensures CookieValue(context) == "" && AddressValue(context) != "" ==> r.key == AddressValue(context)
    ensures CookieValue(context) == "" && AddressValue(context) == "" ==> r.key == freshId
    ensures r.cookie.Some? <==> CookieValue(context) == "" && AddressValue(context) == "" && context.Some?
    ensures r.cookie.Some? ==> r.cookie.value == Cookie(StickyCookieName, r.key, now + duration, true, Lax)
  {
    var cookie := CookieValue(context);
    if cookie != "" then ClientId(cookie, None)
    else
      var address := AddressValue(context);
      if address != "" then ClientId(address, None)
      else
        var appended := if context.Some? then Some(Cookie(StickyCookieName, freshId, now + duration, true, Lax)) else None;
        ClientId(freshId, appended)
  }

  /** A client that sends back the cookie it was given is known by the same
      key on its next request, whatever its address. */
  lemma CookieRoundTrip(first: HttpContext, freshId: string, now: int, duration: int,
                        next: HttpContext, freshId': string, now': int)
    requires freshId != ""
    requires GetClientIdentifier(Some(first), freshId, now, duration).cookie.Some?
    requires next.stickyCookie == Some(GetClientIdentifier(Some(first), freshId, now, duration).cookie.value.value)
    ensures GetClientIdentifier(Some(next), freshId', now', duration).key ==
      GetClientIdentifier(Some(first), freshId, now, duration).key
    ensures GetClientIdentifier(Some(next), freshId', now', duration).cookie == None
  {
  }

  /** A binding of a client key to a server, valid while the clock is
      strictly before `expiry`. */
  datatype Session = Session(server: Server, expiry: int)

  /** The mutable part of the strategy: the sessions and the embedded round
      robin's index. */
  datatype SessionState = SessionState(sessions: map<string, Session>, index: nat)

  /** What one request does: the server, whether an unexpired session was
      found, and the state afterwards. */
  datatype Outcome = Outcome(server: Server, hit: bool, state: SessionState)

  /** A session is live at `now` when its expiry lies strictly after it. */
  predicate Live(sessions: map<string, Session>, key: string, now: int) {
    key in sessions && sessions[key].expiry > now
  }

  /** One request for `key` at `now`, as a function of the state. */
  function Serve(servers: seq<Server>, duration: int, st: SessionState, key: string, now: int): (o: Outcome)
    requires st.index < |servers|
    ensures o.state.index < |servers|
    ensures o.hit <==> Live(st.sessions, key, now)
  {
    if Live(st.sessions, key, now) then Outcome(st.sessions[key].server, true, st)
    else
      var server := servers[st.index];
      Outcome(server, false, SessionState(st.sessions[key := Session(server, now + duration)], (st.index + 1) % |servers|))
  }

  /** Only the requested key's session can change, and only on a miss: then
      it is bound afresh to the round robin's server until now + duration.
      A hit never extends the expiry, and a session expiring exactly now is
      not live. */
  lemma ServeLocal(servers: seq<Server>, duration: int, st: SessionState, key: string, now: int)
    requires st.index < |servers|
    ensures var o := Serve(servers, duration, st, key, now);
      && (o.hit <==> key in st.sessions && now < st.sessions[key].expiry)
      && (o.hit ==> o.server == st.sessions[key].server && o.state == st)
      && (!o.hit ==> o.server == servers[st.index] && o.state.index == (st.index + 1) % |servers|)
      && (!o.hit ==> key in o.state.sessions && o.state.sessions[key] == Session(o.server, now + duration))
      && o.state.sessions.Keys == st.sessions.Keys + {key}
      && (forall k :: k in st.sessions && k != key ==> o.state.sessions[k] == st.sessions[k])
  {
  }

  /** A request already resolved to its client key. */
  datatype Request = Request(key: string, now: int)

  /** The servers returned for a run of requests, which of them were hits,
      and the final state. */
  datatype Trace = Trace(served: seq<Server>, hits: seq<bool>, state: SessionState)

  function Run(servers: seq<Server>, duration: int, st: SessionState, requests: seq<Request>): (t: Trace)
    requires st.index < |servers|
    ensures |t.served| == |requests| && |t.hits| == |requests| && t.state.index < |servers|
  {
    if requests == [] then Trace([], [], st)
    else
      var t := Run(servers, duration, st, requests[..|requests| - 1]);
      var r := requests[|requests| - 1];
      var o := Serve(servers, duration, t.state, r.key, r.now);
      Trace(t.served + [o.server], t.hits + [o.hit], o.state)
  }

  /** The number of misses in a run. */
  function Misses(hits: seq<bool>): nat {
    if hits == [] then 0 else Misses(hits[..|hits| - 1]) + (if hits[|hits| - 1] then 0 else 1)
  }

  /** Stickiness: while the clock stays before a session's expiry, every
      request for its key, among any requests for other keys, is a hit that
      returns the bound server, and the session itself is left as it was. */
  lemma {:induction false} StickyUntilExpiry(servers: seq<Server>, duration: int, st: SessionState,
                                             requests: seq<Request>, key: string)
    requires st.index < |servers| && key in st.sessions
    requires forall i :: 0 <= i < |requests| ==> requests[i].now < st.sessions[key].expiry
    ensures var t := Run(servers, duration, st, requests);
      key in t.state.sessions && t.state.sessions[key] == st.sessions[key]
    ensures var t := Run(servers, duration, st, requests);
      forall i :: 0 <= i < |requests| && requests[i].key == key ==>
        t.hits[i] && t.served[i] == st.sessions[key].server
  {
    if requests != [] {
      var init := requests[..|requests| - 1];
      StickyUntilExpiry(servers, duration, st, init, key);
      var t := Run(servers, duration, st, init);
      var r := requests[|requests| - 1];
      ServeLocal(servers, duration, t.state, r.key, r.now);
      forall i | 0 <= i < |init|
        ensures init[i] == requests[i]
      {
      }
    }
  }

  /** With the default session lifetime, a client bound by a miss keeps its
      server for every request of its key during the next 30 minutes,
      whatever other clients do meanwhile. */
  lemma DefaultSessionLasts(servers: seq<Server>, st: SessionState, key: string, now: int,
                            requests: seq<Request>)
    requires st.index < |servers| && !Live(st.sessions, key, now)
    requires forall i :: 0 <= i < |requests| ==> requests[i].now - now < 30 * 60 * TicksPerSecond
    ensures var o := Serve(servers, DefaultStickyDuration, st, key, now);
      var t := Run(servers, DefaultStickyDuration, o.state, requests);
      forall i :: 0 <= i < |requests| && requests[i].key == key ==>
        t.hits[i] && t.served[i] == servers[st.index]
  {
    var o := Serve(servers, DefaultStickyDuration, st, key, now);
    ServeLocal(servers, DefaultStickyDuration, st, key, now);
    StickyUntilExpiry(servers, DefaultStickyDuration, o.state, requests, key);
  }

  /** The embedded round robin moves only on misses: after a run its index
      has advanced once per miss. */
  lemma {:induction false} IndexAfterRun(servers: seq<Server>, duration: int, st: SessionState,
                                         requests: seq<Request>)
    requires st.index < |servers|
    ensures var t := Run(servers, duration, st, requests);
      t.state.index == (st.index + Misses(t.hits)) % |servers|
  {
    var n := |servers|;
    if requests == [] {
      Arith.DivModUnique(st.index, n, 0, st.index);
    } else {
      var init := requests[..|requests| - 1];
      IndexAfterRun(servers, duration, st, init);
      var t := Run(servers, duration, st, init);
      var t' := Run(servers, duration, st, requests);
      assert t'.hits[..|init|] == t.hits;
      Arith.ModSucc(st.index + Misses(t.hits), n);
    }
  }

  /** The servers handed out on misses, in order. */
  function MissServers(served: seq<Server>, hits: seq<bool>): seq<Server>
    requires |served| == |hits|
  {
    if hits == [] then []
    else
      var n := |hits| - 1;
      MissServers(served[..n], hits[..n]) + (if hits[n] then [] else [served[n]])
  }

  /** m servers in list order, starting at `start` and wrapping around. */
  function CyclicFrom(servers: seq<Server>, start: nat, m: nat): (r: seq<Server>)
    requires |servers| >= 1
    ensures |r| == m
  {
    if m == 0 then [] else CyclicFrom(servers, start, m - 1) + [servers[(start + m - 1) % |servers|]]
  }

  /** Extending a run by one request adds its server to the miss servers
      and one to the miss count exactly when it is a miss. */
  lemma MissStep(served: seq<Server>, hits: seq<bool>, server: Server, hit: bool)
    requires |served| == |hits|
    ensures MissServers(served + [server], hits + [hit]) ==
      MissServers(served, hits) + (if hit then [] else [server])
    ensures Misses(hits + [hit]) == Misses(hits) + (if hit then 0 else 1)
  {
    assert (served + [server])[..|served|] == served;
    assert (hits + [hit])[..|hits|] == hits;
  }

  /** Successive new bindings follow cyclic order: the servers given out on
      the misses of a run are the round robin's servers from the starting
      index onwards, one per miss. */
  lemma {:induction false} AssignmentsAreCyclic(servers: seq<Server>, duration: int, st: SessionState,
                                                requests: seq<Request>)
    requires st.index < |servers|
    ensures var t := Run(servers, duration, st, requests);
      MissServers(t.served, t.hits) == CyclicFrom(servers, st.index, Misses(t.hits))
  {
    if requests != [] {
      var init := requests[..|requests| - 1];
      AssignmentsAreCyclic(servers, duration, st, init);
      IndexAfterRun(servers, duration, st, init);
      var t := Run(servers, duration, st, init);
      var r := requests[|requests| - 1];
      var o := Serve(servers, duration, t.state, r.key, r.now);
      MissStep(t.served, t.hits, o.server, o.hit);
      CyclicExtend(servers, st.index, Misses(t.hits), o.server, o.hit);
    }
  }

  /** A hit leaves the cyclic sequence as it is; a miss on the next server
      in cyclic order extends it by one. */
  lemma CyclicExtend(servers: seq<Server>, start: nat, m: nat, server: Server, hit: bool)
    requires |servers| >= 1
    requires !hit ==> server == servers[(start + m) % |servers|]
    ensures CyclicFrom(servers, start, m) + (if hit then [] else [server]) ==
      CyclicFrom(servers, start, m + (if hit then 0 else 1))
  {
  }

  class StickyRoundRobinStrategy {
    const servers: seq<Server>
    const duration: int
    var sessions: map<string, Session>
    const roundRobin: RoundRobin.RoundRobinStrategy

    ghost predicate Valid()
      reads this, roundRobin
    {
      roundRobin.Valid() && roundRobin.servers == servers
    }

    /** No sessions yet; the embedded round robin starts at the first
        server. The list is non-empty because startup refuses an empty one. */
    constructor (servers: seq<Server>, duration: int)
      requires |servers| >= 1
      ensures Valid() && fresh(roundRobin)
      ensures this.servers == servers && this.duration == duration
      ensures sessions == map[] && roundRobin.currentIndex == 0
    {
      this.servers := servers;
      this.duration := duration;
      sessions := map[];
      roundRobin := new RoundRobin.RoundRobinStrategy(servers);
    }

    /** Resolves the client key, returns the bound server while its session
        is live, and otherwise binds the key to the round robin's next
        server until now + duration. `cookie` is what the response gets. */
    method GetNextServer(context: Option<HttpContext>, freshId: string, now: int)
      returns (server: Server, cookie: Option<Cookie>)
      requires Valid()
      modifies this, roundRobin
      ensures Valid()
      ensures var id := GetClientIdentifier(context, freshId, now, duration);
        && cookie == id.cookie
        && Serve(servers, duration, SessionState(old(sessions), old(roundRobin.currentIndex)), id.key, now) ==
          Outcome(server, Live(old(sessions), id.key, now), SessionState(sessions, roundRobin.currentIndex))
      ensures var key := GetClientIdentifier(context, freshId, now, duration).key;
        if Live(old(sessions), key, now) then
          server == old(sessions)[key].server && sessions == old(sessions) &&
          roundRobin.picks == old(roundRobin.picks) && roundRobin.currentIndex == old(roundRobin.currentIndex)
        else
          server == servers[|old(roundRobin.picks)| % |servers|] &&
          sessions == old(sessions)[key := Session(server, now + duration)] &&
          roundRobin.picks == old(roundRobin.picks) + [old(roundRobin.currentIndex)]
    {
      var id := GetClientIdentifier(context, freshId, now, duration);
      cookie := id.cookie;
      if id.key in sessions && sessions[id.key].expiry > now {
        server := sessions[id.key].server;
        return;
      }
      server := roundRobin.GetNextServer();
      sessions := sessions[id.key := Session(server, now + duration)];
    }
  }
}
