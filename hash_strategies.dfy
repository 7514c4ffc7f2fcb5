/** Hash-based selection: the server is chosen by hashing a key taken from
    the request, the peer address or the request path, and reducing the
    hash modulo the number of servers. The digest (the first four bytes of
    an MD5 digest, read as an unsigned 32-bit integer) is a parameter. */
module HashBased {
  import opened Configurations
  import opened Wrappers
  import opened Http

  /** The 32-bit unsigned results of the digest. */
  type U32 = x: int | 0 <= x < 0x1_0000_0000

  /** Which part of the request is hashed. */
  datatype HashMode = Ip | Url

  /** The mode used when none is given. */
  const DefaultMode: HashMode := Ip

  /** The key to hash: the peer address in Ip mode, the request path in
      Url mode, "" when the context or the address is missing. */
  function HashKey(mode: HashMode, context: Option<HttpContext>): (key: string)
    ensures context.None? ==> key == ""
    ensures mode == Ip && context.Some? && context.value.remoteIp.Some? ==> key == context.value.remoteIp.value
    ensures mode == Ip && context.Some? && context.value.remoteIp.None? ==> key == ""
    ensures mode == Url && context.Some? ==> key == context.value.path
  {
    match mode
    case Ip => RemoteIpOf(context).GetOr("")
    case Url => PathOf(context)
  }

  /** The index a hash selects among n servers. */
  function IndexOf(hash: U32, n: nat): (k: nat)
    requires n >= 1
    ensures k < n
    ensures exists q :: 0 <= q && hash == q * n + k
  {
    var k := hash % n;
    assert hash == (hash / n) * n + k;
    k
  }

  /** The strategy holds only read-only data, so it is a value. */
  datatype HashBasedStrategy = HashBasedStrategy(servers: seq<Server>, mode: HashMode) {

    /** The server for the request: the one at index hash(key) mod N. The
        list is non-empty because startup refuses an empty one. */
    function GetNextServer(context: Option<HttpContext>, hash: string -> U32): (server: Server)
      requires |servers| >= 1
      ensures server in servers
      ensures server == servers[IndexOf(hash(HashKey(mode, context)), |servers|)]
    {
      servers[hash(HashKey(mode, context)) % |servers|]
    }
  }

  /** A strategy built without a mode hashes the peer address. */
  function Create(servers: seq<Server>, mode: Option<HashMode>): (r: HashBasedStrategy)
    ensures r.servers == servers
    ensures mode.None? ==> r.mode == Ip
    ensures mode.Some? ==> r.mode == mode.value
  {
    HashBasedStrategy(servers, mode.GetOr(DefaultMode))
  }

  /** Requests with the same key go to the same server, however many
      requests come in between: the choice depends on nothing else. */
  lemma SameKeySameServer(strategy: HashBasedStrategy, a: Option<HttpContext>, b: Option<HttpContext>,
                          hash: string -> U32)
    requires |strategy.servers| >= 1
    requires HashKey(strategy.mode, a) == HashKey(strategy.mode, b)
    ensures strategy.GetNextServer(a, hash) == strategy.GetNextServer(b, hash)
  {
  }

  /** In Ip mode only the address matters: requests from one address with
      any paths and cookies share a server. In Url mode only the path
      matters. */
  lemma ModeKeysOnly(servers: seq<Server>, a: HttpContext, b: HttpContext, hash: string -> U32)
    requires |servers| >= 1
    ensures a.remoteIp == b.remoteIp ==>
      HashBasedStrategy(servers, Ip).GetNextServer(Some(a), hash) ==
      HashBasedStrategy(servers, Ip).GetNextServer(Some(b), hash)
    ensures a.path == b.path ==>
      HashBasedStrategy(servers, Url).GetNextServer(Some(a), hash) ==
      HashBasedStrategy(servers, Url).GetNextServer(Some(b), hash)
  {
  }
}

/** The older address-hashing strategy. */
module IpHash {
  import opened Configurations
  import opened Wrappers
  import opened Http
  import HashBased

  datatype IpHashStrategy = IpHashStrategy(servers: seq<Server>) {

    /** Hashes the peer address ("" when missing) and picks the server at
        that hash modulo N; this is exactly the general strategy in Ip
        mode. */
    function GetNextServer(context: Option<HttpContext>, hash: string -> HashBased.U32): (server: Server)
      requires |servers| >= 1
      ensures server in servers
      ensures server == HashBased.HashBasedStrategy(servers, HashBased.Ip).GetNextServer(context, hash)
    {
      var ip := RemoteIpOf(context).GetOr("");
      servers[hash(ip) % |servers|]
    }
  }
}

/** The older path-hashing strategy. */
module UrlHash {
  import opened Configurations
  import opened Wrappers
  import opened Http
  import HashBased

  datatype UrlHashStrategy = UrlHashStrategy(servers: seq<Server>) {

    /** Hashes the request path ("" without a context) and picks the server
        at that hash modulo N; this is exactly the general strategy in Url
        mode. */
    function GetNextServer(context: Option<HttpContext>, hash: string -> HashBased.U32): (server: Server)
      requires |servers| >= 1
      ensures server in servers
      ensures server == HashBased.HashBasedStrategy(servers, HashBased.Url).GetNextServer(context, hash)
    {
      var url := PathOf(context);
      servers[hash(url) % |servers|]
    }
  }
}
