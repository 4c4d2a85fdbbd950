/** Servers and server pools (nc_server.h, nc_server.cpp): the records
    built from the configuration, the failure counter that ejects a
    server, and the key-to-server choice. The hash function and the
    continuum dispatch live outside the shown source and are parameters;
    so is the pool rebuild a failure triggers. */
module Pools {
  import opened Common
  import opened Util
  import opened NcStr
  import opened Conf

  /** A connection, by identity. */
  type ConnRef = nat

  /** NcServer. `connQ` and `nsConn` are the server's connections and their
      count; a `None` in the queue is a NULL pointer, which getConn pushes
      when it rotates an empty queue. */
  datatype Server = Server(
    pname: NcString, name: NcString, addrstr: NcString, port: nat, weight: nat,
    info: SockInfo, connQ: seq<Option<ConnRef>>, nsConn: nat, nextRetry: int, failureCount: nat)

  /** NcContinuum. */
  datatype Continuum = Continuum(index: nat, value: nat)

  /** NcServerPool. `hasCtx` says whether the owning context is set;
      `pConn` is the proxy connection, `cConnQ` and `ncConn` the client
      connections and their count. */
  datatype ServerPool = ServerPool(
    hasCtx: bool, pConn: Option<ConnRef>, ncConn: nat, cConnQ: seq<ConnRef>,
    servers: seq<Server>, nlive: nat, nextRebuild: int,
    name: NcString, addrstr: NcString, port: nat, info: SockInfo, perm: nat,
    distType: int, keyHashType: int, hashTag: NcString, timeout: int, backlog: int,
    clientConnections: nat, serverConnections: nat, serverRetryTimeout: int,
    serverFailureLimit: nat, tcpkeepalive: bool, autoEjectHosts: bool,
    preconnect: bool, ncontinuum: nat, continuum: seq<Continuum>)

  /** NcServer::setConf: names and socket info are taken from the
      configured server, the port is truncated to 16 bits and the weight
      converted to 32 bits. The connection bookkeeping is left alone. */
  function ServerSetConf(s: Server, c: ConfServer): (r: Server)
    ensures r.port == U16(c.listen.port) && r.port < Two16 && r.weight == U32(c.weight)
    ensures r.name == c.listen.name && r.addrstr == c.listen.name && r.pname == c.listen.pname
    ensures r.info == c.listen.info
    ensures r.connQ == s.connQ && r.nsConn == s.nsConn
    ensures r.nextRetry == s.nextRetry && r.failureCount == s.failureCount
  {
    s.(name := c.listen.name, addrstr := c.listen.name, pname := c.listen.pname,
       port := U16(c.listen.port), info := c.listen.info, weight := U32(c.weight))
  }

  /** One new server per configured server, in configuration order; a new
      server's uninitialised fields are those of `blank`. */
  function NewServers(blank: Server, cs: seq<ConfServer>): (r: seq<Server>)
    ensures |r| == |cs|
    ensures forall i :: 0 <= i < |cs| ==> r[i] == ServerSetConf(blank, cs[i])
  {
    if cs == [] then [] else [ServerSetConf(blank, cs[0])] + NewServers(blank, cs[1..])
  }

  /** NcServerPool::setConf: live count and rebuild time cleared, listen
      data copied, tcpkeepalive normalised, limits converted (the retry
      timeout from milliseconds to microseconds), and the configured
      servers appended to the server list. auto_eject_hosts, preconnect,
      the hash tag, the distribution and the hash type are not copied. */
  function PoolSetConf(p: ServerPool, c: ConfPool, blank: Server): (r: ServerPool)
    ensures r.nlive == 0 && r.nextRebuild == 0
    ensures r.name == c.name && r.addrstr == c.listen.pname && r.port == U16(c.listen.port)
    ensures r.info == c.listen.info && r.perm == c.listen.perm
    ensures r.tcpkeepalive == c.tcpkeepalive && r.timeout == c.timeout && r.backlog == c.backlog
    ensures r.clientConnections == U32(c.clientConnections)
    ensures r.serverConnections == U32(c.serverConnections)
    ensures r.serverRetryTimeout == c.serverRetryTimeout * 1000
    ensures r.serverFailureLimit == U32(c.serverFailureLimit)
    ensures |r.servers| == |p.servers| + |c.servers| && r.servers[..|p.servers|] == p.servers
    ensures forall i :: 0 <= i < |c.servers| ==>
              r.servers[|p.servers| + i] == ServerSetConf(blank, c.servers[i])
    ensures r.autoEjectHosts == p.autoEjectHosts && r.preconnect == p.preconnect
    ensures r.hashTag == p.hashTag && r.distType == p.distType && r.keyHashType == p.keyHashType
    ensures r.hasCtx == p.hasCtx && r.cConnQ == p.cConnQ && r.ncConn == p.ncConn
    ensures r.pConn == p.pConn && r.continuum == p.continuum && r.ncontinuum == p.ncontinuum
  {
    p.(nlive := 0, nextRebuild := 0, name := c.name, addrstr := c.listen.pname,
       port := U16(c.listen.port), info := c.listen.info, perm := c.listen.perm,
       tcpkeepalive := c.tcpkeepalive, timeout := c.timeout, backlog := c.backlog,
       clientConnections := U32(c.clientConnections),
       serverConnections := U32(c.serverConnections),
       serverRetryTimeout := c.serverRetryTimeout * 1000,
       serverFailureLimit := U32(c.serverFailureLimit),
       servers := p.servers + NewServers(blank, c.servers))
  }

  /** The pool as its constructor leaves it: the context set and one
      continuum point; `junk` supplies every field the constructor does not
      initialise. */
  function NewServerPool(junk: ServerPool): (r: ServerPool)
    ensures r.hasCtx && r.ncontinuum == 1
    ensures r == junk.(hasCtx := true, ncontinuum := 1)
  {
    junk.(hasCtx := true, ncontinuum := 1)
  }

  /** A freshly constructed pool configured from an empty configuration
      has no server of its own: setConf only appends. */
  lemma SetConfAppends(p: ServerPool, c: ConfPool, blank: Server, c2: ConfPool)
    ensures PoolSetConf(PoolSetConf(p, c, blank), c2, blank).servers ==
            p.servers + NewServers(blank, c.servers) + NewServers(blank, c2.servers)
  {
  }

  /** Server `i` with its record replaced. */
  function WithServer(p: ServerPool, i: nat, s: Server): (r: ServerPool)
    requires i < |p.servers|
    ensures r == p.(servers := p.servers[i := s])
  {
    p.(servers := p.servers[i := s])
  }

  /** NcServer::failure for server `i` at time `now` (a negative `now` is a
      failed clock read). Without auto-ejection nothing happens. Otherwise
      the 32-bit failure count goes up; below the limit, or with a failed
      clock, that is all. At the limit the count is cleared, the server is
      ejected until now + retry timeout and the pool is rebuilt by
      `update`. */
  function Failure(p: ServerPool, i: nat, now: int, update: ServerPool -> ServerPool): (r: ServerPool)
    requires i < |p.servers|
    ensures !p.autoEjectHosts ==> r == p
    ensures p.autoEjectHosts && (U32(p.servers[i].failureCount + 1) < p.serverFailureLimit || now < 0) ==>
              r == WithServer(p, i, p.servers[i].(failureCount := U32(p.servers[i].failureCount + 1)))
    ensures p.autoEjectHosts && U32(p.servers[i].failureCount + 1) >= p.serverFailureLimit && now >= 0 ==>
              r == update(WithServer(p, i, p.servers[i].(failureCount := 0,
                                                         nextRetry := now + p.serverRetryTimeout)))
  {
    if !p.autoEjectHosts then p
    else
      var s := p.servers[i];
      var count := U32(s.failureCount + 1);
      if count < p.serverFailureLimit || now < 0 then WithServer(p, i, s.(failureCount := count))
      else update(WithServer(p, i, s.(failureCount := 0, nextRetry := now + p.serverRetryTimeout)))
  }

  /** With a failure limit of `k` > 0 and a working clock, the k-th
      consecutive failure ejects the server: k - 1 failures only count. */
  lemma FailuresBelowLimitOnlyCount(p: ServerPool, i: nat, now: int, update: ServerPool -> ServerPool)
    requires i < |p.servers| && p.autoEjectHosts && now >= 0
    requires p.servers[i].failureCount + 1 < p.serverFailureLimit < Two32
    ensures Failure(p, i, now, update).servers[i].failureCount == p.servers[i].failureCount + 1
    ensures Failure(p, i, now, update).servers[i].nextRetry == p.servers[i].nextRetry
    ensures forall j :: 0 <= j < |p.servers| && j != i ==> Failure(p, i, now, update).servers[j] == p.servers[j]
  {
  }

  /** The two bytes of the hash tag; a one-byte tag pairs its byte with the
      terminating NUL. */
  function TagBytes(t: NcString): (r: (byte, byte))
    requires NcStr.Valid(t) && t.len > 0
    ensures r.0 == Content(t)[0]
    ensures t.len > 1 ==> r.1 == Content(t)[1]
    ensures t.len == 1 ==> r.1 == Nul
  {
    (t.data.value[0], t.data.value[1])
  }

  /** The bytes index() hashes, as a range [lo, hi) of `buf`, whose first
      `keylen` bytes are the key; the byte at `keylen` is the one the scan
      reads at the end of the key. With a hash tag whose opening byte is
      found, and whose closing byte is found more than one byte later, only
      the bytes strictly between the two are hashed; otherwise the whole
      key is. */
  function HashedRange(tag: NcString, buf: seq<byte>, keylen: nat): (r: (nat, nat))
    requires NcStr.Valid(tag) && keylen < |buf|
    ensures r.0 <= r.1 <= keylen
    ensures tag.len == 0 ==> r == (0, keylen)
    ensures r != (0, keylen) ==> r.0 < r.1
  {
    if tag.len == 0 then (0, keylen)
    else
      var (open, close) := TagBytes(tag);
      match StrChr(buf, 0, keylen, open)
      case None => (0, keylen)
      case Some(s) =>
        match StrChr(buf, s + 1, keylen, close)
        case None => (0, keylen)
        case Some(e) => if e - s > 1 then ((s + 1) as nat, e as nat) else (0, keylen)
  }

  /** With no NUL in the key, the hashed bytes are those between the first
      opening byte and the first closing byte after it, provided both lie
      before the last byte of the key and are more than one byte apart;
      otherwise the whole key is hashed. */
  lemma HashedRangeBetweenTags(tag: NcString, buf: seq<byte>, keylen: nat)
    requires NcStr.Valid(tag) && tag.len > 0 && keylen < |buf|
    requires forall j :: 0 <= j < keylen ==> buf[j] != Nul
    ensures var (open, close) := TagBytes(tag);
      var i := FirstIndex(buf, 0, keylen, open);
      (i + 1 < keylen ==>
        var j := FirstIndex(buf, i + 1, keylen, close);
        (j + 1 < keylen && j - i > 1 ==> HashedRange(tag, buf, keylen) == (i + 1, j)) &&
        (j + 1 >= keylen || j - i <= 1 ==> HashedRange(tag, buf, keylen) == (0, keylen))) &&
      (i + 1 >= keylen ==> HashedRange(tag, buf, keylen) == (0, keylen))
  {
    var (open, close) := TagBytes(tag);
    StrChrFindsFirst(buf, 0, keylen, open);
    var i := FirstIndex(buf, 0, keylen, open);
    if i + 1 < keylen {
      StrChrFindsFirst(buf, i + 1, keylen, close);
    }
  }

  /** NcServerPool::index: the pool's dispatch of the 32-bit hash of the
      hashed bytes. The assignments of 0 for a single server or an empty
      key are dead stores: the hash is always taken. */
  function Index(p: ServerPool, buf: seq<byte>, keylen: nat,
                 hash: (int, seq<byte>) -> nat, dispatch: (ServerPool, nat) -> nat): (r: nat)
    requires NcStr.Valid(p.hashTag) && keylen < |buf|
    ensures var (lo, hi) := HashedRange(p.hashTag, buf, keylen);
      r == U32(dispatch(p, U32(hash(p.keyHashType, buf[lo..hi]))))
  {
    var (lo, hi) := HashedRange(p.hashTag, buf, keylen);
    U32(dispatch(p, U32(hash(p.keyHashType, buf[lo..hi]))))
  }

  /** Without a hash tag the whole key is hashed, whatever the number of
      servers or the key length. */
  lemma IndexHashesWholeKey(p: ServerPool, buf: seq<byte>, keylen: nat,
                            hash: (int, seq<byte>) -> nat, dispatch: (ServerPool, nat) -> nat)
    requires NcStr.Valid(p.hashTag) && p.hashTag.len == 0 && keylen < |buf|
    ensures Index(p, buf, keylen, hash, dispatch) == U32(dispatch(p, U32(hash(p.keyHashType, buf[..keylen]))))
  {
    assert buf[0..keylen] == buf[..keylen];
  }

  /** The inline getConn's choice: server index(key) modulo the number of
      servers. */
  function PickServer(p: ServerPool, idx: nat): (r: nat)
    requires |p.servers| > 0
    ensures r < |p.servers|
    ensures idx < |p.servers| ==> r == idx
  {
    idx % |p.servers|
  }
}
