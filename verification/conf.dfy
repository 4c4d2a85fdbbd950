/** The configuration layer of nc_conf.h and nc_conf.cpp: the default
    values of the configuration records, the splitters for "host:port",
    "path [perm]", "host:port:weight" and "path [perm] weight", the key
    handler, and the event-driven stack machine of parseCore. libyaml is
    not modelled: parseCore consumes an abstract list of events. Outcomes
    of foreign calls travel with the scalar they belong to: the result of
    the octal strtol() on a permission field and the outcome of the name
    lookup for a host name. */
module Conf {
  import opened Common
  import opened Util
  import opened NcStr

  /** CONF_ROOT_DEPTH and CONF_MAX_DEPTH. */
  const ConfRootDepth: nat := 1
  const ConfMaxDepth: nat := ConfRootDepth + 1

  /** The NcConfPool defaults. */
  const DefaultTimeout: int := -1
  const DefaultListenBacklog: int := 512
  const DefaultClientConnections: int := 0
  const DefaultServerConnections: int := 1
  const DefaultServerRetryTimeout: int := 30000
  const DefaultServerFailureLimit: int := 2

  /** The greatest permission a unix socket may be given, 0777. */
  const MaxPerm: nat := 511

  /** A status the source never returns: reaching it means the source's
      behaviour is undefined at that point (popping an empty argument stack,
      or handling a key before any pool exists, which dereferences NULL). */
  const UndefinedBehaviour: int := -100

  /** The keys the handler acts on, "listen" and "servers". */
  const ListenKey: seq<byte> := [108, 105, 115, 116, 101, 110]
  const ServersKey: seq<byte> := [115, 101, 114, 118, 101, 114, 115]

  /** What strtol(perm, NULL, 8) returned and the errno it left. */
  datatype Strtol = Strtol(value: int, errno: int)

  /** NcConfListen. */
  datatype ConfListen = ConfListen(pname: NcString, name: NcString, port: int,
                                   perm: nat, info: SockInfo, valid: bool)

  /** NcConfServer: a listen record plus a weight. */
  datatype ConfServer = ConfServer(listen: ConfListen, weight: int)

  /** NcConfPool. The configured servers are kept in configuration order. */
  datatype ConfPool = ConfPool(
    name: NcString, listen: ConfListen, hashTag: NcString, timeout: int,
    backlog: int, clientConnections: int, tcpkeepalive: bool, preconnect: bool,
    autoEjectHosts: bool, serverConnections: int, serverRetryTimeout: int,
    serverFailureLimit: int, servers: seq<ConfServer>)

  /** A listen record as constructed: not valid and with empty strings. The
      port, permission and socket info are never initialised; they are
      modelled as zero. */
  function NewListen(): (l: ConfListen)
    ensures !l.valid && l.pname.len == 0 && l.name.len == 0
  {
    ConfListen(EmptyString(), EmptyString(), 0, 0, SockInfo(0, 0, []), false)
  }

  /** A server record as constructed: weight 0 and not valid. */
  function NewServer(): (s: ConfServer)
    ensures s.weight == 0 && !s.listen.valid
  {
    ConfServer(NewListen(), 0)
  }

  /** A pool as constructed, with the CONF_DEFAULT_* values. */
  function NewPool(): (p: ConfPool)
    ensures p.timeout == -1 && p.backlog == 512 && p.clientConnections == 0
    ensures !p.tcpkeepalive && !p.preconnect && !p.autoEjectHosts
    ensures p.serverConnections == 1 && p.serverRetryTimeout == 30000
    ensures p.serverFailureLimit == 2 && p.servers == [] && !p.listen.valid
  {
    ConfPool(EmptyString(), NewListen(), EmptyString(), DefaultTimeout,
             DefaultListenBacklog, DefaultClientConnections, false, false, false,
             DefaultServerConnections, DefaultServerRetryTimeout,
             DefaultServerFailureLimit, [])
  }

  /** `_nc_strrchr(p, start, c)` over the bytes of a string with no NUL in
      [0, p]: the last `c` in (0, p], if any. A `c` at index 0 is not
      found. */
  function SplitLast(v: seq<byte>, p: int, c: byte): (r: Option<nat>)
    requires -1 <= p < |v| && forall j :: 0 <= j <= p ==> v[j] != Nul
    ensures r.Some? ==> 0 < r.value <= p && v[r.value] == c &&
                        forall j :: r.value < j <= p ==> v[j] != c
    ensures r.None? ==> forall j :: 0 < j <= p ==> v[j] != c
  {
    StrRChrFindsLast(v, p, 0, c);
    match StrRChr(v, p, 0, c)
    case None => None
    case Some(i) => Some(i as nat)
  }

  /** The bytes of a well-formed string, content and NUL. */
  function Buf(s: NcString): (v: seq<byte>)
    requires NcStr.Valid(s)
    ensures |v| == s.len + 1 && v[..s.len] == Content(s) && v[s.len] == Nul
    ensures forall j :: 0 <= j < s.len ==> v[j] != Nul
  {
    assert forall j :: 0 <= j < s.len ==> s.data.value[j] == Content(s)[j];
    s.data.value
  }

  /** The common tail of both parsers: pname becomes a copy of the value,
      name the first `namelen` bytes, and the name is resolved; only a
      successful resolution sets the info and marks the record valid. */
  function Finish(l: ConfListen, value: NcString, namelen: nat, lookup: Option<SockInfo>): (r: (int, ConfListen))
    requires NcStr.Valid(value) && namelen <= value.len
    ensures r.1.pname == value && NcStr.Valid(r.1.name)
    ensures Content(r.1.name) == Content(value)[..namelen]
    ensures r.1.port == l.port && r.1.perm == l.perm
    ensures r.0 == Ok || r.0 == Error
    ensures r.0 == Ok <==> Resolve(Some(Content(value)[..namelen]), l.info, lookup).0 == 0
    ensures r.0 == Ok ==> r.1.valid && r.1.info == Resolve(Some(Content(value)[..namelen]), l.info, lookup).1
    ensures r.0 == Error ==> r.1.valid == l.valid && r.1.info == l.info
  {
    var v := Buf(value);
    assert v[..namelen] == Content(value)[..namelen];
    var name := FromBytes(v, namelen, true);
    assert value.data.value == Content(value) + [Nul];
    var l' := l.(pname := Assign(l.pname, value, false, true), name := name);
    var res := Resolve(Some(v[..namelen]), l.info, lookup);
    if res.0 != 0 then (Error, l') else (Ok, l'.(info := res.1, valid := true))
  }

  /** NcConfListen::parse. A value starting with '/' is "path [perm]": the
      permission after the last space (not at index 0) is read as octal and
      must come with errno 0 and be at most 0777; with no space the whole
      value is the path. Anything else is "host:port", split at the last
      ':' (not at index 0), whose port must be a decimal in [1, 65535]. */
  function ListenParse(l: ConfListen, value: NcString, perm: Strtol, lookup: Option<SockInfo>): (r: (int, ConfListen))
    requires NcStr.Valid(value)
    ensures r.0 == Ok || r.0 == Error
    ensures r.0 == Ok ==> r.1.valid && r.1.pname == value
  {
    var v := Buf(value);
    var n := value.len;
    if v[0] == '/' as byte then
      var q := SplitLast(v, n - 1, ' ' as byte);
      if q.None? then Finish(l, value, n, lookup)
      else
        var pm := U32(perm.value);
        if perm.errno != 0 || pm > MaxPerm then (Error, l.(perm := pm))
        else Finish(l.(perm := pm), value, q.value, lookup)
    else
      var q := SplitLast(v, n - 1, ':' as byte);
      if q.None? then (Error, l)
      else
        var port := Atoi(v[q.value + 1..n]);
        if port < 0 || !ValidPort(port) then (Error, l.(port := port))
        else Finish(l.(port := port), value, q.value, lookup)
  }

  /** The string "h:d" with its terminating NUL. */
  function Joined(h: seq<byte>, sep: byte, d: seq<byte>): (s: NcString)
    requires NoNul(h) && NoNul(d) && sep != Nul
    ensures NcStr.Valid(s) && Content(s) == h + [sep] + d
  {
    var c := h + [sep] + d;
    assert c + [Nul] == (h + [sep] + d) + [Nul];
    assert (c + [Nul])[..|c|] == c;
    NcString(|c|, Some(c + [Nul]))
  }

  predicate NoByte(s: seq<byte>, c: byte) {
    forall j :: 0 <= j < |s| ==> s[j] != c
  }

  /** A digit is never ':' or ' '. */
  lemma DigitsHaveNoSeparator(d: seq<byte>)
    requires AllDigits(d)
    ensures NoByte(d, ':' as byte) && NoByte(d, ' ' as byte) && NoNul(d)
  {
  }

  /** "host:port" round trip: for a host that does not start with '/' and
      a port written in decimal within [1, 65535], the parse keeps the host
      as the name and the number as the port, and succeeds exactly when the
      host resolves. */
  lemma ListenInetRoundTrip(l: ConfListen, h: seq<byte>, d: seq<byte>, perm: Strtol, lookup: Option<SockInfo>)
    requires h != [] && NoNul(h) && h[0] != '/' as byte
    requires d != [] && AllDigits(d) && 1 <= DecimalValue(d) < Two16
    ensures var r := ListenParse(l, Joined(h, ':' as byte, d), perm, lookup);
      r.1.port == DecimalValue(d) && NcStr.Valid(r.1.name) && Content(r.1.name) == h &&
      (r.0 == Ok <==> lookup.Some?) && (r.0 == Ok ==> r.1.valid && r.1.info == lookup.value)
  {
    DigitsHaveNoSeparator(d);
    var value := Joined(h, ':' as byte, d);
    var v := Buf(value);
    var n := value.len;
    assert v[0] == h[0];
    assert v[|h|] == ':' as byte;
    assert forall j :: |h| < j <= n - 1 ==> v[j] == d[j - |h| - 1];
    var q := SplitLast(v, n - 1, ':' as byte);
    assert q == Some(|h|);
    assert v[|h| + 1..n] == d;
    AtoiExact(d);
    assert Content(value)[..|h|] == h;
  }

  /** A host part left empty hides the only ':' at index 0, so ":port" is
      rejected. */
  lemma ListenEmptyHostRejected(l: ConfListen, d: seq<byte>, perm: Strtol, lookup: Option<SockInfo>)
    requires AllDigits(d)
    ensures ListenParse(l, Joined([], ':' as byte, d), perm, lookup).0 == Error
  {
    DigitsHaveNoSeparator(d);
    var value := Joined([], ':' as byte, d);
    var v := Buf(value);
    assert forall j :: 0 < j <= value.len - 1 ==> v[j] == d[j - 1];
  }

  /** "path" with no space: the whole value is the socket path and the
      permission is left alone. */
  lemma ListenUnixNoPerm(l: ConfListen, path: seq<byte>, perm: Strtol, lookup: Option<SockInfo>)
    requires path != [] && path[0] == '/' as byte && NoNul(path) && NoByte(path, ' ' as byte)
    ensures var value := NcString(|path|, Some(path + [Nul]));
      var r := ListenParse(l, value, perm, lookup);
      NcStr.Valid(r.1.name) && Content(r.1.name) == path && r.1.perm == l.perm &&
      (r.0 == Ok <==> |path| < UnixAddrStrLen)
  {
    var value := NcString(|path|, Some(path + [Nul]));
    assert (path + [Nul])[..|path|] == path;
    var v := Buf(value);
    assert forall j :: 0 <= j < |path| ==> v[j] == path[j];
    assert Content(value)[..|path|] == path;
  }

  /** "path perm": the path before the last space, and a permission that
      strtol read without error and that is at most 0777. */
  lemma ListenUnixPerm(l: ConfListen, path: seq<byte>, p: seq<byte>, perm: Strtol, lookup: Option<SockInfo>)
    requires path != [] && path[0] == '/' as byte && NoNul(path) && NoNul(p) && NoByte(p, ' ' as byte)
    requires perm.errno == 0 && 0 <= perm.value <= MaxPerm
    ensures var r := ListenParse(l, Joined(path, ' ' as byte, p), perm, lookup);
      NcStr.Valid(r.1.name) && Content(r.1.name) == path && r.1.perm == perm.value &&
      (r.0 == Ok <==> |path| < UnixAddrStrLen)
  {
    var value := Joined(path, ' ' as byte, p);
    var v := Buf(value);
    assert v[0] == path[0];
    assert v[|path|] == ' ' as byte;
    assert forall j :: |path| < j <= value.len - 1 ==> v[j] == p[j - |path| - 1];
    assert SplitLast(v, value.len - 1, ' ' as byte) == Some(|path|);
    assert Content(value)[..|path|] == path;
  }

  /** A permission field that strtol flagged or that exceeds 0777 is
      rejected. */
  lemma ListenBadPermRejected(l: ConfListen, path: seq<byte>, p: seq<byte>, perm: Strtol, lookup: Option<SockInfo>)
    requires path != [] && path[0] == '/' as byte && NoNul(path) && NoNul(p) && NoByte(p, ' ' as byte)
    requires perm.errno != 0 || U32(perm.value) > MaxPerm
    ensures ListenParse(l, Joined(path, ' ' as byte, p), perm, lookup).0 == Error
  {
    var value := Joined(path, ' ' as byte, p);
    var v := Buf(value);
    assert v[0] == path[0];
    assert v[|path|] == ' ' as byte;
    assert forall j :: |path| < j <= value.len - 1 ==> v[j] == p[j - |path| - 1];
    assert SplitLast(v, value.len - 1, ' ' as byte) == Some(|path|);
  }

  /** The weight check shared by both server forms. */
  function WithWeight(l: ConfListen, w: seq<byte>, value: NcString, namelen: nat, lookup: Option<SockInfo>): (r: (int, ConfServer))
    requires NcStr.Valid(value) && namelen <= value.len
    ensures r.1.weight == Atoi(w)
    ensures r.0 == Ok ==> Atoi(w) >= 0 && r.1.listen.valid
  {
    var weight := Atoi(w);
    if weight < 0 || weight > 0x7FFF_FFFF then (Error, ConfServer(l, weight))
    else
      var f := Finish(l, value, namelen, lookup);
      (f.0, ConfServer(f.1, weight))
  }

  /** NcConfServer::parse as written. "path [perm] weight": the weight
      after the last space is required; when no second space precedes it,
      the whole value, weight included, becomes the path. "host:port:weight":
      the weight after the last ':', the port after the one before it. */
  function ServerParseAsWritten(s: ConfServer, value: NcString, perm: Strtol, lookup: Option<SockInfo>): (r: (int, ConfServer))
    requires NcStr.Valid(value)
    ensures r.0 == Ok ==> r.1.weight >= 0 && r.1.listen.valid
  {
    ServerParseWith(s, value, perm, lookup, false)
  }

  /** NcConfServer::parse with the unix form's path ending at the weight's
      space when no permission field is present. */
  function ServerParse(s: ConfServer, value: NcString, perm: Strtol, lookup: Option<SockInfo>): (r: (int, ConfServer))
    requires NcStr.Valid(value)
    ensures r.0 == Ok ==> r.1.weight >= 0 && r.1.listen.valid
  {
    ServerParseWith(s, value, perm, lookup, true)
  }

  /** Both versions of the server parser; `pathStopsAtWeight` selects the
      corrected name length. */
  function ServerParseWith(s: ConfServer, value: NcString, perm: Strtol, lookup: Option<SockInfo>,
                           pathStopsAtWeight: bool): (r: (int, ConfServer))
    requires NcStr.Valid(value)
    ensures r.0 == Ok || r.0 == Error
    ensures r.0 == Ok ==> r.1.weight >= 0 && r.1.listen.valid
  {
    var l := s.listen;
    var v := Buf(value);
    var n := value.len;
    if v[0] == '/' as byte then
      var q1 := SplitLast(v, n - 1, ' ' as byte);
      if q1.None? then (Error, s)
      else
        var w := v[q1.value + 1..n];
        var q2 := SplitLast(v, q1.value - 1, ' ' as byte);
        if q2.None? then
          WithWeight(l, w, value, if pathStopsAtWeight then q1.value else n, lookup)
        else
          var pm := U32(perm.value);
          if perm.errno != 0 || pm > MaxPerm then (Error, s.(listen := l.(perm := pm)))
          else WithWeight(l.(perm := pm), w, value, q2.value, lookup)
    else ServerInet(s, value, lookup)
  }

  /** The "host:port:weight" form of NcConfServer::parse: the weight after
      the last ':', the port between it and the ':' before. */
  function ServerInet(s: ConfServer, value: NcString, lookup: Option<SockInfo>): (r: (int, ConfServer))
    requires NcStr.Valid(value)
    ensures r.0 == Ok || r.0 == Error
    ensures r.0 == Ok ==> r.1.weight >= 0 && r.1.listen.valid && ValidPort(r.1.listen.port)
  {
    var l := s.listen;
    var v := Buf(value);
    var n := value.len;
    var q1 := SplitLast(v, n - 1, ':' as byte);
    if q1.None? then (Error, s)
    else
      var w := v[q1.value + 1..n];
      var q2 := SplitLast(v, q1.value - 1, ':' as byte);
      if q2.None? then (Error, s)
      else
        var port := Atoi(v[q2.value + 1..q1.value]);
        if port < 0 || !ValidPort(port) then (Error, s.(listen := l.(port := port)))
        else WithWeight(l.(port := port), w, value, q2.value, lookup)
  }

  /** Where the two splits of "h:d:w" fall. */
  lemma ServerInetSplit(h: seq<byte>, d: seq<byte>, w: seq<byte>, value: NcString)
    requires h != [] && NoNul(h) && AllDigits(d) && AllDigits(w)
    requires value == Joined(h + [':' as byte] + d, ':' as byte, w)
    ensures var hd := h + [':' as byte] + d;
      var v := Buf(value);
      v[0] == h[0] &&
      SplitLast(v, value.len - 1, ':' as byte) == Some(|hd|) &&
      SplitLast(v, |hd| - 1, ':' as byte) == Some(|h|) &&
      v[|hd| + 1..value.len] == w && v[|h| + 1..|hd|] == d &&
      Content(value)[..|h|] == h
  {
    DigitsHaveNoSeparator(d);
    DigitsHaveNoSeparator(w);
    var hd := h + [':' as byte] + d;
    var v := Buf(value);
    var n := value.len;
    assert v[|hd|] == ':' as byte;
    assert v[|h|] == ':' as byte;
    assert forall j :: |hd| < j <= n - 1 ==> v[j] == w[j - |hd| - 1];
    assert forall j :: |h| < j < |hd| ==> v[j] == d[j - |h| - 1];
    assert v[|hd| + 1..n] == w;
    assert v[|h| + 1..|hd|] == d;
  }

  /** With its two ':' at `i` < `j` and a valid port between them,
      the inet form reads the weight after `j` and names the host before
      `i`. */
  lemma ServerInetAt(s: ConfServer, value: NcString, lookup: Option<SockInfo>, i: nat, j: nat)
    requires NcStr.Valid(value) && 0 < i < j < value.len
    requires SplitLast(Buf(value), value.len - 1, ':' as byte) == Some(j)
    requires SplitLast(Buf(value), j - 1, ':' as byte) == Some(i)
    requires 0 <= Atoi(Buf(value)[i + 1..j]) && ValidPort(Atoi(Buf(value)[i + 1..j]))
    ensures ServerInet(s, value, lookup) ==
      WithWeight(s.listen.(port := Atoi(Buf(value)[i + 1..j])), Buf(value)[j + 1..value.len], value, i, lookup)
  {
  }

  /** "h:d:w" takes the inet path with port d, weight w and name h. */
  lemma ServerInetParses(s: ConfServer, h: seq<byte>, d: seq<byte>, w: seq<byte>,
                         perm: Strtol, lookup: Option<SockInfo>, value: NcString)
    requires h != [] && NoNul(h) && h[0] != '/' as byte
    requires d != [] && AllDigits(d) && 1 <= DecimalValue(d) < Two16
    requires w != [] && AllDigits(w)
    requires value == Joined(h + [':' as byte] + d, ':' as byte, w)
    ensures ServerParse(s, value, perm, lookup) == WithWeight(s.listen.(port := DecimalValue(d)), w, value, |h|, lookup)
  {
    var hd := h + [':' as byte] + d;
    var v := Buf(value);
    ServerInetSplit(h, d, w, value);
    AtoiExact(d);
    assert v[0] != '/' as byte;
    assert ServerParse(s, value, perm, lookup) == ServerInet(s, value, lookup);
    assert Atoi(v[|h| + 1..|hd|]) == DecimalValue(d);
    ServerInetAt(s, value, lookup, |h|, |hd|);
  }

  /** "host:port:weight" round trip: host, port and weight come back out,
      and the parse succeeds exactly when the host resolves. */
  lemma ServerInetRoundTrip(s: ConfServer, h: seq<byte>, d: seq<byte>, w: seq<byte>,
                            perm: Strtol, lookup: Option<SockInfo>)
    requires h != [] && NoNul(h) && h[0] != '/' as byte
    requires d != [] && AllDigits(d) && 1 <= DecimalValue(d) < Two16
    requires w != [] && AllDigits(w) && DecimalValue(w) < Two31
    ensures var r := ServerParse(s, Joined(h + [':' as byte] + d, ':' as byte, w), perm, lookup);
      r.1.listen.port == DecimalValue(d) && r.1.weight == DecimalValue(w) &&
      NcStr.Valid(r.1.listen.name) && Content(r.1.listen.name) == h &&
      (r.0 == Ok <==> lookup.Some?)
  {
    var value := Joined(h + [':' as byte] + d, ':' as byte, w);
    ServerInetParses(s, h, d, w, perm, lookup, value);
    ServerInetSplit(h, d, w, value);
    AtoiExact(w);
    var l := s.listen.(port := DecimalValue(d));
    var f := Finish(l, value, |h|, lookup);
    assert WithWeight(l, w, value, |h|, lookup) == (f.0, ConfServer(f.1, DecimalValue(w)));
  }

  /** "path weight" with no permission field: as written the name is the
      whole value, weight included; corrected it is the path. */
  lemma ServerUnixNoPerm(s: ConfServer, path: seq<byte>, w: seq<byte>, perm: Strtol, lookup: Option<SockInfo>)
    requires path != [] && path[0] == '/' as byte && NoNul(path) && NoByte(path, ' ' as byte)
    requires w != [] && AllDigits(w) && DecimalValue(w) < Two31
    ensures var value := Joined(path, ' ' as byte, w);
      NcStr.Valid(ServerParseAsWritten(s, value, perm, lookup).1.listen.name) &&
      Content(ServerParseAsWritten(s, value, perm, lookup).1.listen.name) == path + [' ' as byte] + w &&
      NcStr.Valid(ServerParse(s, value, perm, lookup).1.listen.name) &&
      Content(ServerParse(s, value, perm, lookup).1.listen.name) == path &&
      ServerParse(s, value, perm, lookup).1.weight == DecimalValue(w)
  {
    DigitsHaveNoSeparator(w);
    var value := Joined(path, ' ' as byte, w);
    var v := Buf(value);
    var n := value.len;
    assert v[0] == path[0];
    assert v[|path|] == ' ' as byte;
    assert forall j :: |path| < j <= n - 1 ==> v[j] == w[j - |path| - 1];
    assert forall j :: 0 <= j < |path| ==> v[j] == path[j];
    assert SplitLast(v, n - 1, ' ' as byte) == Some(|path|);
    assert SplitLast(v, |path| - 1, ' ' as byte).None?;
    assert v[|path| + 1..n] == w;
    AtoiExact(w);
    assert Content(value)[..|path|] == path;
    assert Content(value)[..n] == path + [' ' as byte] + w;
  }

  /** A server value whose weight field is not a decimal is rejected. */
  lemma ServerBadWeightRejected(s: ConfServer, value: NcString, perm: Strtol, lookup: Option<SockInfo>)
    requires NcStr.Valid(value)
    requires var v := Buf(value);
      var q := SplitLast(v, value.len - 1, if v[0] == '/' as byte then ' ' as byte else ':' as byte);
      q.Some? && !AllDigits(v[q.value + 1..value.len])
    ensures ServerParse(s, value, perm, lookup).0 == Error
  {
  }

  /** The key/value handler. With at most one argument nothing happens. The
      last two arguments are the key and the value: "listen" parses the
      value into the pool's listen record, "servers" appends a server when
      its parse succeeds and drops it otherwise, any other key is ignored.
      The status is always Ok; a failed parse is only logged. The servers
      are parsed by NcConfServer::parse as written (ServerParseAsWritten). */
  function Handler(args: seq<NcString>, pool: Option<ConfPool>, perm: Strtol, lookup: Option<SockInfo>): (r: (int, Option<ConfPool>))
    requires forall i :: 0 <= i < |args| ==> NcStr.Valid(args[i])
    ensures |args| <= 1 ==> r == (Ok, pool)
    ensures pool.Some? ==> r.0 == Ok && r.1.Some?
    ensures r.0 == Ok ==> (pool.Some? <==> r.1.Some?)
  {
    HandlerWith(args, pool, perm, lookup, false)
  }

  /** The handler with the corrected server parser (ServerParse). */
  function HandlerIntended(args: seq<NcString>, pool: Option<ConfPool>, perm: Strtol, lookup: Option<SockInfo>)
    : (r: (int, Option<ConfPool>))
    requires forall i :: 0 <= i < |args| ==> NcStr.Valid(args[i])
    ensures |args| <= 1 ==> r == (Ok, pool)
    ensures pool.Some? ==> r.0 == Ok && r.1.Some?
    ensures r.0 == Ok ==> (pool.Some? <==> r.1.Some?)
  {
    HandlerWith(args, pool, perm, lookup, true)
  }

  /** Both handlers; `pathStopsAtWeight` selects the server parser as in
      ServerParseWith. */
  function HandlerWith(args: seq<NcString>, pool: Option<ConfPool>, perm: Strtol, lookup: Option<SockInfo>,
                       pathStopsAtWeight: bool): (r: (int, Option<ConfPool>))
    requires forall i :: 0 <= i < |args| ==> NcStr.Valid(args[i])
    ensures |args| <= 1 ==> r == (Ok, pool)
    ensures r.0 == Ok || r.0 == UndefinedBehaviour
    ensures pool.Some? ==> r.0 == Ok && r.1.Some?
    ensures r.0 == Ok ==> (pool.Some? <==> r.1.Some?)
  {
    if |args| <= 1 then (Ok, pool)
    else
      var value := args[|args| - 1];
      var key := args[|args| - 2];
      assert NcStr.Valid(key) && NcStr.Valid(value);
      if EqualsBytes(key, Some(ListenKey)) then
        if pool.None? then (UndefinedBehaviour, pool)
        else (Ok, Some(pool.value.(listen := ListenParse(pool.value.listen, value, perm, lookup).1)))
      else if EqualsBytes(key, Some(ServersKey)) then
        if pool.None? then (UndefinedBehaviour, pool)
        else
          var cs := ServerParseWith(NewServer(), value, perm, lookup, pathStopsAtWeight);
          if cs.0 != Ok then (Ok, pool)
          else (Ok, Some(pool.value.(servers := pool.value.servers + [cs.1])))
      else (Ok, pool)
  }

  /** A "servers" entry is appended exactly when it parses, and nothing
      else of the pool changes: with the parser as written for Handler,
      with the corrected one for HandlerIntended. */
  lemma HandlerServers(args: seq<NcString>, p: ConfPool, perm: Strtol, lookup: Option<SockInfo>,
                       pathStopsAtWeight: bool)
    requires |args| >= 2 && forall i :: 0 <= i < |args| ==> NcStr.Valid(args[i])
    requires Content(args[|args| - 2]) == ServersKey
    ensures var r := HandlerWith(args, Some(p), perm, lookup, pathStopsAtWeight);
      var cs := ServerParseWith(NewServer(), args[|args| - 1], perm, lookup, pathStopsAtWeight);
      r.0 == Ok &&
      (cs.0 == Ok ==> r.1 == Some(p.(servers := p.servers + [cs.1]))) &&
      (cs.0 != Ok ==> r.1 == Some(p))
  {
    var key := args[|args| - 2];
    UpToNulOfTerminated(Content(key), []);
    assert Content(key) + [Nul] + [] == key.data.value;
    UpToNulOfTerminated(ListenKey, []);
    UpToNulOfTerminated(ServersKey, []);
    assert ServersKey + [Nul] + [] == ServersKey + [Nul];
    UpToNulPlain(ListenKey);
    UpToNulPlain(ServersKey);
    assert ListenKey != ServersKey by { assert ListenKey[0] != ServersKey[0]; }
  }

  /** A string with no NUL reads back whole. */
  lemma {:induction false} UpToNulPlain(s: seq<byte>)
    requires NoNul(s)
    ensures UpToNul(s) == s
  {
    if s != [] {
      UpToNulPlain(s[1..]);
    }
  }

  /** The YAML events parseCore reacts to; any other event is Ignored. A
      scalar carries the outcomes of the foreign calls its handling may
      make. */
  datatype Event =
    | MappingStart | MappingEnd | SequenceStart | SequenceEnd
    | Scalar(value: seq<byte>, perm: Strtol, lookup: Option<SockInfo>)
    | Ignored

  /** The parser state parseCore works on: the pools read so far, the
      argument stack, the 32-bit depth and the in-sequence flag, plus the
      pool currently being filled (the `data` argument; None is NULL). */
  datatype Parser = Parser(pools: seq<ConfPool>, args: seq<NcString>, depth: nat,
                           inSeq: bool, data: Option<ConfPool>)

  /** NcConf(): depth 0, not in a sequence, no pools and no arguments. */
  function NewParser(): (p: Parser)
    ensures p.depth == 0 && !p.inSeq && p.pools == [] && p.args == [] && p.data.None?
  {
    Parser([], [], 0, false, None)
  }

  predicate ArgsValid(args: seq<NcString>) {
    forall i :: 0 <= i < |args| ==> NcStr.Valid(args[i])
  }

  /** The pool being filled is also the last pool in the list: pools are
      stored by pointer, so the copy in the list sees every update. */
  function Commit(p: Parser, data: Option<ConfPool>): (r: Parser)
    ensures r.data == data && r.args == p.args && r.depth == p.depth && r.inSeq == p.inSeq
    ensures |r.pools| == |p.pools|
  {
    if data.Some? && p.pools != [] then
      p.(pools := p.pools[..|p.pools| - 1] + [data.value], data := data)
    else p.(data := data)
  }

  /** One step of parseCore: what happens to the state for one event.
      `Next` carries on with the next event, `Stop` ends parseCore with a
      status. */
  datatype StepResult = Next(p: Parser) | Stop(status: int, p: Parser)

  /** yamlPopScalar: drops the top argument; popping an empty stack is
      undefined. */
  function Pop(p: Parser): (r: StepResult)
    ensures p.args != [] ==> r == Next(p.(args := p.args[..|p.args| - 1]))
    ensures p.args == [] ==> r.Stop? && r.status == UndefinedBehaviour
  {
    if p.args == [] then Stop(UndefinedBehaviour, p) else Next(p.(args := p.args[..|p.args| - 1]))
  }

  function Step(p: Parser, e: Event): (r: StepResult)
    requires ArgsValid(p.args)
    ensures r.Stop? ==> r.status == Error || r.status == UndefinedBehaviour || (r.status == Ok && r.p.depth == 0)
    ensures |r.p.pools| >= |p.pools|
  {
    match e
    case MappingEnd =>
      var p' := p.(depth := U32(p.depth - 1));
      if p'.depth == 1 then Pop(p')
      else if p'.depth == 0 then Stop(Ok, p')
      else Next(p')
    case MappingStart => Next(p.(depth := U32(p.depth + 1)))
    case SequenceStart => Next(p.(inSeq := true))
    case SequenceEnd =>
      (match Pop(p)
       case Next(p') => Next(p'.(inSeq := false))
       case Stop(s, p') => Stop(s, p'))
    case Scalar(v, perm, lookup) =>
      if |v| == 0 || !NoNul(v) then Stop(Error, p)
      else
        var p1 := p.(args := p.args + [FromBytes(v, |v|, true)]);
        if p1.inSeq then Leaf(p1, perm, lookup)
        else if p1.depth == ConfRootDepth then
          var p2 := p1.(pools := p1.pools + [NewPool()], data := Some(NewPool()));
          var h := Handler(p2.args, p2.data, perm, lookup);
          if h.0 != Ok then Stop(h.0, Commit(p2, h.1)) else Next(Commit(p2, h.1))
        else if |p1.args| == p1.depth + 1 then Leaf(p1, perm, lookup)
        else Next(p1)
    case Ignored => Next(p)
  }

  /** A leaf: the handler runs on the top two arguments, then one argument
      is popped inside a sequence and two outside one. */
  function Leaf(p: Parser, perm: Strtol, lookup: Option<SockInfo>): (r: StepResult)
    requires ArgsValid(p.args)
    ensures r.Stop? ==> r.status == UndefinedBehaviour
    ensures |r.p.pools| == |p.pools|
  {
    var h := Handler(p.args, p.data, perm, lookup);
    var p1 := Commit(p, h.1);
    match Pop(p1)
    case Stop(s, p2) => Stop(s, p2)
    case Next(p2) =>
      var p3 := if p2.inSeq then Next(p2) else Pop(p2);
      match p3
      case Stop(s, p4) => Stop(s, p4)
      case Next(p4) => if h.0 != Ok then Stop(h.0, p4) else Next(p4)
  }

  /** parseCore: steps through the events until one stops it. `None` is a
      failure of yamlEventNext (and so is running out of events), which
      returns Error. */
  function ParseCore(p: Parser, events: seq<Option<Event>>): (r: (int, Parser))
    requires ArgsValid(p.args)
    ensures r.0 == Ok || r.0 == Error || r.0 == UndefinedBehaviour
    ensures r.0 == Ok ==> r.1.depth == 0
    ensures |r.1.pools| >= |p.pools|
    decreases |events|
  {
    if events == [] || events[0].None? then (Error, p)
    else
      StepKeepsArgsValid(p, events[0].value);
      match Step(p, events[0].value)
      case Stop(s, p') => (s, p')
      case Next(p') => ParseCore(p', events[1..])
  }

  /** The depth bookkeeping: a mapping end at depth 2 pops the pool name,
      at depth 1 ends parseCore with Ok; a mapping start goes one deeper. */
  lemma MappingEvents(p: Parser)
    requires ArgsValid(p.args) && p.depth < Two32
    ensures p.depth == 2 && p.args != [] ==>
      Step(p, MappingEnd) == Next(p.(depth := 1, args := p.args[..|p.args| - 1]))
    ensures p.depth == 1 ==> Step(p, MappingEnd) == Stop(Ok, p.(depth := 0))
    ensures p.depth + 1 < Two32 ==> Step(p, MappingStart) == Next(p.(depth := p.depth + 1))
  {
  }

  /** A sequence start only raises the flag; a sequence end pops its key
      and lowers it. An empty scalar (or one with an embedded NUL) fails
      with Error. */
  lemma SequenceEvents(p: Parser, perm: Strtol, lookup: Option<SockInfo>)
    requires ArgsValid(p.args)
    ensures Step(p, SequenceStart) == Next(p.(inSeq := true))
    ensures p.args != [] ==>
      Step(p, SequenceEnd) == Next(p.(args := p.args[..|p.args| - 1], inSeq := false))
    ensures Step(p, Scalar([], perm, lookup)) == Stop(Error, p)
  {
  }

  /** A scalar at the root depth opens a new default pool that becomes
      the current one; the name stays on the argument stack. */
  lemma RootScalarOpensPool(p: Parser, v: seq<byte>, perm: Strtol, lookup: Option<SockInfo>)
    requires ArgsValid(p.args) && p.depth == ConfRootDepth && !p.inSeq && p.args == []
    requires v != [] && NoNul(v)
    ensures Step(p, Scalar(v, perm, lookup)) ==
      Next(p.(pools := p.pools + [NewPool()], data := Some(NewPool()),
              args := [FromBytes(v, |v|, true)]))
  {
  }

  /** A key and its value inside a pool's mapping: the value is handled
      against the current pool and both are popped, so the argument stack
      is back to the pool name. */
  lemma KeyValueKeepsStack(p: Parser, k: seq<byte>, v: seq<byte>, perm: Strtol, lookup: Option<SockInfo>,
                           perm0: Strtol, lookup0: Option<SockInfo>)
    requires ArgsValid(p.args) && p.depth == 2 && !p.inSeq && |p.args| == 1 && p.data.Some?
    requires k != [] && NoNul(k) && v != [] && NoNul(v)
    ensures Step(p, Scalar(k, perm0, lookup0)).Next?
    ensures var p1 := Step(p, Scalar(k, perm0, lookup0)).p;
      var r := Step(p1, Scalar(v, perm, lookup));
      var h := Handler(p.args + [FromBytes(k, |k|, true), FromBytes(v, |v|, true)], p.data, perm, lookup);
      r.Next? && r.p.args == p.args && r.p.depth == 2 && !r.p.inSeq &&
      r.p.data == h.1 && |r.p.pools| == |p.pools|
  {
    var p1 := Step(p, Scalar(k, perm0, lookup0)).p;
    assert p1 == p.(args := p.args + [FromBytes(k, |k|, true)]);
    var args := p1.args + [FromBytes(v, |v|, true)];
    assert args[..|args| - 1][..|args| - 2] == p.args;
  }

  /** Inside a sequence each item is handled under the sequence's key and
      popped alone, leaving the key for the next item. */
  lemma SequenceItemKeepsStack(p: Parser, v: seq<byte>, perm: Strtol, lookup: Option<SockInfo>)
    requires ArgsValid(p.args) && p.inSeq && |p.args| >= 1 && p.data.Some?
    requires v != [] && NoNul(v)
    ensures var r := Step(p, Scalar(v, perm, lookup));
      var h := Handler(p.args + [FromBytes(v, |v|, true)], p.data, perm, lookup);
      r.Next? && r.p.args == p.args && r.p.inSeq && r.p.data == h.1
  {
    var args := p.args + [FromBytes(v, |v|, true)];
    assert args[..|args| - 1] == p.args;
  }

  /** A failing event source ends parseCore with Error. */
  lemma ParseCoreEventFailure(p: Parser, rest: seq<Option<Event>>)
    requires ArgsValid(p.args)
    ensures var r := ParseCore(p, [None] + rest); r.0 == Error && r.1 == p
  {
  }

  lemma PopKeepsArgsValid(p: Parser)
    requires ArgsValid(p.args)
    ensures ArgsValid(Pop(p).p.args)
  {
  }

  lemma LeafKeepsArgsValid(p: Parser, perm: Strtol, lookup: Option<SockInfo>)
    requires ArgsValid(p.args)
    ensures ArgsValid(Leaf(p, perm, lookup).p.args)
  {
  }

  lemma StepKeepsArgsValid(p: Parser, e: Event)
    requires ArgsValid(p.args)
    ensures ArgsValid(Step(p, e).p.args)
  {
    if e.Scalar? && |e.value| > 0 && NoNul(e.value) {
      var p1 := p.(args := p.args + [FromBytes(e.value, |e.value|, true)]);
      assert ArgsValid(p1.args);
      if p1.inSeq || p1.depth != ConfRootDepth {
        LeafKeepsArgsValid(p1, e.perm, e.lookup);
      }
    }
  }
}
