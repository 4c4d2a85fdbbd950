/** Command-line handling of nc.cpp: the defaults an instance starts with
    and the per-option validation of ncGetOptions. getopt_long itself is
    not modelled; its output, the sequence of recognised options with their
    arguments, is the input. */
module Options {
  import opened Common
  import opened Util
  import opened Mbuf

  /** NC_LOG_DEFAULT (LLOG_VVVERB), STATS_PORT and STATS_INTERVAL. */
  const LogDefault: int := 10
  const StatsPort: int := 22222
  const StatsInterval: int := 30000

  /** NC_LOG_PATH "/dev/stdout", NC_CONF_PATH "../conf/nutcracker.yml",
      STATS_ADDR "0.0.0.0" and the fallback host name "unknown", as bytes. */
  const LogPath: seq<byte> := [47, 100, 101, 118, 47, 115, 116, 100, 111, 117, 116]
  const ConfPath: seq<byte> := [46, 46, 47, 99, 111, 110, 102, 47, 110, 117, 116, 99, 114, 97, 99, 107, 101, 114, 46, 121, 109, 108]
  const StatsAddrDefault: seq<byte> := [48, 46, 48, 46, 48, 46, 48]
  const UnknownHost: seq<byte> := [117, 110, 107, 110, 111, 119, 110]

  /** What getopt_long returned for one option: a known letter with its
      argument, '?' for a missing argument or unknown option (carrying
      optopt), or some other character. */
  datatype Opt =
    | Help | Version | TestConf | Daemonize | DescribeStats
    | Verbose(arg: seq<byte>) | Output(arg: seq<byte>) | ConfFile(arg: seq<byte>)
    | StatsPortOpt(arg: seq<byte>) | StatsIntervalOpt(arg: seq<byte>)
    | StatsAddr(arg: seq<byte>) | PidFile(arg: seq<byte>) | MbufSizeOpt(arg: seq<byte>)
    | Missing(optopt: int) | Other(c: int)

  /** The process-wide flags set by options. */
  datatype Flags = Flags(showHelp: bool, showVersion: bool, testConf: bool,
                         daemonize: bool, describeStats: bool)

  /** The NcInstance fields options and defaults touch. String fields are
      None for a NULL pointer. */
  datatype Instance = Instance(
    logLevel: int, logFilename: Option<seq<byte>>, confFilename: Option<seq<byte>>,
    statsPort: int, statsAddr: Option<seq<byte>>, statsInterval: int,
    hostname: seq<byte>, mbufChunkSize: int, pid: int,
    pidFilename: Option<seq<byte>>, pidfile: bool)

  /** ncSetDefaultOptions. `hostname` is what gethostname produced, None
      when it failed, in which case "unknown" is used. */
  function DefaultOptions(hostname: Option<seq<byte>>): (r: Instance)
    ensures r.logLevel == LogDefault && r.statsPort == StatsPort
    ensures r.statsInterval == StatsInterval && r.mbufChunkSize == MbufSize
    ensures r.pid == -1 && r.pidFilename.None? && !r.pidfile
    ensures r.logFilename == Some(LogPath)
    ensures r.confFilename == Some(ConfPath)
    ensures r.statsAddr == Some(StatsAddrDefault)
    ensures hostname.None? ==> r.hostname == UnknownHost
    ensures hostname.Some? ==> r.hostname == hostname.value
  {
    Instance(LogDefault, Some(LogPath), Some(ConfPath),
             StatsPort, Some(StatsAddrDefault), StatsInterval,
             if hostname.None? then UnknownHost else hostname.value,
             MbufSize, -1, None, false)
  }

  /** Whether an option is accepted on its own. */
  predicate Accepted(o: Opt) {
    match o
    case Verbose(a) => Atoi(a) >= 0
    case StatsPortOpt(a) => Atoi(a) >= 0 && ValidPort(Atoi(a))
    case StatsIntervalOpt(a) => Atoi(a) >= 0
    case MbufSizeOpt(a) => Atoi(a) > 0 && MbufMinSize <= Atoi(a) <= MbufMaxSize
    case Missing(_) => false
    case Other(_) => false
    case _ => true
  }

  /** One turn of the ncGetOptions loop: Ok with the updated state, or
      Error with the state as it stood. */
  function ApplyOption(o: Opt, f: Flags, nci: Instance): (r: (int, Flags, Instance))
    ensures r.0 == Ok || r.0 == Error
    ensures r.0 == Error ==> r.1 == f && r.2 == nci
    ensures r.0 == Ok <==> Accepted(o)
  {
    match o
    case Help => (Ok, f.(showVersion := true, showHelp := true), nci)
    case Version => (Ok, f.(showVersion := true), nci)
    case TestConf => (Ok, f.(testConf := true), nci)
    case Daemonize => (Ok, f.(daemonize := true), nci)
    case DescribeStats => (Ok, f.(describeStats := true, showVersion := true), nci)
    case Verbose(a) =>
      var v := Atoi(a);
      if v < 0 then (Error, f, nci) else (Ok, f, nci.(logLevel := v))
    case Output(a) => (Ok, f, nci.(logFilename := Some(a)))
    case ConfFile(a) => (Ok, f, nci.(confFilename := Some(a)))
    case StatsPortOpt(a) =>
      var v := Atoi(a);
      if v < 0 then (Error, f, nci)
      else if !ValidPort(v) then (Error, f, nci)
      else (Ok, f, nci.(statsPort := U16(v)))
    case StatsIntervalOpt(a) =>
      var v := Atoi(a);
      if v < 0 then (Error, f, nci) else (Ok, f, nci.(statsInterval := v))
    case StatsAddr(a) => (Ok, f, nci.(statsAddr := Some(a)))
    case PidFile(a) => (Ok, f, nci.(pidFilename := Some(a)))
    case MbufSizeOpt(a) =>
      var v := Atoi(a);
      if v <= 0 then (Error, f, nci)
      else if v < MbufMinSize || v > MbufMaxSize then (Error, f, nci)
      else (Ok, f, nci.(mbufChunkSize := v))
    case Missing(_) => (Error, f, nci)
    case Other(_) => (Error, f, nci)
  }

  /** ncGetOptions: options are applied in order; the first rejected one
      stops the loop with Error, keeping what the earlier ones set; the end
      of the options returns Ok. */
  function GetOptions(opts: seq<Opt>, f: Flags, nci: Instance): (r: (int, Flags, Instance))
    ensures r.0 == Ok || r.0 == Error
    decreases |opts|
  {
    if opts == [] then (Ok, f, nci)
    else
      var s := ApplyOption(opts[0], f, nci);
      if s.0 != Ok then s else GetOptions(opts[1..], s.1, s.2)
  }

  /** The whole command line is accepted exactly when every option is. */
  lemma {:induction false} GetOptionsOkIffAllAccepted(opts: seq<Opt>, f: Flags, nci: Instance)
    ensures GetOptions(opts, f, nci).0 == Ok <==> forall i :: 0 <= i < |opts| ==> Accepted(opts[i])
    decreases |opts|
  {
    if opts != [] {
      var s := ApplyOption(opts[0], f, nci);
      if s.0 == Ok {
        GetOptionsOkIffAllAccepted(opts[1..], s.1, s.2);
        assert forall i :: 1 <= i < |opts| ==> opts[i] == opts[1..][i - 1];
      }
    }
  }

  /** An accepted -m stores a chunk size inside [MBUF_MIN_SIZE,
      MBUF_MAX_SIZE]; an accepted -s a valid port. */
  lemma AcceptedValuesInRange(o: Opt, f: Flags, nci: Instance)
    requires ApplyOption(o, f, nci).0 == Ok
    ensures o.MbufSizeOpt? ==> MbufMinSize <= ApplyOption(o, f, nci).2.mbufChunkSize <= MbufMaxSize
    ensures o.StatsPortOpt? ==> ValidPort(ApplyOption(o, f, nci).2.statsPort)
    ensures o.Verbose? ==> ApplyOption(o, f, nci).2.logLevel >= 0
  {
  }

  /** The digits "22122", "0" and "70000" as _nc_atoi reads them. */
  lemma Digits22122()
    ensures Atoi([50, 50, 49, 50, 50]) == 22122
  {
    var s0: seq<byte> := [];
    var s1 := s0 + [50];
    DecimalSnoc(s0, 50);
    var s2 := s1 + [50];
    DecimalSnoc(s1, 50);
    var s3 := s2 + [49];
    DecimalSnoc(s2, 49);
    var s4 := s3 + [50];
    DecimalSnoc(s3, 50);
    var s5 := s4 + [50];
    DecimalSnoc(s4, 50);
    assert s5 == [50, 50, 49, 50, 50];
    AtoiExact(s5);
  }

  lemma Digits0()
    ensures Atoi([48]) == 0
  {
    var s0: seq<byte> := [];
    var s1 := s0 + [48];
    DecimalSnoc(s0, 48);
    assert s1 == [48];
    AtoiExact(s1);
  }

  lemma Digits70000()
    ensures Atoi([55, 48, 48, 48, 48]) == 70000
  {
    var s0: seq<byte> := [];
    var s1 := s0 + [55];
    DecimalSnoc(s0, 55);
    var s2 := s1 + [48];
    DecimalSnoc(s1, 48);
    var s3 := s2 + [48];
    DecimalSnoc(s2, 48);
    var s4 := s3 + [48];
    DecimalSnoc(s3, 48);
    var s5 := s4 + [48];
    DecimalSnoc(s4, 48);
    assert s5 == [55, 48, 48, 48, 48];
    AtoiExact(s5);
  }

  /** -s with "22122" sets that port; "0" and "70000" are rejected. */
  lemma StatsPortSamples(f: Flags, nci: Instance)
    ensures ApplyOption(StatsPortOpt([50, 50, 49, 50, 50]), f, nci).2.statsPort == 22122
    ensures ApplyOption(StatsPortOpt([48]), f, nci).0 == Error
    ensures ApplyOption(StatsPortOpt([55, 48, 48, 48, 48]), f, nci).0 == Error
  {
    Digits22122();
    Digits0();
    Digits70000();
  }
}
