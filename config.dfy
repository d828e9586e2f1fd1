/**
 * The load balancer's configuration (src/config.rs): the parsed VIP records,
 * the serde defaults, and `Config::validate`, a fail-fast pass over the VIP
 * list that rejects a repeated (address, port) endpoint, a backend of weight 0
 * and an unusable statistics output.
 */
module Config {
  import opened Wrappers
  import opened Words
  import opened Net

  datatype Protocol = Tcp | Udp | Sctp

  /** Parsed but never consulted: the kernel program always picks at random. */
  datatype LbMode = Hash | RoundRobin | LeastConn

  datatype HashConfig = HashConfig(key: string)

  datatype LbConfig = LbConfig(mode: LbMode, hash: Option<HashConfig>)

  /** A real backend ("RIP") of a VIP. */
  datatype RealIp = RealIp(addr: IpAddr, port: U16, weight: U32)

  datatype StatFormat = Json | Prometheus | Text

  datatype StatOutputConfig = StatOutputConfig(fmt: StatFormat, path: string, interval: U64)

  datatype StatConfig = StatConfig(enable: bool, out: Option<StatOutputConfig>)

  /** A virtual service: its endpoint, its policy and its ordered backends. */
  datatype Vip = Vip(
    name: string,
    addr: IpAddr,
    port: U16,
    proto: Protocol,
    lb: LbConfig,
    rip: seq<RealIp>,
    stat: StatConfig)

  datatype Config = Config(vip: seq<Vip>)

  /** Why validation stopped. */
  datatype ConfigError =
    | DuplicateEndpoint(addr: IpAddr, port: U16)
    | ZeroWeight(addr: IpAddr, port: U16)
      /** `stat.enable` with no `out` table: an `unwrap` of `None`, which panics. */
    | StatOutputMissing
      /** The parent directory of the output path does not exist. */
    | StatDirMissing(dir: string)
    | StatNotWritable(path: string)

  /**
   * What the file system answers for the statistics check: whether a
   * directory exists, and whether a file can be opened for appending
   * (creating it when absent).
   */
  datatype FileSystem = FileSystem(dirExists: string -> bool, canAppend: string -> bool)

  /** `Path::exists` of a directory; the empty path never exists. */
  predicate DirExists(fs: FileSystem, dir: string) {
    dir != [] && fs.dirExists(dir)
  }

  /** Opening with `create` and `append`; the empty path cannot be opened. */
  predicate CanAppend(fs: FileSystem, path: string) {
    path != [] && fs.canAppend(path)
  }

  /** The position of the last `/` of a path, if it has one. */
  function LastSlash(path: string): (r: Option<nat>)
    ensures r.None? <==> '/' !in path
    ensures r.Some? ==> r.value < |path| && path[r.value] == '/' && '/' !in path[r.value + 1..]
  {
    if path == [] then None
    else if path[|path| - 1] == '/' then Some(|path| - 1)
    else
      var r := LastSlash(path[..|path| - 1]);
      assert forall c :: c in path <==> c in path[..|path| - 1] || c == path[|path| - 1];
      if r.Some? then
        assert path[r.value + 1..] == path[..|path| - 1][r.value + 1..] + [path[|path| - 1]];
        r
      else r
  }

  /**
   * `Path::parent` of a Unix path: none for the empty path and for the root;
   * the empty path for a bare file name; otherwise everything before the
   * last `/`, or the root when that `/` is the leading one.
   */
  function Parent(path: string): (r: Option<string>)
    ensures r.None? <==> path == [] || path == "/"
    ensures path != [] && '/' !in path ==> r == Some([])
    ensures r.Some? ==> r.value <= path && |r.value| < |path|
  {
    if path == [] then None
    else match LastSlash(path)
      case None => Some([])
      case Some(i) =>
        if i == 0 then (if |path| == 1 then None else Some("/"))
        else Some(path[..i])
  }

  /** The interval a statistics output gets when `interval` is omitted. */
  function DefaultInterval(): U64 {
    1
  }

  /** The weight a backend gets when `w` is omitted. */
  function DefaultWeight(): U32 {
    1
  }

  /**
   * A backend entry as deserialised from its fields, `w` being optional:
   * the weight is the given one, or the default when omitted, so only an
   * explicit `w = 0` yields a weight the validation rejects.
   */
  function RealIpWithDefaults(addr: IpAddr, port: U16, w: Option<U32>): (r: RealIp)
    ensures r.addr == addr && r.port == port
    ensures w.None? ==> r.weight == 1
    ensures w.Some? ==> r.weight == w.value
    ensures r.weight == 0 <==> w == Some(0)
  {
    RealIp(addr, port, w.GetOr(DefaultWeight()))
  }

  /** A statistics output as deserialised, `interval` being optional. */
  function StatOutputWithDefaults(fmt: StatFormat, path: string, interval: Option<U64>): (r: StatOutputConfig)
    ensures r.fmt == fmt && r.path == path
    ensures interval.None? ==> r.interval == 1
    ensures interval.Some? ==> r.interval == interval.value
    ensures r.interval == 0 <==> interval == Some(0)
  {
    StatOutputConfig(fmt, path, interval.GetOr(DefaultInterval()))
  }

  /** The identity of a VIP that must not repeat: its address and its port. */
  function EndpointOf(v: Vip): (IpAddr, U16) {
    (v.addr, v.port)
  }

  function EndpointSet(vips: seq<Vip>): set<(IpAddr, U16)> {
    set i | 0 <= i < |vips| :: EndpointOf(vips[i])
  }

  /** The position of the first backend of weight 0, if there is one. */
  function FirstZeroWeight(rips: seq<RealIp>): (r: Option<nat>)
    ensures r.Some? <==> exists j :: 0 <= j < |rips| && rips[j].weight == 0
    ensures r.Some? ==> r.value < |rips| && rips[r.value].weight == 0
    ensures r.Some? ==> forall j :: 0 <= j < r.value ==> rips[j].weight != 0
  {
    if rips == [] then None
    else if rips[0].weight == 0 then Some(0)
    else match FirstZeroWeight(rips[1..])
      case None => None
      case Some(k) => Some(k + 1)
  }

  /**
   * The statistics check of one VIP, given the file system: the output must
   * be configured, the parent directory of its path must exist, and the path
   * must open for appending. A bare file name has the empty path as parent,
   * which never exists, so it is always rejected.
   */
  function StatFault(stat: StatConfig, fs: FileSystem): (e: Option<ConfigError>)
    ensures e.None? <==>
              !stat.enable ||
              (stat.out.Some? &&
               (Parent(stat.out.value.path).None? || DirExists(fs, Parent(stat.out.value.path).value)) &&
               CanAppend(fs, stat.out.value.path))
    ensures stat.enable && stat.out.Some? && stat.out.value.path != [] && '/' !in stat.out.value.path ==>
              e == Some(StatDirMissing([]))
    ensures stat.enable && stat.out.Some? && stat.out.value.path == [] ==>
              e == Some(StatNotWritable([]))
  {
    if !stat.enable then None
    else match stat.out
      case None => Some(StatOutputMissing)
      case Some(out) =>
        var parent := Parent(out.path);
        if parent.Some? && !DirExists(fs, parent.value) then Some(StatDirMissing(parent.value))
        else if !CanAppend(fs, out.path) then Some(StatNotWritable(out.path))
        else None
  }

  /**
   * The error one VIP stops the pass with, `seen` holding the endpoints of
   * the VIPs before it: first the endpoint, then the weights, then the
   * statistics output.
   */
  function VipFault(v: Vip, seen: set<(IpAddr, U16)>, fs: FileSystem): (e: Option<ConfigError>)
    ensures EndpointOf(v) in seen ==> e == Some(DuplicateEndpoint(v.addr, v.port))
    ensures EndpointOf(v) !in seen && FirstZeroWeight(v.rip).Some? ==>
              e == Some(ZeroWeight(v.rip[FirstZeroWeight(v.rip).value].addr, v.rip[FirstZeroWeight(v.rip).value].port))
    ensures e.None? <==>
              && EndpointOf(v) !in seen
              && (forall j :: 0 <= j < |v.rip| ==> v.rip[j].weight != 0)
              && StatFault(v.stat, fs).None?
  {
    if EndpointOf(v) in seen then Some(DuplicateEndpoint(v.addr, v.port))
    else match FirstZeroWeight(v.rip)
      case Some(j) => Some(ZeroWeight(v.rip[j].addr, v.rip[j].port))
      case None => StatFault(v.stat, fs)
  }

  /** The pass over the remaining VIPs, `seen` holding the endpoints already met. */
  function CheckFrom(vips: seq<Vip>, seen: set<(IpAddr, U16)>, fs: FileSystem): Outcome<ConfigError>
    decreases |vips|
  {
    if vips == [] then Pass
    else match VipFault(vips[0], seen, fs)
      case Some(e) => Fail(e)
      case None => CheckFrom(vips[1..], seen + {EndpointOf(vips[0])}, fs)
  }

  /** What `Config::validate` returns. */
  function Verdict(config: Config, fs: FileSystem): Outcome<ConfigError> {
    CheckFrom(config.vip, {}, fs)
  }

  ghost predicate DistinctEndpoints(vips: seq<Vip>) {
    forall i, j :: 0 <= i < j < |vips| ==> EndpointOf(vips[i]) != EndpointOf(vips[j])
  }

  ghost predicate PositiveWeights(vips: seq<Vip>) {
    forall i, j :: 0 <= i < |vips| && 0 <= j < |vips[i].rip| ==> vips[i].rip[j].weight >= 1
  }

  ghost predicate StatsUsable(vips: seq<Vip>, fs: FileSystem) {
    forall i :: 0 <= i < |vips| ==> StatFault(vips[i].stat, fs).None?
  }

  /** A configuration the validation accepts, stated without reference to the pass. */
  ghost predicate WellFormed(vips: seq<Vip>, fs: FileSystem) {
    DistinctEndpoints(vips) && PositiveWeights(vips) && StatsUsable(vips, fs)
  }

  /**
   * The pass succeeds exactly when no VIP repeats an endpoint already seen or
   * one of its own list, every weight is at least 1, and every enabled
   * statistics output is writable.
   */
  lemma {:induction false} CheckFromPassIff(vips: seq<Vip>, seen: set<(IpAddr, U16)>, fs: FileSystem)
    ensures CheckFrom(vips, seen, fs).Pass? <==>
              (forall i :: 0 <= i < |vips| ==> EndpointOf(vips[i]) !in seen) && WellFormed(vips, fs)
    decreases |vips|
  {
    if vips != [] {
      var rest, seen' := vips[1..], seen + {EndpointOf(vips[0])};
      CheckFromPassIff(rest, seen', fs);
      if CheckFrom(vips, seen, fs).Pass? {
        forall i, j | 0 <= i < j < |vips| ensures EndpointOf(vips[i]) != EndpointOf(vips[j]) {
          if i > 0 { assert rest[i - 1] == vips[i] && rest[j - 1] == vips[j]; }
          else { assert rest[j - 1] == vips[j]; }
        }
        forall i, j | 0 <= i < |vips| && 0 <= j < |vips[i].rip| ensures vips[i].rip[j].weight >= 1 {
          if i > 0 { assert rest[i - 1] == vips[i]; }
        }
        forall i | 0 <= i < |vips| ensures StatFault(vips[i].stat, fs).None? {
          if i > 0 { assert rest[i - 1] == vips[i]; }
        }
        forall i | 0 <= i < |vips| ensures EndpointOf(vips[i]) !in seen {
          if i > 0 { assert rest[i - 1] == vips[i]; }
        }
      }
      if (forall i :: 0 <= i < |vips| ==> EndpointOf(vips[i]) !in seen) && WellFormed(vips, fs) {
        assert VipFault(vips[0], seen, fs).None? by {
          forall j | 0 <= j < |vips[0].rip| ensures vips[0].rip[j].weight != 0 {
            assert vips[0].rip[j].weight >= 1;
          }
        }
        forall i | 0 <= i < |rest| ensures EndpointOf(rest[i]) !in seen' {
          assert rest[i] == vips[i + 1];
        }
        assert WellFormed(rest, fs) by {
          forall i, j | 0 <= i < |rest| && 0 <= j < |rest[i].rip| ensures rest[i].rip[j].weight >= 1 {
            assert rest[i] == vips[i + 1];
          }
        }
      }
    }
  }

  /**
   * `Config::validate`: one walk over the VIPs, remembering the endpoints met
   * so far in a growing set, with an inner walk over each VIP's backends,
   * stopping at the first fault. `fs` stands for the file system probed by
   * the statistics check. The configuration is a value: nothing is modified.
   */
  method Validate(config: Config, fs: FileSystem) returns (r: Outcome<ConfigError>)
    ensures r == Verdict(config, fs)
    ensures r.Pass? <==> WellFormed(config.vip, fs)
  {
    CheckFromPassIff(config.vip, {}, fs);
    var seenVips: set<(IpAddr, U16)> := {};
    var k := 0;
    while k < |config.vip|
      invariant k <= |config.vip|
      invariant Verdict(config, fs) == CheckFrom(config.vip[k..], seenVips, fs)
    {
      var vip := config.vip[k];
      assert config.vip[k..][0] == vip && config.vip[k..][1..] == config.vip[k + 1..];
      var endpoint := (vip.addr, vip.port);
      if endpoint in seenVips {
        return Fail(DuplicateEndpoint(vip.addr, vip.port));
      }
      seenVips := seenVips + {endpoint};

      var j := 0;
      while j < |vip.rip|
        invariant j <= |vip.rip|
        invariant forall i :: 0 <= i < j ==> vip.rip[i].weight != 0
      {
        var rip := vip.rip[j];
        if rip.weight == 0 {
          return Fail(ZeroWeight(rip.addr, rip.port));
        }
        j := j + 1;
      }

      if vip.stat.enable {
        match vip.stat.out {
          case None =>
            return Fail(StatOutputMissing);
          case Some(out) =>
            var path := out.path;
            var parent := Parent(path);
            if parent.Some? && !DirExists(fs, parent.value) {
              return Fail(StatDirMissing(parent.value));
            }
            if !CanAppend(fs, path) {
              return Fail(StatNotWritable(path));
            }
        }
      }
      k := k + 1;
    }
    r := Pass;
  }

  /** With statistics disabled everywhere, validation accepts exactly the configurations with pairwise distinct endpoints and positive weights. */
  lemma ValidWithoutStats(config: Config, fs: FileSystem)
    requires forall i :: 0 <= i < |config.vip| ==> !config.vip[i].stat.enable
    ensures Verdict(config, fs).Pass? <==> DistinctEndpoints(config.vip) && PositiveWeights(config.vip)
  {
    CheckFromPassIff(config.vip, {}, fs);
  }

  /**
   * A VIP with statistics enabled whose output path is a bare file name makes
   * validation fail: the parent of such a path is the empty path, which
   * never exists.
   */
  lemma BareFileNameRejected(config: Config, fs: FileSystem, i: nat)
    requires i < |config.vip| && config.vip[i].stat.enable && config.vip[i].stat.out.Some?
    requires config.vip[i].stat.out.value.path != [] && '/' !in config.vip[i].stat.out.value.path
    ensures Verdict(config, fs).Fail?
  {
    CheckFromPassIff(config.vip, {}, fs);
    assert StatFault(config.vip[i].stat, fs) == Some(StatDirMissing([]));
  }

  /** Two VIPs on the same address and port make validation fail. */
  lemma DuplicateRejected(config: Config, fs: FileSystem, i: nat, j: nat)
    requires i < j < |config.vip|
    requires config.vip[i].addr == config.vip[j].addr && config.vip[i].port == config.vip[j].port
    ensures Verdict(config, fs).Fail?
  {
    CheckFromPassIff(config.vip, {}, fs);
  }

  /** A backend of weight 0 anywhere makes validation fail. */
  lemma ZeroWeightRejected(config: Config, fs: FileSystem, i: nat, j: nat)
    requires i < |config.vip| && j < |config.vip[i].rip|
    requires config.vip[i].rip[j].weight == 0
    ensures Verdict(config, fs).Fail?
  {
    CheckFromPassIff(config.vip, {}, fs);
  }

  /** Sharing an address is not a duplicate: VIPs on different ports pass. */
  lemma SameAddressOtherPortAccepted(v1: Vip, v2: Vip, fs: FileSystem)
    requires v1.addr == v2.addr && v1.port != v2.port
    requires !v1.stat.enable && !v2.stat.enable
    requires forall j :: 0 <= j < |v1.rip| ==> v1.rip[j].weight >= 1
    requires forall j :: 0 <= j < |v2.rip| ==> v2.rip[j].weight >= 1
    ensures Verdict(Config([v1, v2]), fs) == Pass
  {
    ValidWithoutStats(Config([v1, v2]), fs);
  }

  /**
   * The pass over a list is the pass over its front part, and, only if that
   * succeeds, the pass over the rest with the front's endpoints already seen.
   */
  lemma {:induction false} CheckConcat(a: seq<Vip>, b: seq<Vip>, seen: set<(IpAddr, U16)>, fs: FileSystem)
    ensures CheckFrom(a + b, seen, fs) ==
              if CheckFrom(a, seen, fs).Fail? then CheckFrom(a, seen, fs)
              else CheckFrom(b, seen + EndpointSet(a), fs)
    decreases |a|
  {
    if a == [] {
      assert a + b == b;
      assert EndpointSet(a) == {};
      assert seen + EndpointSet(a) == seen;
    } else {
      assert (a + b)[0] == a[0] && (a + b)[1..] == a[1..] + b;
      var seen' := seen + {EndpointOf(a[0])};
      CheckConcat(a[1..], b, seen', fs);
      assert a + b != [];
      assert EndpointSet(a) == {EndpointOf(a[0])} + EndpointSet(a[1..]) by {
        forall e | e in EndpointSet(a) ensures e in {EndpointOf(a[0])} + EndpointSet(a[1..]) {
          var i :| 0 <= i < |a| && e == EndpointOf(a[i]);
          if i > 0 { assert a[1..][i - 1] == a[i]; }
        }
        forall e | e in EndpointSet(a[1..]) ensures e in EndpointSet(a) {
          var i :| 0 <= i < |a[1..]| && e == EndpointOf(a[1..][i]);
          assert a[1..][i] == a[i + 1];
        }
      }
      assert seen + EndpointSet(a) == seen' + EndpointSet(a[1..]);
      match VipFault(a[0], seen, fs) {
        case Some(e) =>
        case None =>
      }
    }
  }

  /** Fail-fast: once the VIPs before position k fail, the VIPs after them change nothing. */
  lemma FailFast(config: Config, fs: FileSystem, k: nat)
    requires k <= |config.vip|
    requires Verdict(Config(config.vip[..k]), fs).Fail?
    ensures Verdict(config, fs) == Verdict(Config(config.vip[..k]), fs)
  {
    CheckConcat(config.vip[..k], config.vip[k..], {}, fs);
    assert config.vip[..k] + config.vip[k..] == config.vip;
  }

  /**
   * In list order: when the VIPs before position k pass, the result is the
   * fault of VIP k, judged against the endpoints before it; so a repeated
   * endpoint is reported even if that VIP also has a backend of weight 0.
   */
  lemma FirstFaultReported(config: Config, fs: FileSystem, k: nat)
    requires k < |config.vip|
    requires Verdict(Config(config.vip[..k]), fs).Pass?
    requires VipFault(config.vip[k], EndpointSet(config.vip[..k]), fs).Some?
    ensures Verdict(config, fs) == Fail(VipFault(config.vip[k], EndpointSet(config.vip[..k]), fs).value)
  {
    CheckConcat(config.vip[..k], config.vip[k..], {}, fs);
    assert config.vip[..k] + config.vip[k..] == config.vip;
    assert config.vip[k..][0] == config.vip[k];
  }

  /** A failing validation names the fault of a VIP whose predecessors all pass. */
  lemma {:induction false} FaultHasFirstOffender(config: Config, fs: FileSystem)
    requires Verdict(config, fs).Fail?
    ensures exists k :: 0 <= k < |config.vip| &&
              Verdict(Config(config.vip[..k]), fs).Pass? &&
              VipFault(config.vip[k], EndpointSet(config.vip[..k]), fs) == Some(Verdict(config, fs).error)
  {
    var vips := config.vip;
    var k := 0;
    assert vips[..0] == [] && vips[..|vips|] == vips;
    while k < |vips| && VipFault(vips[k], EndpointSet(vips[..k]), fs).None?
      invariant k <= |vips|
      invariant CheckFrom(vips[..k], {}, fs).Pass?
    {
      CheckConcat(vips[..k], [vips[k]], {}, fs);
      assert vips[..k] + [vips[k]] == vips[..k + 1];
      k := k + 1;
    }
    assert k < |vips|;
    FirstFaultReported(config, fs, k);
  }
}
