/**
 * The control plane's map publisher (src/ebpf.rs, `insert_rules`): each VIP,
 * in list order, becomes one record of the fixed Rust layout
 * `{ size; endpoint { rip; ports }[512] }`, written into the kernel's
 * `ip_map` under the VIP's four address octets with insert-or-overwrite
 * semantics.
 */
module Ebpf {
  import opened Wrappers
  import opened Words
  import opened Net
  import Config

  /** Capacity of the `endpoints` array of one record. */
  const MAX_BACKEND_NUMBER: nat := 512

  /** `max_entries` of `ip_map` in the kernel object (src/bpf/lb.bpf.c:15). */
  const MAP_MAX_ENTRIES: nat := 1024

  /** One backend slot: address and port only; the weight has no field. */
  datatype Endpoint = Endpoint(rip: U32, ports: U16)

  /** The value of a slot no backend was written to (`Default::default()`). */
  const DEFAULT_ENDPOINT := Endpoint(0, 0)

  /** The fixed array of slots of one record. */
  type Slots = s: seq<Endpoint> | |s| == MAX_BACKEND_NUMBER witness seq(512, _ => DEFAULT_ENDPOINT)

  /** The Rust-side record. */
  datatype Backends = Backends(size: U32, endpoints: Slots)

  datatype InsertError =
      /** A VIP with an IPv6 address: `bail!("IPv6 not supported yet")`. */
    | Ipv6NotSupported
      /** `endpoints[i]` with i past the array: a panic in the source. */
    | IndexOutOfBounds(index: nat)
      /** The kernel refuses a new key when the map already holds `max_entries`. */
    | MapFull

  /** The map key: four bytes. */
  type Key = Bytes4

  function Min(a: nat, b: nat): nat {
    if a <= b then a else b
  }

  /**
   * The key of a VIP address, `v4.octets()`; an IPv6 address has none. Read
   * as a big-endian (`__be32`) word the key is the address's number.
   */
  function KeyOf(addr: IpAddr): (key: Option<Key>)
    ensures key.Some? <==> addr.V4?
    ensures key.Some? ==> FromNeBytes(key.value, BigEndian) == Ipv4Number(addr.octets)
  {
    match addr
    case V4(octets) =>
      LeValue4(Reverse4(octets));
      Some(octets)
    case V6(_) => None
  }

  /** The slot one backend fills: `u32::from_ne_bytes` of an IPv4 address, else the default 0, and the port. */
  function EndpointFor(rip: Config.RealIp, host: ByteOrder): Endpoint {
    Endpoint(if rip.addr.V4? then FromNeBytes(rip.addr.octets, host) else DEFAULT_ENDPOINT.rip, rip.port)
  }

  /** The record `insert_rules` builds for a backend list, or the panic it hits. */
  function Encoded(rips: seq<Config.RealIp>, host: ByteOrder): Result<Backends, InsertError> {
    if |rips| > MAX_BACKEND_NUMBER then Failure(IndexOutOfBounds(MAX_BACKEND_NUMBER))
    else
      var slots := seq(MAX_BACKEND_NUMBER, i requires 0 <= i < MAX_BACKEND_NUMBER =>
                         if i < |rips| then EndpointFor(rips[i], host) else DEFAULT_ENDPOINT);
      Success(Backends(Min(|rips|, MAX_BACKEND_NUMBER), slots))
  }

  /**
   * The inner loop of `insert_rules`: a fresh array of default slots, filled
   * slot i from backend i, followed by the `size` computation. It fails
   * exactly when there are more than 512 backends, so the `min` never
   * truncates; each slot holds its backend's port and, for an IPv4 backend,
   * its address, and every other slot keeps its default.
   */
  method EncodeBackends(rips: seq<Config.RealIp>, host: ByteOrder) returns (r: Result<Backends, InsertError>)
    ensures r == Encoded(rips, host)
    ensures r.Failure? <==> |rips| > MAX_BACKEND_NUMBER
    ensures r.Success? ==> r.value.size == |rips| && |r.value.endpoints| == MAX_BACKEND_NUMBER
    ensures r.Success? ==> forall i :: 0 <= i < |rips| ==>
              && r.value.endpoints[i].ports == rips[i].port
              && r.value.endpoints[i].rip == (if rips[i].addr.V4? then FromNeBytes(rips[i].addr.octets, host) else 0)
    ensures r.Success? ==> forall i :: |rips| <= i < MAX_BACKEND_NUMBER ==> r.value.endpoints[i] == DEFAULT_ENDPOINT
  {
    var endpoints := new Endpoint[MAX_BACKEND_NUMBER](_ => DEFAULT_ENDPOINT);
    var i := 0;
    while i < |rips|
      invariant i <= |rips| && i <= MAX_BACKEND_NUMBER
      invariant forall j :: 0 <= j < i ==> endpoints[j] == EndpointFor(rips[j], host)
      invariant forall j :: i <= j < MAX_BACKEND_NUMBER ==> endpoints[j] == DEFAULT_ENDPOINT
    {
      if i >= endpoints.Length {
        return Failure(IndexOutOfBounds(i));
      }
      var rip := rips[i];
      if rip.addr.V4? {
        endpoints[i] := endpoints[i].(rip := FromNeBytes(rip.addr.octets, host));
      }
      endpoints[i] := endpoints[i].(ports := rip.port);
      i := i + 1;
    }
    assert endpoints[..] == Encoded(rips, host).value.endpoints;
    r := Success(Backends(Min(|rips|, MAX_BACKEND_NUMBER), endpoints[..]));
  }

  /**
   * The kernel program looks a connection up by its destination `user_ip4`,
   * a `__be32`: its bytes in memory, read in network order, are the
   * destination's address number. Whatever the host's byte order, those
   * bytes are exactly the key written for a VIP with that address.
   */
  lemma KernelLookupFindsKey(octets: Bytes4, host: ByteOrder, userIp4: U32)
    requires FromNeBytes(ToNeBytes(userIp4, host), BigEndian) == Ipv4Number(octets)
    ensures KeyOf(V4(octets)) == Some(ToNeBytes(userIp4, host))
  {
    var image := ToNeBytes(userIp4, host);
    NeBytesRoundTrip(image, BigEndian);
    NeBytesRoundTrip(octets, BigEndian);
  }

  /** What a slot says about its backend: the address bytes in memory, and the port. */
  function DecodedEndpoint(e: Endpoint, host: ByteOrder): (Bytes4, U16) {
    (ToNeBytes(e.rip, host), e.ports)
  }

  /**
   * Every IPv4 backend can be read back from its slot: the slot's address
   * word lies in memory as the backend's octets in network order, and the
   * port is the backend's port.
   */
  lemma EncodedDecodes(rips: seq<Config.RealIp>, host: ByteOrder, i: nat)
    requires |rips| <= MAX_BACKEND_NUMBER && i < |rips| && rips[i].addr.V4?
    ensures Encoded(rips, host).Success?
    ensures DecodedEndpoint(Encoded(rips, host).value.endpoints[i], host) == (rips[i].addr.octets, rips[i].port)
  {
    NeBytesRoundTrip(rips[i].addr.octets, host);
  }

  /** The weight is never written: lists differing only in weights encode to the same record. */
  lemma WeightNotEncoded(a: seq<Config.RealIp>, b: seq<Config.RealIp>, host: ByteOrder)
    requires |a| == |b|
    requires forall i :: 0 <= i < |a| ==> a[i].addr == b[i].addr && a[i].port == b[i].port
    ensures Encoded(a, host) == Encoded(b, host)
  {
    if |a| <= MAX_BACKEND_NUMBER {
      assert Encoded(a, host).value.endpoints == Encoded(b, host).value.endpoints;
    }
  }

  /** The kernel map as the control plane sees it: key bytes to record. */
  class IpMap {
    var entries: map<Key, Backends>

    ghost predicate Valid()
      reads this
    {
      |entries| <= MAP_MAX_ENTRIES
    }

    constructor (initial: map<Key, Backends>)
      requires |initial| <= MAP_MAX_ENTRIES
      ensures Valid() && entries == initial
    {
      entries := initial;
    }

    /**
     * `update(key, value, MapFlags::ANY)`: insert the key or replace its
     * whole value; a new key is refused when the map is full.
     */
    method Update(key: Key, value: Backends) returns (r: Outcome<InsertError>)
      requires Valid()
      modifies this
      ensures Valid()
      ensures r == (if Upserted(old(entries), key, value).Success? then Pass else Fail(MapFull))
      ensures entries == if r.Pass? then Upserted(old(entries), key, value).value else old(entries)
    {
      if key !in entries && |entries| >= MAP_MAX_ENTRIES {
        return Fail(MapFull);
      }
      entries := entries[key := value];
      r := Pass;
    }
  }

  /** The map after an insert-or-overwrite of one key, or the refusal. */
  function Upserted(entries: map<Key, Backends>, key: Key, value: Backends): (r: Result<map<Key, Backends>, InsertError>)
    ensures r.Success? <==> key in entries || |entries| < MAP_MAX_ENTRIES
    ensures r.Success? ==> r.value.Keys == entries.Keys + {key} && r.value[key] == value
    ensures r.Success? ==> forall k :: k in entries && k != key ==> r.value[k] == entries[k]
    ensures r.Success? && |entries| <= MAP_MAX_ENTRIES ==> |r.value| <= MAP_MAX_ENTRIES
  {
    if key !in entries && |entries| >= MAP_MAX_ENTRIES then Failure(MapFull)
    else Success(entries[key := value])
  }

  /** The outcome of a pass, and the map as the pass left it. */
  datatype Published = Published(outcome: Outcome<InsertError>, entries: map<Key, Backends>)

  /** One VIP of the pass: key, record, upsert, in that order. */
  function PublishOne(vip: Config.Vip, entries: map<Key, Backends>, host: ByteOrder): Result<map<Key, Backends>, InsertError> {
    match KeyOf(vip.addr)
    case None => Failure(Ipv6NotSupported)
    case Some(key) =>
      match Encoded(vip.rip, host)
      case Failure(e) => Failure(e)
      case Success(value) => Upserted(entries, key, value)
  }

  /** The whole pass of `insert_rules` over the VIPs, stopping at the first error. */
  function Publish(vips: seq<Config.Vip>, entries: map<Key, Backends>, host: ByteOrder): Published
    decreases |vips|
  {
    if vips == [] then Published(Pass, entries)
    else match PublishOne(vips[0], entries, host)
      case Failure(e) => Published(Fail(e), entries)
      case Success(entries') => Publish(vips[1..], entries', host)
  }

  /**
   * `insert_rules`: for each VIP in order, derive the key, build the record
   * and upsert it, stopping at the first error; the map keeps what was
   * written before the error. `host` is the byte order of the machine.
   */
  method InsertRules(config: Config.Config, ipMap: IpMap, host: ByteOrder) returns (r: Outcome<InsertError>)
    requires ipMap.Valid()
    modifies ipMap
    ensures ipMap.Valid()
    ensures Published(r, ipMap.entries) == Publish(config.vip, old(ipMap.entries), host)
  {
    var vips := config.vip;
    var k := 0;
    while k < |vips|
      invariant k <= |vips| && ipMap.Valid()
      invariant Publish(vips, old(ipMap.entries), host) == Publish(vips[k..], ipMap.entries, host)
    {
      var vip := vips[k];
      PublishStep(vips, k, ipMap.entries, host);
      var key;
      match vip.addr {
        case V4(octets) => key := octets;
        case V6(_) => return Fail(Ipv6NotSupported);
      }
      var value := EncodeBackends(vip.rip, host);
      if value.Failure? {
        return Fail(value.error);
      }
      var updated := ipMap.Update(key, value.value);
      if updated.Fail? {
        return updated;
      }
      k := k + 1;
    }
    r := Pass;
  }

  lemma PublishStep(vips: seq<Config.Vip>, k: nat, entries: map<Key, Backends>, host: ByteOrder)
    requires k < |vips|
    ensures Publish(vips[k..], entries, host) ==
              match PublishOne(vips[k], entries, host)
              case Failure(e) => Published(Fail(e), entries)
              case Success(m) => Publish(vips[k + 1..], m, host)
  {
    assert vips[k..][0] == vips[k] && vips[k..][1..] == vips[k + 1..];
  }

  /**
   * The pass over a list is the pass over its front part and, only if that
   * succeeds, the pass over the rest starting from the map it left.
   */
  lemma {:induction false} PublishConcat(a: seq<Config.Vip>, b: seq<Config.Vip>, entries: map<Key, Backends>, host: ByteOrder)
    ensures Publish(a + b, entries, host) ==
              if Publish(a, entries, host).outcome.Fail? then Publish(a, entries, host)
              else Publish(b, Publish(a, entries, host).entries, host)
    decreases |a|
  {
    if a == [] {
      assert a + b == b;
    } else {
      assert (a + b)[0] == a[0] && (a + b)[1..] == a[1..] + b;
      match PublishOne(a[0], entries, host) {
        case Failure(e) =>
        case Success(entries') => PublishConcat(a[1..], b, entries', host);
      }
    }
  }

  /**
   * A VIP with an IPv6 address aborts the pass: what the VIPs before it
   * wrote stays written, and no VIP after it is written.
   */
  lemma Ipv6Aborts(vips: seq<Config.Vip>, entries: map<Key, Backends>, host: ByteOrder, k: nat)
    requires k < |vips| && vips[k].addr.V6?
    requires Publish(vips[..k], entries, host).outcome.Pass?
    ensures Publish(vips, entries, host) == Published(Fail(Ipv6NotSupported), Publish(vips[..k], entries, host).entries)
  {
    PublishConcat(vips[..k], vips[k..], entries, host);
    assert vips[..k] + vips[k..] == vips;
    assert vips[k..][0] == vips[k];
  }

  ghost predicate WrittenBy(vips: seq<Config.Vip>, key: Key) {
    exists i :: 0 <= i < |vips| && KeyOf(vips[i].addr) == Some(key)
  }

  /** No VIP after position i has the same key. */
  ghost predicate LastWriter(vips: seq<Config.Vip>, i: nat)
    requires i < |vips|
  {
    forall j :: i < j < |vips| ==> KeyOf(vips[j].addr) != KeyOf(vips[i].addr)
  }

  /**
   * The map a successful pass leaves, stated without the pass: the keys are
   * the old ones and those of the VIPs; each VIP's key holds that VIP's
   * record if no later VIP has the same address; every other key keeps its
   * old record.
   */
  ghost predicate LastWriterWins(vips: seq<Config.Vip>, before: map<Key, Backends>, after: map<Key, Backends>, host: ByteOrder) {
    && (forall key :: key in after <==> key in before || WrittenBy(vips, key))
    && (forall i :: 0 <= i < |vips| && LastWriter(vips, i) && vips[i].addr.V4? && Encoded(vips[i].rip, host).Success? ==>
          && vips[i].addr.octets in after
          && after[vips[i].addr.octets] == Encoded(vips[i].rip, host).value)
    && (forall key :: key in before && !WrittenBy(vips, key) ==> key in after && after[key] == before[key])
  }

  lemma WrittenByCons(vips: seq<Config.Vip>, key: Key)
    requires vips != []
    ensures WrittenBy(vips, key) <==> KeyOf(vips[0].addr) == Some(key) || WrittenBy(vips[1..], key)
  {
    if WrittenBy(vips, key) {
      var i :| 0 <= i < |vips| && KeyOf(vips[i].addr) == Some(key);
      if i > 0 { assert vips[1..][i - 1] == vips[i]; }
    }
    if WrittenBy(vips[1..], key) {
      var i :| 0 <= i < |vips[1..]| && KeyOf(vips[1..][i].addr) == Some(key);
      assert vips[i + 1] == vips[1..][i];
    }
  }

  /** The first step of a successful pass: the first VIP's record is upserted under its key. */
  lemma PublishedHead(vips: seq<Config.Vip>, entries: map<Key, Backends>, host: ByteOrder)
    requires vips != [] && Publish(vips, entries, host).outcome.Pass?
    ensures vips[0].addr.V4? && Encoded(vips[0].rip, host).Success?
    ensures Publish(vips, entries, host) ==
              Publish(vips[1..], entries[vips[0].addr.octets := Encoded(vips[0].rip, host).value], host)
  {
  }

  /** A successful pass had only IPv4 VIPs with at most 512 backends, and adds exactly their keys. */
  lemma {:induction false} PublishedKeys(vips: seq<Config.Vip>, entries: map<Key, Backends>, host: ByteOrder)
    requires Publish(vips, entries, host).outcome.Pass?
    ensures forall i :: 0 <= i < |vips| ==> vips[i].addr.V4? && |vips[i].rip| <= MAX_BACKEND_NUMBER
    ensures forall key :: key in Publish(vips, entries, host).entries <==> key in entries || WrittenBy(vips, key)
    decreases |vips|
  {
    if vips != [] {
      PublishedHead(vips, entries, host);
      var key := vips[0].addr.octets;
      PublishedKeys(vips[1..], entries[key := Encoded(vips[0].rip, host).value], host);
      forall i | 0 <= i < |vips| ensures vips[i].addr.V4? && |vips[i].rip| <= MAX_BACKEND_NUMBER {
        if i > 0 { assert vips[i] == vips[1..][i - 1]; }
      }
      forall k: Key ensures WrittenBy(vips, k) <==> k == key || WrittenBy(vips[1..], k) {
        WrittenByCons(vips, k);
      }
    }
  }

  /** After a successful pass, a key no listed VIP has keeps its old record. */
  lemma {:induction false} PublishedUntouched(vips: seq<Config.Vip>, entries: map<Key, Backends>, host: ByteOrder, key: Key)
    requires Publish(vips, entries, host).outcome.Pass?
    requires key in entries && !WrittenBy(vips, key)
    ensures key in Publish(vips, entries, host).entries
    ensures Publish(vips, entries, host).entries[key] == entries[key]
    decreases |vips|
  {
    if vips != [] {
      PublishedHead(vips, entries, host);
      WrittenByCons(vips, key);
      PublishedUntouched(vips[1..], entries[vips[0].addr.octets := Encoded(vips[0].rip, host).value], host, key);
    }
  }

  /** After a successful pass, a VIP no later VIP shares an address with has its record under its key. */
  lemma {:induction false} PublishedLast(vips: seq<Config.Vip>, entries: map<Key, Backends>, host: ByteOrder, i: nat)
    requires Publish(vips, entries, host).outcome.Pass?
    requires i < |vips| && LastWriter(vips, i) && vips[i].addr.V4? && Encoded(vips[i].rip, host).Success?
    ensures vips[i].addr.octets in Publish(vips, entries, host).entries
    ensures Publish(vips, entries, host).entries[vips[i].addr.octets] == Encoded(vips[i].rip, host).value
    decreases |vips|
  {
    PublishedHead(vips, entries, host);
    var rest, key := vips[1..], vips[0].addr.octets;
    var entries' := entries[key := Encoded(vips[0].rip, host).value];
    if i == 0 {
      assert !WrittenBy(rest, key) by {
        forall j | 0 <= j < |rest| ensures KeyOf(rest[j].addr) != Some(key) {
          assert rest[j] == vips[j + 1];
        }
      }
      PublishedUntouched(rest, entries', host, key);
    } else {
      assert rest[i - 1] == vips[i];
      assert LastWriter(rest, i - 1) by {
        forall j | i - 1 < j < |rest| ensures KeyOf(rest[j].addr) != KeyOf(rest[i - 1].addr) {
          assert rest[j] == vips[j + 1];
        }
      }
      PublishedLast(rest, entries', host, i - 1);
    }
  }

  /**
   * A pass that succeeds had only IPv4 VIPs with at most 512 backends each,
   * and leaves each key holding the record of the last VIP with that
   * address; keys of no listed VIP are unchanged.
   */
  lemma PublishedLastWriterWins(vips: seq<Config.Vip>, entries: map<Key, Backends>, host: ByteOrder)
    requires Publish(vips, entries, host).outcome.Pass?
    ensures forall i :: 0 <= i < |vips| ==> vips[i].addr.V4? && |vips[i].rip| <= MAX_BACKEND_NUMBER
    ensures LastWriterWins(vips, entries, Publish(vips, entries, host).entries, host)
  {
    PublishedKeys(vips, entries, host);
    forall i | 0 <= i < |vips| && LastWriter(vips, i) && vips[i].addr.V4? && Encoded(vips[i].rip, host).Success?
      ensures vips[i].addr.octets in Publish(vips, entries, host).entries
      ensures Publish(vips, entries, host).entries[vips[i].addr.octets] == Encoded(vips[i].rip, host).value
    {
      PublishedLast(vips, entries, host, i);
    }
    forall key | key in entries && !WrittenBy(vips, key)
      ensures key in Publish(vips, entries, host).entries
      ensures Publish(vips, entries, host).entries[key] == entries[key]
    {
      PublishedUntouched(vips, entries, host, key);
    }
  }

  /**
   * Validation and publication disagree on identity: two VIPs on the same
   * IPv4 address and different ports both pass `validate`, and publishing
   * them leaves only the second one's record under their shared key.
   */
  lemma SameAddressOverwrites(v1: Config.Vip, v2: Config.Vip, fs: Config.FileSystem,
                              entries: map<Key, Backends>, host: ByteOrder)
    requires v1.addr == v2.addr && v1.addr.V4? && v1.port != v2.port
    requires !v1.stat.enable && !v2.stat.enable
    requires forall j :: 0 <= j < |v1.rip| ==> v1.rip[j].weight >= 1
    requires forall j :: 0 <= j < |v2.rip| ==> v2.rip[j].weight >= 1
    requires |v1.rip| <= MAX_BACKEND_NUMBER && |v2.rip| <= MAX_BACKEND_NUMBER
    requires v1.addr.octets in entries || |entries| < MAP_MAX_ENTRIES
    ensures Config.Verdict(Config.Config([v1, v2]), fs) == Pass
    ensures Publish([v1, v2], entries, host).outcome == Pass
    ensures Publish([v1, v2], entries, host).entries == entries[v1.addr.octets := Encoded(v2.rip, host).value]
  {
    Config.SameAddressOtherPortAccepted(v1, v2, fs);
    var key := v1.addr.octets;
    var m1 := entries[key := Encoded(v1.rip, host).value];
    assert PublishOne(v1, entries, host) == Success(m1);
    assert [v1, v2][1..] == [v2];
    var m2 := m1[key := Encoded(v2.rip, host).value];
    assert PublishOne(v2, m1, host) == Success(m2);
    assert [v2][1..] == [];
    assert Publish([v2], m1, host) == Publish([], m2, host);
    assert Publish([v1, v2], entries, host) == Publish([v2], m1, host);
    assert m2 == entries[key := Encoded(v2.rip, host).value];
  }
}
