/**
 * The kernel program attached at the cgroup connect4 hook
 * (src/bpf/lb.bpf.c): for an IPv4 connection whose destination is a key of
 * `ip_map`, it drops the connection if the VIP has no backends, and
 * otherwise rewrites the destination address to a backend chosen by a
 * random number. The C record is `{ size; __be32 rips[1024] }`, a different
 * layout from the one the Rust control plane writes.
 */
module Lb {
  import opened Words

  /** Capacity of `rips` in the C record. */
  const MAX_BACKEND_NUMBER: nat := 1024

  const AF_INET: U32 := 2

  type Rips = s: seq<U32> | |s| == MAX_BACKEND_NUMBER witness seq(1024, _ => 0)

  /** The C record `struct backends`. */
  datatype Backends = Backends(size: U32, rips: Rips)

  /** The program's return value: DROP (0) or PASS (1). */
  datatype Verdict = Drop | Pass

  /** The fields of `struct bpf_sock_addr` the program reads or writes. */
  class SockAddr {
    var family: U32
    var userIp4: U32
    var userPort: U32
    var protocol: U32

    constructor (family: U32, userIp4: U32, userPort: U32, protocol: U32)
      ensures this.family == family && this.userIp4 == userIp4
      ensures this.userPort == userPort && this.protocol == protocol
    {
      this.family := family;
      this.userIp4 := userIp4;
      this.userPort := userPort;
      this.protocol := protocol;
    }
  }

  /** The number of backends selection draws from: `size` capped at the array's capacity. */
  function EffectiveSize(size: U32): (n: nat)
    requires size != 0
    ensures 1 <= n <= MAX_BACKEND_NUMBER && n <= size
    ensures n == size || n == MAX_BACKEND_NUMBER
  {
    if size > MAX_BACKEND_NUMBER then MAX_BACKEND_NUMBER else size
  }

  /**
   * The index `load_banalce_impl` reads: the random value modulo `size`,
   * masked with 1023. For a `size` within the capacity the mask changes
   * nothing, so the index is below `size`.
   */
  function SelectIndex(random: U32, size: nat): (i: nat)
    requires 1 <= size <= MAX_BACKEND_NUMBER
    ensures i == random % size
    ensures i < size
  {
    assert Pow2(10) == MAX_BACKEND_NUMBER;
    BitAndLowMask(random % size, 10);
    BitAnd(random % size, MAX_BACKEND_NUMBER - 1)
  }

  /** What one connect4 call decides: the verdict and the destination address left in the context. */
  datatype Decision = Decision(verdict: Verdict, userIp4: U32)

  /**
   * `load_balance` as a decision: the connection is dropped exactly when it
   * is IPv4 and its destination is a VIP with `size == 0`; a connection that
   * is not IPv4 or not to a VIP passes untouched; otherwise it passes with
   * its destination replaced by one of the first `min(size, 1024)` backends,
   * the one at `random % min(size, 1024)`.
   */
  function Decide(family: U32, userIp4: U32, ipMap: map<U32, Backends>, random: U32): (d: Decision)
    ensures d.verdict == Drop <==> family == AF_INET && userIp4 in ipMap && ipMap[userIp4].size == 0
    ensures family != AF_INET || userIp4 !in ipMap ==> d == Decision(Pass, userIp4)
    ensures d.verdict == Drop ==> d.userIp4 == userIp4
    ensures family == AF_INET && userIp4 in ipMap && ipMap[userIp4].size != 0 ==>
              var n := EffectiveSize(ipMap[userIp4].size);
              d.verdict == Pass && d.userIp4 == ipMap[userIp4].rips[random % n] &&
              d.userIp4 in ipMap[userIp4].rips[..n]
  {
    if family != AF_INET then Decision(Pass, userIp4)
    else if userIp4 !in ipMap then Decision(Pass, userIp4)
    else
      var node := ipMap[userIp4];
      if node.size == 0 then Decision(Drop, userIp4)
      else
        var size := EffectiveSize(node.size);
        Decision(Pass, node.rips[SelectIndex(random, size)])
  }

  /** `load_banalce_impl`: write the selected backend into the destination address. */
  method LoadBalanceImpl(sk: SockAddr, size: nat, rips: Rips, random: U32)
    requires 1 <= size <= MAX_BACKEND_NUMBER
    modifies sk`userIp4
    ensures sk.userIp4 == rips[random % size]
  {
    var randomIndex := random % size;
    randomIndex := BitAnd(randomIndex, MAX_BACKEND_NUMBER - 1);
    BitAndLowMask(random % size, 10);
    assert Pow2(10) == MAX_BACKEND_NUMBER;
    var targetIp := rips[randomIndex];
    sk.userIp4 := targetIp;
  }

  /**
   * `load_balance` on a socket context, `random` standing for
   * `bpf_get_prandom_u32()`. Only the destination address may change; the
   * map is only read; the outcome depends on nothing but the context, the
   * map and `random`.
   */
  method LoadBalance(sk: SockAddr, ipMap: map<U32, Backends>, random: U32) returns (verdict: Verdict)
    modifies sk`userIp4
    ensures Decision(verdict, sk.userIp4) == Decide(sk.family, old(sk.userIp4), ipMap, random)
  {
    if sk.family != AF_INET {
      return Pass;
    }
    var vip := sk.userIp4;
    if vip !in ipMap {
      return Pass;
    }
    var node := ipMap[vip];
    var size := node.size;
    if size == 0 {
      return Drop;
    }
    if size > MAX_BACKEND_NUMBER {
      size := MAX_BACKEND_NUMBER;
    }
    LoadBalanceImpl(sk, size, node.rips, random);
    return Pass;
  }
}
