# kotori — a Dafny model of the load balancer's core

kotori is a Layer-4 load balancer. Its userspace control process reads a list of
virtual services (VIPs), each with an (address, port) endpoint and a list of
real backends (RIPs). It checks the list, attaches a small program at the
cgroup `connect4` hook and waits. The function `insert_rules` would write one
record per VIP into the kernel hash map `ip_map`, keyed by the VIP's IPv4
address, but `main` never calls it. So as shipped the map stays empty and
every connect passes unchanged. With the map filled, the program acts on each
outgoing IPv4 connect:

- a connection whose destination is a VIP is redirected to one of that VIP's
  backends, chosen at random;
- a connection to a VIP with an empty backend table is dropped.

This project models the three parts of that core:

- **`Config`** (`config.dfy`, from `src/config.rs`) holds the parsed
  configuration records and the serde defaults (weight 1, interval 1).
  `Validate` is the fail-fast pass of `Config::validate`:
  - one loop over the VIPs keeps the endpoints seen so far in a growing set;
  - an inner loop over each VIP's backends rejects weight 0;
  - the statistics-output check comes last: the output's parent directory
    must exist and the path must open for appending.

  It is proved against the recursive specification `CheckFrom`/`Verdict`. It
  is also proved to succeed exactly when endpoints are pairwise distinct,
  weights are positive and every enabled statistics output is writable.
- **`Ebpf`** (`ebpf.dfy`, from `src/ebpf.rs`) models `insert_rules`:
  - `EncodeBackends` fills the fixed 512-slot array with `rip`/`ports` and sets
    `size`;
  - the class `IpMap` holds the kernel map as a `map` with an
    insert-or-overwrite `Update`;
  - `InsertRules` is the per-VIP pass.

  All three are proved against the specification functions `Encoded`,
  `Upserted` and `Publish`. Lemmas then cover the following: IPv6 aborts;
  after a successful pass the last VIP with a given address wins; and
  validation and publication disagree on identity.
- **`Lb`** (`lb_bpf.dfy`, from `src/bpf/lb.bpf.c`) models the connect4
  program:
  - `Decide` gives the verdict and the new destination as a function;
  - `LoadBalance`/`LoadBalanceImpl` are methods over a socket-context class.
    Their `modifies` frames let them write only its `userIp4` field.

Shared modules:

- `Words` holds fixed-width integers, `u32::from_ne_bytes` and
  `to_ne_bytes` for either host byte order, and bitwise AND on naturals.
- `Net` holds `IpAddr`.
- `Wrappers` holds Option, Result and Outcome.

The model makes four points explicit:

- The weight is never encoded: a slot has only `rip` and `ports`.
- An IPv6 backend keeps `rip = 0` but still gets its port.
- More than 512 backends make `endpoints[i]` index past the array. That is a
  panic, modelled as the error `IndexOutOfBounds(512)`. So `min(len, 512)`
  never truncates.
- `validate` identifies a VIP by (address, port), but the map key is the
  address alone. Two VIPs on one address and different ports both validate,
  and the second overwrites the first (`SameAddressOverwrites`).

The Rust record `{ size; endpoint { rip; ports }[512] }` and the C record
`{ size; __be32 rips[1024] }` are modelled as two separate datatypes
(`Ebpf.Backends` and `Lb.Backends`). No codec between them is claimed. The
layouts differ, and `src/main.rs` never declares `mod ebpf`, so
`insert_rules` is not reached from `main`.

The `hash`, `roundrobin` and `leastconn` modes are parsed (`LbMode`) but
nothing reads them. The kernel program always picks
`rips[(r % min(size, 1024)) & 1023]`, so the model has no weighted,
round-robin, least-connection or hash selection.

## Model

| member | source | states |
|---|---|---|
| `Config.RealIpWithDefaults` | src/config.rs:51-57 | an explicit `w` is kept as written; an omitted `w` yields `default_weight` (src/config.rs:84-86), which is 1; so the weight is 0 exactly when `w = 0` was written |
| `Config.StatOutputWithDefaults` | src/config.rs:65-71 | an explicit `interval` is kept as written; an omitted one yields `default_interval` (src/config.rs:81-83), which is 1; so the interval is 0 exactly when `interval = 0` was written |
| `Config.FirstZeroWeight` | src/config.rs:104-108 | the inner loop finds a backend exactly when some weight is 0, and the one it finds is the first of weight 0 |
| `Config.LastSlash` | src/config.rs:115 | finds a `/` exactly when the path has one, and the one it finds has no `/` after it |
| `Config.Parent` | src/config.rs:115-116 | `Path::parent`: none exactly for the empty path and the root; the empty path for a bare file name; otherwise a strictly shorter prefix of the path |
| `Config.StatFault` | src/config.rs:110-126 | the statistics check passes exactly when statistics are disabled, or an output is configured, its parent (if any) is an existing directory, and the path opens for appending; a bare file name always fails on its empty parent, and the empty path fails to open |
| `Config.VipFault` | src/config.rs:98-126 | a VIP is faulty on its endpoint first, then on its first zero-weight backend, then on statistics; it is clean exactly when all three checks pass |
| `Config.Validate` | src/config.rs:95-130 | the loop returns the fail-fast verdict, and it succeeds exactly when endpoints are pairwise distinct, every weight is ≥ 1 and every enabled statistics output is usable |
| `Config.CheckFromPassIff` | src/config.rs:95-130 | the pass from any set of already-seen endpoints succeeds iff no VIP repeats a seen or earlier endpoint, all weights are positive and all statistics outputs are usable |
| `Config.ValidWithoutStats` | src/config.rs:95-108 | with statistics disabled everywhere, validation succeeds iff the endpoints are pairwise distinct and every weight is ≥ 1 |
| `Config.BareFileNameRejected` | src/config.rs:113-118 | a VIP with statistics enabled and a bare file name as output path makes validation fail |
| `Config.DuplicateRejected` | src/config.rs:99-102 | two VIPs with the same address and port make validation fail |
| `Config.ZeroWeightRejected` | src/config.rs:104-108 | a backend of weight 0 in any VIP makes validation fail |
| `Config.SameAddressOtherPortAccepted` | src/config.rs:99-100 | two VIPs on the same address and different ports, with positive weights and no statistics, validate |
| `Config.CheckConcat` | src/config.rs:98-127 | the pass over a concatenation is the front's failure, or else the rest's pass with the front's endpoints already seen |
| `Config.FailFast` | src/config.rs:98-127 | once a prefix of the VIP list fails, the VIPs after it do not change the result |
| `Config.FirstFaultReported` | src/config.rs:98-108 | if the VIPs before k pass, the result is VIP k's own fault, so a repeated endpoint is reported before that VIP's weights are looked at |
| `Config.FaultHasFirstOffender` | src/config.rs:98-127 | every failure is the fault of some VIP whose predecessors all pass |
| `Words.LeBytesOfValue` | src/ebpf.rs:73-74 | splitting the little-endian value of a byte string back into as many bytes gives the string |
| `Words.LeValueOfBytes` | src/ebpf.rs:73-74 | reading back the n little-endian bytes of a value below 256^n gives the value |
| `Words.NeBytesRoundTrip` | src/ebpf.rs:73-74 | the word `u32::from_ne_bytes` builds lies in memory as exactly the octets it was built from, on either byte order |
| `Words.NeWordRoundTrip` | src/ebpf.rs:73-74 | every 32-bit word is `from_ne_bytes` of its own memory image, so the conversion is a bijection |
| `Words.BitAnd` | src/bpf/lb.bpf.c:32 | bitwise AND is no larger than either operand |
| `Words.BitAndLowMask` | src/bpf/lb.bpf.c:30-32 | masking a value below 2^k with 2^k − 1 leaves it unchanged |
| `Ebpf.KeyOf` | src/ebpf.rs:63-66 | an IPv4 VIP has a key and an IPv6 VIP has none; read as a big-endian word, the key is the address's number, so the octets are in network order |
| `Ebpf.EncodeBackends` | src/ebpf.rs:68-84 | the record fails exactly for more than 512 backends; otherwise `size` equals the backend count; slot i holds backend i's port and, for IPv4, its `from_ne_bytes` address, with 0 for IPv6; later slots are default |
| `Ebpf.KernelLookupFindsKey` | src/ebpf.rs:63-64 | for any `__be32` destination whose bytes, read in network order, are the address number, those bytes in memory are exactly the key the control plane writes, on either host byte order |
| `Ebpf.EncodedDecodes` | src/ebpf.rs:71-78 | the address octets and the port of every IPv4 backend can be read back from its slot |
| `Ebpf.WeightNotEncoded` | src/ebpf.rs:68-84 | backend lists that differ only in weights encode to the same record |
| `Ebpf.Upserted` | src/ebpf.rs:90 | an `ANY` upsert succeeds unless it adds a new key to a full map; on success it adds or replaces exactly that key and leaves every other key alone |
| `Ebpf.IpMap.Update` | src/ebpf.rs:90 | the map becomes the upsert's result, or stays unchanged when the map is full, and it never grows beyond its 1024 entries |
| `Ebpf.InsertRules` | src/ebpf.rs:61-93 | the returned outcome and the final map are those of the fail-fast publish pass over the VIPs in list order |
| `Ebpf.PublishConcat` | src/ebpf.rs:62-91 | publishing a concatenation is the front's failure, or else the rest published on the map the front left |
| `Ebpf.Ipv6Aborts` | src/ebpf.rs:62-66 | an IPv6 VIP aborts with an error, leaving the map as the earlier VIPs wrote it; no later VIP is written |
| `Ebpf.PublishedKeys` | src/ebpf.rs:62-91 | a successful pass had only IPv4 VIPs of at most 512 backends, and its keys are the old keys plus the VIPs' keys |
| `Ebpf.PublishedUntouched` | src/ebpf.rs:62-91 | after a successful pass, a key that no listed VIP has keeps its old record |
| `Ebpf.PublishedLast` | src/ebpf.rs:62-91 | after a successful pass, a VIP with no later VIP on the same address has its own record under its key |
| `Ebpf.PublishedLastWriterWins` | src/ebpf.rs:62-91 | after a successful pass, each key holds the record of the last VIP with that address, and the other keys are unchanged |
| `Ebpf.SameAddressOverwrites` | src/ebpf.rs:62-90 | two VIPs on the same IPv4 address and different ports pass validation, and publishing them leaves only the second one's record |
| `Lb.EffectiveSize` | src/bpf/lb.bpf.c:64-66 | the size used for selection is between 1 and 1024, never above `size`, and is `size` or 1024 |
| `Lb.SelectIndex` | src/bpf/lb.bpf.c:29-32 | for 1 ≤ size ≤ 1024, `(r % size) & 1023` equals `r % size` and is below `size`, so the read stays in bounds |
| `Lb.Decide` | src/bpf/lb.bpf.c:40-71 | DROP exactly for IPv4 to a VIP whose size is 0; non-IPv4 or non-VIP destinations pass untouched; otherwise PASS with the destination set to `rips[r % min(size,1024)]`, one of the first `min(size,1024)` backends |
| `Lb.LoadBalanceImpl` | src/bpf/lb.bpf.c:27-37 | only the destination address is written, and it becomes `rips[r % size]` |
| `Lb.LoadBalance` | src/bpf/lb.bpf.c:40-71 | the verdict and the new destination are `Decide` of the context, the map and `r`; nothing but `user_ip4` changes and the map is only read |

## Left out

- TOML reading and serde deserialisation (`Config::new`, the enum-renaming tests) are not modelled: the model starts from parsed records. The serde defaults are modelled by `RealIpWithDefaults` and `StatOutputWithDefaults`.
- The file system is the parameter `fs`. It answers whether a directory exists and whether a path opens for appending. Both are I/O. The model fixes two answers itself: the empty path never exists and never opens.
- `Config.StatFault`: opening with `create(true)` creates the statistics file during validation. The model has no state for that side effect: the file system before and after the check is the same `fs`.
- `Config.Parent`: the normalisation `Path::parent` applies is not modelled. Trailing slashes, repeated slashes and `.` components are kept, so for `a/b/` the model's parent is `a/b` where Rust's is `a`. Bare file names, absolute and relative paths with single slashes are exact.
- `stat.enable` with no `out` table is an `unwrap` panic in the source. The model reports it as the error `StatOutputMissing`. Likewise, more than 512 backends is an index panic in `insert_rules`, reported as `IndexOutOfBounds`.
- The endpoint string `"{addr}:{port}"` is modelled as the pair (address, port). The two have the same equality, because a port has no `:`.
- `Ebpf.IpMap.Update`: the only kernel refusal modelled is a new key in a full map (`max_entries` 1024). Other kernel errors, the value-size check and the raw-pointer view of the record as bytes are left out.
- The memlock rlimit, skeleton open/load, cgroup open, `attach_cgroup`, the Ctrl-C wait loop, the root check and logging are not modelled. They are syscalls, signals and time.
- `bpf_get_prandom_u32` is the parameter `random`, and `bpf_printk` tracing is dropped.
- Concurrency between the control plane and the kernel program is not modelled: each map update is one atomic replacement.
- No codec round trip between the Rust and C record layouts is modelled, because they differ.
- `src/cli.rs`, `build.rs`, `src/vip.rs` and `tests/backends` are not part of this model. They are file checks, build steps, unused code and a network responder.
