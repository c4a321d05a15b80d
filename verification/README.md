# minip network interface: IPv4 address derivation

A Dafny model of the network-interface header of the minip IP stack
(`lib/minip/include/lib/minip/netif.h`). The header defines the per-interface
record, four configuration flags, and three inline accessors that derive the
netmask, the network address and the broadcast address from the stored IPv4
address and subnet width, afresh on every call.

- `bits.dfy`, module `Bits`: 32-bit words as `bv32`, the bit predicate `Bit`,
  bit-subset `SubsetOf`, `Pow2`, and the word identities the proofs use.
- `netif.dfy`, module `Netif`: the `Netif` record, the `Flag*` constants, and
  the derivation `Netmask`, `Network`, `Broadcast` over an address and a
  width. The accessors `GetNetmaskIpv4`, `GetNetworkIpv4` and
  `GetBroadcastIpv4` read the record's `ipv4Addr` and `ipv4SubnetWidth` and
  delegate to them.
- `netif_properties.dfy`, module `NetifProperties`: lemmas relating the three
  derived addresses to each other, to the address and across widths, and
  the flag facts.

C's `uint32_t` arithmetic is modular, and so is `bv32`: `(1U << w) - 1U`,
`&`, `|` and `~` (Dafny's `!`) map one to one. The netmask sets the LOW
`width` bits (width 24 gives `0x00ffffff`), not a CIDR high-bit mask; the
model keeps that convention. In C, `1U << w` is undefined for `w >= 32`, so
all three derivations require `WidthDefined(width)`, i.e. `width < 32`:
line 60 shifts `1U` by the raw width and has no case for width 32.

## Model

| member | source | states |
|---|---|---|
| Netif.Netmask | lib/minip/include/lib/minip/netif.h:60 | for widths below 32, bit i of the netmask is set exactly when i is below the width: the low `width` bits set, every bit at or above the width clear |
| Netif.Network | lib/minip/include/lib/minip/netif.h:64 | bit i of the network address is set exactly when i is below the width and bit i of the address is set |
| Netif.Broadcast | lib/minip/include/lib/minip/netif.h:68 | bit i of the broadcast address is set exactly when i is at or above the width, or bit i of the address is set |
| Netif.GetNetmaskIpv4 | lib/minip/include/lib/minip/netif.h:57-61 | reads the record's `ipv4SubnetWidth` and delegates to `Netmask`: bit i of the interface's netmask is set exactly when i is below the stored width |
| Netif.GetNetworkIpv4 | lib/minip/include/lib/minip/netif.h:63-65 | reads the record's `ipv4Addr` and `ipv4SubnetWidth` and delegates to `Network`: bit i is set exactly when i is below the stored width and bit i of the stored address is set |
| Netif.GetBroadcastIpv4 | lib/minip/include/lib/minip/netif.h:67-69 | reads the record's `ipv4Addr` and `ipv4SubnetWidth` and delegates to `Broadcast`: bit i is set exactly when i is at or above the stored width or bit i of the stored address is set |
| Netif.NetmaskBit | lib/minip/include/lib/minip/netif.h:60 | single-bit form of the netmask's characterisation |
| Netif.NetworkBit | lib/minip/include/lib/minip/netif.h:64 | bit i of `addr & mask` is bit i of the address below the width and clear above it |
| Netif.BroadcastBit | lib/minip/include/lib/minip/netif.h:68 | bit i of the network address OR-ed with the complemented mask is set at or above the width and is bit i of the address below it |
| Netif.NetworkBits | lib/minip/include/lib/minip/netif.h:64 | the network characterisation for all 32 bit positions at once |
| Netif.BroadcastBits | lib/minip/include/lib/minip/netif.h:68 | the broadcast characterisation for all 32 bit positions at once |
| Bits.ShiftOneIsPow2 | lib/minip/include/lib/minip/netif.h:60 | `1U << k` is the number 2^k for every shift count below 32 |
| NetifProperties.NetmaskIsPow2Minus1 | lib/minip/include/lib/minip/netif.h:60 | the netmask for width w is the number 2^w - 1 |
| NetifProperties.NetmaskDocumentedValues | lib/minip/include/lib/minip/netif.h:58-60 | width 24 gives `0x00ffffff`, width 16 gives `0x0000ffff`, width 0 gives 0 |
| NetifProperties.NetmaskMonotone | lib/minip/include/lib/minip/netif.h:60 | for w1 <= w2 < 32, every bit of netmask(w1) is a bit of netmask(w2) |
| NetifProperties.NetmaskOrdered | lib/minip/include/lib/minip/netif.h:60 | for w1 <= w2 < 32, netmask(w1) <= netmask(w2) as unsigned numbers |
| NetifProperties.NetworkOutsideMaskClear | lib/minip/include/lib/minip/netif.h:63-65 | the network address has no bit outside the netmask |
| NetifProperties.NetworkWithinAddress | lib/minip/include/lib/minip/netif.h:63-65 | every bit of the network address is a bit of the address |
| NetifProperties.NetworkIdempotent | lib/minip/include/lib/minip/netif.h:63-65 | the network of a network address is that network address |
| NetifProperties.BroadcastAgreesInsideMask | lib/minip/include/lib/minip/netif.h:67-69 | inside the netmask the broadcast address equals the address |
| NetifProperties.BroadcastFillsOutsideMask | lib/minip/include/lib/minip/netif.h:67-69 | outside the netmask every bit of the broadcast address is set |
| NetifProperties.BroadcastCoversAddress | lib/minip/include/lib/minip/netif.h:67-69 | every bit of the address is a bit of the broadcast address |
| NetifProperties.BroadcastMaskedIsNetwork | lib/minip/include/lib/minip/netif.h:63-69 | masking the broadcast address with the netmask gives the network address |
| NetifProperties.AddressBetweenNetworkAndBroadcast | lib/minip/include/lib/minip/netif.h:63-69 | network <= address <= broadcast as unsigned 32-bit numbers |
| NetifProperties.SameNetworkGivesSameBroadcast | lib/minip/include/lib/minip/netif.h:63-69 | two addresses with the same network have the same broadcast address |
| NetifProperties.SameBroadcastGivesSameNetwork | lib/minip/include/lib/minip/netif.h:63-69 | two addresses with the same broadcast address have the same network |
| NetifProperties.SameNetworkIffSameBroadcast | lib/minip/include/lib/minip/netif.h:63-69 | same network exactly when same broadcast, both directions |
| NetifProperties.SubnetBounds | lib/minip/include/lib/minip/netif.h:63-69 | every address with the same network lies between the network and broadcast addresses as unsigned numbers |
| NetifProperties.NetworkAndBroadcastOnSubnet | lib/minip/include/lib/minip/netif.h:63-69 | the network and broadcast addresses derive the same network as the address they came from |
| NetifProperties.LowBitConventionExample | lib/minip/include/lib/minip/netif.h:58-69 | `0xc0a8010a` with width 24 has network `0x00a8010a` and broadcast `0xffa8010a` |
| NetifProperties.FlagsAreSingleBits | lib/minip/include/lib/minip/netif.h:42-45 | the four flags are the single bits 1, 2, 4 and 8 |
| NetifProperties.FlagsDisjoint | lib/minip/include/lib/minip/netif.h:42-45 | two different flags share no bit |
| NetifProperties.SetFlagKeepsOthers | lib/minip/include/lib/minip/netif.h:42-45 | or-ing one flag into the flag word leaves every other flag's bit as it was |

## Left out

- `netif_create`, `netif_set_eth`, `netif_set_ipv4_addr`, `netif_register` (netif.h:49-53): only their declarations are in the header; their bodies are not part of this model, so their error codes, flag transitions, name copying and list append are not modelled.
- Heap allocation in `netif_create`: allocator behaviour, not logic.
- The transmit callback `tx_func` and its argument `tx_func_arg`: foreign driver code; the `Netif` record omits them.
- The `list_node` linkage of registered interfaces and any locking around it: list plumbing and concurrency.
- `NETIF_MAGIC` (`'NETI'`): a multi-character constant whose value C leaves to the compiler; `magic` is kept as an uninterpreted word.
- Subnet widths of 32 and above: `1U << 32` is undefined in C, so `Netmask`, `Network` and `Broadcast` require a width below 32 rather than inventing a result.
- The sizes of `mac_address[6]` and `name[32]` (netif.h:26, 37): `macAddress` and `name` are unbounded sequences, since no modelled operation reads them.
- Byte order of `ipv4_addr_t`: the header does not say it, so addresses are modelled as the bare 32-bit value the arithmetic sees.
