/** The per-interface record of the minip network stack, its configuration
    flags, and the IPv4 netmask / network / broadcast derivation that the
    interface accessors recompute from the stored address and subnet width
    on every call. */
module Netif {
  import opened Bits

  /** One network interface, as created by a driver and registered with the
      stack. The list linkage and the driver's transmit callback with its
      argument are not modelled. */
  datatype Netif = Netif(
    magic: bv32,
    flags: bv32,
    macAddress: seq<bv8>,    // uint8_t[6]; the length is not constrained here
    ipv4Addr: bv32,          // ipv4_addr_t, a 32-bit unsigned word
    ipv4SubnetWidth: bv8,    // uint8_t
    name: string             // char[32]: at most 31 characters and a NUL; not bounded here
  )

  /** Configuration flags, bits of `flags`. */
  const FlagLoopback: bv32 := 1 << 0        // loopback interface
  const FlagEthConfigured: bv32 := 1 << 1   // mac address and transmit routine set
  const FlagRegistered: bv32 := 1 << 2      // added to the interface list
  const FlagIpv4Configured: bv32 := 1 << 3  // ipv4 address set

  /** The four flags the interface layer defines. */
  predicate IsFlag(f: bv32)
  {
    f == FlagLoopback || f == FlagEthConfigured || f == FlagRegistered || f == FlagIpv4Configured
  }

  /** The subnet widths C can shift `1U` by: `1U << w` is undefined for w of
      32 or more, so the derivation is only defined below 32. */
  predicate WidthDefined(width: bv8)
  {
    width < 32
  }

  /** The netmask for a subnet width: the LOW `width` bits set, every higher
      bit clear (width 24 gives 0x00ffffff, not a CIDR mask). */
  function Netmask(width: bv8): (mask: bv32)
    requires WidthDefined(width)
    ensures forall i: bv8 :: i < 32 ==> (Bit(mask, i) <==> i < width)
  {
    ((1 as bv32) << width) - 1
  }

  /** The network address: the address with every bit outside the netmask
      cleared. */
  function Network(addr: bv32, width: bv8): (net: bv32)
    requires WidthDefined(width)
    ensures forall i: bv8 :: i < 32 ==> (Bit(net, i) <==> i < width && Bit(addr, i))
  {
    var net := addr & Netmask(width);
    NetworkBits(addr, width, net);
    net
  }

  /** The broadcast address: the network address with every bit outside the
      netmask set. */
  function Broadcast(addr: bv32, width: bv8): (bcast: bv32)
    requires WidthDefined(width)
    ensures forall i: bv8 :: i < 32 ==> (Bit(bcast, i) <==> (width <= i || Bit(addr, i)))
  {
    var bcast := Network(addr, width) | !Netmask(width);
    BroadcastBits(addr, width, bcast);
    bcast
  }

  /** The interface's netmask, from its stored subnet width. */
  function GetNetmaskIpv4(n: Netif): (mask: bv32)
    requires WidthDefined(n.ipv4SubnetWidth)
    ensures forall i: bv8 :: i < 32 ==> (Bit(mask, i) <==> i < n.ipv4SubnetWidth)
  {
    Netmask(n.ipv4SubnetWidth)
  }

  /** The interface's network address, from its stored address and width. */
  function GetNetworkIpv4(n: Netif): (net: bv32)
    requires WidthDefined(n.ipv4SubnetWidth)
    ensures forall i: bv8 :: i < 32 ==>
      (Bit(net, i) <==> i < n.ipv4SubnetWidth && Bit(n.ipv4Addr, i))
  {
    Network(n.ipv4Addr, n.ipv4SubnetWidth)
  }

  /** The interface's broadcast address, from its stored address and width. */
  function GetBroadcastIpv4(n: Netif): (bcast: bv32)
    requires WidthDefined(n.ipv4SubnetWidth)
    ensures forall i: bv8 :: i < 32 ==>
      (Bit(bcast, i) <==> (n.ipv4SubnetWidth <= i || Bit(n.ipv4Addr, i)))
  {
    Broadcast(n.ipv4Addr, n.ipv4SubnetWidth)
  }

  /** Bit i of the netmask is set exactly when i is below the width. */
  lemma NetmaskBit(width: bv8, i: bv8)
    requires WidthDefined(width) && i < 32
    ensures Bit(Netmask(width), i) <==> i < width
  {
  }

  /** Bit i of `addr & mask` is bit i of the address when i is below the
      width, and clear otherwise. */
  lemma NetworkBit(addr: bv32, width: bv8, i: bv8)
    requires WidthDefined(width) && i < 32
    ensures Bit(addr & Netmask(width), i) <==> i < width && Bit(addr, i)
  {
  }

  /** Bit i of `(addr & mask) | ~mask` is set when i is at or above the
      width, and is bit i of the address otherwise. */
  lemma BroadcastBit(addr: bv32, width: bv8, i: bv8)
    requires WidthDefined(width) && i < 32
    ensures Bit((addr & Netmask(width)) | !Netmask(width), i) <==> (width <= i || Bit(addr, i))
  {
  }

  /** Every bit of `addr & mask`, from the single-bit fact. */
  lemma NetworkBits(addr: bv32, width: bv8, net: bv32)
    requires WidthDefined(width) && net == addr & Netmask(width)
    ensures forall i: bv8 :: i < 32 ==> (Bit(net, i) <==> i < width && Bit(addr, i))
  {
    forall i: bv8 | i < 32
      ensures Bit(net, i) <==> i < width && Bit(addr, i)
    {
      NetworkBit(addr, width, i);
    }
  }

  /** Every bit of `(addr & mask) | ~mask`, from the single-bit fact. */
  lemma BroadcastBits(addr: bv32, width: bv8, bcast: bv32)
    requires WidthDefined(width) && bcast == (addr & Netmask(width)) | !Netmask(width)
    ensures forall i: bv8 :: i < 32 ==> (Bit(bcast, i) <==> (width <= i || Bit(addr, i)))
  {
    forall i: bv8 | i < 32
      ensures Bit(bcast, i) <==> (width <= i || Bit(addr, i))
    {
      BroadcastBit(addr, width, i);
    }
  }
}
