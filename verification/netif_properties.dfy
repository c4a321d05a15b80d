/** Properties of the interface's address derivation and flags: the value of
    the netmask, its monotonicity in the width, and how the network and
    broadcast addresses relate to the address, to the netmask and to each
    other. */
module NetifProperties {
  import opened Bits
  import opened Netif

  /** The netmask for width w is the number 2^w - 1. */
  lemma {:induction false} NetmaskIsPow2Minus1(width: bv8)
    requires WidthDefined(width)
    ensures Netmask(width) as int == Pow2(width as nat) - 1
  {
    if width > 0 {
      NetmaskIsPow2Minus1(width - 1);
      NetmaskStep(width);
      NetmaskBelowTopBit(width - 1);
      DoublePlusOneNoWrap(Netmask(width - 1));
    }
  }

  /** One more bit of width shifts one more low bit into the netmask. */
  lemma NetmaskStep(width: bv8)
    requires 0 < width < 32
    ensures Netmask(width) == (Netmask(width - 1) << 1) | 1
  {
  }

  /** Below width 31 the netmask leaves the top bit clear. */
  lemma NetmaskBelowTopBit(width: bv8)
    requires width < 31
    ensures Netmask(width) < 0x8000_0000
  {
  }

  /** The values the header's comment documents, and the empty mask. */
  lemma NetmaskDocumentedValues()
    ensures Netmask(24) == 0x00ff_ffff
    ensures Netmask(16) == 0x0000_ffff
    ensures Netmask(0) == 0
  {
  }

  /** A wider subnet's netmask contains every bit of a narrower one's. */
  lemma NetmaskMonotone(w1: bv8, w2: bv8)
    requires w1 <= w2 && WidthDefined(w2)
    ensures SubsetOf(Netmask(w1), Netmask(w2))
  {
  }

  /** ... and so is no smaller as an unsigned number. */
  lemma NetmaskOrdered(w1: bv8, w2: bv8)
    requires w1 <= w2 && WidthDefined(w2)
    ensures Netmask(w1) <= Netmask(w2)
  {
    NetmaskMonotone(w1, w2);
    SubsetIsNotLarger(Netmask(w1), Netmask(w2));
  }

  /** The network address has no bit outside the netmask. */
  lemma NetworkOutsideMaskClear(addr: bv32, width: bv8)
    requires WidthDefined(width)
    ensures Network(addr, width) & !Netmask(width) == 0
  {
    MaskedOutsideClear(addr, Netmask(width));
  }

  /** The network address only has bits the address has. */
  lemma NetworkWithinAddress(addr: bv32, width: bv8)
    requires WidthDefined(width)
    ensures SubsetOf(Network(addr, width), addr)
  {
    MaskedIsSubset(addr, Netmask(width));
  }

  /** Deriving the network of a network address gives it back. */
  lemma NetworkIdempotent(addr: bv32, width: bv8)
    requires WidthDefined(width)
    ensures Network(Network(addr, width), width) == Network(addr, width)
  {
    MaskTwice(addr, Netmask(width));
  }

  /** Inside the netmask the broadcast address agrees with the address. */
  lemma BroadcastAgreesInsideMask(addr: bv32, width: bv8)
    requires WidthDefined(width)
    ensures Broadcast(addr, width) & Netmask(width) == addr & Netmask(width)
  {
    FilledInside(addr, Netmask(width));
  }

  /** Outside the netmask the broadcast address has every bit set. */
  lemma BroadcastFillsOutsideMask(addr: bv32, width: bv8)
    requires WidthDefined(width)
    ensures Broadcast(addr, width) & !Netmask(width) == !Netmask(width)
  {
    FilledOutside(addr, Netmask(width));
  }

  /** Masking the broadcast address gives the network address back. */
  lemma BroadcastMaskedIsNetwork(addr: bv32, width: bv8)
    requires WidthDefined(width)
    ensures Broadcast(addr, width) & Netmask(width) == Network(addr, width)
  {
    FilledInside(addr, Netmask(width));
  }

  /** The broadcast address has every bit the address has. */
  lemma BroadcastCoversAddress(addr: bv32, width: bv8)
    requires WidthDefined(width)
    ensures SubsetOf(addr, Broadcast(addr, width))
  {
    FilledIsSuperset(addr, Netmask(width));
  }

  /** As unsigned numbers: network <= address <= broadcast. */
  lemma AddressBetweenNetworkAndBroadcast(addr: bv32, width: bv8)
    requires WidthDefined(width)
    ensures Network(addr, width) <= addr <= Broadcast(addr, width)
  {
    NetworkWithinAddress(addr, width);
    SubsetIsNotLarger(Network(addr, width), addr);
    BroadcastCoversAddress(addr, width);
    SubsetIsNotLarger(addr, Broadcast(addr, width));
  }

  /** Addresses with the same network have the same broadcast address. */
  lemma SameNetworkGivesSameBroadcast(a: bv32, b: bv32, width: bv8)
    requires WidthDefined(width) && Network(a, width) == Network(b, width)
    ensures Broadcast(a, width) == Broadcast(b, width)
  {
    calc {
      Broadcast(a, width);
      Network(a, width) | !Netmask(width);
      Network(b, width) | !Netmask(width);
      Broadcast(b, width);
    }
  }

  /** Addresses with the same broadcast address have the same network. */
  lemma SameBroadcastGivesSameNetwork(a: bv32, b: bv32, width: bv8)
    requires WidthDefined(width) && Broadcast(a, width) == Broadcast(b, width)
    ensures Network(a, width) == Network(b, width)
  {
    BroadcastMaskedIsNetwork(a, width);
    BroadcastMaskedIsNetwork(b, width);
  }

  /** Two addresses have the same network exactly when they have the same
      broadcast address. */
  lemma SameNetworkIffSameBroadcast(a: bv32, b: bv32, width: bv8)
    requires WidthDefined(width)
    ensures Network(a, width) == Network(b, width) <==> Broadcast(a, width) == Broadcast(b, width)
  {
    if Network(a, width) == Network(b, width) {
      SameNetworkGivesSameBroadcast(a, b, width);
    }
    if Broadcast(a, width) == Broadcast(b, width) {
      SameBroadcastGivesSameNetwork(a, b, width);
    }
  }

  /** x is on the same subnet as addr: it derives the same network address. */
  predicate SameSubnet(x: bv32, addr: bv32, width: bv8)
    requires WidthDefined(width)
  {
    Network(x, width) == Network(addr, width)
  }

  /** Every address on the subnet contains the network address's bits and is
      contained in the broadcast address's bits, so lies between the two as
      an unsigned number. */
  lemma SubnetBounds(x: bv32, addr: bv32, width: bv8)
    requires WidthDefined(width) && SameSubnet(x, addr, width)
    ensures Network(addr, width) <= x <= Broadcast(addr, width)
  {
    NetworkWithinAddress(x, width);
    SubsetIsNotLarger(Network(x, width), x);
    BroadcastCoversAddress(x, width);
    SubsetIsNotLarger(x, Broadcast(x, width));
    SameNetworkGivesSameBroadcast(x, addr, width);
  }

  /** The network and broadcast addresses are themselves on the subnet. */
  lemma NetworkAndBroadcastOnSubnet(addr: bv32, width: bv8)
    requires WidthDefined(width)
    ensures SameSubnet(Network(addr, width), addr, width)
    ensures SameSubnet(Broadcast(addr, width), addr, width)
  {
    NetworkIdempotent(addr, width);
    BroadcastMaskedIsNetwork(addr, width);
  }

  /** 192.168.1.10 (0xc0a8010a) with width 24 keeps its low three bytes. */
  lemma LowBitConventionExample()
    ensures Network(0xc0a8_010a, 24) == 0x00a8_010a
    ensures Broadcast(0xc0a8_010a, 24) == 0xffa8_010a
  {
  }

  /** Each flag is a single bit, at positions 0 to 3. */
  lemma FlagsAreSingleBits()
    ensures FlagLoopback == 1 && FlagEthConfigured == 2
    ensures FlagRegistered == 4 && FlagIpv4Configured == 8
  {
  }

  /** Distinct flags share no bit. */
  lemma FlagsDisjoint(f: bv32, g: bv32)
    requires IsFlag(f) && IsFlag(g) && f != g
    ensures f & g == 0
  {
  }

  /** Setting one flag leaves every other flag as it was. */
  lemma SetFlagKeepsOthers(flags: bv32, f: bv32, g: bv32)
    requires IsFlag(f) && IsFlag(g) && f != g
    ensures (flags | f) & g == flags & g
  {
  }
}
