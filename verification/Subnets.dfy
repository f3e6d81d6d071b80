/**
  The configured subnet as its three readers see it: the address allocator (big-endian
  words), firewall.New (little-endian words handed to the XDP program) and, as the
  reference, a CIDR block seen as an interval of addresses.
 */
module Subnets {
  import opened Words

  type Prefix = p: nat | p <= 32

  /** What net.ParseCIDR can give: an error, an IPv6 network, or an IPv4 address and prefix. */
  datatype Cidr = BadCidr | Cidr6 | Cidr4(ip: U32, prefix: Prefix)

  /** net.CIDRMask(prefix, 32) as a big-endian word: `prefix` ones, then zeros. */
  function MaskWord(prefix: Prefix): U32 {
    AndMask32(0, 32 - prefix);
    0x1_0000_0000 - Pow2(32 - prefix)
  }

  /** The network address: ParseCIDR masks the address it was given. */
  function Base(c: Cidr): U32
    requires c.Cidr4?
  {
    AndBound(c.ip, MaskWord(c.prefix));
    And(c.ip, MaskWord(c.prefix))
  }

  /** `ipInt | ^maskInt` */
  function Broadcast(c: Cidr): nat
    requires c.Cidr4?
  {
    Or(Base(c), 0xFFFF_FFFF - MaskWord(c.prefix))
  }

  function BlockSize(c: Cidr): nat
    requires c.Cidr4?
  {
    Pow2(32 - c.prefix)
  }

  /** The CIDR block of section 3.1 of RFC 4632, as an interval. */
  predicate InBlock(c: Cidr, a: U32)
    requires c.Cidr4?
  {
    Base(c) <= a < Base(c) + BlockSize(c)
  }

  lemma BaseIsAligned(c: Cidr)
    requires c.Cidr4?
    ensures Base(c) == Shl(High(c.ip, 32 - c.prefix), 32 - c.prefix)
    ensures InBlock(c, c.ip)
  {
    hide And, Shl, High, Pow2;
    AndMask32(c.ip, 32 - c.prefix);
    HighBounds(c.ip, 32 - c.prefix);
  }

  /** The bitwise broadcast address is the last address of the block, and is a word. */
  lemma BroadcastIsLast(c: Cidr)
    requires c.Cidr4?
    ensures Broadcast(c) == Base(c) + BlockSize(c) - 1 < 0x1_0000_0000
  {
    hide And, Or, Shl, High, Pow2, Base;
    var k := 32 - c.prefix;
    BaseIsAligned(c);
    AndMask32(c.ip, k);
    OrDisjoint(k, High(c.ip, k), Pow2(k) - 1);
  }

  // ----- firewall.New -----

  /** The XDP program's two variables. */
  datatype Vars = Vars(net: U32, mask: U32)

  /** Both variables are little-endian loads of the network's bytes; they stay 0 without a subnet. */
  function NewVars(c: Cidr): Vars
    requires !c.Cidr6?
  {
    if c.BadCidr? then Vars(0, 0)
    else Vars(LoadLE32(StoreBE32(Base(c))), LoadLE32(StoreBE32(MaskWord(c.prefix))))
  }

  /** The program's test of a source word it has loaded natively. */
  predicate OutsideSubnet(v: Vars, saddr: U32) {
    v.mask != 0 && And(saddr, v.mask) != v.net
  }

  /** Comparing under a mask gives the same answer on little-endian and on big-endian words. */
  lemma MaskedLoads(b: Bytes4, m: U32, n: U32)
    ensures And(LoadLE32(b), LoadLE32(StoreBE32(m))) == LoadLE32(StoreBE32(n)) <==> And(LoadBE32(b), m) == n
  {
    var masked := AndLoads(b, StoreBE32(m));
    hide And, LoadLE32, LoadBE32, StoreBE32, StoreLE32;
    LoadStore32(m, masked);
    LoadStore32(n, StoreBE32(n));
  }

  /** The masked address is the base exactly inside the block. */
  lemma MaskedIsBase(c: Cidr, a: U32)
    requires c.Cidr4?
    ensures And(a, MaskWord(c.prefix)) == Base(c) <==> InBlock(c, a)
  {
    hide And, Shl, High, Pow2, Base;
    AndMask32(a, 32 - c.prefix);
    BaseIsAligned(c);
    SameBlock(a, c.ip, 32 - c.prefix);
  }

  lemma ZeroBytes(b: Bytes4)
    requires LoadLE32(b) == 0
    ensures LoadBE32(b) == 0
  {
  }

  lemma ZeroMask(m: U32)
    requires LoadLE32(StoreBE32(m)) == 0
    ensures m == 0
  {
    var b := StoreBE32(m);
    hide StoreBE32, LoadLE32, LoadBE32, StoreLE32;
    LoadStore32(m, b);
    ZeroBytes(b);
  }

  /**
    On a little-endian host the masked comparison of swapped words decides membership in the
    block, for every prefix length and every source address; the `filter_mask != 0` guard
    changes nothing.
   */
  lemma MaskEquivalence(c: Cidr, b: Bytes4)
    requires c.Cidr4?
    ensures OutsideSubnet(NewVars(c), LoadLE32(b)) <==> !InBlock(c, LoadBE32(b))
    ensures And(LoadLE32(b), NewVars(c).mask) != NewVars(c).net <==> !InBlock(c, LoadBE32(b))
  {
    MaskedLoads(b, MaskWord(c.prefix), Base(c));
    MaskedIsBase(c, LoadBE32(b));
    if NewVars(c).mask == 0 {
      ZeroMask(MaskWord(c.prefix));
    }
    hide LoadLE32, LoadBE32, StoreBE32, Pow2, InBlock;
  }
}
