/** The address that DB.NextAvailableIP settles on, as a function of the addresses in use. */
module Allocator {
  import opened Wrappers
  import opened Words
  import opened DottedQuad
  import opened Sets
  import opened Subnets

  /** `ipInt + 2` in uint32. */
  function First(c: Cidr): U32
    requires c.Cidr4?
  {
    (Base(c) + 2) % 0x1_0000_0000
  }

  function FirstFree(used: set<string>, lo: nat, hi: nat): Option<string>
    requires hi <= 0x1_0000_0000
    decreases hi - lo
  {
    if lo >= hi then None
    else if Print(lo) !in used then Some(Print(lo))
    else FirstFree(used, lo + 1, hi)
  }

  function Allocate(c: Cidr, used: set<string>): Option<string> {
    if c.Cidr4? then BroadcastIsLast(c); FirstFree(used, First(c), Broadcast(c)) else None
  }

  /** The addresses that can be handed out. */
  predicate Allocatable(c: Cidr, a: U32) { c.Cidr4? && First(c) <= a < Broadcast(c) }

  predicate AllocatableText(c: Cidr, s: string) {
    exists a: U32 :: Allocatable(c, a) && s == Print(a)
  }

  // ----- Least free address -----

  lemma {:induction false} FirstFreeIsLeast(used: set<string>, lo: nat, hi: nat)
    requires hi <= 0x1_0000_0000
    ensures var r := FirstFree(used, lo, hi);
            && (r.None? <==> forall a: U32 :: lo <= a < hi ==> Print(a) in used)
            && (r.Some? ==> exists a: U32 :: lo <= a < hi && r.value == Print(a) && r.value !in used
                              && forall b: U32 :: lo <= b < a ==> Print(b) in used)
    decreases hi - lo
  {
    hide Print;
    if lo >= hi {
    } else {
      var a: U32 := lo;
      if Print(a) in used {
        FirstFreeIsLeast(used, lo + 1, hi);
      } else {
        assert FirstFree(used, lo, hi) == Some(Print(a));
      }
    }
  }

  /** The allocator gives the least unused allocatable address, or fails because there is none. */
  lemma AllocateLeast(c: Cidr, used: set<string>)
    ensures Allocate(c, used).None? <==> forall a: U32 :: Allocatable(c, a) ==> Print(a) in used
    ensures forall s :: Allocate(c, used) == Some(s) ==>
              exists a: U32 :: Allocatable(c, a) && s == Print(a) && s !in used
                && forall b: U32 :: Allocatable(c, b) && b < a ==> Print(b) in used
  {
    hide Print;
    if c.Cidr4? {
      BroadcastIsLast(c);
      FirstFreeIsLeast(used, First(c), Broadcast(c));
      var r := FirstFree(used, First(c), Broadcast(c));
      if r.Some? {
        var a: U32 :| First(c) <= a < Broadcast(c) && r.value == Print(a) && r.value !in used
                      && forall b: U32 :: First(c) <= b < a ==> Print(b) in used;
        assert Allocatable(c, a);
      }
    }
  }

  lemma AllocatedIsFree(c: Cidr, used: set<string>)
    requires Allocate(c, used).Some?
    ensures AllocatableText(c, Allocate(c, used).value)
    ensures Allocate(c, used).value !in used
  {
    AllocateLeast(c, used);
  }

  // ----- Where the addresses lie -----

  /** Without wrap-around every allocatable address is in the block, past its first two. */
  lemma AllocatableInBlock(c: Cidr, a: U32)
    requires Allocatable(c, a) && Base(c) + 2 < 0x1_0000_0000
    ensures InBlock(c, a) && a >= Base(c) + 2 && a + 1 < Base(c) + BlockSize(c)
  {
    hide Base, Broadcast, BlockSize;
    BroadcastIsLast(c);
  }

  /**
    The allocator is confined to the subnet, whatever is in use, exactly when base + 2 does not
    wrap; in the subnets that do wrap, an empty table already gets an address from outside.
   */
  lemma ConfinedIffNoWrap(c: Cidr)
    requires c.Cidr4?
    ensures (forall used: set<string>, a: U32 :: Allocate(c, used) == Some(Print(a)) ==> InBlock(c, a))
       <==> Base(c) + 2 < 0x1_0000_0000
  {
    BroadcastIsLast(c);
    if Base(c) + 2 < 0x1_0000_0000 {
      forall used: set<string>, a: U32 | Allocate(c, used) == Some(Print(a)) ensures InBlock(c, a) {
        AllocatedIsFree(c, used);
        var b: U32 :| Allocatable(c, b) && Print(a) == Print(b);
        PrintInjective(a, b);
        AllocatableInBlock(c, a);
      }
    } else {
      var a := First(c);
      assert a < 2 && FirstFree({}, a, Broadcast(c)) == Some(Print(a));
      assert Allocate(c, {}) == Some(Print(a)) && !InBlock(c, a);
    }
  }

  /** The concrete case: in 255.255.255.254/31 an empty table gets 0.0.0.0. */
  lemma LastSlash31Wraps(c: Cidr)
    requires c.Cidr4? && c.ip == 0xFFFF_FFFE && c.prefix == 31
    ensures Allocate(c, {}) == Some("0.0.0.0") && !InBlock(c, 0)
  {
    LastSlash31Base(c);
    BroadcastIsLast(c);
    hide Base, Broadcast, Print;
    PrintZero();
    assert FirstFree({}, 0, Broadcast(c)) == Some(Print(0));
  }

  lemma LastSlash31Base(c: Cidr)
    requires c.Cidr4? && c.ip == 0xFFFF_FFFE && c.prefix == 31
    ensures Base(c) == 0xFFFF_FFFE && First(c) == 0
  {
    hide Base, BlockSize, Broadcast, InBlock;
    BaseIsAligned(c);
    assert High(c.ip, 1) == High(c.ip / 2, 0) == 0x7FFF_FFFF;
    assert Shl(0x7FFF_FFFF, 1) == 2 * Shl(0x7FFF_FFFF, 0);
  }

  lemma PrintZero()
    ensures Print(0) == "0.0.0.0"
  {
    assert StoreBE32(0) == [0, 0, 0, 0];
    DottedThree(0, 0, 0);
    assert [0, 0, 0, 0][..3] == [0, 0, 0];
  }

  /** An address handed out in a subnet is inside it for the XDP program, too. */
  lemma AllocatedIsFiltered(c: Cidr, used: set<string>, a: U32)
    requires c.Cidr4? && Base(c) + 2 < 0x1_0000_0000
    requires Allocate(c, used) == Some(Print(a))
    ensures !OutsideSubnet(NewVars(c), LoadLE32(StoreBE32(a)))
  {
    ConfinedIffNoWrap(c);
    MaskEquivalence(c, StoreBE32(a));
    LoadStore32(a, StoreBE32(a));
  }

  // ----- How many there are -----

  function Printed(lo: nat, hi: nat): (r: set<string>)
    requires hi <= 0x1_0000_0000
    decreases hi - lo
  {
    if lo >= hi then {} else {Print(lo)} + Printed(lo + 1, hi)
  }

  lemma {:induction false} PrintedMember(lo: nat, hi: nat, a: U32)
    requires hi <= 0x1_0000_0000
    ensures Print(a) in Printed(lo, hi) <==> lo <= a < hi
    decreases hi - lo
  {
    hide Print;
    if lo >= hi {
    } else {
      PrintedMember(lo + 1, hi, a);
      if Print(a) == Print(lo) {
        PrintInjective(a, lo);
      }
    }
  }

  lemma {:induction false} PrintedSize(lo: nat, hi: nat)
    requires lo <= hi <= 0x1_0000_0000
    ensures |Printed(lo, hi)| == hi - lo
    ensures forall s :: s in Printed(lo, hi) ==> exists a: U32 :: s == Print(a)
    decreases hi - lo
  {
    hide Print;
    if lo == hi {
    } else {
      PrintedSize(lo + 1, hi);
      PrintedMember(lo + 1, hi, lo);
    }
  }

  /** Number of allocatable addresses. */
  function Capacity(c: Cidr): nat {
    if c.Cidr4? && First(c) < Broadcast(c) then Broadcast(c) - First(c) else 0
  }

  lemma AtLeastFour(k: nat)
    requires k >= 2
    ensures Pow2(k) >= 4
  {
  }

  lemma CapacityOfPrefix(c: Cidr)
    requires c.Cidr4? && c.prefix <= 30
    ensures Base(c) + 2 < 0x1_0000_0000
    ensures Capacity(c) == BlockSize(c) - 3
  {
    hide Base, Broadcast, Pow2;
    BroadcastIsLast(c);
    AtLeastFour(32 - c.prefix);
  }

  /** All allocatable addresses, printed. */
  function Pool(c: Cidr): set<string> {
    if Capacity(c) == 0 then {} else BroadcastIsLast(c); Printed(First(c), Broadcast(c))
  }

  lemma PoolMembers(c: Cidr)
    ensures |Pool(c)| == Capacity(c)
    ensures forall s :: s in Pool(c) <==> AllocatableText(c, s)
  {
    hide Print, First, Broadcast;
    if Capacity(c) != 0 {
      BroadcastIsLast(c);
      PrintedSize(First(c), Broadcast(c));
      forall s | s in Pool(c) ensures AllocatableText(c, s) {
        var a: U32 :| s == Print(a);
        PrintedMember(First(c), Broadcast(c), a);
        assert Allocatable(c, a);
      }
      forall s | AllocatableText(c, s) ensures s in Pool(c) {
        var a: U32 :| Allocatable(c, a) && s == Print(a);
        PrintedMember(First(c), Broadcast(c), a);
      }
    }
  }

  /** With fewer strings in use than allocatable addresses, one is found. */
  lemma Pigeonhole(c: Cidr, used: set<string>)
    requires |used| < Capacity(c)
    ensures Allocate(c, used).Some?
  {
    PoolMembers(c);
    AllocateLeast(c, used);
    hide Print, Allocate, Pool, Allocatable;
    if Allocate(c, used).None? {
      assert Pool(c) <= used;
      SubsetSize(Pool(c), used);
    }
  }

  /** When every string in use is an allocatable address, the bound is exact. */
  lemma FullIffAtCapacity(c: Cidr, used: set<string>)
    requires forall s :: s in used ==> AllocatableText(c, s)
    ensures |used| <= Capacity(c)
    ensures Allocate(c, used).None? <==> |used| == Capacity(c)
  {
    PoolMembers(c);
    AllocateLeast(c, used);
    hide Print, Allocate, Pool, Allocatable;
    SubsetSize(used, Pool(c));
    if |used| == Capacity(c) {
      SameSize(used, Pool(c));
      forall a: U32 | Allocatable(c, a) ensures Print(a) in used {
        assert AllocatableText(c, Print(a));
      }
    } else {
      Pigeonhole(c, used);
    }
  }
}
