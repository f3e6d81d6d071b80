/** The eBPF map key as firewall/service.go builds it from text. */
module RuleKeys {
  import opened Wrappers
  import opened Words
  import opened DottedQuad
  import opened NetIP

  type KeyBytes = seq<Byte>

  datatype PeerRuleKey = PeerRuleKey(srcIP: U32, dstIP: U32, port: U16, proto: Byte, pad: Byte)

  /** The struct's twelve bytes in memory on a little-endian host. */
  function Encode(k: PeerRuleKey): KeyBytes {
    StoreLE32(k.srcIP) + StoreLE32(k.dstIP) + StoreLE16(k.port) + [k.proto, k.pad]
  }

  lemma EncodeInjective(k: PeerRuleKey, l: PeerRuleKey)
    ensures Encode(k) == Encode(l) <==> k == l
  {
    if Encode(k) == Encode(l) {
      var x, y := Encode(k), Encode(l);
      assert StoreLE32(k.srcIP) == x[..4] && StoreLE32(l.srcIP) == y[..4];
      assert StoreLE32(k.dstIP) == x[4..8] && StoreLE32(l.dstIP) == y[4..8];
      assert StoreLE16(k.port) == x[8..10] && StoreLE16(l.port) == y[8..10];
      assert [k.proto, k.pad] == x[10..] && [l.proto, l.pad] == y[10..];
      LoadStore32(k.srcIP, x[..4]);
      LoadStore32(l.srcIP, x[..4]);
      LoadStore32(k.dstIP, x[4..8]);
      LoadStore32(l.dstIP, x[4..8]);
      assert StoreLE16(k.port)[0] == StoreLE16(l.port)[0] && StoreLE16(k.port)[1] == StoreLE16(l.port)[1];
      assert x[10..][0] == y[10..][0] && x[10..][1] == y[10..][1];
    }
  }

  /** A Go conversion to an unsigned type keeps the low bits, also of a negative number. */
  function ToU16(x: int): U16 { x % 0x1_0000 }

  function ToU8(x: int): Byte { x % 0x100 }

  function GetRuleKey(env: Env, srcIP: string, dstIP: string, port: int, proto: Byte): Option<PeerRuleKey> {
    match (ParseIP(env, srcIP), ParseIP(env, dstIP))
    case (IP4(src), IP4(dst)) => Some(PeerRuleKey(LoadLE32(src), LoadLE32(dst), ToU16(port), proto, 0))
    case _ => None
  }

  lemma PortBytes(port: int)
    ensures StoreLE16(ToU16(port)) == [port % 0x100, port / 0x100 % 0x100]
  {
    var h := port / 0x100;
    assert port == 0x100 * h + port % 0x100;
    assert h == 0x100 * (h / 0x100) + h % 0x100;
    assert port == 0x1_0000 * (h / 0x100) + (0x100 * (h % 0x100) + port % 0x100);
    assert ToU16(port) == 0x100 * (h % 0x100) + port % 0x100;
  }

  /** The stored key, byte by byte: both addresses in network order, the port low byte first, the protocol, a zero. */
  lemma StoredKeyBytes(src: Bytes4, dst: Bytes4, port: int, proto: Byte)
    ensures Encode(PeerRuleKey(LoadLE32(src), LoadLE32(dst), ToU16(port), proto, 0))
         == src + dst + [port % 0x100, port / 0x100 % 0x100, proto, 0]
  {
    hide LoadLE32, StoreLE32, ToU16, StoreLE16, StoreBE32, LoadBE32;
    LoadStore32(0, src);
    LoadStore32(0, dst);
    PortBytes(port);
  }

  /** The key of a rule between two printed addresses. */
  lemma KeyOfPrinted(env: Env, a: U32, b: U32, port: int, proto: Byte)
    ensures GetRuleKey(env, Print(a), Print(b), port, proto)
         == Some(PeerRuleKey(LoadLE32(StoreBE32(a)), LoadLE32(StoreBE32(b)), ToU16(port), proto, 0))
  {
    ParseIPOfPrint(env, a);
    ParseIPOfPrint(env, b);
  }

  lemma SwapInjective(a: U32, b: U32)
    ensures LoadLE32(StoreBE32(a)) == LoadLE32(StoreBE32(b)) <==> a == b
  {
    LoadStore32(a, StoreBE32(a));
    LoadStore32(b, StoreBE32(b));
  }
}
