/** The XDP program: from a packet's bytes, the subnet variables and the rule map to a verdict. */
module Filter {
  import opened Words
  import opened DottedQuad
  import opened NetIP
  import opened RuleKeys
  import opened Subnets

  datatype Verdict = Pass | Drop

  const TCP: Byte := 6
  const UDP: Byte := 17

  /** The header length field, in 32-bit words (the low nibble of the first byte). */
  function Ihl(data: seq<Byte>): nat
    requires |data| >= 20
  {
    data[0] % 16
  }

  /** The fixed IPv4 header is present and its length field is at least 5. */
  predicate HasHeader(data: seq<Byte>) { |data| >= 20 && Ihl(data) >= 5 }

  predicate IsTransport(data: seq<Byte>)
    requires HasHeader(data)
  {
    data[9] == TCP || data[9] == UDP
  }

  /** Eight bytes of transport header follow the IPv4 header and its options. */
  predicate HasPorts(data: seq<Byte>)
    requires HasHeader(data)
  {
    4 * Ihl(data) + 8 <= |data|
  }

  function PacketKey(data: seq<Byte>): PeerRuleKey
    requires HasHeader(data) && HasPorts(data)
  {
    var l4 := 4 * Ihl(data);
    var port := Swap16(LoadLE16(data[l4 + 2], data[l4 + 3]));
    PeerRuleKey(LoadLE32(data[12..16]), LoadLE32(data[16..20]), port, data[9], 0)
  }

  function Decide(vars: Vars, rules: map<KeyBytes, U32>, data: seq<Byte>): Verdict {
    if |data| < 20 then Drop
    else if Ihl(data) < 5 || Ihl(data) > 15 then Drop
    else if OutsideSubnet(vars, LoadLE32(data[12..16])) then Pass
    else if data[9] != TCP && data[9] != UDP then Pass
    else if |data| < 4 * Ihl(data) + 8 then Drop
    else
      var key := Encode(PacketKey(data));
      if key in rules && rules[key] == 1 then Pass else Drop
  }

  // ----- The packet's fields in network byte order -----

  function SourceAddress(data: seq<Byte>): U32
    requires HasHeader(data)
  {
    LoadBE32(data[12..16])
  }

  function DestinationAddress(data: seq<Byte>): U32
    requires HasHeader(data)
  {
    LoadBE32(data[16..20])
  }

  function DestinationPort(data: seq<Byte>): U16
    requires HasHeader(data) && HasPorts(data)
  {
    0x100 * data[4 * Ihl(data) + 2] as int + data[4 * Ihl(data) + 3]
  }

  /**
    The twelve bytes the program looks up are those that getRuleKey stores for a rule exactly
    when the rule's addresses, 16-bit port and protocol are the packet's.
   */
  lemma KeyAgreement(env: Env, data: seq<Byte>, a: U32, b: U32, port: int, proto: Byte)
    requires HasHeader(data) && HasPorts(data)
    ensures GetRuleKey(env, Print(a), Print(b), port, proto).Some?
    ensures Encode(PacketKey(data)) == Encode(GetRuleKey(env, Print(a), Print(b), port, proto).value)
       <==> a == SourceAddress(data) && b == DestinationAddress(data)
            && port % 0x1_0000 == DestinationPort(data) && proto == data[9]
  {
    KeyOfPrinted(env, a, b, port, proto);
    var s, d := data[12..16], data[16..20];
    LoadStore32(a, s);
    LoadStore32(b, d);
    SwapInjective(a, LoadBE32(s));
    SwapInjective(b, LoadBE32(d));
    SwappedPort(data[4 * Ihl(data) + 2], data[4 * Ihl(data) + 3]);
    EncodeInjective(PacketKey(data), GetRuleKey(env, Print(a), Print(b), port, proto).value);
  }

  lemma SwappedPort(hi: Byte, lo: Byte)
    ensures Swap16(LoadLE16(hi, lo)) == 0x100 * hi as int + lo
  {
  }

  /** getRuleKey separates rules between IPv4 addresses up to the truncation of the port. */
  lemma RuleKeyInjective(env: Env, a: U32, b: U32, port: int, proto: Byte, a': U32, b': U32, port': int, proto': Byte)
    ensures GetRuleKey(env, Print(a), Print(b), port, proto) == GetRuleKey(env, Print(a'), Print(b'), port', proto')
       <==> a == a' && b == b' && port % 0x1_0000 == port' % 0x1_0000 && proto == proto'
  {
    KeyOfPrinted(env, a, b, port, proto);
    KeyOfPrinted(env, a', b', port', proto');
    SwapInjective(a, a');
    SwapInjective(b, b');
  }

  /** Two packets the program cannot tell apart. */
  predicate SameView(p: seq<Byte>, q: seq<Byte>) {
    |p| == |q|
    && (|p| >= 20 ==>
      && Ihl(p) == Ihl(q) && p[9] == q[9] && p[12..20] == q[12..20]
      && (HasHeader(p) && HasPorts(p) ==>
        var l4 := 4 * Ihl(p);
        p[l4 + 2..l4 + 4] == q[l4 + 2..l4 + 4]))
  }

  /** The verdict depends only on the length, the header length, the protocol, the addresses and the port. */
  lemma VerdictIsLocal(vars: Vars, rules: map<KeyBytes, U32>, p: seq<Byte>, q: seq<Byte>)
    requires SameView(p, q)
    ensures Decide(vars, rules, p) == Decide(vars, rules, q)
  {
    if |p| >= 20 {
      assert p[12..16] == p[12..20][..4] && q[12..16] == q[12..20][..4];
      assert p[16..20] == p[12..20][4..] && q[16..20] == q[12..20][4..];
      if HasHeader(p) && HasPorts(p) {
        var l4 := 4 * Ihl(p);
        assert p[l4 + 2] == p[l4 + 2..l4 + 4][0] && q[l4 + 2] == q[l4 + 2..l4 + 4][0];
        assert p[l4 + 3] == p[l4 + 2..l4 + 4][1] && q[l4 + 3] == q[l4 + 2..l4 + 4][1];
      }
    }
  }

  // ----- The verdict on every packet -----

  lemma SwappedBytes(hi: Byte, lo: Byte)
    ensures StoreLE16(Swap16(LoadLE16(hi, lo))) == [lo, hi]
  {
    SwappedPort(hi, lo);
  }

  /**
    The key that the program looks up, byte by byte: both addresses as they stand in the packet, the
    destination port with its two bytes swapped, the protocol, and a zero.
   */
  lemma PacketKeyBytes(data: seq<Byte>)
    requires HasHeader(data) && HasPorts(data)
    ensures var l4 := 4 * Ihl(data);
            Encode(PacketKey(data)) == data[12..20] + [data[l4 + 3], data[l4 + 2], data[9], 0]
  {
    hide LoadLE32, StoreLE32, StoreLE16, LoadLE16, Swap16, StoreBE32, LoadBE32, Ihl;
    var l4 := 4 * Ihl(data);
    var b: Bytes4, d: Bytes4 := data[12..16], data[16..20];
    SwappedBytes(data[l4 + 2], data[l4 + 3]);
    LoadStore32(0, b);
    LoadStore32(0, d);
    assert data[12..20] == b + d;
  }

  /**
    The complete verdict, over all byte strings and all maps: malformed packets are dropped, packets
    from outside the subnet and packets that are neither TCP nor UDP pass, truncated transport
    headers are dropped, and the entry under the packet's key decides the rest.
   */
  lemma VerdictOnEveryPacket(c: Cidr, m: map<KeyBytes, U32>, data: seq<Byte>)
    requires c.Cidr4?
    ensures var v := Decide(NewVars(c), m, data);
            if |data| < 20 || data[0] % 16 < 5 then v == Drop
            else if !InBlock(c, LoadBE32(data[12..16])) then v == Pass
            else if data[9] != 6 && data[9] != 17 then v == Pass
            else
              var l4 := 4 * (data[0] % 16);
              if |data| < l4 + 8 then v == Drop
              else
                var k := data[12..20] + [data[l4 + 3], data[l4 + 2], data[9], 0];
                v == Pass <==> k in m && m[k] == 1
  {
    hide InBlock, NewVars, OutsideSubnet, PacketKey, Encode, LoadLE32, LoadBE32;
    if |data| >= 20 {
      MaskEquivalence(c, data[12..16]);
      if HasHeader(data) && HasPorts(data) {
        PacketKeyBytes(data);
      }
    }
  }

  /** Without a subnet the program filters packets from every source. */
  lemma NoSubnetFiltersAll(m: map<KeyBytes, U32>, data: seq<Byte>)
    ensures Decide(NewVars(BadCidr), m, data) == Pass
       <==> HasHeader(data) && (IsTransport(data) ==>
              HasPorts(data) && Encode(PacketKey(data)) in m && m[Encode(PacketKey(data))] == 1)
  {
    hide Encode, PacketKey, LoadLE32;
  }
}
