/** firewall/service.go: the handle on the XDP program's variables and rule map. */
module FirewallService {
  import opened Wrappers
  import opened Words
  import opened NetIP
  import opened RuleKeys
  import opened Subnets
  import opened Tables
  import opened Kernel

  class Firewall {
    const env: Env
    const vars: Vars
    var peerRules: RuleMap

    /** New: the subnet variables are fixed and the map is empty. */
    constructor (env: Env, c: Cidr)
      requires !c.Cidr6?
      ensures this.env == env && vars == NewVars(c) && peerRules == map[]
    {
      this.env, vars, peerRules := env, NewVars(c), map[];
    }

    /** Put on a bounded hash map: a present key is overwritten even when the map is full. */
    method Put(key: KeyBytes) returns (ok: bool)
      modifies this
      ensures ok == (key in old(peerRules) || |old(peerRules)| < MAX_ENTRIES)
      ensures peerRules == if ok then old(peerRules)[key := 1] else old(peerRules)
    {
      ok := key in peerRules || |peerRules| < MAX_ENTRIES;
      if ok {
        peerRules := peerRules[key := 1];
      }
    }

    method AddPeerRule(srcIP: string, dstIP: string, port: int, proto: Byte) returns (ok: bool)
      modifies this
      ensures var r := AddRule(env, old(peerRules), RuleRow(srcIP, dstIP, port, proto));
              ok == r.Some? && peerRules == IfSome(r, old(peerRules))
    {
      assert ToU8(proto) == proto;
      hide GetRuleKey, Encode, ToU8;
      var key := GetRuleKey(env, srcIP, dstIP, port, proto);
      if key.None? {
        return false;
      }
      ok := Put(Encode(key.value));
    }

    /** Deleting a key that is not there is not an error. */
    method RemovePeerRule(srcIP: string, dstIP: string, port: int, proto: Byte) returns (ok: bool)
      modifies this
      ensures var r := RemoveRule(env, old(peerRules), RuleRow(srcIP, dstIP, port, proto));
              ok == r.Some? && peerRules == IfSome(r, old(peerRules))
    {
      assert ToU8(proto) == proto;
      hide GetRuleKey, Encode, ToU8;
      var key := GetRuleKey(env, srcIP, dstIP, port, proto);
      if key.None? {
        return false;
      }
      peerRules := peerRules - {Encode(key.value)};
      ok := true;
    }
  }
}
