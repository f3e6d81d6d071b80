/** wireguard/device.go: the handle on the WireGuard interface's peers. */
module WireguardDevice {
  import opened Wrappers
  import opened Words
  import opened NetIP
  import opened Kernel

  class Device {
    const env: Env
    var peers: PeerTable

    /** NewDevice: ReplacePeers on a recreated link leaves no peer. */
    constructor (env: Env)
      ensures this.env == env && peers == map[]
    {
      this.env, peers := env, map[];
    }

    /** ReplaceAllowedIPs: the network becomes the peer's only one; the kernel takes it from any other peer. */
    method Configure(key: seq<Byte>, net: Network)
      modifies this
      ensures peers == Assign(old(peers), key, net)
    {
      peers := map k | k in peers :: if peers[k] == Some(net) then None else peers[k];
      peers := peers[key := Some(net)];
    }

    method AddPeer(publicKey: string, allowedIP: string) returns (ok: bool)
      modifies this
      ensures var r := Kernel.AddPeer(env, old(peers), publicKey, allowedIP);
              ok == r.Some? && peers == IfSome(r, old(peers))
    {
      var key := env.decodeKey(publicKey);
      if key.None? {
        return false;
      }
      var net := ParseSlash32(env, allowedIP);
      if net.None? {
        return false;
      }
      Configure(key.value, net.value);
      ok := true;
    }

    method RemovePeer(publicKey: string) returns (ok: bool)
      modifies this
      ensures var r := Kernel.RemovePeer(env, old(peers), publicKey);
              ok == r.Some? && peers == IfSome(r, old(peers))
    {
      var key := env.decodeKey(publicKey);
      if key.None? {
        return false;
      }
      peers := peers - {key.value};
      ok := true;
    }
  }
}
