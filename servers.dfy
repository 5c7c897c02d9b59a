/** Backend servers of the load balancer.
    A SimpleServer is a handle on one upstream address; its reverse proxy
    (the forwarding transport) is not part of this model. */
module Servers {

  /** The one concrete backend: it remembers the address it was built from. */
  datatype SimpleServer = SimpleServer(address: string) {

    /** The address given at construction. */
    function Address(): string {
      address
    }

    /** A SimpleServer never reports itself as down. */
    function IsAlive(): (b: bool)
      ensures b
    {
      true
    }
  }

  /** Builds a backend for `address`. Parsing the address as a URL and
      creating its reverse proxy are left out: both belong to the transport. */
  function NewSimpleServer(address: string): (s: SimpleServer)
    ensures s.Address() == address
    ensures s.IsAlive()
  {
    SimpleServer(address)
  }

  /** The liveness answers a pool of SimpleServers gives, position by position. */
  function Liveness(servers: seq<SimpleServer>): (alive: seq<bool>)
    ensures |alive| == |servers|
    ensures forall i :: 0 <= i < |alive| ==> alive[i]
  {
    if servers == [] then [] else [servers[0].IsAlive()] + Liveness(servers[1..])
  }
}
