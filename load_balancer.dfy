/** The load balancer: a listen port, a fixed pool of backends and the
    round-robin counter that each selection advances in place.
    The liveness answers of the pool are an argument of each selection:
    alive[i] is what servers[i] reports, fixed for the duration of the call. */
module Balancer {
  import opened Servers
  import opened RoundRobin

  class LoadBalancer {
    var port: string
    var roundRobinCount: nat
    var servers: seq<SimpleServer>

    /** A fresh balancer starts its counter at 0 and keeps the pool in the
        order it was given, which is the round-robin order. */
    constructor NewLoadBalancer(port: string, servers: seq<SimpleServer>)
      ensures this.port == port && this.servers == servers
      ensures roundRobinCount == 0
    {
      this.port := port;
      this.servers := servers;
      roundRobinCount := 0;
    }

    /** The selection loop: read the server at the counter modulo the pool
        size; while it is down, advance the counter and read again; then
        advance the counter once more and return the server landed on.
        The loop has no bound, so it only exits when some server is alive;
        a pool that is empty makes the modulo fail. Only the counter changes. */
    method GetNextAvailableServer(alive: seq<bool>) returns (server: SimpleServer)
      requires 0 < |servers| && |alive| == |servers|
      requires SomeAlive(alive)
      modifies this`roundRobinCount
      ensures roundRobinCount == NextCount(alive, old(roundRobinCount))
      ensures roundRobinCount == old(roundRobinCount) + Skips(alive, old(roundRobinCount)) + 1
      ensures server == servers[Landing(alive, old(roundRobinCount))]
      ensures Landing(alive, old(roundRobinCount)) == (roundRobinCount - 1) % |servers|
      ensures alive[(roundRobinCount - 1) % |servers|]
      ensures forall c :: old(roundRobinCount) <= c < roundRobinCount - 1 ==> !alive[c % |servers|]
      ensures old(roundRobinCount) < roundRobinCount <= old(roundRobinCount) + |servers|
    {
      ghost var start := roundRobinCount;
      ghost var k := Skips(alive, start);
      server := servers[roundRobinCount % |servers|];
      while !alive[roundRobinCount % |servers|]
        invariant start <= roundRobinCount <= start + k
        invariant server == servers[roundRobinCount % |servers|]
        invariant forall c :: start <= c < roundRobinCount ==> !alive[c % |servers|]
        decreases start + k - roundRobinCount
      {
        if roundRobinCount == start + k {
          assert false;
        }
        roundRobinCount := roundRobinCount + 1;
        server := servers[roundRobinCount % |servers|];
      }
      if roundRobinCount < start + k {
        assert LiveAt(alive, start, roundRobinCount - start);
        assert false;
      }
      roundRobinCount := roundRobinCount + 1;
    }

    /** Handling one request: select a backend, then hand the request to it.
        The hand-off itself (the reverse proxy) and the log line are left out. */
    method ServeProxy(alive: seq<bool>) returns (targetServer: SimpleServer)
      requires 0 < |servers| && |alive| == |servers|
      requires SomeAlive(alive)
      modifies this`roundRobinCount
      ensures roundRobinCount == NextCount(alive, old(roundRobinCount))
      ensures targetServer == servers[Landing(alive, old(roundRobinCount))]
    {
      targetServer := GetNextAvailableServer(alive);
    }

    /** A VARIANT, not the source's loop: the same selection with the scan
        bounded by one full cycle. It makes the same choice and the same
        counter step whenever some server is alive, and reports None without
        touching the counter when every server is down. */
    method SelectNextBounded(alive: seq<bool>) returns (result: Option<SimpleServer>)
      requires 0 < |servers| && |alive| == |servers|
      modifies this`roundRobinCount
      ensures result.Some? <==> SomeAlive(alive)
      ensures result.Some? ==> roundRobinCount == NextCount(alive, old(roundRobinCount))
                               && result.value == servers[Landing(alive, old(roundRobinCount))]
      ensures result.None? ==> roundRobinCount == old(roundRobinCount)
    {
      var n := |servers|;
      var probes := 0;
      while probes < n && !alive[(roundRobinCount + probes) % n]
        invariant 0 <= probes <= n
        invariant forall j :: 0 <= j < probes ==> !LiveAt(alive, roundRobinCount, j)
        decreases n - probes
      {
        probes := probes + 1;
      }
      ScanFindsIffSomeAlive(alive, roundRobinCount);
      if probes < n {
        assert LiveAt(alive, roundRobinCount, probes);
        result := Some(servers[(roundRobinCount + probes) % n]);
        roundRobinCount := roundRobinCount + probes + 1;
      } else {
        result := None;
      }
    }
  }

  /** A client of the class: a fresh balancer over three SimpleServers, which
      always answer that they are alive, hands them out in insertion order and
      wraps around. */
  method RoundRobinOverThreeServers(a: string, b: string, c: string)
  {
    var lb := new LoadBalancer.NewLoadBalancer("8080", [NewSimpleServer(a), NewSimpleServer(b), NewSimpleServer(c)]);
    var alive := Liveness(lb.servers);
    assert alive[0];
    var s1 := lb.GetNextAvailableServer(alive);
    var s2 := lb.GetNextAvailableServer(alive);
    var s3 := lb.GetNextAvailableServer(alive);
    var s4 := lb.GetNextAvailableServer(alive);
    assert s1.Address() == a && s2.Address() == b && s3.Address() == c && s4.Address() == a;
  }
}
