# Round-robin load balancer: a verified model

This project models the server-selection core of a small HTTP load balancer
written in Go. The balancer holds a listen port, a fixed, ordered pool of
backend servers and a round-robin counter. For each request it picks a
backend and hands the request to it. To pick, it reads the server at
`counter % len(servers)`. While that server reports that it is down, it
advances the counter and reads again. It then advances the counter once more
and returns the server it landed on.

Files and modules:

- `servers.dfy`, module `Servers`: the `SimpleServer` backend with its
  `Address` and `IsAlive` accessors. `Liveness` gives the answers a pool of
  such servers gives, which are always "alive".
- `round_robin.dfy`, module `RoundRobin`: the selection stated on values.
  - `FirstLiveOffset` is the scan bounded by one cycle.
  - `Skips`, `Landing` and `NextCount` give the dead servers skipped, the
    position chosen and the new counter.
  - `Schedule` and `CountAfter` describe a run of successive selections.
  - The lemmas cover termination, cycling, fairness and the two worked
    examples.
- `load_balancer.dfy`, module `Balancer`: the `LoadBalancer` class. Its
  fields are `port`, `roundRobinCount` and `servers`. It has the constructor
  `NewLoadBalancer`, the selection loop `GetNextAvailableServer` and
  `ServeProxy`. Each method that selects says what it changes with
  `modifies this`roundRobinCount`, so `port` and `servers` stay as they were.

Liveness is an argument of each selection, `alive: seq<bool>`. `alive[i]` is
what `servers[i].IsAlive()` answers, and the answers do not change during one
call. The counter is an unbounded `nat`.

The Go loop has no bound. When every server is down it increments the
counter forever. `GetNextAvailableServer` is faithful to that loop, so it
requires `SomeAlive(alive)`. `RoundRobin.ScanFindsIffSomeAlive` shows that
this is exactly the condition under which one cycle of probes finds a live
server. When no server is alive, every position the loop can read is dead.

`SelectNextBounded` is a variant and not a transcription of the Go code. It
stops after one full cycle of probes. If a server is alive, it makes the same
choice and the same counter step as the Go loop. If none is alive, it
returns `None` and leaves the counter unchanged.

The Go counter is never reduced modulo the pool size; it only grows. The Go
scan has no bound. `SelectNextBounded` is the only bounded scan in the model.

`RoundRobinOverThreeServers` is a client of the class. It builds a fresh
balancer over three `SimpleServer`s and shows that four selections return
them in insertion order, wrapping around to the first.

## Model

| member | source | states |
|---|---|---|
| `Servers.NewSimpleServer` | main.go:28-36 | a server built from an address reports that same address through `Address()` and reports itself alive |
| `Servers.SimpleServer.Address` | main.go:46-48 | returns the address stored at construction (the round trip is stated by `NewSimpleServer`) |
| `Servers.SimpleServer.IsAlive` | main.go:50-52 | a SimpleServer always answers that it is alive |
| `Servers.Liveness` | main.go:50-52 | a pool of SimpleServers answers "alive" at every position, and there is one answer per server |
| `RoundRobin.FirstLiveOffset` | main.go:59-64 | the scan from offset k returns the first offset below one full cycle whose cyclic position `(c + j) % n` is alive, and every offset before it is dead; None means every probe up to the end of the cycle is dead |
| `RoundRobin.ScanFindsIffSomeAlive` | main.go:61-64 | one cycle of probes from any counter finds a live server if and only if some server is alive, so when none is alive the source loop never exits |
| `RoundRobin.Skips` | main.go:59-64 | the number of servers skipped is below n; the server it lands on is alive; every server skipped on the way is dead |
| `RoundRobin.Landing` | main.go:58-68 | the chosen position is a valid index and its server is alive |
| `RoundRobin.NextCount` | main.go:61-66 | the counter strictly grows, by at most n, and the last position it read before the final step is alive |
| `RoundRobin.LiveCursorChosen` | main.go:58-69 | when the server at `counter % n` is alive, it is the one chosen, and the counter grows by exactly 1 |
| `RoundRobin.Schedule` | main.go:58-69 | m successive selections give m positions, and every one of them is a valid index of a live server |
| `RoundRobin.CountAfter` | main.go:58-69 | after m successive selections the counter has grown by at least m and at most m * n |
| `RoundRobin.AllAliveCycles` | main.go:50-69 | with every server alive, successive selections from counter c return positions `(c + j) % n` in insertion order, wrapping around, and the counter grows by exactly one per call |
| `RoundRobin.RoundRobinFairness` | main.go:38-69 | with every server alive, q * n selections from a fresh counter of 0 choose each of the n servers exactly q times |
| `RoundRobin.SkipOnDeadExample` | main.go:58-69 | with servers [dead, live, live] and counter 0, two selections choose positions 1 and 2, never the dead position 0 |
| `RoundRobin.WrapAroundExample` | main.go:58-69 | with three live servers and counter 2, two selections choose position 2 and then position 0 |
| `Balancer.LoadBalancer.NewLoadBalancer` | main.go:38-44 | the new balancer keeps the given port and the pool in the given order, and its counter starts at 0 |
| `Balancer.LoadBalancer.GetNextAvailableServer` | main.go:58-69 | every read is at `counter % n`, in range for a non-empty pool. The returned server is the first live one in cyclic order from the old counter, and every position skipped on the way is dead. The counter grows by the number of skips plus one, so it strictly increases and by at most n. Only the counter changes. The method requires a live server, because otherwise the loop never exits |
| `Balancer.LoadBalancer.ServeProxy` | main.go:71-77 | handling a request selects exactly as `GetNextAvailableServer` does, and the target is the server it chose |
| `Balancer.LoadBalancer.SelectNextBounded` | main.go:58-69 | variant with a bounded scan: it succeeds if and only if some server is alive; on success it gives the same server and counter as the source loop; on failure the counter is unchanged |

## Left out

- Forwarding: `SimpleServer.Serve` and the reverse proxy built by `httputil.NewSingleHostReverseProxy` are calls into the HTTP library. `ServeProxy` stops at returning the selected server.
- `newSimpleServer` parses the address as a URL and `handleErr` exits the process on a parse error. Both are library parsing and process termination. `NewSimpleServer` keeps only the stored address.
- The `forwarding request to` log line and `main`, which wires up the listener on the port (`http.HandleFunc`, `ListenAndServe`). Both are I/O.
- Concurrency: the Go program updates `roundRobinCount` without a lock while the HTTP server handles requests concurrently. The model has a single sequential caller.
- The Go `int` width of `roundRobinCount`. The counter is an unbounded `nat`, so overflow and wrap-around are not modelled.
- `GetNextAvailableServer`, `ServeProxy`, `SelectNextBounded`: an empty pool makes the Go modulo panic with a division by zero; the model requires a non-empty pool.
- The `Server` interface: servers other than `SimpleServer` appear only through the `alive` argument. A server's liveness does not change during one call.
