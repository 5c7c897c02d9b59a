/** The round-robin choice, stated on values: given the liveness answers of
    the servers (position i answers for server i) and the counter, which
    position is chosen and what the counter becomes. */
module RoundRobin {

  datatype Option<T> = None | Some(value: T)

  /** At least one server answers that it is alive. */
  predicate SomeAlive(alive: seq<bool>) {
    exists i :: 0 <= i < |alive| && alive[i]
  }

  /** The server at cyclic offset j from counter c (position (c + j) % |alive|)
      answers that it is alive. */
  predicate LiveAt(alive: seq<bool>, c: nat, j: nat) {
    |alive| > 0 && alive[(c + j) % |alive|]
  }

  /** The bounded scan: the first offset j with k <= j < |alive| whose
      server, at cyclic position (c + j) % |alive|, is alive; None when
      every probe from offset k to the end of one cycle finds a dead server. */
  function FirstLiveOffset(alive: seq<bool>, c: nat, k: nat): (r: Option<nat>)
    decreases |alive| - k
    ensures r.Some? ==> k <= r.value < |alive| && LiveAt(alive, c, r.value)
    ensures r.Some? ==> forall j :: k <= j < r.value ==> !LiveAt(alive, c, j)
    ensures r.None? ==> forall j :: k <= j < |alive| ==> !LiveAt(alive, c, j)
  {
    if k >= |alive| then None
    else if LiveAt(alive, c, k) then Some(k)
    else FirstLiveOffset(alive, c, k + 1)
  }

  /** d * n is at least n once d is positive. */
  lemma MulAtLeast(d: int, n: nat)
    requires d >= 1
    ensures d * n >= n
  {
  }

  /** The remainder of q * n + t by n is t, for 0 <= t < n. */
  lemma ModUnique(x: int, q: int, n: nat, t: int)
    requires 0 <= t < n && x == q * n + t
    ensures x % n == t
  {
    var q', t' := x / n, x % n;
    assert x == q' * n + t';
    if q > q' {
      MulAtLeast(q - q', n);
      assert false;
    } else if q < q' {
      MulAtLeast(q' - q, n);
      assert false;
    }
  }

  /** Every position i is reached from counter c after some offset below n. */
  lemma OffsetTo(c: nat, i: nat, n: nat) returns (k: nat)
    requires i < n
    ensures k < n && (c + k) % n == i
  {
    var q, r := c / n, c % n;
    assert c == q * n + r;
    if r <= i {
      k := i - r;
      ModUnique(c + k, q, n, i);
    } else {
      k := i + n - r;
      assert (q + 1) * n == q * n + n;
      ModUnique(c + k, q + 1, n, i);
    }
  }

  /** One full cycle of probes from any counter finds a live server exactly
      when some server is alive; otherwise every probe meets a dead one. */
  lemma ScanFindsIffSomeAlive(alive: seq<bool>, c: nat)
    ensures FirstLiveOffset(alive, c, 0).Some? <==> SomeAlive(alive)
  {
    var r := FirstLiveOffset(alive, c, 0);
    if r.Some? {
      assert alive[(c + r.value) % |alive|];
    }
    if SomeAlive(alive) {
      var i :| 0 <= i < |alive| && alive[i];
      var k := OffsetTo(c, i, |alive|);
      assert LiveAt(alive, c, k);
    }
  }

  /** The number of dead servers the selector skips from counter c before
      it lands on a live one. */
  function Skips(alive: seq<bool>, c: nat): (k: nat)
    requires SomeAlive(alive)
    ensures k < |alive| && LiveAt(alive, c, k)
    ensures forall j :: 0 <= j < k ==> !LiveAt(alive, c, j)
  {
    ScanFindsIffSomeAlive(alive, c);
    FirstLiveOffset(alive, c, 0).value
  }

  /** The position the selector returns when called with counter c. */
  function Landing(alive: seq<bool>, c: nat): (i: nat)
    requires SomeAlive(alive)
    ensures i < |alive| && alive[i]
  {
    (c + Skips(alive, c)) % |alive|
  }

  /** The counter after one selection from counter c. */
  function NextCount(alive: seq<bool>, c: nat): (r: nat)
    requires SomeAlive(alive)
    ensures c < r <= c + |alive|
    ensures alive[(r - 1) % |alive|]
  {
    c + Skips(alive, c) + 1
  }

  /** A live server at the cursor is chosen at once and costs one step. */
  lemma LiveCursorChosen(alive: seq<bool>, c: nat)
    requires 0 < |alive| && alive[c % |alive|]
    ensures SomeAlive(alive)
    ensures Skips(alive, c) == 0
    ensures Landing(alive, c) == c % |alive| && NextCount(alive, c) == c + 1
  {
    assert LiveAt(alive, c, 0);
  }

  /** The positions chosen by m successive selections starting from counter
      c, with the liveness answers unchanged throughout. */
  function Schedule(alive: seq<bool>, c: nat, m: nat): (s: seq<nat>)
    requires SomeAlive(alive)
    decreases m
    ensures |s| == m
    ensures forall j :: 0 <= j < m ==> s[j] < |alive| && alive[s[j]]
  {
    if m == 0 then [] else [Landing(alive, c)] + Schedule(alive, NextCount(alive, c), m - 1)
  }

  /** The counter after m successive selections starting from counter c. */
  function CountAfter(alive: seq<bool>, c: nat, m: nat): (r: nat)
    requires SomeAlive(alive)
    decreases m
    ensures c + m <= r <= c + m * |alive|
  {
    if m == 0 then c else CountAfter(alive, NextCount(alive, c), m - 1)
  }

  predicate AllAlive(alive: seq<bool>) {
    forall i :: 0 <= i < |alive| ==> alive[i]
  }

  /** With every server alive, successive selections visit the positions in
      insertion order from the cursor, wrapping around, one step each. */
  lemma {:induction false} AllAliveCycles(alive: seq<bool>, c: nat, m: nat)
    requires 0 < |alive| && AllAlive(alive)
    ensures SomeAlive(alive)
    ensures forall j :: 0 <= j < m ==> Schedule(alive, c, m)[j] == (c + j) % |alive|
    ensures CountAfter(alive, c, m) == c + m
    decreases m
  {
    assert alive[0];
    if m > 0 {
      LiveCursorChosen(alive, c);
      AllAliveCycles(alive, c + 1, m - 1);
      var s := Schedule(alive, c, m);
      forall j | 0 <= j < m ensures s[j] == (c + j) % |alive| {
        if j > 0 {
          assert s[j] == Schedule(alive, c + 1, m - 1)[j - 1];
        }
      }
    }
  }

  /** The positions 0, 1, ..., n - 1 in order. */
  function Range(n: nat): (r: seq<nat>)
    ensures |r| == n && forall j :: 0 <= j < n ==> r[j] == j
  {
    if n == 0 then [] else Range(n - 1) + [n - 1]
  }

  /** Each position below n occurs exactly once in Range(n). */
  lemma {:induction false} RangeCount(n: nat, i: nat)
    requires i < n
    ensures multiset(Range(n))[i] == 1
  {
    assert Range(n) == Range(n - 1) + [n - 1];
    if i < n - 1 {
      RangeCount(n - 1, i);
    } else {
      assert i !in Range(n - 1);
    }
  }

  /** With every server alive, the first m + n selections from a fresh
      counter, for m a multiple p * n of the pool size n, are the first m
      followed by one pass over the positions 0 .. n - 1. */
  lemma ScheduleNextPass(alive: seq<bool>, p: nat, m: nat)
    requires 0 < |alive| && AllAlive(alive) && m == p * |alive|
    ensures SomeAlive(alive)
    ensures Schedule(alive, 0, m + |alive|) == Schedule(alive, 0, m) + Range(|alive|)
  {
    var n := |alive|;
    AllAliveCycles(alive, 0, m + n);
    AllAliveCycles(alive, 0, m);
    var whole, front := Schedule(alive, 0, m + n), Schedule(alive, 0, m);
    forall j | 0 <= j < m + n ensures whole[j] == (front + Range(n))[j] {
      if j < m {
        assert whole[j] == j % n == front[j];
      } else {
        assert whole[j] == j % n;
        ModUnique(j, p, n, j - m);
      }
    }
  }

  /** Round-robin fairness: from a fresh counter, with every server alive,
      q * n selections over n servers choose each server exactly q times. */
  lemma {:induction false} RoundRobinFairness(alive: seq<bool>, q: nat, i: nat)
    requires i < |alive| && AllAlive(alive)
    ensures SomeAlive(alive)
    ensures multiset(Schedule(alive, 0, q * |alive|))[i] == q
  {
    assert alive[i];
    if q > 0 {
      var n := |alive|;
      var m := (q - 1) * n;
      assert q * n == m + n;
      RoundRobinFairness(alive, q - 1, i);
      ScheduleNextPass(alive, q - 1, m);
      var front := Schedule(alive, 0, m);
      assert multiset(Schedule(alive, 0, q * n)) == multiset(front) + multiset(Range(n));
      RangeCount(n, i);
    }
  }

  /** A dead server at the cursor is skipped: with [dead, live, live], two
      selections from a fresh counter choose positions 1 and 2. */
  lemma SkipOnDeadExample()
    ensures SomeAlive([false, true, true])
    ensures Schedule([false, true, true], 0, 2) == [1, 2]
  {
    var alive := [false, true, true];
    assert alive[1];
    assert !LiveAt(alive, 0, 0) && LiveAt(alive, 0, 1);
    assert Landing(alive, 0) == 1;
    assert NextCount(alive, 0) == 2;
    LiveCursorChosen(alive, 2);
  }

  /** Wrap-around: three live servers and counter 2 choose position 2, then 0. */
  lemma WrapAroundExample()
    ensures SomeAlive([true, true, true])
    ensures Schedule([true, true, true], 2, 2) == [2, 0]
  {
    AllAliveCycles([true, true, true], 2, 2);
  }
}
