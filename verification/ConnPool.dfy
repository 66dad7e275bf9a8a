/**
 * The connection pool of redis.v3, pool.go, before Close: any number of goroutines reserve, dial, add, take,
 * put back and remove connections, one atomic step at a time.
 */
module ConnPool {
  import opened Bytes

  /**
   * Where a goroutine is: about to get a connection, refused by Reserve with the counter still raised, holding
   * a reservation while it dials, waiting for a free connection, or using one.
   */
  datatype Phase = Idle | Refused | Dialing | Waiting | Using(conn: nat)

  /** len is the atomic counter, conns the list, free the channel; next numbers new connections. */
  datatype Pool = Pool(len: int, conns: set<nat>, free: seq<nat>, next: nat, threads: seq<Phase>)

  function NewPool(threads: nat): Pool {
    Pool(0, {}, [], 0, seq(threads, _ => Idle))
  }

  datatype Step = First(t: nat) | ReserveAdd(t: nat) | ReserveUndo(t: nat) | Dialed(t: nat) | DialFailed(t: nat)
    | Received(t: nat) | TimedOut(t: nat) | Put(t: nat) | Removed(t: nat) | Replaced(t: nat)

  predicate Enabled(p: Pool, s: Step) {
    s.t < |p.threads| &&
    match s
    case First(t) => p.threads[t].Idle? && p.free != []
    case ReserveAdd(t) => p.threads[t].Idle?
    case ReserveUndo(t) => p.threads[t].Refused?
    case Dialed(t) => p.threads[t].Dialing?
    case DialFailed(t) => p.threads[t].Dialing?
    case Received(t) => p.threads[t].Waiting? && p.free != []
    case TimedOut(t) => p.threads[t].Waiting?
    case _ => p.threads[s.t].Using?
  }

  function Go(p: Pool, t: nat, to: Phase): Pool
    requires t < |p.threads|
  {
    p.(threads := p.threads[t := to])
  }

  function Apply(p: Pool, s: Step, size: nat): Pool
    requires Enabled(p, s)
  {
    match s
    case First(t) => Go(p, t, Using(p.free[0])).(free := p.free[1..])
    case ReserveAdd(t) => Go(p, t, if p.len + 1 <= size then Dialing else Refused).(len := p.len + 1)
    case ReserveUndo(t) => Go(p, t, Waiting).(len := p.len - 1)
    case Dialed(t) => Go(p, t, Using(p.next)).(conns := p.conns + {p.next}, next := p.next + 1)
    case DialFailed(t) => Go(p, t, Idle).(len := p.len - 1)
    case Received(t) => Go(p, t, Using(p.free[0])).(free := p.free[1..])
    case TimedOut(t) => Go(p, t, Idle)
    case Put(t) => Go(p, t, Idle).(free := p.free + [p.threads[t].conn])
    case Removed(t) => Go(p, t, Idle).(conns := p.conns - {p.threads[t].conn}, len := p.len - 1)
    case Replaced(t) =>
      Go(p, t, Idle).(conns := p.conns - {p.threads[t].conn} + {p.next}, free := p.free + [p.next], next := p.next + 1)
  }

  function Run(threads: nat, size: nat, steps: seq<Step>): (p: Pool)
    decreases |steps|
  {
    if steps == [] then NewPool(threads)
    else
      var p, s := Run(threads, size, steps[..|steps| - 1]), steps[|steps| - 1];
      if Enabled(p, s) then Apply(p, s, size) else p
  }

  // Counting --------------------------------------------------------------------------

  function Dialers(ts: seq<Phase>): nat {
    if ts == [] then 0 else Dialers(ts[1..]) + if ts[0].Dialing? then 1 else 0
  }

  function Refusals(ts: seq<Phase>): nat {
    if ts == [] then 0 else Refusals(ts[1..]) + if ts[0].Refused? then 1 else 0
  }

  function One(ph: Phase): multiset<nat> {
    if ph.Using? then multiset{ph.conn} else multiset{}
  }

  /** The connections in use. */
  function Used(ts: seq<Phase>): multiset<nat> {
    if ts == [] then multiset{} else One(ts[0]) + Used(ts[1..])
  }

  lemma {:induction false} CountsUpdate(ts: seq<Phase>, t: nat, to: Phase)
    requires t < |ts|
    ensures Dialers(ts[t := to]) == Dialers(ts) - (if ts[t].Dialing? then 1 else 0) + if to.Dialing? then 1 else 0
    ensures Refusals(ts[t := to]) == Refusals(ts) - (if ts[t].Refused? then 1 else 0) + if to.Refused? then 1 else 0
  {
    if t > 0 {
      assert ts[t := to][1..] == ts[1..][t - 1 := to];
      CountsUpdate(ts[1..], t - 1, to);
    } else {
      assert ts[t := to][1..] == ts[1..];
    }
  }

  lemma {:induction false} Exchange(a: multiset<nat>, u: multiset<nat>, x: multiset<nat>, y: multiset<nat>)
    requires x <= u
    ensures x <= a + u && a + (u - x + y) == (a + u) - x + y
  {
  }

  lemma {:induction false} ExchangeFirst(a: multiset<nat>, u: multiset<nat>, y: multiset<nat>)
    ensures a <= a + u && y + u == (a + u) - a + y
  {
  }

  lemma {:induction false} UsedHead(ts: seq<Phase>, to: Phase)
    requires ts != []
    ensures Used(ts) == One(ts[0]) + Used(ts[1..])
    ensures Used(ts[0 := to]) == One(to) + Used(ts[1..])
  {
    assert ts[0 := to][1..] == ts[1..];
  }

  lemma {:induction false} UsedTail(ts: seq<Phase>, t: nat, to: Phase)
    requires 0 < t < |ts|
    ensures Used(ts) == One(ts[0]) + Used(ts[1..])
    ensures Used(ts[t := to]) == One(ts[0]) + Used(ts[1..][t - 1 := to])
  {
    assert ts[t := to][1..] == ts[1..][t - 1 := to];
  }

  lemma {:induction false} UsedUpdate(ts: seq<Phase>, t: nat, to: Phase)
    requires t < |ts|
    ensures One(ts[t]) <= Used(ts) && Used(ts[t := to]) == Used(ts) - One(ts[t]) + One(to)
  {
    var x, y, u := One(ts[t]), One(to), Used(ts[1..]);
    if t > 0 {
      UsedTail(ts, t, to);
      UsedUpdate(ts[1..], t - 1, to);
      Exchange(One(ts[0]), u, x, y);
    } else {
      UsedHead(ts, to);
      ExchangeFirst(x, u, y);
    }
  }

  lemma {:induction false} FreeSnoc(free: seq<nat>, c: nat)
    ensures multiset(free + [c]) == multiset(free) + multiset{c}
  {
  }

  lemma {:induction false} FreeFirst(free: seq<nat>)
    requires free != []
    ensures multiset(free) == multiset{free[0]} + multiset(free[1..])
  {
    assert free == [free[0]] + free[1..];
  }

  lemma {:induction false} ListAdd(conns: set<nat>, c: nat)
    requires c !in conns
    ensures multiset(conns + {c}) == multiset(conns) + multiset{c}
  {
  }

  lemma {:induction false} ListDrop(conns: set<nat>, c: nat)
    requires c in conns
    ensures multiset(conns - {c}) == multiset(conns) - multiset{c}
  {
  }

  // The invariant ---------------------------------------------------------------------

  /**
   * The counter counts listed connections, granted reservations, and refusals not yet undone; every listed
   * connection is in exactly one place, free or in use; and the limit holds.
   */
  ghost predicate Inv(p: Pool, size: nat) {
    && p.len == |p.conns| + Dialers(p.threads) + Refusals(p.threads)
    && |p.conns| + Dialers(p.threads) <= size
    && multiset(p.conns) == multiset(p.free) + Used(p.threads)
    && (forall c | c in p.conns :: c < p.next)
  }

  /** First and wait: a free connection goes into use. */
  lemma {:induction false} InvTake(p: Pool, t: nat, size: nat)
    requires Inv(p, size) && t < |p.threads| && (p.threads[t].Idle? || p.threads[t].Waiting?) && p.free != []
    ensures Inv(Go(p, t, Using(p.free[0])).(free := p.free[1..]), size)
  {
    CountsUpdate(p.threads, t, Using(p.free[0]));
    UsedUpdate(p.threads, t, Using(p.free[0]));
    FreeFirst(p.free);
  }

  lemma {:induction false} Holds(p: Pool, t: nat, size: nat)
    requires Inv(p, size) && t < |p.threads| && p.threads[t].Using?
    ensures p.threads[t].conn in p.conns
  {
    UsedUpdate(p.threads, t, Idle);
    assert multiset(p.conns)[p.threads[t].conn] >= 1;
  }

  lemma {:induction false} InvPut(p: Pool, t: nat, size: nat)
    requires Inv(p, size) && Enabled(p, Put(t))
    ensures Inv(Apply(p, Put(t), size), size)
  {
    CountsUpdate(p.threads, t, Idle);
    UsedUpdate(p.threads, t, Idle);
    FreeSnoc(p.free, p.threads[t].conn);
  }

  lemma {:induction false} InvDialed(p: Pool, t: nat, size: nat)
    requires Inv(p, size) && Enabled(p, Dialed(t))
    ensures Inv(Apply(p, Dialed(t), size), size)
  {
    CountsUpdate(p.threads, t, Using(p.next));
    UsedUpdate(p.threads, t, Using(p.next));
    ListAdd(p.conns, p.next);
  }

  lemma {:induction false} TakeOut(conns: multiset<nat>, free: multiset<nat>, used: multiset<nat>, c: nat)
    requires conns == free + used && c in used
    ensures conns - multiset{c} == free + (used - multiset{c})
  {
  }

  lemma {:induction false} InvRemoved(p: Pool, t: nat, size: nat)
    requires Inv(p, size) && Enabled(p, Removed(t))
    ensures Inv(Apply(p, Removed(t), size), size)
  {
    var c := p.threads[t].conn;
    CountsUpdate(p.threads, t, Idle);
    UsedUpdate(p.threads, t, Idle);
    Holds(p, t, size);
    ListDrop(p.conns, c);
    TakeOut(multiset(p.conns), multiset(p.free), Used(p.threads), c);
  }

  /** A connection removed with a replacement: the list keeps its size. */
  lemma {:induction false} InvReplaced(p: Pool, t: nat, size: nat)
    requires Inv(p, size) && Enabled(p, Replaced(t))
    ensures Inv(Apply(p, Replaced(t), size), size)
  {
    var c := p.threads[t].conn;
    CountsUpdate(p.threads, t, Idle);
    UsedUpdate(p.threads, t, Idle);
    Holds(p, t, size);
    ListDrop(p.conns, c);
    ListAdd(p.conns - {c}, p.next);
    FreeSnoc(p.free, p.next);
  }

  /** Steps that only move the counter and the goroutine. */
  lemma {:induction false} InvCounter(p: Pool, t: nat, to: Phase, len: int, size: nat)
    requires Inv(p, size) && t < |p.threads| && !p.threads[t].Using? && !to.Using?
    requires len - p.len == (if to.Dialing? || to.Refused? then 1 else 0)
                            - (if p.threads[t].Dialing? || p.threads[t].Refused? then 1 else 0)
    requires to.Dialing? ==> p.len + 1 <= size
    ensures Inv(Go(p, t, to).(len := len), size)
  {
    CountsUpdate(p.threads, t, to);
    UsedUpdate(p.threads, t, to);
  }

  lemma {:induction false} InvStep(p: Pool, s: Step, size: nat)
    requires Inv(p, size) && Enabled(p, s)
    ensures Inv(Apply(p, s, size), size)
  {
    match s
    case First(t) => InvTake(p, t, size);
    case Received(t) => InvTake(p, t, size);
    case ReserveAdd(t) => InvCounter(p, t, if p.len + 1 <= size then Dialing else Refused, p.len + 1, size);
    case ReserveUndo(t) => InvCounter(p, t, Waiting, p.len - 1, size);
    case DialFailed(t) => InvCounter(p, t, Idle, p.len - 1, size);
    case TimedOut(t) => InvCounter(p, t, Idle, p.len, size);
    case Dialed(t) => InvDialed(p, t, size);
    case Put(t) => InvPut(p, t, size);
    case Removed(t) => InvRemoved(p, t, size);
    case Replaced(t) => InvReplaced(p, t, size);
  }

  lemma {:induction false} InvNew(ts: seq<Phase>)
    requires forall i | 0 <= i < |ts| :: ts[i].Idle?
    ensures Dialers(ts) == 0 && Refusals(ts) == 0 && Used(ts) == multiset{}
    decreases |ts|
  {
    if ts != [] {
      InvNew(ts[1..]);
    }
  }

  lemma {:induction false} InvRun(threads: nat, size: nat, steps: seq<Step>)
    ensures Inv(Run(threads, size, steps), size)
    decreases |steps|
  {
    if steps == [] {
      InvNew(NewPool(threads).threads);
    } else {
      var before, s := steps[..|steps| - 1], steps[|steps| - 1];
      InvRun(threads, size, before);
      if Enabled(Run(threads, size, before), s) {
        InvStep(Run(threads, size, before), s, size);
      }
    }
  }

  // Every run -------------------------------------------------------------------------

  /** The limit holds in every interleaving, although the counter overshoots by the refusals not yet undone. */
  lemma {:induction false} WithinLimit(threads: nat, size: nat, steps: seq<Step>)
    ensures var p := Run(threads, size, steps);
            && |p.conns| + Dialers(p.threads) <= size
            && p.len == |p.conns| + Dialers(p.threads) + Refusals(p.threads)
  {
    InvRun(threads, size, steps);
  }

  lemma {:induction false} MultisetSize(a: multiset<nat>, b: multiset<nat>, x: nat)
    requires x in b
    ensures |a| < |a + b|
  {
  }

  /** A goroutine that gives a connection back, or a new one in its place, finds room in the channel. */
  lemma {:induction false} SendNeverBlocks(threads: nat, size: nat, steps: seq<Step>, t: nat)
    requires var p := Run(threads, size, steps); t < |p.threads| && p.threads[t].Using?
    ensures |Run(threads, size, steps).free| < size
  {
    InvRun(threads, size, steps);
    var p := Run(threads, size, steps);
    UsedUpdate(p.threads, t, Idle);
    assert p.threads[t].conn in Used(p.threads);
    MultisetSize(multiset(p.free), Used(p.threads), p.threads[t].conn);
    assert |multiset(p.conns)| == |p.conns|;
  }

  lemma {:induction false} CountedTwice(s: seq<nat>, i: nat, j: nat)
    requires i < j < |s| && s[i] == s[j]
    ensures multiset(s)[s[i]] >= 2
  {
    var a, b := s[..j], s[j..];
    assert s == a + b && a[i] == s[i] && b[0] == s[i];
    assert multiset(s) == multiset(a) + multiset(b);
    assert s[i] in multiset(a) && s[i] in multiset(b);
  }

  /** Free connections are distinct members of the list, and nobody uses them. */
  lemma {:induction false} FreeDistinct(threads: nat, size: nat, steps: seq<Step>, i: nat)
    requires i < |Run(threads, size, steps).free|
    ensures var p := Run(threads, size, steps);
            && p.free[i] in p.conns && p.free[i] !in Used(p.threads)
            && forall j | 0 <= j < |p.free| && j != i :: p.free[j] != p.free[i]
  {
    InvRun(threads, size, steps);
    var p := Run(threads, size, steps);
    assert p.free[i] in multiset(p.free);
    assert multiset(p.conns)[p.free[i]] == 1;
    forall j | 0 <= j < |p.free| && j != i
      ensures p.free[j] != p.free[i]
    {
      if p.free[j] == p.free[i] {
        CountedTwice(p.free, if i < j then i else j, if i < j then j else i);
      }
    }
  }

  /** Remove and Replace always find the connection in the list, so neither panics. */
  lemma {:induction false} FoundInList(threads: nat, size: nat, steps: seq<Step>, t: nat)
    requires var p := Run(threads, size, steps); t < |p.threads| && p.threads[t].Using?
    ensures var p := Run(threads, size, steps); p.threads[t].conn in p.conns
  {
    InvRun(threads, size, steps);
    Holds(Run(threads, size, steps), t, size);
  }

  lemma {:induction false} UsedTwice(ts: seq<Phase>, t: nat, u: nat, c: nat)
    requires t < u < |ts| && ts[t] == Using(c) && ts[u] == Using(c)
    ensures Used(ts)[c] >= 2
  {
    UsedUpdate(ts, t, Idle);
    UsedUpdate(ts[t := Idle], u, Idle);
    assert One(ts[t]) == multiset{c} && One(Idle) == multiset{};
  }

  lemma {:induction false} UsedAtMostOnce(p: Pool, size: nat, c: nat)
    requires Inv(p, size)
    ensures Used(p.threads)[c] <= 1
  {
    assert multiset(p.conns)[c] <= 1;
  }

  /** No two goroutines use the same connection. */
  lemma {:induction false} UsedOnce(threads: nat, size: nat, steps: seq<Step>, t: nat, u: nat)
    requires var p := Run(threads, size, steps);
             t < u < |p.threads| && p.threads[t].Using? && p.threads[u].Using?
    ensures var p := Run(threads, size, steps); p.threads[t].conn != p.threads[u].conn
  {
    InvRun(threads, size, steps);
    var p := Run(threads, size, steps);
    UsedAtMostOnce(p, size, p.threads[t].conn);
    if p.threads[t].conn == p.threads[u].conn {
      UsedTwice(p.threads, t, u, p.threads[t].conn);
    }
  }

  // Reservations ----------------------------------------------------------------------

  lemma {:induction false} RunStep(threads: nat, size: nat, steps: seq<Step>, s: Step)
    requires Enabled(Run(threads, size, steps), s)
    ensures Run(threads, size, steps + [s]) == Apply(Run(threads, size, steps), s, size)
  {
    assert (steps + [s])[..|steps|] == steps;
  }

  /** A reservation is granted exactly when listed connections, reservations and refusals not yet undone leave room. */
  lemma {:induction false} ReserveGranted(threads: nat, size: nat, steps: seq<Step>, t: nat)
    requires var p := Run(threads, size, steps); t < |p.threads| && p.threads[t].Idle?
    ensures var p, p' := Run(threads, size, steps), Run(threads, size, steps + [ReserveAdd(t)]);
            && |p'.threads| == |p.threads|
            && (p'.threads[t].Dialing? <==> |p.conns| + Dialers(p.threads) + Refusals(p.threads) < size)
            && (p'.threads[t].Refused? <==> |p.conns| + Dialers(p.threads) + Refusals(p.threads) >= size)
  {
    InvRun(threads, size, steps);
    RunStep(threads, size, steps, ReserveAdd(t));
  }

  /** Goroutines 0 to k - 1 reserve one after the other. */
  function Reserves(k: nat): seq<Step> {
    if k == 0 then [] else Reserves(k - 1) + [ReserveAdd(k - 1)]
  }

  /** The first k goroutines have reserved: the first size of them hold a reservation, the others were refused. */
  predicate Granted(p: Pool, size: nat, k: nat) {
    && p.len == k <= |p.threads|
    && forall i: nat | i < |p.threads| :: p.threads[i] == if i >= k then Idle else if i < size then Dialing else Refused
  }

  lemma {:induction false} GrantedStep(p: Pool, size: nat, k: nat)
    requires Granted(p, size, k) && k < |p.threads|
    ensures Enabled(p, ReserveAdd(k)) && Granted(Apply(p, ReserveAdd(k), size), size, k + 1)
  {
  }

  /** The first size reservations are granted, and no others. */
  lemma {:induction false} FirstReservations(threads: nat, size: nat, k: nat)
    requires k <= threads
    ensures var p := Run(threads, size, Reserves(k)); |p.threads| == threads && Granted(p, size, k)
  {
    if k > 0 {
      FirstReservations(threads, size, k - 1);
      GrantedStep(Run(threads, size, Reserves(k - 1)), size, k - 1);
      RunStep(threads, size, Reserves(k - 1), ReserveAdd(k - 1));
    }
  }

  /**
   * The refusals in the condition matter: with the only connection removed while another goroutine has not yet
   * undone its refusal, an empty pool refuses, and both wait for a connection that nobody holds.
   */
  lemma {:induction false} EmptyPoolRefuses()
    ensures exists steps: seq<Step> ::
              var p := Run(3, 1, steps);
              p.conns == {} && p.free == [] && p.threads == [Idle, Waiting, Waiting]
  {
    var none: seq<Step> := [];
    var s0, s1, s2, s3 := ReserveAdd(0), Dialed(0), ReserveAdd(1), Removed(0);
    var s4, s5, s6 := ReserveAdd(2), ReserveUndo(1), ReserveUndo(2);
    RunStep(3, 1, none, s0);
    RunStep(3, 1, none + [s0], s1);
    RunStep(3, 1, none + [s0] + [s1], s2);
    RunStep(3, 1, none + [s0] + [s1] + [s2], s3);
    RunStep(3, 1, none + [s0] + [s1] + [s2] + [s3], s4);
    RunStep(3, 1, none + [s0] + [s1] + [s2] + [s3] + [s4], s5);
    RunStep(3, 1, none + [s0] + [s1] + [s2] + [s3] + [s4] + [s5], s6);
    var p := Run(3, 1, none + [s0] + [s1] + [s2] + [s3] + [s4] + [s5] + [s6]);
    assert p.threads == [Idle, Waiting, Waiting];
  }

  /** The last thing goroutine t did. */
  function LastOf(threads: nat, size: nat, steps: seq<Step>, t: nat): (s: Option<Step>)
    decreases |steps|
  {
    if steps == [] then None
    else
      var before, s := steps[..|steps| - 1], steps[|steps| - 1];
      if s.t == t && Enabled(Run(threads, size, before), s) then Some(s) else LastOf(threads, size, before, t)
  }

  /**
   * What a goroutine did last says where it is: it waits only after undoing a refusal, uses a connection only from the
   * channel or dialed by itself, and a failed dial ends its attempt.
   */
  predicate Follows(ph: Phase, last: Option<Step>) {
    && (ph.Waiting? <==> last.Some? && last.value.ReserveUndo?)
    && (ph.Dialing? || ph.Refused? <==> last.Some? && last.value.ReserveAdd?)
    && (ph.Using? <==> last.Some? && (last.value.First? || last.value.Received? || last.value.Dialed?))
  }

  lemma {:induction false} FollowsStep(p: Pool, s: Step, size: nat, t: nat)
    requires Enabled(p, s) && t < |p.threads|
    ensures var p' := Apply(p, s, size);
            |p'.threads| == |p.threads| && if s.t == t then Follows(p'.threads[t], Some(s)) else p'.threads[t] == p.threads[t]
  {
  }

  lemma {:induction false} WhereItIs(threads: nat, size: nat, steps: seq<Step>, t: nat)
    requires t < threads
    ensures var p := Run(threads, size, steps);
            |p.threads| == threads && Follows(p.threads[t], LastOf(threads, size, steps, t))
    decreases |steps|
  {
    if steps != [] {
      hide Apply, Enabled, Follows;
      var before, s := steps[..|steps| - 1], steps[|steps| - 1];
      WhereItIs(threads, size, before, t);
      if Enabled(Run(threads, size, before), s) {
        FollowsStep(Run(threads, size, before), s, size, t);
      }
    }
  }

  // The channel -----------------------------------------------------------------------

  /** What a step sends to the channel of free connections. */
  function Offer(p: Pool, s: Step): seq<nat>
    requires Enabled(p, s)
  {
    match s
    case Put(t) => [p.threads[t].conn]
    case Replaced(_) => [p.next]
    case _ => []
  }

  /** What the goroutine of a step holds when it came from the channel. */
  function Taken(p': Pool, s: Step): seq<nat> {
    if (s.First? || s.Received?) && s.t < |p'.threads| && p'.threads[s.t].Using? then [p'.threads[s.t].conn] else []
  }

  function Offers(threads: nat, size: nat, steps: seq<Step>): seq<nat>
    decreases |steps|
  {
    if steps == [] then []
    else
      var before, s := steps[..|steps| - 1], steps[|steps| - 1];
      Offers(threads, size, before) +
      if Enabled(Run(threads, size, before), s) then Offer(Run(threads, size, before), s) else []
  }

  function Takes(threads: nat, size: nat, steps: seq<Step>): seq<nat>
    decreases |steps|
  {
    if steps == [] then []
    else
      var before, s := steps[..|steps| - 1], steps[|steps| - 1];
      Takes(threads, size, before) +
      if Enabled(Run(threads, size, before), s) then Taken(Run(threads, size, steps), s) else []
  }

  lemma {:induction false} ChannelStep(p: Pool, s: Step, size: nat)
    requires Enabled(p, s)
    ensures p.free + Offer(p, s) == Taken(Apply(p, s, size), s) + Apply(p, s, size).free
  {
  }

  lemma {:induction false} QueueStep(offers: seq<nat>, takes: seq<nat>, free: seq<nat>, offer: seq<nat>, take: seq<nat>, free': seq<nat>)
    requires offers == takes + free && free + offer == take + free'
    ensures offers + offer == (takes + take) + free'
  {
    assert (takes + free) + offer == takes + (free + offer);
  }

  /** Connections are handed out in the order in which they were given back or replaced: none is lost or handed out twice. */
  lemma {:induction false} ChannelOrder(threads: nat, size: nat, steps: seq<Step>)
    ensures Offers(threads, size, steps) == Takes(threads, size, steps) + Run(threads, size, steps).free
    decreases |steps|
  {
    hide Apply, Enabled, Offer, Taken;
    if steps != [] {
      var before, s := steps[..|steps| - 1], steps[|steps| - 1];
      var p := Run(threads, size, before);
      ChannelOrder(threads, size, before);
      if Enabled(p, s) {
        ChannelStep(p, s, size);
        QueueStep(Offers(threads, size, before), Takes(threads, size, before), p.free,
                  Offer(p, s), Taken(Apply(p, s, size), s), Apply(p, s, size).free);
      }
    }
  }
}
