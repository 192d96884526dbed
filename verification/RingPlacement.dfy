/** Placing the shares of files on a ring of servers of limited capacity. */
module RingPlacement {
  import opened Arithmetic
  import opened Sorting

  /** What a server holds. */
  datatype Load = Load(used: real, shares: nat)

  class Server {
    const nodeid: string
    const capacity: real
    var used: real
    var numshares: nat

    constructor (nodeid: string, capacity: real)
      ensures this.nodeid == nodeid && this.capacity == capacity && used == 0.0 && numshares == 0
    {
      this.nodeid, this.capacity := nodeid, capacity;
      used, numshares := 0.0, 0;
    }

    function Now(): Load
      reads this
    {
      Load(used, numshares)
    }

    method Upload(sharesize: real) returns (accepted: bool)
      modifies this
      ensures accepted == old(used + sharesize < capacity)
      ensures accepted ==> used == old(used) + sharesize && numshares == old(numshares) + 1 && used < capacity
      ensures !accepted ==> used == old(used) && numshares == old(numshares)
    {
      if used + sharesize < capacity {
        used := used + sharesize;
        numshares := numshares + 1;
        return true;
      }
      return false;
    }
  }

  ghost predicate Distinct(servers: seq<Server>) {
    forall i, j :: 0 <= i < j < |servers| ==> servers[i] != servers[j]
  }

  // ---- Share counts -------------------------------------------------------

  ghost function Loads(servers: seq<Server>): seq<Load>
    reads servers
  {
    seq(|servers|, i requires 0 <= i < |servers| reads servers => servers[i].Now())
  }

  predicate HasRoom(server: Server, load: Load, sharesize: real) {
    load.used + sharesize < server.capacity
  }

  ghost function Counts(loads: seq<Load>): seq<nat> {
    seq(|loads|, i requires 0 <= i < |loads| => loads[i].shares)
  }

  ghost function Usage(loads: seq<Load>): seq<real> {
    seq(|loads|, i requires 0 <= i < |loads| => loads[i].used)
  }

  ghost function Sum(counts: seq<nat>): nat {
    if counts == [] then 0 else counts[0] + Sum(counts[1..])
  }

  /** The shares a server got between two moments. */
  function Gain(now: Load, before: Load): int {
    now.shares - before.shares
  }

  lemma {:induction false} SumOneMore(counts: seq<nat>, k: nat)
    requires k < |counts|
    ensures Sum(counts[k := counts[k] + 1]) == Sum(counts) + 1
  {
    var after := counts[k := counts[k] + 1];
    if k > 0 {
      SumOneMore(counts[1..], k - 1);
      assert after[1..] == counts[1..][k - 1 := counts[k] + 1];
    } else {
      assert after[1..] == counts[1..];
    }
  }

  // ---- The ring -----------------------------------------------------------

  /** The position `d` steps before `index` on a ring of `n`; `index` may stand just past the end. */
  function Back(index: nat, d: nat, n: nat): int {
    if d <= index then index - d else index - d + n
  }

  /** The last `d` servers visited before `index` are none of the remaining ones. */
  ghost predicate Passed(servers: seq<Server>, remaining: set<Server>, index: nat, d: nat)
    requires index <= |servers| && d <= |servers|
  {
    forall k :: 1 <= k <= d ==> servers[Back(index, k, |servers|)] !in remaining
  }

  /** A whole round without meeting a remaining server means there is none. */
  lemma RoundPassed(servers: seq<Server>, remaining: set<Server>, index: nat)
    requires index <= |servers| && Passed(servers, remaining, index, |servers|)
    ensures forall i :: 0 <= i < |servers| ==> servers[i] !in remaining
  {
    forall i | 0 <= i < |servers|
      ensures servers[i] !in remaining
    {
      var k := if i < index then index - i else index - i + |servers|;
      assert Back(index, k, |servers|) == i;
    }
  }

  lemma PassOne(servers: seq<Server>, remaining: set<Server>, index: nat, d: nat)
    requires index < |servers| && d < |servers| && Passed(servers, remaining, index, d)
    requires servers[index] !in remaining
    ensures Passed(servers, remaining, index + 1, d + 1)
  {
    var next := index + 1;
    forall k | 1 <= k <= d + 1
      ensures servers[Back(next, k, |servers|)] !in remaining
    {
      if k == 1 {
        assert Back(next, 1, |servers|) == index;
      } else {
        assert Back(next, k, |servers|) == Back(index, k - 1, |servers|);
      }
    }
  }

  /** Standing past the end and standing at the start are the same place on the ring. */
  lemma Wrap(servers: seq<Server>, remaining: set<Server>, d: nat)
    requires d <= |servers| && Passed(servers, remaining, |servers|, d)
    ensures Passed(servers, remaining, 0, d)
  {
    forall k | 1 <= k <= d
      ensures servers[Back(0, k, |servers|)] !in remaining
    {
      assert Back(0, k, |servers|) == Back(|servers|, k, |servers|);
    }
  }

  /** `k` shares of one size. */
  function Times(k: int, sharesize: real): real {
    k as real * sharesize
  }

  lemma TimesOneMore(k: int, sharesize: real)
    ensures Times(k + 1, sharesize) == Times(k, sharesize) + sharesize && Times(0, sharesize) == 0.0
  {
  }

  /** Nothing but the share count and the space of each server changes, at one rate. */
  ghost predicate Consistent(servers: seq<Server>, now: seq<Load>, before: seq<Load>, sharesize: real) {
    && |now| == |servers| == |before|
    && forall i :: 0 <= i < |servers| ==>
         && Gain(now[i], before[i]) >= 0
         && now[i].used == before[i].used + Times(Gain(now[i], before[i]), sharesize)
         && (Gain(now[i], before[i]) > 0 ==> now[i].used < servers[i].capacity)
  }

  /** Every server that is not among the remaining ones refuses a share of this size. */
  ghost predicate OthersRefuse(servers: seq<Server>, now: seq<Load>, remaining: set<Server>, sharesize: real) {
    && |now| == |servers|
    && forall i :: 0 <= i < |servers| && servers[i] !in remaining ==> !HasRoom(servers[i], now[i], sharesize)
  }

  // ---- Round robin --------------------------------------------------------

  /** How often server `i` has been asked after `rounds` rounds and the servers before `index`. */
  function Visits(i: nat, index: nat, rounds: nat): nat {
    rounds + if i < index then 1 else 0
  }

  /** No server got more shares than it was asked to take, and one that still has room got all of them. */
  ghost predicate Visited(servers: seq<Server>, now: seq<Load>, before: seq<Load>, sharesize: real, index: nat, rounds: nat) {
    && |now| == |servers| == |before|
    && forall i :: 0 <= i < |servers| ==>
         && Gain(now[i], before[i]) <= Visits(i, index, rounds)
         && (HasRoom(servers[i], now[i], sharesize) ==> Gain(now[i], before[i]) == Visits(i, index, rounds))
  }

  ghost predicate AllHaveRoom(servers: seq<Server>, now: seq<Load>, sharesize: real)
    requires |now| == |servers|
  {
    forall i :: 0 <= i < |servers| ==> HasRoom(servers[i], now[i], sharesize)
  }

  /**
   * The shares of one file are balanced: nobody gets more than one share more
   * than a server that still has room, nor more than such a server before it.
   */
  ghost predicate Balanced(servers: seq<Server>, now: seq<Load>, before: seq<Load>, sharesize: real) {
    && |now| == |servers| == |before|
    && forall i, j :: 0 <= i < |servers| && 0 <= j < |servers| && HasRoom(servers[j], now[j], sharesize) ==>
         && Gain(now[i], before[i]) <= Gain(now[j], before[j]) + 1
         && (j < i ==> Gain(now[i], before[i]) <= Gain(now[j], before[j]))
  }

  lemma VisitedBalanced(servers: seq<Server>, now: seq<Load>, before: seq<Load>, sharesize: real, index: nat, rounds: nat)
    requires Visited(servers, now, before, sharesize, index, rounds)
    ensures Balanced(servers, now, before, sharesize)
  {
  }

  /** `n` shares go around the ring `n / |before|` times, and once more to the first ones. */
  ghost predicate Even(now: seq<Load>, before: seq<Load>, n: nat)
    requires |now| == |before|
  {
    forall i :: 0 <= i < |before| ==> Gain(now[i], before[i]) == n / |before| + if i < n % |before| then 1 else 0
  }

  /** The shares placed in `rounds` rounds in which nobody refuses. */
  function Laps(rounds: nat, m: nat): nat {
    rounds * m
  }

  lemma LapsStep(m: nat, rounds: nat)
    ensures Laps(0, m) == 0 && Laps(rounds + 1, m) == Laps(rounds, m) + m
  {
  }

  lemma VisitedEven(servers: seq<Server>, now: seq<Load>, before: seq<Load>, sharesize: real, n: nat, index: nat, rounds: nat)
    requires servers != [] && index <= |servers| && n == Laps(rounds, |servers|) + index
    requires Visited(servers, now, before, sharesize, index, rounds) && AllHaveRoom(servers, now, sharesize)
    ensures Even(now, before, n)
  {
    if index == |servers| {
      DivideUnique(n, |servers|, rounds + 1, 0);
    } else {
      DivideUnique(n, |servers|, rounds, index);
    }
  }

  /** A file with no more shares than there are servers puts one share on each of the first `n`. */
  lemma FirstServers(now: seq<Load>, before: seq<Load>, n: nat)
    requires |now| == |before| > 0 && Even(now, before, n) && n <= |before|
    ensures forall i :: 0 <= i < |before| ==> Gain(now[i], before[i]) == if i < n then 1 else 0
  {
    if n == |before| {
      DivideUnique(n, |before|, 1, 0);
    } else {
      DivideUnique(n, |before|, 0, n);
    }
  }

  // ---- One turn of the loop -----------------------------------------------

  /** What is true whenever the server at `index` is about to be asked. */
  ghost predicate Underway(servers: seq<Server>, now: seq<Load>, before: seq<Load>, sharesize: real, remaining: set<Server>,
                           index: nat, rounds: nat, placed: nat)
  {
    && OthersRefuse(servers, now, remaining, sharesize)
    && Consistent(servers, now, before, sharesize)
    && Sum(Counts(now)) == Sum(Counts(before)) + placed
    && Visited(servers, now, before, sharesize, index, rounds)
    && (AllHaveRoom(servers, now, sharesize) ==> placed == Laps(rounds, |servers|) + index)
  }

  lemma Starts(servers: seq<Server>, loads: seq<Load>, sharesize: real, remaining: set<Server>)
    requires |loads| == |servers| && remaining == set s | s in servers
    ensures Underway(servers, loads, loads, sharesize, remaining, 0, 0, 0)
  {
    hide Times, Laps;
    TimesOneMore(0, sharesize);
    LapsStep(|servers|, 0);
  }

  /** Past the end of one round is the start of the next. */
  lemma NextRound(servers: seq<Server>, now: seq<Load>, before: seq<Load>, sharesize: real, remaining: set<Server>, rounds: nat, placed: nat)
    requires Underway(servers, now, before, sharesize, remaining, |servers|, rounds, placed)
    ensures Underway(servers, now, before, sharesize, remaining, 0, rounds + 1, placed)
  {
    hide Consistent, OthersRefuse, Laps, AllHaveRoom, Sum, Counts;
    LapsStep(|servers|, rounds);
  }

  /** A server that refuses does so for the rest of the file. */
  lemma OneMoreRefuses(servers: seq<Server>, now: seq<Load>, before: seq<Load>, sharesize: real, remaining: set<Server>,
                       index: nat, rounds: nat, placed: nat, full: nat)
    requires Underway(servers, now, before, sharesize, remaining, index, rounds, placed) && Distinct(servers)
    requires full < |servers| && !HasRoom(servers[full], now[full], sharesize)
    ensures Underway(servers, now, before, sharesize, remaining - {servers[full]}, index, rounds, placed)
  {
    hide Consistent, Visited, AllHaveRoom, Laps, Sum, Counts;
  }

  /** What a server holds after it was asked to take a share. */
  function Asked(server: Server, load: Load, sharesize: real): Load {
    if HasRoom(server, load, sharesize) then Load(load.used + sharesize, load.shares + 1) else load
  }

  lemma AskedRoom(servers: seq<Server>, now: seq<Load>, sharesize: real, remaining: set<Server>, index: nat)
    requires index < |servers| && sharesize >= 0.0 && OthersRefuse(servers, now, remaining, sharesize)
    ensures var next := now[index := Asked(servers[index], now[index], sharesize)];
      && OthersRefuse(servers, next, remaining, sharesize)
      && (AllHaveRoom(servers, next, sharesize) ==>
            HasRoom(servers[index], now[index], sharesize) && AllHaveRoom(servers, now, sharesize))
  {
    var next := now[index := Asked(servers[index], now[index], sharesize)];
    if AllHaveRoom(servers, next, sharesize) {
      forall i | 0 <= i < |servers|
        ensures HasRoom(servers[i], now[i], sharesize)
      {
        assert HasRoom(servers[i], next[i], sharesize);
      }
    }
  }

  lemma AskedConsistent(servers: seq<Server>, now: seq<Load>, before: seq<Load>, sharesize: real, index: nat)
    requires index < |servers| && Consistent(servers, now, before, sharesize)
    ensures Consistent(servers, now[index := Asked(servers[index], now[index], sharesize)], before, sharesize)
  {
    hide Times;
    TimesOneMore(Gain(now[index], before[index]), sharesize);
  }

  lemma AskedVisited(servers: seq<Server>, now: seq<Load>, before: seq<Load>, sharesize: real, index: nat, rounds: nat)
    requires index < |servers| && sharesize >= 0.0 && Visited(servers, now, before, sharesize, index, rounds)
    ensures Visited(servers, now[index := Asked(servers[index], now[index], sharesize)], before, sharesize, index + 1, rounds)
  {
  }

  lemma AskedSum(server: Server, now: seq<Load>, sharesize: real, index: nat)
    requires index < |now|
    ensures Sum(Counts(now[index := Asked(server, now[index], sharesize)])) ==
            Sum(Counts(now)) + if HasRoom(server, now[index], sharesize) then 1 else 0
  {
    var next := now[index := Asked(server, now[index], sharesize)];
    if HasRoom(server, now[index], sharesize) {
      assert Counts(next) == Counts(now)[index := now[index].shares + 1];
      SumOneMore(Counts(now), index);
    } else {
      assert next == now;
    }
  }

  /** Asking one server keeps everything in order. */
  lemma AskedUnderway(servers: seq<Server>, now: seq<Load>, before: seq<Load>, sharesize: real, remaining: set<Server>,
                      index: nat, rounds: nat, placed: nat)
    requires Underway(servers, now, before, sharesize, remaining, index, rounds, placed) && index < |servers| && sharesize >= 0.0
    ensures Underway(servers, now[index := Asked(servers[index], now[index], sharesize)], before, sharesize, remaining,
                     index + 1, rounds, placed + if HasRoom(servers[index], now[index], sharesize) then 1 else 0)
  {
    hide Asked, OthersRefuse, Consistent, Visited, AllHaveRoom, Sum, Counts, Laps, HasRoom;
    assert |now| == |servers| by { SameLength(servers, now, before, sharesize); }
    AskedRoom(servers, now, sharesize, remaining, index);
    AskedConsistent(servers, now, before, sharesize, index);
    AskedVisited(servers, now, before, sharesize, index, rounds);
    AskedSum(servers[index], now, sharesize, index);
  }

  lemma SameLength(servers: seq<Server>, now: seq<Load>, before: seq<Load>, sharesize: real)
    requires Consistent(servers, now, before, sharesize)
    ensures |now| == |servers| == |before|
  {
  }

  /** One server is asked to take a share. */
  method TryServer(servers: seq<Server>, index: nat, sharesize: real) returns (accepted: bool)
    requires index < |servers| && Distinct(servers)
    modifies servers[index]
    ensures accepted == HasRoom(servers[index], old(servers[index].Now()), sharesize)
    ensures Loads(servers) == old(Loads(servers))[index := Asked(servers[index], old(servers[index].Now()), sharesize)]
  {
    accepted := servers[index].Upload(sharesize);
  }

  lemma Finishes(servers: seq<Server>, now: seq<Load>, before: seq<Load>, sharesize: real, remaining: set<Server>,
                 index: nat, rounds: nat, placed: nat)
    requires Underway(servers, now, before, sharesize, remaining, index, rounds, placed) && servers != [] && index <= |servers|
    ensures Consistent(servers, now, before, sharesize) && Sum(Counts(now)) == Sum(Counts(before)) + placed
    ensures Balanced(servers, now, before, sharesize)
    ensures AllHaveRoom(servers, now, sharesize) ==> Even(now, before, placed)
    ensures remaining == {} ==> OthersRefuse(servers, now, {}, sharesize) && !AllHaveRoom(servers, now, sharesize)
  {
    hide Sum, Counts, Balanced, Even, Times, Visits;
    VisitedBalanced(servers, now, before, sharesize, index, rounds);
    if AllHaveRoom(servers, now, sharesize) {
      VisitedEven(servers, now, before, sharesize, placed, index, rounds);
    }
    if remaining == {} {
      assert !HasRoom(servers[0], now[0], sharesize);
    }
  }

  /**
   * The placement loop of `do_run` for one file of `n` shares. It terminates on
   * every non-empty ring: each turn places a share, or drops a server that
   * refused, or gets closer to one that has not. It places exactly `n` shares
   * with every receiving server below capacity, unless every server of the grid
   * refuses a share of this size. Shares go round the ring: the placement is
   * balanced, and even where every server still has room.
   */
  method PlaceFile(servers: seq<Server>, n: nat, sharesize: real) returns (gridIsFull: bool, placed: nat)
    requires |servers| > 0 && Distinct(servers) && sharesize >= 0.0
    modifies servers
    ensures !gridIsFull ==> placed == n
    ensures gridIsFull ==> placed < n && OthersRefuse(servers, Loads(servers), {}, sharesize)
    ensures Sum(Counts(Loads(servers))) == old(Sum(Counts(Loads(servers)))) + placed
    ensures Consistent(servers, Loads(servers), old(Loads(servers)), sharesize)
    ensures Balanced(servers, Loads(servers), old(Loads(servers)), sharesize)
    ensures AllHaveRoom(servers, Loads(servers), sharesize) ==> Even(Loads(servers), old(Loads(servers)), n)
  {
    hide Counts, Sum, Passed, OthersRefuse, Consistent, Distinct, Balanced, Even, AllHaveRoom, Underway;
    ghost var before := Loads(servers);
    var remainingShares := n;
    var index := 0;
    var remaining := set s | s in servers;
    assert servers[0] in remaining;
    Starts(servers, before, sharesize, remaining);
    PassedNone(servers, remaining, 0);
    ghost var streak: nat := 0;
    ghost var rounds: nat := 0;
    placed := 0;
    while remainingShares > 0
      invariant 0 <= index <= |servers| && 0 <= remainingShares && remainingShares + placed == n
      invariant remaining <= (set s | s in servers) && remaining != {}
      invariant streak <= |servers| && Passed(servers, remaining, index, streak)
      invariant Underway(servers, Loads(servers), before, sharesize, remaining, index, rounds, placed)
      decreases remainingShares, remaining, |servers| - streak
    {
      if index >= |servers| {
        Wrap(servers, remaining, streak);
        NextRound(servers, Loads(servers), before, sharesize, remaining, rounds, placed);
        index, rounds := 0, rounds + 1;
      }
      NotAllPassed(servers, remaining, index, streak);
      AskedUnderway(servers, Loads(servers), before, sharesize, remaining, index, rounds, placed);
      var accepted := TryServer(servers, index, sharesize);
      if accepted {
        remainingShares := remainingShares - 1;
        placed := placed + 1;
        streak := 0;
        PassedNone(servers, remaining, index + 1);
      } else if servers[index] in remaining {
        OneMoreRefuses(servers, Loads(servers), before, sharesize, remaining, index + 1, rounds, placed, index);
        remaining := remaining - {servers[index]};
        streak := 0;
        PassedNone(servers, remaining, index + 1);
        if remaining == {} {
          Finishes(servers, Loads(servers), before, sharesize, remaining, index + 1, rounds, placed);
          return true, placed;
        }
      } else {
        PassOne(servers, remaining, index, streak);
        streak := streak + 1;
      }
      index := index + 1;
    }
    Finishes(servers, Loads(servers), before, sharesize, remaining, index, rounds, placed);
    return false, placed;
  }

  lemma PassedNone(servers: seq<Server>, remaining: set<Server>, index: nat)
    requires index <= |servers|
    ensures Passed(servers, remaining, index, 0)
  {
  }

  /** While some server remains, the next one is fewer than a whole round away. */
  lemma NotAllPassed(servers: seq<Server>, remaining: set<Server>, index: nat, streak: nat)
    requires index <= |servers| && streak <= |servers| && Passed(servers, remaining, index, streak)
    requires remaining <= (set s | s in servers) && remaining != {}
    ensures streak < |servers|
  {
    if streak == |servers| {
      RoundPassed(servers, remaining, index);
      assert false;
    }
  }

  // ---- Whole runs ---------------------------------------------------------

  ghost function Total(amounts: seq<real>): real {
    if amounts == [] then 0.0 else amounts[0] + Total(amounts[1..])
  }

  ghost function Capacities(servers: seq<Server>): seq<real> {
    seq(|servers|, i requires 0 <= i < |servers| => servers[i].capacity)
  }

  lemma {:induction false} TotalMonotonic(a: seq<real>, b: seq<real>)
    requires |a| == |b| && forall i :: 0 <= i < |a| ==> a[i] <= b[i]
    ensures Total(a) <= Total(b)
    decreases |a|
  {
    if a != [] {
      TotalMonotonic(a[1..], b[1..]);
    }
  }

  lemma TimesAdd(j: int, k: int, sharesize: real)
    ensures Times(j + k, sharesize) == Times(j, sharesize) + Times(k, sharesize)
  {
  }

  /** Conservation: the space used grows by one share size for every share placed. */
  lemma {:induction false} SpaceFollowsShares(now: seq<Load>, before: seq<Load>, sharesize: real)
    requires |now| == |before|
    requires forall i :: 0 <= i < |now| ==> now[i].used == before[i].used + Times(Gain(now[i], before[i]), sharesize)
    ensures Total(Usage(now)) == Total(Usage(before)) + Times(Sum(Counts(now)) - Sum(Counts(before)), sharesize)
    decreases |now|
  {
    hide Times;
    if now == [] {
      TimesOneMore(0, sharesize);
    } else {
      SpaceFollowsShares(now[1..], before[1..], sharesize);
      assert Usage(now)[1..] == Usage(now[1..]) && Counts(now)[1..] == Counts(now[1..]);
      assert Usage(before)[1..] == Usage(before[1..]) && Counts(before)[1..] == Counts(before[1..]);
      TimesAdd(Gain(now[0], before[0]), Sum(Counts(now[1..])) - Sum(Counts(before[1..])), sharesize);
    }
  }

  ghost predicate WithinCapacity(servers: seq<Server>, loads: seq<Load>) {
    |loads| == |servers| && forall i :: 0 <= i < |servers| ==> loads[i].used <= servers[i].capacity
  }

  /** What one finished file costs the grid. */
  lemma FileCost(servers: seq<Server>, now: seq<Load>, before: seq<Load>, sharesize: real, n: nat, least: real)
    requires Consistent(servers, now, before, sharesize)
    requires Sum(Counts(now)) == Sum(Counts(before)) + n && n > 0 && sharesize >= least > 0.0
    ensures Total(Usage(now)) >= Total(Usage(before)) + least
  {
    hide Times, Sum, Total, Counts, Usage;
    SpaceFollowsShares(now, before, sharesize);
    AtLeastOne(n, sharesize);
  }

  lemma AtLeastOne(n: nat, sharesize: real)
    requires n > 0 && sharesize >= 0.0
    ensures Times(n, sharesize) >= sharesize
  {
    assert Times(n, sharesize) == sharesize + (n - 1) as real * sharesize;
  }

  /** How many shares of the least size fit into what is left, rounded down; a bound on the files to come. */
  ghost function RoomLeft(servers: seq<Server>, loads: seq<Load>, least: real): int
    requires least > 0.0
  {
    Shares(Total(Capacities(servers)) - Total(Usage(loads)), least)
  }

  ghost function Shares(space: real, least: real): int
    requires least > 0.0
  {
    Over(space, least).Floor
  }

  ghost function Over(x: real, least: real): real
    requires least > 0.0
  {
    x / least
  }

  lemma OverTimes(x: real, least: real)
    requires least > 0.0
    ensures Over(x, least) * least == x
  {
  }

  lemma SharesShrink(space0: real, space1: real, least: real)
    requires least > 0.0 && space0 >= space1 + least && space1 >= 0.0
    ensures 0 <= Shares(space1, least) < Shares(space0, least)
  {
    hide Over;
    OverTimes(space0, least);
    OverTimes(space1, least);
    QuotientGap(Over(space0, least), Over(space1, least), least, space0, space1);
  }

  lemma QuotientGap(a: real, b: real, least: real, x: real, y: real)
    requires least > 0.0 && a * least == x && b * least == y && x >= y + least && y >= 0.0
    ensures b >= 0.0 && a >= b + 1.0
  {
    assert (a - b - 1.0) * least == x - y - least;
    NonNegativeFactor(a - b - 1.0, least);
    NonNegativeFactor(b, least);
  }

  lemma NonNegativeFactor(d: real, least: real)
    requires least > 0.0 && d * least >= 0.0
    ensures d >= 0.0
  {
  }

  /** A finished file leaves less room, and never a negative amount. */
  lemma RoomShrinks(servers: seq<Server>, now: seq<Load>, before: seq<Load>, least: real)
    requires least > 0.0 && WithinCapacity(servers, now) && Total(Usage(now)) >= Total(Usage(before)) + least
    ensures 0 <= RoomLeft(servers, now, least) < RoomLeft(servers, before, least)
  {
    hide Shares;
    UsageBounded(servers, now);
    SharesShrink(Total(Capacities(servers)) - Total(Usage(before)), Total(Capacities(servers)) - Total(Usage(now)), least);
  }

  // ---- The order in which servers are asked -------------------------------

  /** The same servers in some order, each once. */
  ghost predicate IsOrder(order: seq<Server>, servers: seq<Server>) {
    Distinct(order) && multiset(order) == multiset(servers)
  }

  /** The key by which a permuted ring is sorted for one storage index. */
  function SortKey(hash: string -> string, si: string, s: Server): string {
    hash(s.nodeid + si)
  }

  ghost predicate SortedByKey(hash: string -> string, si: string, servers: seq<Server>) {
    forall i, j :: 0 <= i < j < |servers| ==> LexLeq(SortKey(hash, si, servers[i]), SortKey(hash, si, servers[j]))
  }

  /** Puts a server behind all that do not come after it. */
  method InsertServer(hash: string -> string, si: string, servers: seq<Server>, s: Server) returns (r: seq<Server>)
    requires SortedByKey(hash, si, servers)
    ensures SortedByKey(hash, si, r) && multiset(r) == multiset(servers) + multiset{s}
  {
    hide LexLeq, SortKey;
    var k := 0;
    while k < |servers| && LexLeq(SortKey(hash, si, servers[k]), SortKey(hash, si, s))
      invariant 0 <= k <= |servers|
      invariant forall i :: 0 <= i < k ==> LexLeq(SortKey(hash, si, servers[i]), SortKey(hash, si, s))
    {
      k := k + 1;
    }
    r := servers[..k] + [s] + servers[k..];
    assert multiset(r) == multiset(servers) + multiset{s} by {
      assert servers == servers[..k] + servers[k..];
    }
    InsertedSorted(hash, si, servers, s, k);
  }

  lemma InsertedSorted(hash: string -> string, si: string, servers: seq<Server>, s: Server, k: nat)
    requires SortedByKey(hash, si, servers) && k <= |servers|
    requires forall i :: 0 <= i < k ==> LexLeq(SortKey(hash, si, servers[i]), SortKey(hash, si, s))
    requires k < |servers| ==> !LexLeq(SortKey(hash, si, servers[k]), SortKey(hash, si, s))
    ensures SortedByKey(hash, si, servers[..k] + [s] + servers[k..])
  {
    hide LexLeq, SortKey;
    forall i | k <= i < |servers|
      ensures LexLeq(SortKey(hash, si, s), SortKey(hash, si, servers[i]))
    {
      LexTotal(SortKey(hash, si, s), SortKey(hash, si, servers[k]));
      if k < i {
        LexTransitive(SortKey(hash, si, s), SortKey(hash, si, servers[k]), SortKey(hash, si, servers[i]));
      }
    }
  }

  /** A permuted ring: the servers sorted by the hash of their node id and the storage index. */
  method PermutedServers(hash: string -> string, si: string, servers: seq<Server>) returns (order: seq<Server>)
    requires Distinct(servers)
    ensures IsOrder(order, servers) && SortedByKey(hash, si, order)
  {
    hide LexLeq, SortKey;
    order := [];
    var i := 0;
    assert servers[..0] == [];
    while i < |servers|
      invariant 0 <= i <= |servers| && SortedByKey(hash, si, order) && multiset(order) == multiset(servers[..i])
    {
      assert servers[..i + 1] == servers[..i] + [servers[i]];
      order := InsertServer(hash, si, order, servers[i]);
      i := i + 1;
    }
    assert servers[..i] == servers;
    DistinctOrder(order, servers);
  }

  lemma DistinctOrder(order: seq<Server>, servers: seq<Server>)
    requires Distinct(servers) && multiset(order) == multiset(servers)
    ensures Distinct(order)
  {
    forall i, j | 0 <= i < j < |order|
      ensures order[i] != order[j]
    {
      var s := order[i];
      assert order == order[..j] + [order[j]] + order[j + 1..];
      assert multiset(order)[order[j]] >= multiset(order[..j])[order[j]] + 1;
      assert order[..j][i] == s && s in multiset(order[..j]) && s in multiset(order);
      OnceInDistinct(servers, s);
    }
  }

  lemma OnceInDistinct(servers: seq<Server>, s: Server)
    requires Distinct(servers) && s in servers
    ensures multiset(servers)[s] == 1
  {
    var k :| 0 <= k < |servers| && servers[k] == s;
    assert servers == servers[..k] + [s] + servers[k + 1..];
    assert s !in servers[..k] && s !in servers[k + 1..];
    assert multiset(servers) == multiset(servers[..k]) + multiset{s} + multiset(servers[k + 1..]);
  }

  /** A flat ring: start at the first server at or after the storage index. */
  method RotatedServers(servers: seq<Server>, si: string) returns (order: seq<Server>, start: nat)
    requires Distinct(servers)
    ensures IsOrder(order, servers) && IsRotation(order, servers, si, start)
  {
    start := 0;
    while start < |servers|
      invariant start <= |servers|
      invariant forall i :: 0 <= i < start ==> !LexLeq(si, servers[i].nodeid)
    {
      if LexLeq(si, servers[start].nodeid) {
        order := servers[start..] + servers[..start];
        Rotated(servers, start);
        return;
      }
      start := start + 1;
    }
    start := 0;
    order := servers;
    Rotated(servers, 0);
    assert servers[0..] + servers[..0] == servers;
  }

  ghost predicate IsRotation(order: seq<Server>, servers: seq<Server>, si: string, start: nat) {
    && start <= |servers| && order == servers[start..] + servers[..start]
    && if exists i :: 0 <= i < |servers| && LexLeq(si, servers[i].nodeid)
       then start < |servers| && LexLeq(si, servers[start].nodeid) && forall i :: 0 <= i < start ==> !LexLeq(si, servers[i].nodeid)
       else start == 0
  }

  /** `servers_for_si` on a permuted or a flat ring. */
  method ServersForSi(permute: bool, hash: string -> string, servers: seq<Server>, si: string) returns (order: seq<Server>)
    requires Distinct(servers)
    ensures IsOrder(order, servers)
    ensures permute ==> forall i, j :: 0 <= i < j < |order| ==> LexLeq(hash(order[i].nodeid + si), hash(order[j].nodeid + si))
    ensures !permute ==> exists start: nat :: IsRotation(order, servers, si, start)
  {
    if permute {
      order := PermutedServers(hash, si, servers);
      assert SortedByKey(hash, si, order);
    } else {
      var start;
      order, start := RotatedServers(servers, si);
    }
  }

  lemma Rotated(servers: seq<Server>, k: nat)
    requires k <= |servers| && Distinct(servers)
    ensures IsOrder(servers[k..] + servers[..k], servers)
  {
    assert servers == servers[..k] + servers[k..];
    assert multiset(servers) == multiset(servers[..k]) + multiset(servers[k..]);
  }

  lemma {:induction false} SumRemove(counts: seq<nat>, j: nat)
    requires j < |counts|
    ensures Sum(counts) == counts[j] + Sum(counts[..j] + counts[j + 1..])
  {
    if j == 0 {
      assert counts[..0] + counts[1..] == counts[1..];
    } else {
      SumRemove(counts[1..], j - 1);
      assert (counts[..j] + counts[j + 1..])[1..] == counts[1..][..j - 1] + counts[1..][j..];
    }
  }

  lemma {:induction false} TotalRemove(amounts: seq<real>, j: nat)
    requires j < |amounts|
    ensures Total(amounts) == amounts[j] + Total(amounts[..j] + amounts[j + 1..])
  {
    if j == 0 {
      assert amounts[..0] + amounts[1..] == amounts[1..];
    } else {
      TotalRemove(amounts[1..], j - 1);
      assert (amounts[..j] + amounts[j + 1..])[1..] == amounts[1..][..j - 1] + amounts[1..][j..];
    }
  }

  lemma RemoveKeeps(a: seq<Server>, b: seq<Server>, j: nat)
    requires a != [] && multiset(a) == multiset(b) && j < |b| && b[j] == a[0]
    ensures multiset(a[1..]) == multiset(b[..j] + b[j + 1..])
  {
    assert a == [a[0]] + a[1..];
    assert b == b[..j] + [b[j]] + b[j + 1..];
    assert multiset(a) == multiset{a[0]} + multiset(a[1..]);
    assert multiset(b) == multiset{b[j]} + (multiset(b[..j]) + multiset(b[j + 1..]));
    CancelOne(a[0], multiset(a[1..]), multiset(b[..j]) + multiset(b[j + 1..]));
    assert multiset(b[..j] + b[j + 1..]) == multiset(b[..j]) + multiset(b[j + 1..]);
  }

  lemma CancelOne(s: Server, a: multiset<Server>, b: multiset<Server>)
    requires multiset{s} + a == multiset{s} + b
    ensures a == b
  {
    assert a == (multiset{s} + a) - multiset{s};
    assert b == (multiset{s} + b) - multiset{s};
  }

  lemma CountsRemove(b: seq<Server>, j: nat)
    requires j < |b|
    ensures Sum(Counts(Loads(b))) == b[j].numshares + Sum(Counts(Loads(b[..j] + b[j + 1..])))
  {
    SumRemove(Counts(Loads(b)), j);
    assert Counts(Loads(b))[..j] + Counts(Loads(b))[j + 1..] == Counts(Loads(b[..j] + b[j + 1..]));
  }

  lemma UsageRemove(b: seq<Server>, j: nat)
    requires j < |b|
    ensures Total(Usage(Loads(b))) == b[j].used + Total(Usage(Loads(b[..j] + b[j + 1..])))
    ensures Total(Capacities(b)) == b[j].capacity + Total(Capacities(b[..j] + b[j + 1..]))
  {
    TotalRemove(Usage(Loads(b)), j);
    TotalRemove(Capacities(b), j);
    assert Usage(Loads(b))[..j] + Usage(Loads(b))[j + 1..] == Usage(Loads(b[..j] + b[j + 1..]));
    assert Capacities(b)[..j] + Capacities(b)[j + 1..] == Capacities(b[..j] + b[j + 1..]);
  }

  /** Share counts and space do not depend on the order in which servers are listed. */
  lemma {:induction false} OrderIrrelevant(a: seq<Server>, b: seq<Server>)
    requires multiset(a) == multiset(b)
    ensures Sum(Counts(Loads(a))) == Sum(Counts(Loads(b))) && Total(Usage(Loads(a))) == Total(Usage(Loads(b))) && Total(Capacities(a)) == Total(Capacities(b))
    decreases |a|
  {
    hide Sum, Total, Counts, Usage, Capacities, Loads;
    if a == [] {
      assert |multiset(b)| == 0;
      assert b == [];
    } else {
      assert a[0] in multiset(b);
      var j :| 0 <= j < |b| && b[j] == a[0];
      RemoveKeeps(a, b, j);
      OrderIrrelevant(a[1..], b[..j] + b[j + 1..]);
      assert a[..0] + a[1..] == a[1..];
      CountsRemove(a, 0);
      UsageRemove(a, 0);
      CountsRemove(b, j);
      UsageRemove(b, j);
    }
  }

  lemma SameServers(a: seq<Server>, b: seq<Server>)
    requires multiset(a) == multiset(b)
    ensures forall s :: s in a <==> s in b
    ensures |a| == |b|
    ensures WithinCapacity(a, Loads(a)) <==> WithinCapacity(b, Loads(b))
  {
    assert forall s :: s in a <==> s in multiset(a);
    assert forall s :: s in b <==> s in multiset(b);
    assert |a| == |multiset(a)| && |b| == |multiset(b)|;
    if WithinCapacity(a, Loads(a)) {
      forall i | 0 <= i < |b|
        ensures b[i].used <= b[i].capacity
      {
        assert b[i] in a;
      }
    }
    if WithinCapacity(b, Loads(b)) {
      forall i | 0 <= i < |a|
        ensures a[i].used <= a[i].capacity
      {
        assert a[i] in b;
      }
    }
  }

  // ---- The outer loop -----------------------------------------------------

  /** One turn of the outer loop of `do_run`. */
  method UploadFile(servers: seq<Server>, n: nat, sharesize: real, ghost least: real) returns (gridIsFull: bool)
    requires |servers| > 0 && Distinct(servers) && n > 0 && WithinCapacity(servers, Loads(servers)) && sharesize >= least > 0.0
    modifies servers
    ensures WithinCapacity(servers, Loads(servers))
    ensures Consistent(servers, Loads(servers), old(Loads(servers)), sharesize)
    ensures Balanced(servers, Loads(servers), old(Loads(servers)), sharesize)
    ensures gridIsFull ==> OthersRefuse(servers, Loads(servers), {}, sharesize)
    ensures gridIsFull ==> old(Sum(Counts(Loads(servers)))) <= Sum(Counts(Loads(servers))) < old(Sum(Counts(Loads(servers)))) + n
    ensures !gridIsFull ==> Sum(Counts(Loads(servers))) == old(Sum(Counts(Loads(servers)))) + n
    ensures !gridIsFull ==> 0 <= RoomLeft(servers, Loads(servers), least) < old(RoomLeft(servers, Loads(servers), least))
  {
    hide Times, Sum, Total, OthersRefuse, Counts, Usage, Capacities, Consistent, Balanced, WithinCapacity, RoomLeft;
    ghost var before := Loads(servers);
    var placed;
    gridIsFull, placed := PlaceFile(servers, n, sharesize);
    StillWithin(servers, Loads(servers), before, sharesize);
    if !gridIsFull {
      FileCost(servers, Loads(servers), before, sharesize, n, least);
      RoomShrinks(servers, Loads(servers), before, least);
    }
  }

  /** What every server holds at one moment. */
  type Snapshot = map<Server, Load>

  ghost function Taken(servers: seq<Server>): Snapshot
    reads servers
  {
    map s | s in servers :: s.Now()
  }

  ghost predicate Covers(snapshot: Snapshot, order: seq<Server>) {
    forall i :: 0 <= i < |order| ==> order[i] in snapshot
  }

  /** A snapshot in the order in which a file asks the servers. */
  ghost function Seen(snapshot: Snapshot, order: seq<Server>): seq<Load>
    requires Covers(snapshot, order)
  {
    seq(|order|, i requires 0 <= i < |order| => snapshot[order[i]])
  }

  lemma SeenNow(servers: seq<Server>, order: seq<Server>)
    requires forall i :: 0 <= i < |order| ==> order[i] in servers
    ensures Covers(Taken(servers), order) && Seen(Taken(servers), order) == Loads(order)
  {
  }

  /** One file was placed, in its own order: its shares, and the space they take, are all that changed. */
  ghost predicate FileUploaded(order: seq<Server>, before: Snapshot, after: Snapshot, sharesize: real) {
    && Covers(before, order) && Covers(after, order)
    && Consistent(order, Seen(after, order), Seen(before, order), sharesize)
    && Balanced(order, Seen(after, order), Seen(before, order), sharesize)
  }

  ghost predicate WholeFile(order: seq<Server>, before: Snapshot, after: Snapshot, sharesize: real, n: nat) {
    FileUploaded(order, before, after, sharesize) && Sum(Counts(Seen(after, order))) == Sum(Counts(Seen(before, order))) + n
  }

  /**
   * A run so far: snapshots before the first file and after each one. Every file
   * was placed completely, with its own share size and its own order of servers.
   */
  ghost predicate IsRun(history: seq<Snapshot>, n: nat, shareSize: nat -> real, orderFor: nat -> seq<Server>) {
    forall k: nat :: k + 1 < |history| ==> WholeFile(orderFor(k), history[k], history[k + 1], shareSize(k), n)
  }

  lemma RunGrows(history: seq<Snapshot>, n: nat, shareSize: nat -> real, orderFor: nat -> seq<Server>, k: nat, after: Snapshot)
    requires |history| == k + 1 && IsRun(history, n, shareSize, orderFor)
    requires WholeFile(orderFor(k), history[k], after, shareSize(k), n)
    ensures IsRun(history + [after], n, shareSize, orderFor)
  {
    hide WholeFile;
    var longer := history + [after];
    forall j: nat | j + 1 < |longer|
      ensures WholeFile(orderFor(j), longer[j], longer[j + 1], shareSize(j), n)
    {
      if j < k {
        assert longer[j] == history[j] && longer[j + 1] == history[j + 1];
      }
    }
  }

  /**
   * `do_run`: files of at least some size are uploaded one after the other, each
   * with its own order of the servers, until the grid is full, which it always
   * becomes. The number returned is the number of files that were placed
   * completely; the file after them was placed in part. No server has exceeded
   * its capacity.
   */
  method DoRun(servers: seq<Server>, n: nat, shareSize: nat -> real, orderFor: nat -> seq<Server>, ghost least: real)
      returns (filenum: nat, ghost history: seq<Snapshot>)
    requires |servers| > 0 && n > 0 && WithinCapacity(servers, Loads(servers))
    requires least > 0.0 && forall i: nat :: shareSize(i) >= least
    requires forall i: nat :: IsOrder(orderFor(i), servers)
    modifies servers
    ensures OthersRefuse(orderFor(filenum), Loads(orderFor(filenum)), {}, shareSize(filenum)) && WithinCapacity(servers, Loads(servers))
    ensures filenum * n <= Sum(Counts(Loads(servers))) - old(Sum(Counts(Loads(servers)))) < (filenum + 1) * n
    ensures |history| == filenum + 1 && history[0] == old(Taken(servers)) && IsRun(history, n, shareSize, orderFor)
    ensures FileUploaded(orderFor(filenum), history[filenum], Taken(servers), shareSize(filenum))
  {
    hide Sum, Total, OthersRefuse, Counts, WithinCapacity, Capacities, Usage, Shares, Distinct, Loads, Taken, IsRun;
    hide FileUploaded, Covers, Seen, Consistent, Balanced;
    filenum := 0;
    history := [Taken(servers)];
    StartRun(history, n, shareSize, orderFor);
    while true
      invariant WithinCapacity(servers, Loads(servers))
      invariant Sum(Counts(Loads(servers))) == old(Sum(Counts(Loads(servers)))) + filenum * n
      invariant |history| == filenum + 1 && history[0] == old(Taken(servers)) && history[filenum] == Taken(servers)
      invariant IsRun(history, n, shareSize, orderFor)
      decreases RoomLeft(servers, Loads(servers), least)
    {
      var order := orderFor(filenum);
      assert IsOrder(order, servers);
      SameServers(order, servers);
      OrderIrrelevant(order, servers);
      assert forall i :: 0 <= i < |order| ==> order[i] in servers;
      SeenNow(servers, order);
      ghost var before := Taken(servers);
      var gridIsFull := UploadFile(order, n, shareSize(filenum), least);
      SameServers(order, servers);
      OrderIrrelevant(order, servers);
      SeenNow(servers, order);
      NextMultiple(filenum, n);
      Uploaded(order, before, Taken(servers), shareSize(filenum));
      if gridIsFull {
        return;
      }
      RunGrows(history, n, shareSize, orderFor, filenum, Taken(servers));
      history := history + [Taken(servers)];
      filenum := filenum + 1;
    }
  }

  lemma StartRun(history: seq<Snapshot>, n: nat, shareSize: nat -> real, orderFor: nat -> seq<Server>)
    requires |history| == 1
    ensures IsRun(history, n, shareSize, orderFor)
  {
  }

  lemma Uploaded(order: seq<Server>, before: Snapshot, after: Snapshot, sharesize: real)
    requires Covers(before, order) && Covers(after, order)
    requires Consistent(order, Seen(after, order), Seen(before, order), sharesize)
    requires Balanced(order, Seen(after, order), Seen(before, order), sharesize)
    ensures FileUploaded(order, before, after, sharesize)
  {
  }

  lemma NextMultiple(k: nat, n: nat)
    ensures (k + 1) * n == k * n + n
  {
  }

  lemma StillWithin(servers: seq<Server>, now: seq<Load>, before: seq<Load>, sharesize: real)
    requires Consistent(servers, now, before, sharesize) && WithinCapacity(servers, before)
    ensures WithinCapacity(servers, now)
  {
    hide Times;
    TimesOneMore(0, sharesize);
  }

  lemma UsageBounded(servers: seq<Server>, loads: seq<Load>)
    requires WithinCapacity(servers, loads)
    ensures Total(Usage(loads)) <= Total(Capacities(servers))
  {
    TotalMonotonic(Usage(loads), Capacities(servers));
  }
}
