/** The broker's high-water mark of connected servers and the listeners waiting for it. */
module Broker {

  /** A listener: how many servers it waits for, and which one it is. */
  datatype Listener = Listener(threshold: real, id: nat)

  function Max(counts: seq<nat>): nat {
    if counts == [] then 0
    else
      var m := Max(counts[..|counts| - 1]);
      if counts[|counts| - 1] > m then counts[|counts| - 1] else m
  }

  /** The listeners among `ls` whose threshold lies above the mark, in their order. */
  function Waiting(ls: seq<Listener>, mark: nat): seq<Listener> {
    if ls == [] then []
    else
      var front := Waiting(ls[..|ls| - 1], mark);
      var last := ls[|ls| - 1];
      if mark as real >= last.threshold then front else front + [last]
  }

  /** The others, in their order. */
  function Satisfied(ls: seq<Listener>, mark: nat): seq<Listener> {
    if ls == [] then []
    else
      var front := Satisfied(ls[..|ls| - 1], mark);
      var last := ls[|ls| - 1];
      if mark as real >= last.threshold then front + [last] else front
  }

  lemma {:induction false} WaitingAppend(ls: seq<Listener>, l: Listener, mark: nat)
    ensures Waiting(ls + [l], mark) == if mark as real >= l.threshold then Waiting(ls, mark) else Waiting(ls, mark) + [l]
    ensures Satisfied(ls + [l], mark) == if mark as real >= l.threshold then Satisfied(ls, mark) + [l] else Satisfied(ls, mark)
  {
    assert (ls + [l])[..|ls|] == ls;
  }

  /** Raising the mark twice leaves the same listeners waiting as raising it once. */
  lemma {:induction false} WaitingTwice(ls: seq<Listener>, low: nat, high: nat)
    requires low <= high
    ensures Waiting(Waiting(ls, low), high) == Waiting(ls, high)
    ensures multiset(Satisfied(ls, high)) == multiset(Satisfied(ls, low)) + multiset(Satisfied(Waiting(ls, low), high))
    decreases |ls|
  {
    if ls != [] {
      var front, last := ls[..|ls| - 1], ls[|ls| - 1];
      WaitingTwice(front, low, high);
      if (low as real) < last.threshold {
        WaitingAppend(Waiting(front, low), last, high);
      }
    }
  }

  class StorageFarmBroker {
    var servers: map<nat, bool>
    var highWaterMark: nat
    var listeners: seq<Listener>
    var fired: seq<Listener>
    var nextId: nat
    ghost var registered: seq<Listener>
    ghost var counts: seq<nat>

    /**
     * Over every run: the mark is the largest count of connected servers seen at
     * any check, and never below the present one though lost connections are not
     * checked; the waiting listeners are exactly those registered with a threshold
     * above it, in order, and every other listener has fired once.
     */
    ghost predicate Valid()
      reads this
    {
      && highWaterMark == Max(counts) && |Connected()| <= highWaterMark
      && listeners == Waiting(registered, highWaterMark)
      && multiset(fired) == multiset(Satisfied(registered, highWaterMark))
      && nextId == |registered|
      && (forall i :: 0 <= i < |registered| ==> registered[i].id == i)
    }

    constructor ()
      ensures Valid() && registered == [] && counts == [] && servers == map[] && Connected() == {}
    {
      servers, highWaterMark, listeners, fired, nextId := map[], 0, [], [], 0;
      registered, counts := [], [];
    }

    function Connected(): set<nat>
      reads this
    {
      set s | s in servers && servers[s]
    }

    /** A connection is lost: the broker is not told. */
    method ConnectionLost(server: nat)
      requires Valid() && server in servers
      modifies this`servers
      ensures Valid() && servers == old(servers)[server := false]
      ensures Connected() == old(Connected()) - {server}
    {
      ghost var before := Connected();
      servers := servers[server := false];
      assert Connected() == before - {server};
    }

    /** A server appears or its connection changes; the broker is told. */
    method StatusChanged(server: nat, connected: bool)
      requires Valid()
      modifies this
      ensures Valid() && servers == old(servers)[server := connected]
      ensures Connected() == if connected then old(Connected()) + {server} else old(Connected()) - {server}
      ensures registered == old(registered) && counts == old(counts) + [|Connected()|]
    {
      hide Waiting, Satisfied, Max;
      servers := servers[server := connected];
      ghost var mark0 := highWaterMark;
      CheckConnectedHighWaterMark();
      WaitingTwice(registered, mark0, highWaterMark);
    }

    method WhenConnectedEnough(threshold: real) returns (l: Listener)
      requires Valid()
      modifies this
      ensures Valid() && servers == old(servers)
      ensures l == Listener(threshold, |old(registered)|) && registered == old(registered) + [l]
      ensures counts == old(counts) + [|Connected()|]
    {
      hide Waiting, Satisfied, Max;
      ghost var earlier, before, mark0 := registered, listeners, highWaterMark;
      l := Listener(threshold, nextId);
      nextId := nextId + 1;
      listeners := listeners + [l];
      registered := registered + [l];
      CheckConnectedHighWaterMark();
      WaitingTwice(earlier, mark0, highWaterMark);
      WaitingAppend(before, l, highWaterMark);
      WaitingAppend(earlier, l, highWaterMark);
    }

    /** Raises the mark, fires what it satisfies and keeps the rest. */
    method CheckConnectedHighWaterMark()
      requires highWaterMark == Max(counts)
      modifies this
      ensures servers == old(servers) && registered == old(registered) && nextId == old(nextId)
      ensures counts == old(counts) + [|Connected()|] && highWaterMark == Max(counts) >= old(highWaterMark)
      ensures |Connected()| <= highWaterMark
      ensures listeners == Waiting(old(listeners), highWaterMark)
      ensures fired == old(fired) + Satisfied(old(listeners), highWaterMark)
    {
      var current := |Connected()|;
      assert (counts + [current])[..|counts|] == counts;
      counts := counts + [current];
      if current > highWaterMark {
        highWaterMark := current;
      }
      var remaining := [];
      var i := 0;
      while i < |listeners|
        invariant 0 <= i <= |listeners| && listeners == old(listeners) && servers == old(servers)
        invariant registered == old(registered) && nextId == old(nextId) && counts == old(counts) + [current]
        invariant highWaterMark == Max(counts) >= old(highWaterMark)
        invariant remaining == Waiting(listeners[..i], highWaterMark)
        invariant fired == old(fired) + Satisfied(listeners[..i], highWaterMark)
      {
        assert listeners[..i + 1] == listeners[..i] + [listeners[i]];
        WaitingAppend(listeners[..i], listeners[i], highWaterMark);
        if highWaterMark as real >= listeners[i].threshold {
          fired := fired + [listeners[i]];
        } else {
          remaining := remaining + [listeners[i]];
        }
        i := i + 1;
      }
      assert listeners[..i] == listeners;
      listeners := remaining;
    }
  }

  lemma CountLast(ls: seq<Listener>, l: Listener)
    requires ls != []
    ensures multiset(ls)[l] == multiset(ls[..|ls| - 1])[l] + if ls[|ls| - 1] == l then 1 else 0
  {
    assert ls == ls[..|ls| - 1] + [ls[|ls| - 1]];
  }

  /** What `Valid` says of one listener: it waits, or it has fired, exactly once in all. */
  lemma {:induction false} WaitsOrFires(ls: seq<Listener>, mark: nat, l: Listener)
    ensures multiset(Waiting(ls, mark))[l] + multiset(Satisfied(ls, mark))[l] == multiset(ls)[l]
    ensures l in Waiting(ls, mark) ==> l.threshold > mark as real
    ensures l in Satisfied(ls, mark) ==> l.threshold <= mark as real
  {
    if ls != [] {
      var front, last := ls[..|ls| - 1], ls[|ls| - 1];
      WaitsOrFires(front, mark, l);
      CountLast(ls, l);
      if mark as real >= last.threshold {
        assert Satisfied(ls, mark)[..|Satisfied(ls, mark)| - 1] == Satisfied(front, mark);
        CountLast(Satisfied(ls, mark), l);
      } else {
        assert Waiting(ls, mark)[..|Waiting(ls, mark)| - 1] == Waiting(front, mark);
        CountLast(Waiting(ls, mark), l);
      }
    }
  }
}
