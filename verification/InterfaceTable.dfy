/** The operations on interfaces and reference counts in place. */
module InterfaceTable {
  import opened Interfaces
  import opened InterfaceSafety
  import opened InterfaceTermination
  import opened InterfaceOnce

  /** An object is freed when its count drops below zero, and never again. */
  ghost predicate FreedOnce(frees: seq<nat>, count: seq<int>) {
    |frees| == |count| && forall o :: 0 <= o < |count| ==> frees[o] == if count[o] < 0 then 1 else 0
  }

  /** All interfaces and counters.  An interface that belongs to no object has owner -1. */
  class Objects {
    const dest: array<nat>
    const desc: array<Descriptor>
    const count: array<int>
    const owner: seq<int>
    ghost var closes: seq<nat>
    /** How many times each object has been freed. */
    ghost var frees: seq<nat>

    ghost function Net(): Network
      reads this, dest, desc, count
    {
      Network(dest[..], desc[..], owner, closes, count[..])
    }

    ghost predicate Valid()
      reads this, dest, desc, count
    {
      (dest as object) != count && WellFormed(Net()) && FreedOnce(frees, count[..])
    }

    constructor (n: nat, owner: seq<int>, objects: nat)
      requires n > 0 && |owner| == n && owner[0] == -1 && forall i :: 0 <= i < n ==> -1 <= owner[i] < objects
      ensures Valid() && fresh(dest) && fresh(desc) && fresh(count)
      ensures Net() == Network(seq(n, i => NONE), seq(n, i => NullDesc), owner, seq(n, i => 0), seq(objects, i => 0))
    {
      dest := new nat[n](i => NONE);
      desc := new Descriptor[n](i => NullDesc);
      count := new int[objects](i => 0);
      this.owner := owner;
      closes := seq(n, i => 0);
      frees := seq(objects, i => 0);
      new;
      assert dest[..] == seq(n, i => NONE);
      assert desc[..] == seq(n, i => NullDesc);
      assert count[..] == seq(objects, i => 0);
    }

    // ----- Reference counts

    method Increment(o: int)
      requires Valid() && -1 <= o < count.Length && (o >= 0 ==> count[o] >= 0)
      modifies count
      ensures Valid() && dest[..] == old(dest[..])
      ensures o < 0 ==> count[..] == old(count[..])
      ensures o >= 0 ==> count[..] == old(count[..])[o := old(count[o]) + 1]
    {
      if o >= 0 {
        count[o] := count[o] + 1;
        EvolvesWellFormed(old(Net()), Net());
      }
    }

    /** Drop a reference; the object is freed when its count drops to -1, and not again if there
        were too many drops. */
    method Decrement(o: int)
      requires Valid() && -1 <= o < count.Length
      modifies count, `frees
      ensures Valid() && dest[..] == old(dest[..])
      ensures o < 0 ==> count[..] == old(count[..]) && frees == old(frees)
      ensures o >= 0 ==> count[..] == old(count[..])[o := old(count[o]) - 1]
      ensures o >= 0 ==> frees == if old(count[o]) == 0 then old(frees)[o := 1] else old(frees)
    {
      if o < 0 {
        return;
      }
      count[o] := count[o] - 1;
      EvolvesWellFormed(old(Net()), Net());
      if count[o] >= 0 {
        return;
      }
      if count[o] < -1 {
        return;
      }
      frees := frees[o := frees[o] + 1];
    }

    // ----- Plugging

    method Get(i: nat)
      requires Valid() && i < dest.Length && Alive(Net(), i)
      modifies count
      ensures Valid() && Net() == Count(old(Net()), i, 1)
    {
      Increment(owner[i]);
    }

    method Put(i: nat)
      requires Valid() && i < dest.Length && Alive(Net(), i)
      modifies count, `frees
      ensures Valid() && Net() == Count(old(Net()), i, -1)
    {
      Decrement(owner[i]);
    }

    /** Plug an interface into a new destination, which is referenced before the old one is
        dropped. */
    method PlugInto(i: nat, d: nat)
      requires Valid() && 0 < i < dest.Length && d < dest.Length && Plug(Net(), i, d).Done?
      modifies dest, count, `frees
      ensures Valid() && Net() == Plug(old(Net()), i, d).net
    {
      Get(d);
      Put(dest[i]);
      dest[i] := d;
    }

    /** Plug two interfaces into each other. */
    method PlugBoth(a: nat, b: nat, ghost held: seq<nat>)
      requires Valid() && 0 < a < dest.Length && 0 < b < dest.Length && a != b && |held| == count.Length
      requires Balanced(Net(), held) && Held(Net(), held, a) && Held(Net(), held, b)
      modifies dest, count, `frees
      ensures Valid() && Balanced(Net(), held)
      ensures dest[..] == old(dest[..])[a := b][b := a]
    {
      hide WellFormed, Balanced, Plug, FreedOnce;
      HeldAlive(Net(), held, a);
      HeldAlive(Net(), held, b);
      PlugSafe(Net(), a, b, held);
      PlugDest(Net(), a, b);
      PlugInto(a, b);
      HeldAlive(Net(), held, a);
      HeldAlive(Net(), held, b);
      PlugSafe(Net(), b, a, held);
      PlugDest(Net(), b, a);
      PlugInto(b, a);
    }

    /** Ignore all further operations on an interface. */
    method Block(i: nat)
      requires Valid() && i < dest.Length && Alive(Net(), i)
      modifies desc
      ensures Valid() && Net() == Nullify(old(Net()), i)
    {
      desc[i] := NullDesc;
      assert Net() == Nullify(old(Net()), i);
    }

    // ----- Closing

    method CloseDest(i: nat, ghost fuel: nat)
      requires Valid() && i < dest.Length && Close(Net(), i, fuel).Done?
      modifies dest, desc, count, `closes, `frees
      ensures Valid() && Net() == Close(old(Net()), i, fuel).net
      decreases fuel, 0
    {
      hide Close, Handle, FreedOnce, InRange;
      CloseIs(Net(), i, fuel);
      var d := dest[i];
      Get(d);
      Run(d, fuel - 1);
      Put(d);
    }

    /** Run the close handler of an interface. */
    method Run(d: nat, ghost fuel: nat)
      requires Valid() && d < dest.Length && Handle(Net(), d, fuel).Done?
      modifies dest, desc, count, `closes, `frees
      ensures Valid() && Net() == Handle(old(Net()), d, fuel).net
      decreases fuel, 1
    {
      hide Restart, ShutdownEach, FreedOnce, InRange;
      var handler := desc[d];
      if handler != NullDesc {
        closes := closes[d := closes[d] + 1];
        assert Net() == Deliver(old(Net()), d);
        if handler.Default? {
          RestartIntf(d, fuel);
        } else {
          assert InRange(handler.all, dest.Length) by { HandlerRange(Net(), d); }
          ShutdownAllOf(handler.all, fuel);
        }
      }
    }

    /** Shut down an interface: block it, tell its destination and unplug it. */
    method ShutdownIntf(i: nat, ghost fuel: nat)
      requires Valid() && 0 < i < dest.Length && Shutdown(Net(), i, fuel).Done?
      modifies dest, desc, count, `closes, `frees
      ensures Valid() && Net() == Shutdown(old(Net()), i, fuel).net
      decreases fuel, 0
    {
      hide Shutdown, Close, FreedOnce, InRange;
      ShutdownIs(Net(), i, fuel);
      Block(i);
      CloseDest(i, fuel - 1);
      PlugInto(i, NONE);
    }

    /** Shut down an interface, then unblock it. */
    method RestartIntf(i: nat, ghost fuel: nat)
      requires Valid() && 0 < i < dest.Length && Restart(Net(), i, fuel).Done?
      modifies dest, desc, count, `closes, `frees
      ensures Valid() && Net() == Restart(old(Net()), i, fuel).net
      decreases fuel, 0
    {
      hide Shutdown, Restart, FreedOnce, InRange;
      RestartIs(Net(), i, fuel);
      var saved := desc[i];
      ShutdownIntf(i, fuel - 1);
      ghost var n1 := Net();
      desc[i] := saved;
      assert Net() == n1.(desc := n1.desc[i := saved]);
    }

    /** A close handler that shuts down the interfaces of its object in turn. */
    method ShutdownAllOf(all: seq<nat>, ghost fuel: nat)
      requires Valid() && InRange(all, dest.Length) && ShutdownEach(Net(), all, fuel).Done?
      modifies dest, desc, count, `closes, `frees
      ensures Valid() && Net() == ShutdownEach(old(Net()), all, fuel).net
      decreases fuel, 0
    {
      hide Shutdown, ShutdownEach, FreedOnce;
      ghost var left := fuel;
      ShutdownEachIs(Net(), all, left);
      assert all[0..] == all;
      for k := 0 to |all|
        invariant Valid() && left > 0 && left <= fuel && |Net().dest| == |old(Net()).dest|
        invariant InRange(all[k..], dest.Length)
        invariant ShutdownEach(Net(), all[k..], left) == ShutdownEach(old(Net()), all, fuel)
      {
        ShutdownEachIs(Net(), all[k..], left);
        assert all[k..][0] == all[k] && all[k..][1..] == all[k + 1..];
        ShutdownIntf(all[k], left - 1);
        left := left - 1;
        ShutdownEachIs(Net(), all[k + 1..], left);
      }
      ShutdownEachIs(Net(), all[|all|..], left);
    }
  }

  lemma {:induction false} HandlerRange(n: Network, d: nat)
    requires WellFormed(n) && n.Has(d) && n.desc[d].ShutdownAll?
    ensures InRange(n.desc[d].all, |n.dest|)
  {
  }

  lemma {:induction false} LowLow(all: seq<nat>, d: nat, rank: nat -> nat, bound: nat)
    requires LowExcept(all, d, rank, bound)
    ensures LowBefore(all, d, rank, bound)
  {
    if all != [] {
      assert forall k :: 0 <= k < |all[1..]| ==> all[1..][k] == all[k + 1];
      LowLow(all[1..], d, rank, bound);
    }
  }

  /** Without cycles shutting down comes to an end. */
  lemma {:induction false} AcyclicRanked(n: Network, rank: nat -> nat)
    requires WellFormed(n) && Acyclic(n, rank)
    ensures Ranked(n, rank)
  {
    hide InRange, LowExcept, LowBefore;
    forall i | 0 <= i < |n.dest| && n.desc[n.dest[i]].ShutdownAll?
      ensures LowBefore(n.desc[n.dest[i]].all, n.dest[i], rank, rank(i))
    {
      LowLow(n.desc[n.dest[i]].all, n.dest[i], rank, rank(i));
    }
  }

  /** What suffices for each interface to be told at most once: objects are not plugged together in
      a cycle, or handlers start with the interface that was told. */
  ghost predicate TellsOnce(n: Network, rank: nat -> nat)
    requires WellFormed(n)
  {
    Paired(n) && (Acyclic(n, rank) || SelfFirst(n.desc))
  }

  /** The destination of an interface is live and shuts itself down, among others, or restarts. */
  ghost predicate Responds(n: Network, i: nat)
    requires WellFormed(n) && n.Has(i)
  {
    var d := n.dest[i];
    d != NONE && d != i && !n.desc[d].NullDesc? && (n.desc[d].ShutdownAll? ==> d in n.desc[d].all)
  }

  lemma {:induction false} ToldOnce(n: Network, i: nat, rank: nat -> nat, fuel: nat)
    requires WellFormed(n) && 0 < i < |n.dest| && TellsOnce(n, rank) && Shutdown(n, i, fuel).Done?
    ensures OnceSoFar(n, Shutdown(n, i, fuel)) && Paired(Shutdown(n, i, fuel).net)
  {
    hide InRange, Shutdown, HasPeer, Paired, Acyclic, SelfFirst;
    PairedKept(n, Shutdown(n, i, fuel).net);
    if Acyclic(n, rank) {
      ShutdownOnce(n, i, rank, fuel);
    } else {
      SelfFirstOnce(n, i);
    }
  }

  /** Shut down an interface whose object is held by the caller, where handlers can be ranked: this
      comes to an end without touching a freed object, unplugs the interface and its peer, keeps all
      counts right, and tells each interface at most once if there is no cycle or handlers start
      with the interface that was told. */
  method ShutdownHeld(h: Objects, i: nat, ghost rank: nat -> nat, ghost held: seq<nat>)
    requires h.Valid() && 0 < i < h.dest.Length && |held| == h.count.Length
    requires OwnHandlers(h.Net()) && Balanced(h.Net(), held) && Held(h.Net(), held, i)
    requires Ranked(h.Net(), rank)
    modifies h.dest, h.desc, h.count, h`closes, h`frees
    ensures h.Valid() && Balanced(h.Net(), held) && Evolves(old(h.Net()), h.Net())
    ensures h.dest[i] == NONE && h.desc[i] == NullDesc
    ensures var d := old(h.dest[i]);
            old(Responds(h.Net(), i)) ==>
              h.dest[d] == NONE && h.desc[d] == if old(h.desc[d]).Default? then Default else NullDesc
    ensures old(TellsOnce(h.Net(), rank)) ==>
              Paired(h.Net()) && forall j :: 0 < j < h.dest.Length ==> h.closes[j] <= old(h.closes)[j] + 1
  {
    hide InRange, Balanced, FreedOnce, OwnHandlers, Ranked, Paired, TellsOnce, Shutdown;
    ghost var n := h.Net();
    ghost var fuel := ShutdownEnds(n, i, rank);
    ShutdownSafe(n, i, fuel, held);
    if Responds(n, i) {
      BothEndsUnplugged(n, i, fuel);
    }
    if TellsOnce(n, rank) {
      ToldOnce(n, i, rank, fuel);
    }
    h.ShutdownIntf(i, fuel);
  }

  /** Restart an interface under the same conditions: it is unplugged and keeps its descriptor, its
      peer is unplugged, and nobody is told twice. */
  method RestartHeld(h: Objects, i: nat, ghost rank: nat -> nat, ghost held: seq<nat>)
    requires h.Valid() && 0 < i < h.dest.Length && |held| == h.count.Length
    requires OwnHandlers(h.Net()) && Balanced(h.Net(), held) && Held(h.Net(), held, i)
    requires Ranked(h.Net(), rank)
    modifies h.dest, h.desc, h.count, h`closes, h`frees
    ensures h.Valid() && Balanced(h.Net(), held) && Evolves(old(h.Net()), h.Net())
    ensures h.dest[i] == NONE && h.desc[i] == old(h.desc[i])
    ensures var d := old(h.dest[i]);
            old(Responds(h.Net(), i)) ==>
              h.dest[d] == NONE && h.desc[d] == if old(h.desc[d]).Default? then Default else NullDesc
    ensures old(TellsOnce(h.Net(), rank)) ==>
              Paired(h.Net()) && forall j :: 0 < j < h.dest.Length ==> h.closes[j] <= old(h.closes)[j] + 1
  {
    hide InRange, Balanced, FreedOnce, OwnHandlers, Ranked, Restart, Shutdown, Paired, TellsOnce;
    ghost var n := h.Net();
    ghost var fuel := RestartEnds(n, i, rank);
    RestartSafe(n, i, fuel, held);
    RestartIs(n, i, fuel);
    if Responds(n, i) {
      BothEndsUnplugged(n, i, fuel - 1);
    }
    h.RestartIntf(i, fuel);
    if TellsOnce(n, rank) {
      ToldOnce(n, i, rank, fuel - 1);
      SamePairs(Shutdown(n, i, fuel - 1).net, h.Net());
    }
  }

  lemma {:induction false} SamePairs(n: Network, n': Network)
    requires WellFormed(n) && WellFormed(n') && n'.dest == n.dest && Paired(n)
    ensures Paired(n')
  {
    hide InRange;
  }

  lemma {:induction false} PlugDest(n: Network, i: nat, d: nat)
    requires WellFormed(n) && n.Has(i) && n.Has(d) && i != NONE
    ensures Plug(n, i, d).Done? ==> Plug(n, i, d).net.dest == n.dest[i := d] && Plug(n, i, d).net.owner == n.owner
  {
  }
}
