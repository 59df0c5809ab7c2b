/** What closing keeps: references are counted, no freed object is touched, both ends of a plug are
    unplugged, and no interface is told twice.
  */
module InterfaceSafety {
  import opened Interfaces

  // ----- References

  /** The number of the first `k` interfaces that are plugged into an interface of an object. */
  ghost function PluggedBelow(n: Network, o: int, k: nat): nat
    requires WellFormed(n) && k <= |n.dest|
  {
    if k == 0 then 0 else PluggedBelow(n, o, k - 1) + if n.owner[n.dest[k - 1]] == o then 1 else 0
  }

  ghost function Plugged(n: Network, o: int): nat
    requires WellFormed(n)
  {
    PluggedBelow(n, o, |n.dest|)
  }

  /** Every count is one less than the number of holders: interfaces plugged into the object, and
      others. */
  ghost predicate Balanced(n: Network, held: seq<nat>)
    requires WellFormed(n)
  {
    |held| == |n.count| && forall o :: 0 <= o < |n.count| ==> n.count[o] == Plugged(n, o) + held[o] - 1
  }

  /** Somebody other than a plugged interface holds the object of an interface. */
  ghost predicate Held(n: Network, held: seq<nat>, i: nat)
    requires WellFormed(n) && n.Has(i) && |held| == |n.count|
  {
    n.owner[i] >= 0 ==> held[n.owner[i]] >= 1
  }

  ghost predicate OneOwner(n: Network, all: seq<nat>, o: int)
    requires WellFormed(n) && InRange(all, |n.dest|)
  {
    forall k :: 0 <= k < |all| ==> n.owner[all[k]] == o
  }

  /** A handler shuts down interfaces of its own object only. */
  ghost predicate OwnHandlers(n: Network)
    requires WellFormed(n)
  {
    forall i :: 0 <= i < |n.desc| ==> n.desc[i].ShutdownAll? ==> OneOwner(n, n.desc[i].all, n.owner[i])
  }

  lemma {:induction false} OwnHandlersKept(n: Network, n': Network)
    requires WellFormed(n) && WellFormed(n') && Evolves(n, n') && OwnHandlers(n)
    ensures OwnHandlers(n')
  {
    hide InRange;
  }

  lemma {:induction false} PluggedSame(n: Network, n': Network, o: int, k: nat)
    requires WellFormed(n) && WellFormed(n') && k <= |n.dest| && n'.dest == n.dest && n'.owner == n.owner
    ensures PluggedBelow(n', o, k) == PluggedBelow(n, o, k)
  {
    hide WellFormed;
    if k > 0 {
      PluggedSame(n, n', o, k - 1);
    }
  }

  /** Replugging one interface changes the holders of the two objects involved. */
  lemma {:induction false} PluggedReplug(n: Network, n': Network, o: int, i: nat, k: nat)
    requires WellFormed(n) && WellFormed(n') && k <= |n.dest| && i < |n.dest| == |n'.dest| && n'.owner == n.owner
    requires forall j :: 0 <= j < |n.dest| && j != i ==> n'.dest[j] == n.dest[j]
    ensures PluggedBelow(n', o, k) == PluggedBelow(n, o, k)
                                      + (if i < k && n.owner[n'.dest[i]] == o then 1 else 0)
                                      - (if i < k && n.owner[n.dest[i]] == o then 1 else 0)
  {
    hide InRange;
    if k > 0 {
      PluggedReplug(n, n', o, i, k - 1);
    }
  }

  lemma {:induction false} PluggedPositive(n: Network, i: nat, k: nat)
    requires WellFormed(n) && i < k <= |n.dest|
    ensures PluggedBelow(n, n.owner[n.dest[i]], k) > 0
  {
    hide InRange;
    if i < k - 1 {
      PluggedPositive(n, i, k - 1);
    }
  }

  /** The destination of a plugged interface has not been freed. */
  lemma {:induction false} DestAlive(n: Network, held: seq<nat>, i: nat)
    requires WellFormed(n) && Balanced(n, held) && n.Has(i)
    ensures Alive(n, n.dest[i])
  {
    hide InRange;
    PluggedPositive(n, i, |n.dest|);
  }

  ghost function Hold(n: Network, held: seq<nat>, i: nat): (held': seq<nat>)
    requires WellFormed(n) && n.Has(i) && |held| == |n.count|
    ensures |held'| == |held|
  {
    if n.owner[i] < 0 then held else held[n.owner[i] := held[n.owner[i]] + 1]
  }

  /** Taking a reference and dropping it again. */
  lemma {:induction false} CountBalanced(n: Network, held: seq<nat>, i: nat)
    requires WellFormed(n) && n.Has(i) && |held| == |n.count|
    ensures Balanced(n, held) ==> Balanced(Count(n, i, 1), Hold(n, held, i))
    ensures Balanced(n, Hold(n, held, i)) ==> Balanced(Count(n, i, -1), held)
  {
    hide InRange, PluggedBelow;
    forall o: int ensures Plugged(Count(n, i, 1), o) == Plugged(n, o) && Plugged(Count(n, i, -1), o) == Plugged(n, o) {
      PluggedSame(n, Count(n, i, 1), o, |n.dest|);
      PluggedSame(n, Count(n, i, -1), o, |n.dest|);
    }
  }

  lemma {:induction false} DestSameBalanced(n: Network, n': Network, held: seq<nat>)
    requires WellFormed(n) && WellFormed(n') && Balanced(n, held) && n'.dest == n.dest && n'.owner == n.owner
             && n'.count == n.count
    ensures Balanced(n', held)
  {
    hide InRange, PluggedBelow;
    forall o: int ensures Plugged(n', o) == Plugged(n, o) {
      PluggedSame(n, n', o, |n.dest|);
    }
  }

  /** Plugging keeps the counts right and frees the old destination exactly if nothing else holds
      it. */
  lemma {:induction false} PlugSafe(n: Network, i: nat, dest: nat, held: seq<nat>)
    requires WellFormed(n) && Balanced(n, held) && n.Has(i) && n.Has(dest) && i != NONE
    requires Alive(n, i) && Alive(n, dest)
    ensures Plug(n, i, dest).Done? && Balanced(Plug(n, i, dest).net, held)
  {
    hide InRange, PluggedBelow;
    DestAlive(n, held, i);
    var n' := Plug(n, i, dest).net;
    forall o | 0 <= o < |n.count| ensures n'.count[o] == Plugged(n', o) + held[o] - 1 {
      PluggedReplug(n, n', o, i, |n.dest|);
    }
  }

  // ----- No freed object is touched

  /** As long as somebody holds the object whose interface is shut down, no freed object is
      touched, and all counts stay right. */
  lemma {:induction false} ShutdownSafe(n: Network, i: nat, fuel: nat, held: seq<nat>)
    requires WellFormed(n) && OwnHandlers(n) && |held| == |n.count| && Balanced(n, held) && n.Has(i) && i != NONE
             && Held(n, held, i)
    ensures var r := Shutdown(n, i, fuel); !r.Freed? && (r.Done? ==> Balanced(r.net, held))
    decreases fuel, 0
  {
    hide InRange, PluggedBelow, Plugged, OwnHandlers, Shutdown, Close, Balanced, Plug;
    ShutdownIs(n, i, fuel);
    if fuel > 0 {
      HeldAlive(n, held, i);
      var n1 := Nullify(n, i);
      OwnHandlersKept(n, n1);
      DestSameBalanced(n, n1, held);
      CloseSafe(n1, i, fuel - 1, held);
      var r := Close(n1, i, fuel - 1);
      if r.Done? {
        HeldAlive(r.net, held, i);
        PlugSafe(r.net, i, NONE, held);
      }
    }
  }

  lemma {:induction false} HeldAlive(n: Network, held: seq<nat>, i: nat)
    requires WellFormed(n) && Balanced(n, held) && n.Has(i) && Held(n, held, i)
    ensures Alive(n, i)
  {
  }

  lemma {:induction false} CloseSafe(n: Network, i: nat, fuel: nat, held: seq<nat>)
    requires WellFormed(n) && OwnHandlers(n) && |held| == |n.count| && Balanced(n, held) && n.Has(i) && Held(n, held, i)
    ensures var r := Close(n, i, fuel); !r.Freed? && (r.Done? ==> Balanced(r.net, held))
    decreases fuel, 0
  {
    hide InRange, PluggedBelow, Plugged, OwnHandlers, Close, Handle, Balanced;
    CloseIs(n, i, fuel);
    if fuel > 0 {
      var d := n.dest[i];
      HeldAlive(n, held, i);
      DestAlive(n, held, i);
      var n1, held1 := Count(n, d, 1), Hold(n, held, d);
      CountBalanced(n, held, d);
      OwnHandlersKept(n, n1);
      HandleSafe(n1, d, fuel - 1, held1);
      var r := Handle(n1, d, fuel - 1);
      if r.Done? {
        HeldAlive(r.net, held1, d);
        CountBalanced(r.net, held, d);
      }
    }
  }

  lemma {:induction false} HandleSafe(n: Network, d: nat, fuel: nat, held: seq<nat>)
    requires WellFormed(n) && OwnHandlers(n) && |held| == |n.count| && Balanced(n, held) && n.Has(d) && Held(n, held, d)
    ensures var r := Handle(n, d, fuel); !r.Freed? && (r.Done? ==> Balanced(r.net, held))
    decreases fuel, 1
  {
    hide InRange, PluggedBelow, Plugged, OwnHandlers, Restart, ShutdownEach, Balanced;
    var n1 := Deliver(n, d);
    DestSameBalanced(n, n1, held);
    OwnHandlersKept(n, n1);
    if n.desc[d].Default? {
      RestartSafe(n1, d, fuel, held);
    } else if n.desc[d].ShutdownAll? {
      assert OneOwner(n1, n1.desc[d].all, n1.owner[d]) by { OwnHandler(n1, d); }
      ShutdownEachSafe(n1, n.desc[d].all, fuel, held);
    }
  }

  lemma {:induction false} OwnHandler(n: Network, i: nat)
    requires WellFormed(n) && OwnHandlers(n) && n.Has(i) && n.desc[i].ShutdownAll?
    ensures OneOwner(n, n.desc[i].all, n.owner[i])
  {
    hide InRange;
  }

  lemma {:induction false} RestartSafe(n: Network, i: nat, fuel: nat, held: seq<nat>)
    requires WellFormed(n) && OwnHandlers(n) && |held| == |n.count| && Balanced(n, held) && n.Has(i) && i != NONE
             && Held(n, held, i)
    ensures var r := Restart(n, i, fuel); !r.Freed? && (r.Done? ==> Balanced(r.net, held))
    decreases fuel, 0
  {
    hide InRange, PluggedBelow, Plugged, OwnHandlers, Shutdown, Restart, Balanced;
    RestartIs(n, i, fuel);
    if fuel > 0 {
      HeldAlive(n, held, i);
      ShutdownSafe(n, i, fuel - 1, held);
      var r := Shutdown(n, i, fuel - 1);
      if r.Done? {
        HeldAlive(r.net, held, i);
        EvolvesWellFormed(n, r.net.(desc := r.net.desc[i := n.desc[i]]));
        DestSameBalanced(r.net, r.net.(desc := r.net.desc[i := n.desc[i]]), held);
      }
    }
  }

  lemma {:induction false} ShutdownEachSafe(n: Network, all: seq<nat>, fuel: nat, held: seq<nat>)
    requires WellFormed(n) && OwnHandlers(n) && |held| == |n.count| && Balanced(n, held) && InRange(all, |n.dest|)
    requires forall k :: 0 <= k < |all| ==> Held(n, held, all[k])
    ensures var r := ShutdownEach(n, all, fuel); !r.Freed? && (r.Done? ==> Balanced(r.net, held))
    decreases fuel, 0
  {
    hide PluggedBelow, Plugged, OwnHandlers, Shutdown, ShutdownEach, Balanced;
    ShutdownEachIs(n, all, fuel);
    if fuel > 0 && all != [] {
      assert Held(n, held, all[0]);
      ShutdownSafe(n, all[0], fuel - 1, held);
      var r := Shutdown(n, all[0], fuel - 1);
      if r.Done? {
        OwnHandlersKept(n, r.net);
        ShutdownEachSafe(r.net, all[1..], fuel - 1, held);
      }
    }
  }

  /** With balanced counts, an object is freed exactly when nothing holds it any more. */
  lemma {:induction false} FreedWhenUnheld(n: Network, held: seq<nat>, o: nat)
    requires WellFormed(n) && Balanced(n, held) && o < |n.count|
    ensures n.count[o] >= -1
    ensures n.count[o] == -1 <==> held[o] == 0 && forall i :: 0 <= i < |n.dest| ==> n.owner[n.dest[i]] != o
  {
    hide InRange;
    NoneOrSome(n, o, |n.dest|);
  }

  lemma {:induction false} NoneOrSome(n: Network, o: int, k: nat)
    requires WellFormed(n) && k <= |n.dest|
    ensures PluggedBelow(n, o, k) == 0 <==> forall i :: 0 <= i < k ==> n.owner[n.dest[i]] != o
  {
    hide InRange;
    if k > 0 {
      NoneOrSome(n, o, k - 1);
    }
  }

  // ----- Both ends

  /** Shutting down one end of a plug unplugs both; the other end is nullified or, if it restarts,
      keeps its descriptor. */
  lemma {:induction false} BothEndsUnplugged(n: Network, i: nat, fuel: nat)
    requires WellFormed(n) && n.Has(i) && i != NONE && n.dest[i] != i && n.dest[i] != NONE
    requires !n.desc[n.dest[i]].NullDesc? && (n.desc[n.dest[i]].ShutdownAll? ==> n.dest[i] in n.desc[n.dest[i]].all)
    ensures var d, r := n.dest[i], Shutdown(n, i, fuel);
            r.Done? ==> r.net.dest[i] == NONE && r.net.dest[d] == NONE && r.net.desc[i] == NullDesc
                        && r.net.desc[d] == if n.desc[d].Default? then Default else NullDesc
  {
    hide InRange;
    if fuel > 1 && Alive(n, i) {
      var d, n1 := n.dest[i], Nullify(n, i);
      assert n1.desc[d] == n.desc[d] && n1.dest[i] == d;
      var r := Close(n1, i, fuel - 1);
      if r.Done? {
        PeerUnplugged(n1, i, fuel - 1);
      }
    }
  }

  lemma {:induction false} PeerUnplugged(n: Network, i: nat, fuel: nat)
    requires WellFormed(n) && n.Has(i) && n.dest[i] != NONE
    requires !n.desc[n.dest[i]].NullDesc? && (n.desc[n.dest[i]].ShutdownAll? ==> n.dest[i] in n.desc[n.dest[i]].all)
    ensures var d, r := n.dest[i], Close(n, i, fuel);
            r.Done? ==> r.net.dest[d] == NONE && r.net.desc[d] == if n.desc[d].Default? then Default else NullDesc
  {
    hide InRange;
    if fuel > 0 {
      var d := n.dest[i];
      if n.desc[d].ShutdownAll? {
        var k :| 0 <= k < |n.desc[d].all| && n.desc[d].all[k] == d;
      }
    }
  }

  // ----- Nobody is told twice

  /** Plugs are mutual, apart from ends that have been unplugged already. */
  ghost predicate Paired(n: Network)
    requires WellFormed(n)
  {
    && (forall i :: 0 <= i < |n.dest| ==> n.dest[n.dest[i]] == i || n.dest[n.dest[i]] == NONE)
    && (forall i, j :: 0 <= i < |n.dest| && 0 <= j < |n.dest| && n.dest[i] == n.dest[j] != NONE ==> i == j)
  }

  lemma {:induction false} PairedKept(n: Network, n': Network)
    requires WellFormed(n) && WellFormed(n') && Evolves(n, n') && Paired(n)
    ensures Paired(n')
  {
    hide InRange;
  }

  ghost predicate LowExcept(all: seq<nat>, d: nat, rank: nat -> nat, bound: nat) {
    forall k :: 0 <= k < |all| ==> all[k] == d || rank(all[k]) < bound
  }

  /** Objects are not plugged together in a cycle: whatever else is shut down because of `i` has
      lower rank. */
  ghost predicate Acyclic(n: Network, rank: nat -> nat)
    requires WellFormed(n)
  {
    forall i :: 0 <= i < |n.dest| ==>
      n.desc[n.dest[i]].ShutdownAll? ==> LowExcept(n.desc[n.dest[i]].all, n.dest[i], rank, rank(i))
  }

  lemma {:induction false} AcyclicKept(n: Network, n': Network, rank: nat -> nat)
    requires WellFormed(n) && WellFormed(n') && Evolves(n, n') && Acyclic(n, rank)
    ensures Acyclic(n', rank)
  {
    hide InRange, LowExcept;
  }

  /** Something is plugged into an interface. */
  ghost predicate HasPeer(n: Network, j: nat) {
    exists i :: 0 <= i < |n.dest| && n.dest[i] == j
  }

  /** An interface is told at most once, and only as long as something is plugged into it. */
  ghost predicate Once(n: Network, n': Network) {
    |n'.closes| == |n.closes| && forall j :: 0 < j < |n.closes| ==>
      n'.closes[j] + (if HasPeer(n', j) then 1 else 0) <= n.closes[j] + (if HasPeer(n, j) then 1 else 0)
  }

  /** Whatever is plugged into an interface has at least a given rank. */
  ghost predicate PeersAbove(n: Network, j: nat, rank: nat -> nat, bound: nat) {
    forall i :: 0 <= i < |n.dest| && n.dest[i] == j ==> rank(i) >= bound
  }

  /** Interfaces whose peers have at least a given rank are not told. */
  ghost predicate Spared(n: Network, n': Network, rank: nat -> nat, bound: nat) {
    |n'.closes| == |n.closes| && forall j :: 0 < j < |n.closes| && PeersAbove(n, j, rank, bound) ==>
      n'.closes[j] == n.closes[j]
  }

  lemma {:induction false} OnceTrans(a: Network, b: Network, c: Network)
    requires Once(a, b) && Once(b, c)
    ensures Once(a, c)
  {
    hide HasPeer;
  }

  lemma {:induction false} PeersAboveKept(n: Network, n': Network, j: nat, rank: nat -> nat, bound: nat, bound': nat)
    requires Evolves(n, n') && j != NONE && bound' <= bound && PeersAbove(n, j, rank, bound)
    ensures PeersAbove(n', j, rank, bound')
  {
  }

  lemma {:induction false} SparedTrans(a: Network, b: Network, c: Network, rank: nat -> nat, bound: nat, bound': nat)
    requires Evolves(a, b) && Spared(a, b, rank, bound) && Spared(b, c, rank, bound') && bound' <= bound
    ensures Spared(a, c, rank, bound)
  {
    forall j | 0 < j < |a.closes| && PeersAbove(a, j, rank, bound) ensures c.closes[j] == a.closes[j] {
      PeersAboveKept(a, b, j, rank, bound, bound');
    }
  }

  lemma {:induction false} SparedLess(a: Network, b: Network, rank: nat -> nat, bound: nat, bound': nat)
    requires Spared(a, b, rank, bound') && bound' <= bound
    ensures Spared(a, b, rank, bound)
  {
    forall j | 0 < j < |a.closes| && PeersAbove(a, j, rank, bound) ensures b.closes[j] == a.closes[j] {
      assert PeersAbove(a, j, rank, bound');
    }
  }

  /** A step that tells nobody. */
  lemma {:induction false} Untold(n: Network, n': Network, rank: nat -> nat)
    requires Evolves(n, n') && n'.closes == n.closes
    ensures Once(n, n') && forall bound: nat :: Spared(n, n', rank, bound)
  {
    forall j | 0 < j < |n.closes| && HasPeer(n', j) ensures HasPeer(n, j) {
      var i :| 0 <= i < |n'.dest| && n'.dest[i] == j;
      assert n.dest[i] == j;
    }
  }

  /** Shutting down an interface whose peer has been nullified tells nobody. */
  lemma {:induction false} ShutdownQuiet(n: Network, i: nat, fuel: nat)
    requires WellFormed(n) && n.Has(i) && i != NONE && n.desc[n.dest[i]].NullDesc?
    ensures Shutdown(n, i, fuel).Done? ==> Shutdown(n, i, fuel).net.closes == n.closes
  {
    hide InRange, Evolves, Shutdown, Close;
    ShutdownIs(n, i, fuel);
    if fuel > 0 {
      CloseIs(Nullify(n, i), i, fuel - 1);
    }
  }

  lemma {:induction false} ShutdownOnce(n: Network, i: nat, rank: nat -> nat, fuel: nat)
    requires WellFormed(n) && n.Has(i) && i != NONE && Paired(n) && Acyclic(n, rank)
    ensures var r := Shutdown(n, i, fuel);
            r.Done? ==> Once(n, r.net) && Spared(n, r.net, rank, rank(i) + 1)
    decreases fuel, 0
  {
    hide InRange, Shutdown, Close, Paired, Acyclic, Once, Spared, Unplug;
    ShutdownIs(n, i, fuel);
    var n1 := Nullify(n, i);
    if fuel > 0 && Close(n1, i, fuel - 1).Done? {
      PairedKept(n, n1);
      AcyclicKept(n, n1, rank);
      CloseOnce(n1, i, rank, fuel - 1);
      var n2 := Close(n1, i, fuel - 1).net;
      if Unplug(n2, i).Done? {
        UnplugTold(n1, n2, i, rank);
        Untold(n, n1, rank);
        OnceTrans(n, n1, Unplug(n2, i).net);
        SparedTrans(n, n1, Unplug(n2, i).net, rank, rank(i) + 1, rank(i) + 1);
      }
    }
  }

  /** Apart from the destination of `i`, which is told once more at most. */
  ghost predicate OnceExcept(n: Network, n': Network, d: nat) {
    |n'.closes| == |n.closes| && d < |n.closes| && (d != NONE ==> n'.closes[d] <= n.closes[d] + 1) &&
    forall j :: 0 < j < |n.closes| && j != d ==>
      n'.closes[j] + (if HasPeer(n', j) then 1 else 0) <= n.closes[j] + (if HasPeer(n, j) then 1 else 0)
  }

  lemma {:induction false} UnplugTold(n: Network, n': Network, i: nat, rank: nat -> nat)
    requires WellFormed(n) && WellFormed(n') && Evolves(n, n') && n.Has(i) && i != NONE && Paired(n)
    requires OnceExcept(n, n', n.dest[i]) && Spared(n, n', rank, rank(i) + 1)
    ensures Unplug(n', i).Done? ==> Once(n, Unplug(n', i).net) && Spared(n, Unplug(n', i).net, rank, rank(i) + 1)
  {
    hide InRange;
    if Unplug(n', i).Done? {
      var n'' := Unplug(n', i).net;
      assert n''.closes == n'.closes;
      var d := n.dest[i];
      forall j | 0 < j < |n.closes| && HasPeer(n'', j) ensures HasPeer(n', j) && j != d {
        var k :| 0 <= k < |n''.dest| && n''.dest[k] == j;
        assert n'.dest[k] == j && k != i;
      }
      assert HasPeer(n, d);
    }
  }

  lemma {:induction false} CloseOnce(n: Network, i: nat, rank: nat -> nat, fuel: nat)
    requires WellFormed(n) && n.Has(i) && n.desc[i].NullDesc? && Paired(n) && Acyclic(n, rank)
    ensures var r := Close(n, i, fuel);
            r.Done? ==> OnceExcept(n, r.net, n.dest[i]) && Spared(n, r.net, rank, rank(i) + 1)
    decreases fuel, 0
  {
    hide InRange, Close, Handle, Paired, Acyclic, Once, Spared, OnceExcept;
    CloseIs(n, i, fuel);
    var d := n.dest[i];
    var n1 := Count(n, d, 1);
    if fuel > 0 && Close(n, i, fuel).Done? {
      PairedKept(n, n1);
      AcyclicKept(n, n1, rank);
      HandleOnce(n1, i, rank, fuel - 1);
      var n2 := Handle(n1, d, fuel - 1).net;
      SameTold(n, n1, n2, Count(n2, d, -1), d, rank, rank(i) + 1);
    }
  }

  lemma {:induction false} SameTold(n: Network, n1: Network, n2: Network, n3: Network, d: nat, rank: nat -> nat,
                                    bound: nat)
    requires n1.dest == n.dest && n1.closes == n.closes && n3.dest == n2.dest && n3.closes == n2.closes
    requires OnceExcept(n1, n2, d) && Spared(n1, n2, rank, bound)
    ensures OnceExcept(n, n3, d) && Spared(n, n3, rank, bound)
  {
    assert forall j :: HasPeer(n, j) == HasPeer(n1, j) && HasPeer(n2, j) == HasPeer(n3, j);
    assert forall j :: PeersAbove(n, j, rank, bound) == PeersAbove(n1, j, rank, bound);
  }

  lemma {:induction false} HandleOnce(n: Network, i: nat, rank: nat -> nat, fuel: nat)
    requires WellFormed(n) && n.Has(i) && n.desc[i].NullDesc? && Paired(n) && Acyclic(n, rank)
    ensures var r := Handle(n, n.dest[i], fuel);
            r.Done? ==> OnceExcept(n, r.net, n.dest[i]) && Spared(n, r.net, rank, rank(i) + 1)
    decreases fuel, 1
  {
    hide InRange, Restart, ShutdownEach, Paired, Acyclic, Once, Spared, OnceExcept, LowExcept, HasPeer, Evolves;
    var d := n.dest[i];
    var n1, r := Deliver(n, d), Handle(n, d, fuel);
    if r.Done? {
      if n.desc[d].NullDesc? {
        Untold(n, n, rank);
        OnceOrMore(n, n, d);
      } else {
        PairedKept(n, n1);
        AcyclicKept(n, n1, rank);
        assert n1.dest[d] == i || n1.dest[d] == NONE by { PeerOf(n1, i); }
        if n.desc[d].Default? {
          RestartQuiet(n1, d, fuel);
          Untold(n1, r.net, rank);
        } else {
          assert LowExcept(n.desc[d].all, d, rank, rank(i)) by { AcyclicAt(n, i, rank); }
          EachOnce(n1, n.desc[d].all, i, d, rank, fuel);
        }
        Delivered(n, r.net, i, rank);
      }
    }
  }

  lemma {:induction false} RestartQuiet(n: Network, i: nat, fuel: nat)
    requires WellFormed(n) && n.Has(i) && i != NONE && n.desc[n.dest[i]].NullDesc?
    ensures Restart(n, i, fuel).Done? ==> Restart(n, i, fuel).net.closes == n.closes
  {
    hide InRange, Evolves, Shutdown, Restart;
    RestartIs(n, i, fuel);
    if fuel > 0 {
      ShutdownQuiet(n, i, fuel - 1);
    }
  }

  lemma {:induction false} PeerOf(n: Network, i: nat)
    requires WellFormed(n) && Paired(n) && n.Has(i)
    ensures n.dest[n.dest[i]] == i || n.dest[n.dest[i]] == NONE
  {
    hide InRange;
  }

  lemma {:induction false} AcyclicAt(n: Network, i: nat, rank: nat -> nat)
    requires WellFormed(n) && Acyclic(n, rank) && n.Has(i) && n.desc[n.dest[i]].ShutdownAll?
    ensures LowExcept(n.desc[n.dest[i]].all, n.dest[i], rank, rank(i))
  {
    hide InRange, LowExcept;
  }

  lemma {:induction false} OnceOrMore(n: Network, n': Network, d: nat)
    requires Once(n, n') && d < |n.closes|
    ensures OnceExcept(n, n', d)
  {
    hide HasPeer;
  }

  /** Telling the destination of `i`, and then only interfaces whose peers are below `i`. */
  lemma {:induction false} Delivered(n: Network, n': Network, i: nat, rank: nat -> nat)
    requires WellFormed(n) && n.Has(i) && n.dest[i] != NONE && Paired(n)
    requires Once(Deliver(n, n.dest[i]), n') && Spared(Deliver(n, n.dest[i]), n', rank, rank(i))
    ensures OnceExcept(n, n', n.dest[i]) && Spared(n, n', rank, rank(i) + 1)
  {
    hide InRange;
    var d := n.dest[i];
    var n1 := Deliver(n, d);
    assert PeersAbove(n1, d, rank, rank(i));
    assert forall j :: HasPeer(n, j) == HasPeer(n1, j);
    forall j | 0 < j < |n.closes| && PeersAbove(n, j, rank, rank(i) + 1) ensures n'.closes[j] == n.closes[j] {
      assert PeersAbove(n1, j, rank, rank(i));
    }
  }

  lemma {:induction false} EachOnce(n: Network, all: seq<nat>, i: nat, d: nat, rank: nat -> nat, fuel: nat)
    requires WellFormed(n) && InRange(all, |n.dest|) && Paired(n) && Acyclic(n, rank)
    requires n.Has(i) && n.Has(d) && n.desc[i].NullDesc? && (n.dest[d] == i || n.dest[d] == NONE)
    requires LowExcept(all, d, rank, rank(i))
    ensures var r := ShutdownEach(n, all, fuel);
            r.Done? ==> Once(n, r.net) && Spared(n, r.net, rank, rank(i))
    decreases fuel, 0
  {
    hide Shutdown, ShutdownEach, Paired, Acyclic, Once, Spared;
    ShutdownEachIs(n, all, fuel);
    if fuel > 0 {
      if all == [] {
        Untold(n, n, rank);
      } else {
        var r := Shutdown(n, all[0], fuel - 1);
        if r.Done? {
          if all[0] == d {
            ShutdownQuiet(n, d, fuel - 1);
            Untold(n, r.net, rank);
          } else {
            ShutdownOnce(n, all[0], rank, fuel - 1);
            SparedLess(n, r.net, rank, rank(i), rank(all[0]) + 1);
          }
          PairedKept(n, r.net);
          AcyclicKept(n, r.net, rank);
          EachOnce(r.net, all[1..], i, d, rank, fuel - 1);
          var r' := ShutdownEach(r.net, all[1..], fuel - 1);
          if r'.Done? {
            OnceTrans(n, r.net, r'.net);
            SparedTrans(n, r.net, r'.net, rank, rank(i), rank(i));
          }
        }
      }
    }
  }

  /** In a network without cycles no interface is told of a close more than once. */
  lemma {:induction false} ToldAtMostOnce(n: Network, i: nat, rank: nat -> nat, fuel: nat, j: nat)
    requires WellFormed(n) && n.Has(i) && i != NONE && Paired(n) && Acyclic(n, rank) && 0 < j < |n.closes|
    ensures var r := Shutdown(n, i, fuel);
            r.Done? ==> r.net.closes[j] <= n.closes[j] + (if HasPeer(n, j) then 1 else 0)
  {
    hide InRange, Shutdown, HasPeer, Paired, Acyclic, Spared;
    ShutdownOnce(n, i, rank, fuel);
  }
}
