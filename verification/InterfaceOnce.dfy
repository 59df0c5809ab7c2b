/** How often interfaces are told of a close.

    While an object shuts down its interfaces, an interface that was told is not blocked until its
    own turn comes.  If that is not the first turn, it may be told again.
  */
module InterfaceOnce {
  import opened Interfaces
  import opened InterfaceSafety
  import opened InterfaceTermination

  // ----- Handlers that start with the interface that was told

  /** How often an interface has been told, and may be told from now on. */
  ghost function Due(n: Network, j: nat): nat
    requires j < |n.closes| == |n.desc|
  {
    n.closes[j] + if HasPeer(n, j) && !n.desc[j].NullDesc? then 1 else 0
  }

  /** Nothing is due that was not due before, apart from `d`, which has been told instead. */
  ghost predicate DueExcept(n: Network, n': Network, d: nat) {
    |n'.closes| == |n.closes| == |n.desc| == |n'.desc|
    && forall j :: 0 < j < |n.closes| ==> (if j == d then n'.closes[j] else Due(n', j)) <= Due(n, j)
  }

  ghost predicate NoMoreDue(n: Network, n': Network) {
    DueExcept(n, n', NONE)
  }

  /** Nobody has been told who was not due. */
  ghost predicate ToldDue(n: Network, n': Network) {
    |n'.closes| == |n.closes| == |n.desc| && forall j :: 0 < j < |n.closes| ==> n'.closes[j] <= Due(n, j)
  }

  /** Done or not, nobody has been told who was not due. */
  ghost predicate Tells(n: Network, r: Outcome, d: nat) {
    (r.Done? ==> DueExcept(n, r.net, d)) && (r.OutOfFuel? ==> ToldDue(n, r.net))
  }

  lemma {:induction false} PeerBefore(n: Network, n': Network, j: nat)
    requires Evolves(n, n') && j != NONE && HasPeer(n', j)
    ensures HasPeer(n, j)
  {
    var i :| 0 <= i < |n'.dest| && n'.dest[i] == j;
    assert n.dest[i] == j;
  }

  /** A step that tells nobody. */
  lemma {:induction false} QuietDue(n: Network, n': Network)
    requires WellFormed(n) && Evolves(n, n') && n'.closes == n.closes
    ensures NoMoreDue(n, n')
  {
    hide HasPeer, InRange;
    forall j | 0 < j < |n.closes| ensures Due(n', j) <= Due(n, j) {
      if HasPeer(n', j) {
        PeerBefore(n, n', j);
      }
    }
  }

  lemma {:induction false} StillDue(n: Network, d: nat)
    requires WellFormed(n)
    ensures DueExcept(n, n, d) && ToldDue(n, n)
  {
    hide HasPeer, InRange;
  }

  lemma {:induction false} DueTrans(a: Network, b: Network, r: Outcome)
    requires NoMoreDue(a, b) && Tells(b, r, NONE)
    ensures Tells(a, r, NONE)
  {
    hide Due;
  }

  lemma {:induction false} SelfFirstKept(n: Network, n': Network)
    requires Evolves(n, n') && SelfFirst(n.desc)
    ensures SelfFirst(n'.desc)
  {
  }

  lemma {:induction false} ShutdownTells(n: Network, i: nat, fuel: nat)
    requires WellFormed(n) && n.Has(i) && i != NONE && Paired(n) && SelfFirst(n.desc)
    ensures Tells(n, Shutdown(n, i, fuel), NONE)
    decreases fuel, 0
  {
    hide InRange, Shutdown, Close, Paired, SelfFirst, Unplug, Due, Evolves;
    ShutdownIs(n, i, fuel);
    var n1 := Nullify(n, i);
    StillDue(n, NONE);
    QuietDue(n, n1);
    if fuel > 0 {
      PairedKept(n, n1);
      SelfFirstKept(n, n1);
      CloseTells(n1, i, fuel - 1);
      var r := Close(n1, i, fuel - 1);
      if r.Done? {
        UnplugDue(n1, r.net, i);
        DueTrans(n, n1, Unplug(r.net, i));
      } else if r.OutOfFuel? {
        DueTrans(n, n1, r);
      }
    }
  }

  /** Once the only interface plugged into it is unplugged, the destination is not due. */
  lemma {:induction false} UnplugDue(n: Network, n': Network, i: nat)
    requires WellFormed(n) && WellFormed(n') && Evolves(n, n') && n.Has(i) && i != NONE && Paired(n)
    requires DueExcept(n, n', n.dest[i])
    ensures Tells(n, Unplug(n', i), NONE)
  {
    hide InRange, HasPeer;
    if Unplug(n', i).Done? {
      var n'' := Unplug(n', i).net;
      assert n''.closes == n'.closes && n''.desc == n'.desc;
      forall j | 0 < j < |n.closes| ensures Due(n'', j) <= Due(n, j) {
        if HasPeer(n'', j) {
          PeerBefore(n', n'', j);
          assert j != n.dest[i] by { OnlyPeer(n, n'', i); }
        }
      }
    }
  }

  lemma {:induction false} OnlyPeer(n: Network, n': Network, i: nat)
    requires WellFormed(n) && WellFormed(n') && Evolves(n, n') && n.Has(i) && Paired(n) && n'.dest[i] == NONE
    ensures n.dest[i] != NONE ==> !HasPeer(n', n.dest[i])
  {
    hide InRange;
  }

  lemma {:induction false} CloseTells(n: Network, i: nat, fuel: nat)
    requires WellFormed(n) && n.Has(i) && i != NONE && n.desc[i].NullDesc? && Paired(n) && SelfFirst(n.desc)
    ensures Tells(n, Close(n, i, fuel), n.dest[i])
    decreases fuel, 0
  {
    hide InRange, Close, Handle, Paired, SelfFirst, Evolves;
    CloseIs(n, i, fuel);
    var d := n.dest[i];
    var n1 := Count(n, d, 1);
    if fuel > 0 {
      PairedKept(n, n1);
      SelfFirstKept(n, n1);
      HandleTells(n1, i, fuel - 1);
      var r := Handle(n1, d, fuel - 1);
      SameDue(n, n1);
      if r.Done? {
        SameDue(r.net, Count(r.net, d, -1));
      }
    }
  }

  /** Counting references makes no difference. */
  lemma {:induction false} SameDue(n: Network, n': Network)
    requires n'.dest == n.dest && n'.closes == n.closes && n'.desc == n.desc && |n.closes| == |n.desc|
    ensures forall j :: 0 <= j < |n.closes| ==> Due(n', j) == Due(n, j)
  {
  }

  lemma {:induction false} HandleTells(n: Network, i: nat, fuel: nat)
    requires WellFormed(n) && n.Has(i) && i != NONE && n.desc[i].NullDesc? && Paired(n) && SelfFirst(n.desc)
    ensures Tells(n, Handle(n, n.dest[i], fuel), n.dest[i])
    decreases fuel, 1
  {
    hide InRange, Restart, ShutdownEach, Paired, SelfFirst, Due, HasPeer, Evolves;
    var d := n.dest[i];
    var n1 := Deliver(n, d);
    StillDue(n, d);
    if !n.desc[d].NullDesc? {
      PairedKept(n, n1);
      SelfFirstKept(n, n1);
      assert n1.dest[d] == i || n1.dest[d] == NONE by { PeerOf(n1, i); }
      DeliveredDue(n, i);
      if n.desc[d].Default? {
        RestartTellsNobody(n1, d, fuel);
        DueAfter(n, Restart(n1, d, fuel), d);
      } else if n.desc[d].all == [] {
        ShutdownEachIs(n1, [], fuel);
        DueAfter(n, ShutdownEach(n1, [], fuel), d);
      } else {
        SelfFirstTells(n, i, fuel);
      }
    }
  }

  /** The destination of an interface was due when it is told. */
  lemma {:induction false} DeliveredDue(n: Network, i: nat)
    requires WellFormed(n) && n.Has(i) && !n.desc[n.dest[i]].NullDesc?
    ensures Deliver(n, n.dest[i]).closes[n.dest[i]] == Due(n, n.dest[i])
  {
    hide InRange;
  }

  /** The destination `d` has been told when it was due, and then nobody else. */
  lemma {:induction false} DueAfter(n: Network, r: Outcome, d: nat)
    requires WellFormed(n) && n.Has(d) && !n.desc[d].NullDesc? && Deliver(n, d).closes[d] == Due(n, d)
    requires r.Done? ==> Evolves(Deliver(n, d), r.net)
    requires !r.Freed? ==> r.net.closes == Deliver(n, d).closes
    ensures Tells(n, r, d)
  {
    hide HasPeer, InRange;
    if r.Done? {
      forall j | 0 < j < |n.closes| && j != d ensures Due(r.net, j) <= Due(n, j) {
        if HasPeer(r.net, j) {
          PeerBefore(n, r.net, j);
        }
      }
    }
  }

  /** Told or not, shutting down or restarting an interface whose peer has been nullified tells
      nobody, at any depth. */
  lemma {:induction false} ShutdownTellsNobody(n: Network, i: nat, fuel: nat)
    requires WellFormed(n) && n.Has(i) && i != NONE && n.desc[n.dest[i]].NullDesc?
    ensures var r := Shutdown(n, i, fuel); !r.Freed? ==> r.net.closes == n.closes
  {
    hide InRange, Evolves, Shutdown, Close;
    ShutdownIs(n, i, fuel);
    if fuel > 0 {
      CloseIs(Nullify(n, i), i, fuel - 1);
    }
  }

  lemma {:induction false} RestartTellsNobody(n: Network, i: nat, fuel: nat)
    requires WellFormed(n) && n.Has(i) && i != NONE && n.desc[n.dest[i]].NullDesc?
    ensures var r := Restart(n, i, fuel); !r.Freed? ==> r.net.closes == n.closes
  {
    hide InRange, Evolves, Shutdown, Restart;
    RestartIs(n, i, fuel);
    if fuel > 0 {
      ShutdownTellsNobody(n, i, fuel - 1);
    }
  }

  /** A handler that blocks the interface that was told before anything else. */
  lemma {:induction false} SelfFirstTells(n: Network, i: nat, fuel: nat)
    requires WellFormed(n) && n.Has(i) && i != NONE && n.desc[i].NullDesc? && Paired(n) && SelfFirst(n.desc)
    requires n.desc[n.dest[i]].ShutdownAll? && n.desc[n.dest[i]].all != []
    ensures Tells(n, Handle(n, n.dest[i], fuel), n.dest[i])
    decreases fuel, 0
  {
    hide InRange, Shutdown, ShutdownEach, Paired, Due, HasPeer, Evolves;
    var d := n.dest[i];
    var n1, all := Deliver(n, d), n.desc[d].all;
    assert all[0] == d;
    assert InRange(all, |n1.dest|);
    ShutdownEachIs(n1, all, fuel);
    DeliveredDue(n, i);
    DueAfter(n, OutOfFuel(n1), d);
    if fuel > 0 {
      var r := Shutdown(n1, d, fuel - 1);
      PairedKept(n, n1);
      assert n1.dest[d] == i || n1.dest[d] == NONE by { PeerOf(n1, i); }
      ShutdownTellsNobody(n1, d, fuel - 1);
      DueAfter(n, r, d);
      if r.Done? {
        SelfFirstKept(n, n1);
        SelfFirstKept(n1, r.net);
        PairedKept(n1, r.net);
        assert InRange(all[1..], |r.net.dest|) by { TailInRange(all, |n.dest|); }
        EachTells(r.net, all[1..], fuel - 1);
        BlockedDue(n, r.net, ShutdownEach(r.net, all[1..], fuel - 1), d);
      }
    }
  }

  lemma {:induction false} TailInRange(all: seq<nat>, bound: nat)
    requires InRange(all, bound) && all != []
    ensures InRange(all[1..], bound)
  {
  }

  /** An interface that has been told and then blocked is not told again. */
  lemma {:induction false} BlockedDue(n: Network, n': Network, r: Outcome, d: nat)
    requires DueExcept(n, n', d) && 0 < d < |n.closes| && n'.desc[d].NullDesc? && Tells(n', r, NONE)
    ensures Tells(n, r, d)
  {
    hide HasPeer;
    assert Due(n', d) == n'.closes[d];
  }

  lemma {:induction false} EachTells(n: Network, all: seq<nat>, fuel: nat)
    requires WellFormed(n) && InRange(all, |n.dest|) && Paired(n) && SelfFirst(n.desc)
    ensures Tells(n, ShutdownEach(n, all, fuel), NONE)
    decreases fuel, 0
  {
    hide Shutdown, ShutdownEach, Paired, SelfFirst, Due, Evolves;
    ShutdownEachIs(n, all, fuel);
    StillDue(n, NONE);
    if fuel > 0 && all != [] {
      ShutdownTells(n, all[0], fuel - 1);
      var r := Shutdown(n, all[0], fuel - 1);
      if r.Done? {
        PairedKept(n, r.net);
        SelfFirstKept(n, r.net);
        EachTells(r.net, all[1..], fuel - 1);
        DueTrans(n, r.net, ShutdownEach(r.net, all[1..], fuel - 1));
      }
    }
  }

  // ----- Exactly when

  ghost predicate OnceSoFar(n: Network, r: Outcome) {
    !r.Freed? ==> |r.net.closes| == |n.closes| && forall j :: 0 < j < |n.closes| ==> r.net.closes[j] <= n.closes[j] + 1
  }

  /** At no depth of the recursion has anybody been told more than once. */
  ghost predicate OnceThroughout(n: Network, i: nat)
    requires WellFormed(n) && 0 < i < |n.dest|
  {
    forall fuel: nat :: OnceSoFar(n, Shutdown(n, i, fuel))
  }

  ghost predicate OncePlugged(n: Network, dest: seq<nat>, i: nat) {
    var n' := n.(dest := dest);
    WellFormed(n') && Paired(n') && 0 < i < |dest| ==> OnceThroughout(n', i)
  }

  lemma {:induction false} SelfFirstOnce(n: Network, i: nat)
    requires WellFormed(n) && Paired(n) && 0 < i < |n.dest| && SelfFirst(n.desc)
    ensures OnceThroughout(n, i)
  {
    hide InRange, Shutdown, Paired, SelfFirst, HasPeer;
    forall fuel: nat ensures OnceSoFar(n, Shutdown(n, i, fuel)) {
      ShutdownTells(n, i, fuel);
    }
  }

  /** No interface is told more than once while another is shut down, however the interfaces are
      plugged together, exactly if every handler starts with the interface that was told. */
  lemma {:induction false} ToldOnceHoweverPlugged(n: Network)
    requires WellFormed(n) && forall o :: 0 <= o < |n.count| ==> n.count[o] >= 0
    ensures SelfFirst(n.desc) <==> forall dest: seq<nat>, i: nat :: OncePlugged(n, dest, i)
  {
    hide InRange, Shutdown, OnceThroughout, Paired;
    if SelfFirst(n.desc) {
      forall dest: seq<nat>, i: nat ensures OncePlugged(n, dest, i) {
        var n' := n.(dest := dest);
        if WellFormed(n') && Paired(n') && 0 < i < |dest| {
          SelfFirstOnce(n', i);
        }
      }
    } else {
      var d :| 0 <= d < |n.desc| && n.desc[d].ShutdownAll? && n.desc[d].all != [] && n.desc[d].all[0] != d;
      var y := n.desc[d].all[0];
      assert 0 < y < |n.dest| by { FirstInRange(n, d); }
      var dest := seq(|n.dest|, i => if i == y then d else if i == d then y else NONE);
      var n' := n.(dest := dest);
      assert WellFormed(n');
      assert Paired(n') by { PairOnly(n', y, d); }
      assert !OnceThroughout(n', y) by { PeerToldAgain(n', y, d); }
      assert !OncePlugged(n, dest, y);
    }
  }

  lemma {:induction false} PairOnly(n: Network, y: nat, d: nat)
    requires WellFormed(n) && 0 < y < |n.dest| && 0 < d < |n.dest| && d != y
    requires forall i :: 0 <= i < |n.dest| ==> n.dest[i] == if i == y then d else if i == d then y else NONE
    ensures Paired(n)
  {
    hide InRange;
  }

  /** What telling the destination of an interface changes. */
  lemma {:induction false} ToldChanges(n: Network, y: nat)
    requires WellFormed(n) && n.Has(y) && Alive(n, y) && Alive(n, n.dest[y])
    ensures var n', d := Told(n, y), n.dest[y];
            && n'.dest == n.dest && n'.desc == n.desc[y := NullDesc] && n'.closes == n.closes[d := n.closes[d] + 1]
            && Alive(n', y) && Alive(n', d)
  {
    hide InRange, Evolves;
  }

  /** The handler of `d` shuts down its peer first, which tells it again. */
  lemma {:induction false} PeerToldAgain(n: Network, y: nat, d: nat)
    requires WellFormed(n) && 0 < y < |n.dest| && n.Has(d) && d != y && n.dest[y] == d && Alive(n, y) && Alive(n, d)
    requires n.desc[d].ShutdownAll? && n.desc[d].all != [] && n.desc[d].all[0] == y
    ensures !OnceThroughout(n, y)
  {
    hide InRange, Shutdown, Evolves, Told;
    var n1 := Told(n, y);
    ToldChanges(n, y);
    var n2 := Told(n1, y);
    ToldChanges(n1, y);
    ShutdownIs(n2, y, 0);
    PassOn(n1, y, 3);
    PassOn(n, y, 6);
    assert Shutdown(n, y, 6) == OutOfFuel(n2);
    assert n2.closes[d] == n.closes[d] + 2;
    assert !OnceSoFar(n, Shutdown(n, y, 6));
  }

  // ----- A network that ends and tells an interface twice

  /** Two objects with two interfaces each, plugged together in parallel, whose handlers shut down
      the second interface before the first. */
  function Parallel(): Network {
    Network([0, 3, 4, 1, 2],
            [NullDesc, ShutdownAll([2, 1]), ShutdownAll([2, 1]), ShutdownAll([4, 3]), ShutdownAll([4, 3])],
            [-1, 0, 0, 1, 1], [0, 0, 0, 0, 0], [2, 2])
  }

  lemma {:induction false} ParallelFormed()
    ensures WellFormed(Parallel())
  {
    assert InRange([2, 1], 5) && InRange([4, 3], 5);
  }

  lemma {:induction false} ParallelPaired()
    requires WellFormed(Parallel())
    ensures Paired(Parallel())
  {
    hide WellFormed;
  }

  lemma {:induction false} ParallelHandlers()
    requires WellFormed(Parallel())
    ensures OwnHandlers(Parallel())
  {
    hide WellFormed;
    assert InRange([2, 1], 5) && InRange([4, 3], 5);
  }

  lemma {:induction false} ParallelBalanced(o: int)
    requires WellFormed(Parallel()) && 0 <= o < 2
    ensures Plugged(Parallel(), o) == 2
  {
    hide WellFormed;
    var n := Parallel();
    assert PluggedBelow(n, o, 1) == 0;
    assert PluggedBelow(n, o, 2) == if o == 1 then 1 else 0;
    assert PluggedBelow(n, o, 3) == if o == 1 then 2 else 0;
    assert PluggedBelow(n, o, 4) == if o == 1 then 2 else 1;
  }

  /** Shutting down an interface tells its destination, if that is live. */
  lemma {:induction false} TellsLive(n: Network, i: nat, fuel: nat)
    requires WellFormed(n) && n.Has(i) && i != NONE && n.dest[i] != i && !n.desc[n.dest[i]].NullDesc?
    ensures var d, r := n.dest[i], Shutdown(n, i, fuel);
            r.Done? ==> r.net.closes[d] >= n.closes[d] + 1
  {
    hide InRange, Shutdown, Close, Restart, ShutdownEach;
    ShutdownIs(n, i, fuel);
    if fuel > 0 {
      CloseIs(Nullify(n, i), i, fuel - 1);
    }
  }

  /** What shutting down an interface whose peer has been nullified leaves alone. */
  lemma {:induction false} QuietKeeps(n: Network, i: nat, fuel: nat)
    requires WellFormed(n) && n.Has(i) && i != NONE && n.desc[n.dest[i]].NullDesc?
    ensures var r := Shutdown(n, i, fuel);
            r.Done? ==>
              forall j :: 0 <= j < |n.dest| && j != i ==> r.net.dest[j] == n.dest[j] && r.net.desc[j] == n.desc[j]
  {
    hide InRange, Evolves, Shutdown, Close;
    ShutdownIs(n, i, fuel);
    if fuel > 0 {
      CloseIs(Nullify(n, i), i, fuel - 1);
    }
  }

  /** Shutting down an interface whose destination is live runs the handler of that. */
  lemma {:induction false} Handled(n: Network, x: nat, fuel: nat)
    requires WellFormed(n) && n.Has(x) && x != NONE && n.dest[x] != x && Shutdown(n, x, fuel).Done?
    requires n.desc[n.dest[x]].ShutdownAll?
    ensures fuel >= 2 && InRange(n.desc[n.dest[x]].all, |n.dest|)
    ensures var r := ShutdownEach(Told(n, x), n.desc[n.dest[x]].all, fuel - 2);
            r.Done? && Shutdown(n, x, fuel).net.closes == r.net.closes
  {
    hide InRange, Shutdown, Close, ShutdownEach, Evolves;
    ShutdownIs(n, x, fuel);
    CloseIs(Nullify(n, x), x, fuel - 1);
  }

  /** Shutting down `b` makes the object of its peer `a` shut down `a` and then `c`, whose
      destination is live. */
  lemma {:induction false} TellsThrough(n: Network, b: nat, a: nat, c: nat, fuel: nat)
    requires WellFormed(n) && n.Has(b) && n.Has(a) && n.Has(c) && b != NONE && a != NONE && c != NONE
    requires n.dest[b] == a && n.dest[a] == b && n.desc[a] == ShutdownAll([a, c])
    requires a != b && c != a && c != b && n.dest[c] !in {a, b, c} && !n.desc[n.dest[c]].NullDesc?
    ensures var d, r := n.dest[c], Shutdown(n, b, fuel);
            r.Done? ==> r.net.closes[d] >= n.closes[d] + 1
  {
    hide InRange, Shutdown, ShutdownEach, Evolves;
    if Shutdown(n, b, fuel).Done? {
      Handled(n, b, fuel);
      TellsSecond(Told(n, b), a, c, fuel - 2);
    }
  }

  lemma {:induction false} TellsSecond(n: Network, a: nat, c: nat, fuel: nat)
    requires WellFormed(n) && n.Has(a) && n.Has(c) && a != NONE && c != NONE && InRange([a, c], |n.dest|)
    requires n.desc[n.dest[a]].NullDesc? && c != a && n.dest[c] !in {a, c} && !n.desc[n.dest[c]].NullDesc?
    ensures var d, r := n.dest[c], ShutdownEach(n, [a, c], fuel);
            r.Done? ==> r.net.closes[d] >= n.closes[d] + 1
  {
    hide InRange, Shutdown, ShutdownEach;
    var d := n.dest[c];
    ShutdownEachIs(n, [a, c], fuel);
    if fuel > 0 && ShutdownEach(n, [a, c], fuel).Done? {
      var m := Shutdown(n, a, fuel - 1).net;
      QuietKeeps(n, a, fuel - 1);
      ShutdownTellsNobody(n, a, fuel - 1);
      assert [a, c][1..] == [c];
      assert InRange([c], |m.dest|) by { TailInRange([a, c], |n.dest|); }
      ShutdownEachIs(m, [c], fuel - 1);
      TellsLive(m, c, fuel - 2);
      assert [c][1..] == [];
    }
  }

  /** What the first interface of a handler has been told counts in the end. */
  lemma {:induction false} FirstHandled(n: Network, x: nat, fuel: nat)
    requires WellFormed(n) && n.Has(x) && x != NONE && n.dest[x] != x && Shutdown(n, x, fuel).Done?
    requires n.desc[n.dest[x]].ShutdownAll? && n.desc[n.dest[x]].all != []
    ensures fuel >= 3 && 0 < n.desc[n.dest[x]].all[0] < |n.dest|
    ensures var r, r' := Shutdown(Told(n, x), n.desc[n.dest[x]].all[0], fuel - 3), Shutdown(n, x, fuel);
            r.Done? && forall j :: 0 <= j < |n.closes| ==> r.net.closes[j] <= r'.net.closes[j]
  {
    hide InRange, Shutdown, ShutdownEach;
    var all := n.desc[n.dest[x]].all;
    FirstInRange(n, n.dest[x]);
    Handled(n, x, fuel);
    ShutdownEachIs(Told(n, x), all, fuel - 2);
  }

  /** Shutting down `a1` tells `b1`, whose object shuts down `b2` first, which tells `a2`, whose
      object shuts down `a2` and then `a1` again, which tells `b1` again. */
  lemma {:induction false} ToldTwice(n: Network, a1: nat, a2: nat, b1: nat, b2: nat, fuel: nat)
    requires WellFormed(n) && 0 < a1 < a2 < b1 < b2 < |n.dest|
    requires n.dest[a1] == b1 && n.dest[a2] == b2 && n.dest[b2] == a2
    requires n.desc[a2] == ShutdownAll([a2, a1]) && n.desc[b1] == ShutdownAll([b2, b1])
    ensures var r := Shutdown(n, a1, fuel);
            r.Done? ==> r.net.closes[b1] >= n.closes[b1] + 2
  {
    hide InRange, Shutdown, Evolves;
    if Shutdown(n, a1, fuel).Done? {
      FirstHandled(n, a1, fuel);
      TellsThrough(Told(n, a1), b2, a2, a1, fuel - 3);
    }
  }

  /** Shutting down the first interface of one object comes to an end and tells the first interface
      of the other object twice. */
  lemma {:induction false} ParallelToldTwice() returns (fuel: nat)
    ensures var n := Parallel();
            WellFormed(n) && Paired(n) && OwnHandlers(n) && Balanced(n, [1, 1])
            && var r := Shutdown(n, 1, fuel); r.Done? && r.net.closes[3] >= 2
  {
    hide WellFormed, Shutdown, Plugged, Ranked, Paired, OwnHandlers;
    ParallelFormed();
    ParallelPaired();
    ParallelHandlers();
    ParallelBalanced(0);
    ParallelBalanced(1);
    var n := Parallel();
    assert Balanced(n, [1, 1]);
    var rank: nat -> nat := i => if i == 1 || i == 3 then 1 else 0;
    ParallelRanked(rank);
    fuel := ShutdownEnds(n, 1, rank);
    ShutdownSafe(n, 1, fuel, [1, 1]);
    ToldTwice(n, 1, 2, 3, 4, fuel);
  }

  lemma {:induction false} ParallelRanked(rank: nat -> nat)
    requires WellFormed(Parallel()) && forall i: nat :: rank(i) == if i == 1 || i == 3 then 1 else 0
    ensures Ranked(Parallel(), rank)
  {
    assert [2, 1][1..] == [1] && [4, 3][1..] == [3];
  }
}
