/** When shutting down an interface comes to an end.

    Handlers call each other through plugs, and what stops them is that descriptors are nullified
    first.  That is not always enough: two objects that are plugged together twice, crosswise, shut
    each other down for ever.
  */
module InterfaceTermination {
  import opened Interfaces

  // ----- More fuel does not change an outcome

  lemma {:induction false} ShutdownMore(n: Network, i: nat, fuel: nat, more: nat)
    requires WellFormed(n) && n.Has(i) && i != NONE && fuel <= more && !Shutdown(n, i, fuel).OutOfFuel?
    ensures Shutdown(n, i, more) == Shutdown(n, i, fuel)
    decreases fuel, 0
  {
    hide Shutdown, Close, InRange, Evolves, Unplug;
    ShutdownIs(n, i, fuel);
    ShutdownIs(n, i, more);
    if fuel > 0 && Alive(n, i) {
      CloseMore(Nullify(n, i), i, fuel - 1, more - 1);
    }
  }

  lemma {:induction false} CloseMore(n: Network, i: nat, fuel: nat, more: nat)
    requires WellFormed(n) && n.Has(i) && fuel <= more && !Close(n, i, fuel).OutOfFuel?
    ensures Close(n, i, more) == Close(n, i, fuel)
    decreases fuel, 0
  {
    hide Close, Handle, InRange, Evolves;
    CloseIs(n, i, fuel);
    CloseIs(n, i, more);
    if fuel > 0 && Alive(n, i) && Alive(n, n.dest[i]) {
      HandleMore(Count(n, n.dest[i], 1), n.dest[i], fuel - 1, more - 1);
    }
  }

  lemma {:induction false} HandleMore(n: Network, d: nat, fuel: nat, more: nat)
    requires WellFormed(n) && n.Has(d) && fuel <= more && !Handle(n, d, fuel).OutOfFuel?
    ensures Handle(n, d, more) == Handle(n, d, fuel)
    decreases fuel, 1
  {
    hide Restart, ShutdownEach, InRange, Evolves;
    if n.desc[d].Default? {
      RestartMore(Deliver(n, d), d, fuel, more);
    } else if n.desc[d].ShutdownAll? {
      ShutdownEachMore(Deliver(n, d), n.desc[d].all, fuel, more);
    }
  }

  lemma {:induction false} RestartMore(n: Network, i: nat, fuel: nat, more: nat)
    requires WellFormed(n) && n.Has(i) && i != NONE && fuel <= more && !Restart(n, i, fuel).OutOfFuel?
    ensures Restart(n, i, more) == Restart(n, i, fuel)
    decreases fuel, 0
  {
    hide Shutdown, Restart, InRange, Evolves;
    RestartIs(n, i, fuel);
    RestartIs(n, i, more);
    if fuel > 0 && Alive(n, i) {
      ShutdownMore(n, i, fuel - 1, more - 1);
    }
  }

  lemma {:induction false} ShutdownEachMore(n: Network, all: seq<nat>, fuel: nat, more: nat)
    requires WellFormed(n) && InRange(all, |n.dest|) && fuel <= more && !ShutdownEach(n, all, fuel).OutOfFuel?
    ensures ShutdownEach(n, all, more) == ShutdownEach(n, all, fuel)
    decreases fuel, 0
  {
    hide Shutdown, ShutdownEach;
    ShutdownEachIs(n, all, fuel);
    ShutdownEachIs(n, all, more);
    if fuel > 0 && all != [] {
      ShutdownMore(n, all[0], fuel - 1, more - 1);
      var r := Shutdown(n, all[0], fuel - 1);
      if r.Done? {
        ShutdownEachMore(r.net, all[1..], fuel - 1, more - 1);
      }
    }
  }

  // ----- Live descriptors

  /** The number of live descriptors among the first `k`. */
  ghost function LiveBelow(desc: seq<Descriptor>, k: nat): nat
    requires k <= |desc|
  {
    if k == 0 then 0 else LiveBelow(desc, k - 1) + if desc[k - 1].NullDesc? then 0 else 1
  }

  ghost function Live(n: Network): nat {
    LiveBelow(n.desc, |n.desc|)
  }

  lemma {:induction false} LiveFewer(a: seq<Descriptor>, b: seq<Descriptor>, k: nat, i: nat)
    requires k <= |a| == |b| && forall j :: 0 <= j < |a| ==> b[j] == a[j] || b[j] == NullDesc
    ensures LiveBelow(b, k) <= LiveBelow(a, k)
    ensures i < k && !a[i].NullDesc? && b[i].NullDesc? ==> LiveBelow(b, k) < LiveBelow(a, k)
  {
    if k > 0 {
      LiveFewer(a, b, k - 1, i);
    }
  }

  /** Live descriptors only become fewer, and strictly fewer once one is nullified. */
  lemma {:induction false} EvolvesLive(n: Network, n': Network, i: nat)
    requires WellFormed(n) && Evolves(n, n') && n.Has(i)
    ensures Live(n') <= Live(n)
    ensures !n.desc[i].NullDesc? && n'.desc[i].NullDesc? ==> Live(n') < Live(n)
  {
    hide LiveBelow;
    LiveFewer(n.desc, n'.desc, |n.desc|, i);
  }

  // ----- Plugs without a cycle

  /** Every interface of a list that comes before `d` has a rank below a bound. */
  ghost predicate LowBefore(all: seq<nat>, d: nat, rank: nat -> nat, bound: nat) {
    all != [] && all[0] != d ==> rank(all[0]) < bound && LowBefore(all[1..], d, rank, bound)
  }

  /** The interfaces that are shut down because of `i` while its destination is still live have
      lower rank than `i`. */
  ghost predicate Ranked(n: Network, rank: nat -> nat)
    requires WellFormed(n)
  {
    forall i :: 0 <= i < |n.dest| ==>
      n.desc[n.dest[i]].ShutdownAll? ==> LowBefore(n.desc[n.dest[i]].all, n.dest[i], rank, rank(i))
  }

  lemma {:induction false} RankedKept(n: Network, n': Network, rank: nat -> nat)
    requires WellFormed(n) && WellFormed(n') && Evolves(n, n') && Ranked(n, rank)
    ensures Ranked(n', rank)
  {
    hide InRange, LowBefore;
  }

  /** Shutting down comes to an end if plugs and handlers can be ranked. */
  lemma {:induction false} ShutdownEnds(n: Network, i: nat, rank: nat -> nat) returns (fuel: nat)
    requires WellFormed(n) && n.Has(i) && i != NONE && Ranked(n, rank)
    ensures !Shutdown(n, i, fuel).OutOfFuel?
    decreases Live(Nullify(n, i)), rank(i), 2, 0
  {
    hide InRange, Ranked, Shutdown, Close, Unplug, Live;
    var n1 := Nullify(n, i);
    RankedKept(n, n1, rank);
    var f := CloseEnds(n1, i, rank);
    fuel := f + 1;
    ShutdownIs(n, i, fuel);
  }

  lemma {:induction false} CloseEnds(n: Network, i: nat, rank: nat -> nat) returns (fuel: nat)
    requires WellFormed(n) && n.Has(i) && Ranked(n, rank)
    ensures !Close(n, i, fuel).OutOfFuel?
    decreases Live(n), rank(i), 1, 0
  {
    hide InRange, Ranked, Close, Restart, ShutdownEach, Live, LowBefore;
    var d := n.dest[i];
    var n1 := Count(n, d, 1);
    var n2 := Deliver(n1, d);
    var f := 0;
    RankedKept(n, n2, rank);
    if n.desc[d].Default? {
      EvolvesTrans(n, n2, Nullify(n2, d));
      EvolvesLive(n, Nullify(n2, d), d);
      f := RestartEnds(n2, d, rank);
    } else if n.desc[d].ShutdownAll? {
      assert LowBefore(n.desc[d].all, d, rank, rank(i)) by { RankedAt(n, i, rank); }
      EvolvesLive(n, n2, d);
      f := ShutdownEachEnds(n2, n.desc[d].all, d, rank, n, rank(i));
    }
    fuel := f + 1;
    CloseIs(n, i, fuel);
  }

  lemma {:induction false} RankedAt(n: Network, i: nat, rank: nat -> nat)
    requires WellFormed(n) && Ranked(n, rank) && n.Has(i) && n.desc[n.dest[i]].ShutdownAll?
    ensures LowBefore(n.desc[n.dest[i]].all, n.dest[i], rank, rank(i))
  {
    hide InRange, LowBefore;
  }

  lemma {:induction false} RestartEnds(n: Network, i: nat, rank: nat -> nat) returns (fuel: nat)
    requires WellFormed(n) && n.Has(i) && i != NONE && Ranked(n, rank)
    ensures !Restart(n, i, fuel).OutOfFuel?
    decreases Live(Nullify(n, i)), rank(i), 3, 0
  {
    hide InRange, Ranked, Shutdown, Restart, Live;
    var f := ShutdownEnds(n, i, rank);
    fuel := f + 1;
    RestartIs(n, i, fuel);
  }

  /** The rest of a list, where state `n` has come from `start` and `d` was live then. */
  lemma {:induction false} ShutdownEachEnds(n: Network, all: seq<nat>, d: nat, rank: nat -> nat, start: Network,
                                            bound: nat)
    returns (fuel: nat)
    requires WellFormed(n) && InRange(all, |n.dest|) && Ranked(n, rank)
    requires WellFormed(start) && Evolves(start, n) && start.Has(d) && !start.desc[d].NullDesc?
    requires n.desc[d].NullDesc? || LowBefore(all, d, rank, bound)
    ensures !ShutdownEach(n, all, fuel).OutOfFuel?
    decreases Live(start), bound, 0, |all|
  {
    hide Ranked, Shutdown, ShutdownEach, Live;
    fuel := 1;
    if all != [] {
      var n1 := Nullify(n, all[0]);
      EvolvesTrans(start, n, n1);
      EvolvesLive(start, n1, d);
      assert n1.desc[d].NullDesc? || rank(all[0]) < bound;
      var f := ShutdownEnds(n, all[0], rank);
      var r := Shutdown(n, all[0], f);
      var g := 0;
      if r.Done? {
        RankedKept(n, r.net, rank);
        EvolvesTrans(start, n, r.net);
        g := ShutdownEachEnds(r.net, all[1..], d, rank, start, bound);
      }
      fuel := f + g + 1;
      ShutdownMore(n, all[0], f, f + g);
      if r.Done? {
        ShutdownEachMore(r.net, all[1..], g, f + g);
      }
    }
    ShutdownEachIs(n, all, fuel);
  }

  // ----- Without end

  /** The state in which the handler of the destination of `x` starts. */
  ghost function Told(n: Network, x: nat): (n': Network)
    requires WellFormed(n) && n.Has(x)
    ensures WellFormed(n') && Evolves(n, n')
  {
    Deliver(Count(Nullify(n, x), n.dest[x], 1), n.dest[x])
  }

  /** Shutting down `x` starts with shutting down the first interface of the object that it is
      plugged into. */
  lemma {:induction false} PassOn(n: Network, x: nat, fuel: nat)
    requires WellFormed(n) && n.Has(x) && x != NONE && n.dest[x] != x && Alive(n, x) && Alive(n, n.dest[x])
    requires n.desc[n.dest[x]].ShutdownAll? && n.desc[n.dest[x]].all != []
    ensures 0 < n.desc[n.dest[x]].all[0] < |n.dest|
    ensures fuel < 3 ==> Shutdown(n, x, fuel).OutOfFuel?
    ensures fuel >= 3 ==>
              var r := Shutdown(Told(n, x), n.desc[n.dest[x]].all[0], fuel - 3);
              r.OutOfFuel? ==> Shutdown(n, x, fuel) == r
  {
    hide Shutdown, Close, ShutdownEach, Evolves;
    var d, n1, n2 := n.dest[x], Nullify(n, x), Told(n, x);
    ShutdownIs(n, x, fuel);
    if fuel > 0 {
      CloseIs(n1, x, fuel - 1);
    }
    if fuel > 1 {
      assert InRange(n2.desc[d].all, |n2.dest|);
      ShutdownEachIs(n2, n.desc[d].all, fuel - 2);
    }
  }

  /** Position `k` of a cycle: the destination of one interface is live, and its handler starts
      with the next. */
  ghost predicate Link(n: Network, cycle: seq<nat>, k: nat)
    requires WellFormed(n) && k < |cycle|
  {
    var x, y := cycle[k], cycle[if k + 1 < |cycle| then k + 1 else 0];
    && 0 < x < |n.dest| && n.dest[x] !in cycle && Alive(n, x) && Alive(n, n.dest[x])
    && n.desc[n.dest[x]].ShutdownAll? && n.desc[n.dest[x]].all != [] && n.desc[n.dest[x]].all[0] == y
  }

  /** Around a cycle of such interfaces shutting down has no end. */
  lemma {:induction false} CycleDiverges(n: Network, cycle: seq<nat>, k: nat, fuel: nat)
    requires WellFormed(n) && k < |cycle| && forall j :: 0 <= j < |cycle| ==> Link(n, cycle, j)
    ensures 0 < cycle[k] < |n.dest| && Shutdown(n, cycle[k], fuel).OutOfFuel?
    decreases fuel
  {
    hide InRange, Shutdown, Told;
    assert Link(n, cycle, k);
    var x := cycle[k];
    PassOn(n, x, fuel);
    if fuel >= 3 {
      forall j | 0 <= j < |cycle| ensures Link(Told(n, x), cycle, j) {
        assert Link(n, cycle, j);
        LinkKept(n, x, cycle, j);
      }
      CycleDiverges(Told(n, x), cycle, if k + 1 < |cycle| then k + 1 else 0, fuel - 3);
    }
  }

  lemma {:induction false} LinkKept(n: Network, x: nat, cycle: seq<nat>, j: nat)
    requires WellFormed(n) && n.Has(x) && x in cycle && j < |cycle| && Link(n, cycle, j)
    ensures Link(Told(n, x), cycle, j)
  {
    hide InRange, Evolves;
    assert Told(n, x).dest == n.dest;
    assert n.dest[cycle[j]] != x;
  }

  /** Two objects that are plugged together twice, crosswise, shut each other down for ever. */
  lemma {:induction false} CrossedPlugsDiverge(n: Network, a1: nat, a2: nat, b1: nat, b2: nat, fuel: nat)
    requires WellFormed(n) && 0 < a1 < a2 < b1 < b2 < |n.dest|
    requires n.dest[a1] == b2 && n.dest[b2] == a1 && n.dest[a2] == b1 && n.dest[b1] == a2
    requires n.desc[a1] == n.desc[a2] == ShutdownAll([a1, a2]) && n.desc[b1] == n.desc[b2] == ShutdownAll([b1, b2])
    requires Alive(n, a1) && Alive(n, a2) && Alive(n, b1) && Alive(n, b2)
    ensures Shutdown(n, a1, fuel).OutOfFuel?
  {
    hide InRange, Shutdown;
    var cycle := [a1, b1];
    assert Link(n, cycle, 0) && Link(n, cycle, 1);
    CycleDiverges(n, cycle, 0, fuel);
  }

  // ----- Which handlers are safe under every plugging

  ghost predicate Ends(n: Network, i: nat)
    requires WellFormed(n) && 0 < i < |n.dest|
  {
    exists fuel: nat :: !Shutdown(n, i, fuel).OutOfFuel?
  }

  /** Every handler that shuts down anything starts with the interface that was told. */
  ghost predicate SelfFirst(desc: seq<Descriptor>) {
    forall d :: 0 <= d < |desc| ==> desc[d].ShutdownAll? && desc[d].all != [] ==> desc[d].all[0] == d
  }

  ghost predicate EndsPlugged(n: Network, dest: seq<nat>, i: nat) {
    var n' := n.(dest := dest);
    WellFormed(n') && 0 < i < |dest| ==> Ends(n', i)
  }

  lemma {:induction false} SelfFirstEnds(n: Network, i: nat)
    requires WellFormed(n) && 0 < i < |n.dest| && SelfFirst(n.desc)
    ensures Ends(n, i)
  {
    hide InRange, Shutdown;
    var rank: nat -> nat := x => 0;
    assert Ranked(n, rank);
    var fuel := ShutdownEnds(n, i, rank);
  }

  /** Shutting down ends however the interfaces are plugged, exactly if every handler starts with
      the interface that was told. */
  lemma {:induction false} EndsHoweverPlugged(n: Network)
    requires WellFormed(n) && forall o :: 0 <= o < |n.count| ==> n.count[o] >= 0
    ensures SelfFirst(n.desc) <==> forall dest: seq<nat>, i: nat :: EndsPlugged(n, dest, i)
  {
    hide InRange, Shutdown, Ends;
    if SelfFirst(n.desc) {
      forall dest: seq<nat>, i: nat ensures EndsPlugged(n, dest, i) {
        var n' := n.(dest := dest);
        if WellFormed(n') && 0 < i < |dest| {
          SelfFirstEnds(n', i);
        }
      }
    } else {
      var d :| 0 <= d < |n.desc| && n.desc[d].ShutdownAll? && n.desc[d].all != [] && n.desc[d].all[0] != d;
      var y := n.desc[d].all[0];
      assert 0 < y < |n.dest| by { FirstInRange(n, d); }
      var dest := seq(|n.dest|, i => if i == y then d else NONE);
      var n' := n.(dest := dest);
      assert WellFormed(n');
      assert !Ends(n', y) by { PluggedOutside(n', y, d); }
      assert !EndsPlugged(n, dest, y);
    }
  }

  lemma {:induction false} FirstInRange(n: Network, d: nat)
    requires WellFormed(n) && n.Has(d) && n.desc[d].ShutdownAll? && n.desc[d].all != []
    ensures 0 < n.desc[d].all[0] < |n.dest|
  {
    assert InRange(n.desc[d].all, |n.dest|);
  }

  lemma {:induction false} PluggedOutside(n: Network, y: nat, d: nat)
    requires WellFormed(n) && 0 < y < |n.dest| && n.Has(d) && d != y && n.dest[y] == d && Alive(n, y) && Alive(n, d)
    requires n.desc[d].ShutdownAll? && n.desc[d].all != [] && n.desc[d].all[0] == y
    ensures !Ends(n, y)
  {
    hide InRange, Shutdown;
    assert Link(n, [y], 0);
    forall fuel: nat ensures Shutdown(n, y, fuel).OutOfFuel? {
      CycleDiverges(n, [y], 0, fuel);
    }
  }
}
