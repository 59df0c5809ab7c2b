/** Object interfaces and reference counts.

    An interface is plugged into another, its destination.  Closing an interface runs the close
    handler of its destination, and handlers close further interfaces, possibly the one that
    started it.  `Network` is the state of all interfaces and counters at one moment, and the
    functions below say what each operation makes of it; `fuel` bounds the depth of recursion,
    which the program does not, and `OutOfFuel` gives the state in which the bound was reached.
  */
module Interfaces {

  /** What an interface does when it is told that its peer closes: nothing, restart itself, or shut
      down all interfaces of its object in some order. */
  datatype Descriptor = NullDesc | Default | ShutdownAll(all: seq<nat>)

  /** Interfaces and objects are numbered, and interface 0 is the null interface.  For each
      interface: its destination, its descriptor, the object that it belongs to or -1, and how many
      closes it has handled.  For each object: its reference count. */
  datatype Network = Network(dest: seq<nat>, desc: seq<Descriptor>, owner: seq<int>, closes: seq<nat>, count: seq<int>)
  {
    ghost predicate Has(i: nat) {
      i < |dest|
    }
  }

  const NONE: nat := 0

  ghost predicate InRange(all: seq<nat>, bound: nat) {
    forall k :: 0 <= k < |all| ==> 0 < all[k] < bound
  }

  ghost predicate WellFormed(n: Network) {
    && |n.dest| == |n.desc| == |n.owner| == |n.closes| > 0
    && n.dest[NONE] == NONE && n.desc[NONE] == NullDesc && n.owner[NONE] == -1
    && (forall i :: 0 <= i < |n.dest| ==> n.dest[i] < |n.dest|)
    && (forall i :: 0 <= i < |n.owner| ==> -1 <= n.owner[i] < |n.count|)
    && (forall i :: 0 <= i < |n.desc| ==> n.desc[i].ShutdownAll? ==> InRange(n.desc[i].all, |n.dest|))
  }

  /** What every operation keeps: interfaces are only unplugged and descriptors only nullified. */
  ghost predicate Evolves(n: Network, n': Network) {
    && |n'.dest| == |n.dest| && |n'.desc| == |n.desc| && |n'.closes| == |n.closes| && |n'.count| == |n.count|
      && n'.owner == n.owner
    && (forall i :: 0 <= i < |n.dest| ==> n'.dest[i] == n.dest[i] || n'.dest[i] == NONE)
    && (forall i :: 0 <= i < |n.desc| ==> n'.desc[i] == n.desc[i] || n'.desc[i] == NullDesc)
    && (forall i :: 0 <= i < |n.closes| ==> n.closes[i] <= n'.closes[i])
  }

  lemma {:induction false} EvolvesTrans(a: Network, b: Network, c: Network)
    requires Evolves(a, b) && Evolves(b, c)
    ensures Evolves(a, c)
  {
  }

  lemma {:induction false} EvolvesWellFormed(n: Network, n': Network)
    requires WellFormed(n) && Evolves(n, n')
    ensures WellFormed(n')
  {
    hide InRange;
  }

  /** The end of an operation: recursion too deep, in some state, a freed object touched, or a new
      state. */
  datatype Outcome = OutOfFuel(net: Network) | Freed | Done(net: Network)

  /** The object that an interface belongs to has not been freed. */
  ghost predicate Alive(n: Network, i: nat)
    requires WellFormed(n) && n.Has(i)
  {
    n.owner[i] >= 0 ==> n.count[n.owner[i]] >= 0
  }

  // ----- Single steps

  /** Take or drop references to the object of an interface. */
  ghost function Count(n: Network, i: nat, k: int): (n': Network)
    requires WellFormed(n) && n.Has(i)
    ensures WellFormed(n') && Evolves(n, n')
  {
    if n.owner[i] < 0 then n else n.(count := n.count[n.owner[i] := n.count[n.owner[i]] + k])
  }

  ghost function Nullify(n: Network, i: nat): (n': Network)
    requires WellFormed(n) && n.Has(i)
    ensures WellFormed(n') && Evolves(n, n')
  {
    n.(desc := n.desc[i := NullDesc])
  }

  ghost function Deliver(n: Network, i: nat): (n': Network)
    requires WellFormed(n) && n.Has(i)
    ensures WellFormed(n') && Evolves(n, n')
  {
    n.(closes := n.closes[i := n.closes[i] + 1])
  }

  /** Plug an interface into another: the new destination is referenced before the old one is
      dropped. */
  ghost function Plug(n: Network, i: nat, dest: nat): (r: Outcome)
    requires WellFormed(n) && n.Has(i) && n.Has(dest) && i != NONE
    ensures !r.OutOfFuel? && (r.Done? ==> WellFormed(r.net))
  {
    var n1 := Count(n, dest, 1);
    if !Alive(n, i) || !Alive(n, dest) || !Alive(n1, n.dest[i]) then Freed else
      var n2 := Count(n1, n.dest[i], -1);
      Done(n2.(dest := n2.dest[i := dest]))
  }

  ghost function Unplug(n: Network, i: nat): (r: Outcome)
    requires WellFormed(n) && n.Has(i) && i != NONE
    ensures !r.OutOfFuel?
    ensures r.Done? ==> WellFormed(r.net) && Evolves(n, r.net) && r.net.dest[i] == NONE && r.net.desc == n.desc
  {
    Plug(n, i, NONE)
  }

  // ----- Closing

  /** Tell the destination of an interface that it closes. */
  ghost function Close(n: Network, i: nat, fuel: nat): (r: Outcome)
    requires WellFormed(n) && n.Has(i)
    ensures r.Done? ==> WellFormed(r.net) && Evolves(n, r.net)
    decreases fuel
  {
    if fuel == 0 then OutOfFuel(n) else
      var d := n.dest[i];
      if !Alive(n, i) || !Alive(n, d) then Freed else
        var n1 := Count(n, d, 1);
        var r := if n.desc[d].NullDesc? then Done(n1)
                 else if n.desc[d].Default? then Restart(Deliver(n1, d), d, fuel - 1)
                 else ShutdownEach(Deliver(n1, d), n.desc[d].all, fuel - 1);
        if !r.Done? then r
        else if !Alive(r.net, d) then Freed
        else Done(Count(r.net, d, -1))
  }

  /** Shut down an interface: block its operations, close it and unplug it. */
  ghost function Shutdown(n: Network, i: nat, fuel: nat): (r: Outcome)
    requires WellFormed(n) && n.Has(i) && i != NONE
    ensures r.Done? ==> WellFormed(r.net) && Evolves(n, r.net) && r.net.dest[i] == NONE && r.net.desc[i] == NullDesc
    decreases fuel
  {
    if fuel == 0 then OutOfFuel(n)
    else if !Alive(n, i) then Freed else
      var r := Close(Nullify(n, i), i, fuel - 1);
      if r.Done? then Unplug(r.net, i) else r
  }

  /** Shut down an interface and then let it operate again. */
  ghost function Restart(n: Network, i: nat, fuel: nat): (r: Outcome)
    requires WellFormed(n) && n.Has(i) && i != NONE
    ensures r.Done? ==> WellFormed(r.net) && Evolves(n, r.net) && r.net.dest[i] == NONE && r.net.desc[i] == n.desc[i]
    decreases fuel
  {
    if fuel == 0 then OutOfFuel(n)
    else if !Alive(n, i) then Freed else
      var r := Shutdown(n, i, fuel - 1);
      if !r.Done? then r
      else if !Alive(r.net, i) then Freed
      else Done(r.net.(desc := r.net.desc[i := n.desc[i]]))
  }

  /** Shut down one interface after the other. */
  ghost function ShutdownEach(n: Network, all: seq<nat>, fuel: nat): (r: Outcome)
    requires WellFormed(n) && InRange(all, |n.dest|)
    ensures r.Done? ==> WellFormed(r.net) && Evolves(n, r.net)
    ensures r.Done? ==> forall k :: 0 <= k < |all| ==> r.net.dest[all[k]] == NONE && r.net.desc[all[k]] == NullDesc
    decreases fuel
  {
    if fuel == 0 then OutOfFuel(n)
    else if all == [] then Done(n) else
      var r := Shutdown(n, all[0], fuel - 1);
      if !r.Done? then r else
        var r' := ShutdownEach(r.net, all[1..], fuel - 1);
        if !r'.Done? then r' else
          EvolvesTrans(n, r.net, r'.net);
          assert forall k :: 0 <= k < |all| ==> all[k] == all[0] || all[k] == all[1..][k - 1];
          r'
  }

  // ----- One level of recursion

  lemma {:induction false} ShutdownIs(n: Network, i: nat, fuel: nat)
    requires WellFormed(n) && n.Has(i) && i != NONE
    ensures Shutdown(n, i, fuel) ==
            if fuel == 0 then OutOfFuel(n)
            else if !Alive(n, i) then Freed else
              var r := Close(Nullify(n, i), i, fuel - 1);
              if r.Done? then Unplug(r.net, i) else r
  {
    hide Close, Evolves, InRange;
  }

  /** What the handler of an interface does. */
  ghost function Handle(n: Network, d: nat, fuel: nat): (r: Outcome)
    requires WellFormed(n) && n.Has(d)
    ensures r.Done? ==> WellFormed(r.net) && Evolves(n, r.net)
  {
    if n.desc[d].NullDesc? then Done(n)
    else if n.desc[d].Default? then Restart(Deliver(n, d), d, fuel)
    else ShutdownEach(Deliver(n, d), n.desc[d].all, fuel)
  }

  lemma {:induction false} CloseIs(n: Network, i: nat, fuel: nat)
    requires WellFormed(n) && n.Has(i)
    ensures Close(n, i, fuel) ==
            if fuel == 0 then OutOfFuel(n) else
              var d := n.dest[i];
              if !Alive(n, i) || !Alive(n, d) then Freed else
                var r := Handle(Count(n, d, 1), d, fuel - 1);
                if !r.Done? then r
                else if !Alive(r.net, d) then Freed
                else Done(Count(r.net, d, -1))
  {
    hide Restart, ShutdownEach, InRange;
  }

  lemma {:induction false} RestartIs(n: Network, i: nat, fuel: nat)
    requires WellFormed(n) && n.Has(i) && i != NONE
    ensures Restart(n, i, fuel) ==
            if fuel == 0 then OutOfFuel(n)
            else if !Alive(n, i) then Freed else
              var r := Shutdown(n, i, fuel - 1);
              if !r.Done? then r
              else if !Alive(r.net, i) then Freed
              else Done(r.net.(desc := r.net.desc[i := n.desc[i]]))
  {
    hide Shutdown, InRange;
  }

  lemma {:induction false} ShutdownEachIs(n: Network, all: seq<nat>, fuel: nat)
    requires WellFormed(n) && InRange(all, |n.dest|)
    ensures ShutdownEach(n, all, fuel) ==
            if fuel == 0 then OutOfFuel(n)
            else if all == [] then Done(n) else
              var r := Shutdown(n, all[0], fuel - 1);
              if r.Done? then ShutdownEach(r.net, all[1..], fuel - 1) else r
  {
    hide Shutdown;
  }
}
