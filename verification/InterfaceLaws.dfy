/** What closing does to two interfaces that are plugged into each other, down to every field. */
module InterfaceLaws {
  import opened Interfaces

  /** Closing towards an interface that ignores everything changes nothing. */
  lemma {:induction false} CloseIgnored(n: Network, i: nat, fuel: nat)
    requires WellFormed(n) && n.Has(i) && n.desc[n.dest[i]] == NullDesc && Alive(n, i) && Alive(n, n.dest[i])
    requires fuel > 0
    ensures Close(n, i, fuel) == Done(n)
  {
    hide Close, InRange, Evolves;
    CloseIs(n, i, fuel);
    CountBack(n, n.dest[i]);
  }

  lemma {:induction false} CountBack(n: Network, i: nat)
    requires WellFormed(n) && n.Has(i)
    ensures Count(Count(n, i, 1), i, -1) == n && (Alive(n, i) ==> Alive(Count(n, i, 1), i))
  {
    hide InRange;
    var o := n.owner[i];
    if o >= 0 {
      assert n.count[o := n.count[o] + 1][o := n.count[o]] == n.count;
    }
  }

  /** An interface of one object that is plugged into one of another. */
  ghost predicate Joined(n: Network, i: nat, d: nat) {
    WellFormed(n) && 0 < i < |n.dest| && 0 < d < |n.dest| && n.dest[i] == d
    && 0 <= n.owner[i] && 0 <= n.owner[d] && n.owner[i] != n.owner[d]
    && n.count[n.owner[i]] >= 0 && n.count[n.owner[d]] >= 0
  }

  /** Shutting down an interface whose peer ignores everything: only this end is blocked and unplugged, and
      one reference to the peer's object is dropped. */
  lemma {:induction false} ShutdownIgnored(n: Network, i: nat, d: nat, fuel: nat)
    requires Joined(n, i, d) && n.desc[d] == NullDesc && fuel > 1
    ensures Shutdown(n, i, fuel)
            == Done(Network(n.dest[i := 0], n.desc[i := NullDesc], n.owner, n.closes,
                            n.count[n.owner[d] := n.count[n.owner[d]] - 1]))
  {
    hide InRange, Close, Shutdown, Evolves;
    ShutdownIs(n, i, fuel);
    CloseIgnored(Nullify(n, i), i, fuel - 1);
  }

  /** The network after both ends have been unplugged, with the descriptors given and the peer told once more:
      each object has one reference less. */
  ghost function Parted(n: Network, i: nat, d: nat, desc: seq<Descriptor>): Network
    requires Joined(n, i, d)
  {
    var oi, od := n.owner[i], n.owner[d];
    Network(n.dest[i := 0][d := 0], desc, n.owner, n.closes[d := n.closes[d] + 1],
            n.count[oi := n.count[oi] - 1][od := n.count[od] - 1])
  }

  /** The peer has been told and has shut itself down towards an interface that is blocked. */
  lemma {:induction false} PeerShutDown(n: Network, i: nat, d: nat, fuel: nat)
    requires Joined(n, d, i) && n.desc[i] == NullDesc && fuel > 1
    ensures Shutdown(Deliver(Count(n, d, 1), d), d, fuel)
            == Done(Network(n.dest[d := 0], n.desc[d := NullDesc], n.owner, n.closes[d := n.closes[d] + 1],
                            n.count[n.owner[d] := n.count[n.owner[d]] + 1][n.owner[i] := n.count[n.owner[i]] - 1]))
  {
    hide InRange, Shutdown, Evolves;
    ShutdownIgnored(Deliver(Count(n, d, 1), d), d, i, fuel);
  }

  /** Closing towards an interface whose handler restarts it, or shuts down just it. */
  lemma {:induction false} CloseHeard(n: Network, i: nat, d: nat, fuel: nat)
    requires Joined(n, i, d) && Joined(n, d, i) && n.desc[i] == NullDesc && fuel > 4
    requires n.desc[d] == Default || n.desc[d] == ShutdownAll([d])
    ensures Close(n, i, fuel)
            == Done(Network(n.dest[d := 0], n.desc[d := if n.desc[d] == Default then Default else NullDesc], n.owner,
                            n.closes[d := n.closes[d] + 1], n.count[n.owner[i] := n.count[n.owner[i]] - 1]))
  {
    hide Shutdown, Evolves, Close, Restart, ShutdownEach;
    var oi, od := n.owner[i], n.owner[d];
    CloseIs(n, i, fuel);
    var n1 := Deliver(Count(n, d, 1), d);
    if n.desc[d] == Default {
      PeerShutDown(n, i, d, fuel - 2);
      RestartIs(n1, d, fuel - 1);
      assert n.desc[d := NullDesc][d := Default] == n.desc[d := Default];
    } else {
      PeerShutDown(n, i, d, fuel - 2);
      ShutdownEachIs(n1, [d], fuel - 1);
      ShutdownEachIs(Shutdown(n1, d, fuel - 2).net, [], fuel - 2);
      assert [d][1..] == [];
    }
    assert n.count[od := n.count[od] + 1][oi := n.count[oi] - 1][od := n.count[od]] == n.count[oi := n.count[oi] - 1];
  }

  /** Shutting down one of two interfaces that are plugged into each other, if the peer's handler restarts the
      peer or shuts down just it: both ends are unplugged, the peer is told once and stays usable exactly if it
      is restarted, and nothing else changes. */
  lemma {:induction false} ShutdownHeard(n: Network, i: nat, d: nat, fuel: nat)
    requires Joined(n, i, d) && Joined(n, d, i) && n.count[n.owner[i]] >= 1 && fuel > 5
    requires n.desc[d] == Default || n.desc[d] == ShutdownAll([d])
    ensures Shutdown(n, i, fuel)
            == Done(Parted(n, i, d, n.desc[i := NullDesc][d := if n.desc[d] == Default then Default else NullDesc]))
  {
    hide InRange, Shutdown, Evolves, Close;
    ShutdownIs(n, i, fuel);
    CloseHeard(Nullify(n, i), i, d, fuel - 1);
    assert n.dest[d := 0][i := 0] == n.dest[i := 0][d := 0];
  }

  /** Restarting does the same and leaves the interface itself usable. */
  lemma {:induction false} RestartHeard(n: Network, i: nat, d: nat, fuel: nat)
    requires Joined(n, i, d) && Joined(n, d, i) && n.count[n.owner[i]] >= 1 && fuel > 6
    requires n.desc[d] == Default || n.desc[d] == ShutdownAll([d])
    ensures Restart(n, i, fuel)
            == Done(Parted(n, i, d, n.desc[d := if n.desc[d] == Default then Default else NullDesc]))
  {
    hide InRange, Shutdown, Evolves, Restart;
    RestartIs(n, i, fuel);
    ShutdownHeard(n, i, d, fuel - 1);
    var x := if n.desc[d] == Default then Default else NullDesc;
    assert n.desc[i := NullDesc][d := x][i := n.desc[i]] == n.desc[d := x];
  }

  /** Plugging an interface of a live object into another: only its destination changes, the new one has one
      more reference and the old one has one less. */
  lemma {:induction false} PlugExactly(n: Network, i: nat, dest: nat, old_: nat)
    requires Joined(n, i, old_) && 0 < dest < |n.dest| && 0 <= n.owner[dest] && n.owner[dest] != n.owner[old_]
    requires n.count[n.owner[dest]] >= 0
    ensures Plug(n, i, dest)
            == Done(Network(n.dest[i := dest], n.desc, n.owner, n.closes,
                            n.count[n.owner[dest] := n.count[n.owner[dest]] + 1]
                                   [n.owner[old_] := n.count[n.owner[old_]] - 1]))
  {
    hide InRange, Evolves;
  }
}
