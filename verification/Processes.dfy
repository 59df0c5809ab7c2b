/** The run queue: processes take turns, and the one that runs is kept alive until its step ends. */
module Processes {

  /** What a process does while it runs: start or stop a process, or take or drop a reference to one. */
  datatype Act = Start(p: nat) | Stop(p: nat) | Take(p: nat) | Drop(p: nat)

  // ----- The queue as a value

  function Add(q: seq<nat>, p: nat): seq<nat> {
    if p in q then q else q + [p]
  }

  function Remove(q: seq<nat>, p: nat): seq<nat> {
    if q == [] then [] else if q[0] == p then q[1..] else [q[0]] + Remove(q[1..], p)
  }

  function Do(q: seq<nat>, act: Act): seq<nat> {
    match act
    case Start(p) => Add(q, p)
    case Stop(p) => Remove(q, p)
    case Take(_) => q
    case Drop(_) => q
  }

  function Apply(q: seq<nat>, acts: seq<Act>): seq<nat>
    decreases |acts|
  {
    if acts == [] then q else Apply(Do(q, acts[0]), acts[1..])
  }

  /** One call of the scheduler, in which the first process runs and does `acts`. */
  function Turn(q: seq<nat>, again: nat -> bool, acts: seq<Act>): seq<nat> {
    if q == [] then [] else Apply(if again(q[0]) then q[1..] + [q[0]] else q[1..], acts)
  }

  /** No process is queued twice. */
  ghost predicate Distinct(q: seq<nat>) {
    forall i, j :: 0 <= i < j < |q| ==> q[i] != q[j]
  }

  lemma {:induction false} RemoveIs(q: seq<nat>, p: nat)
    requires Distinct(q)
    ensures Distinct(Remove(q, p)) && p !in Remove(q, p)
    ensures forall x :: x != p ==> (x in Remove(q, p) <==> x in q)
    ensures |Remove(q, p)| <= |q|
  {
    if q != [] {
      assert forall x :: x in q[1..] ==> x != q[0];
      RemoveIs(q[1..], p);
      if q[0] != p {
        ConsDistinct(q[0], Remove(q[1..], p));
      }
    }
  }

  lemma {:induction false} ConsDistinct(x: nat, q: seq<nat>)
    requires Distinct(q) && x !in q
    ensures Distinct([x] + q)
  {
  }

  lemma {:induction false} RotateDistinct(q: seq<nat>)
    requires Distinct(q) && q != []
    ensures Distinct(q[1..] + [q[0]]) && forall x :: x in q[1..] + [q[0]] <==> x in q
  {
  }

  lemma {:induction false} AddDistinct(q: seq<nat>, p: nat)
    requires Distinct(q)
    ensures Distinct(Add(q, p)) && p in Add(q, p)
  {
  }

  lemma {:induction false} ApplyDistinct(q: seq<nat>, acts: seq<Act>)
    requires Distinct(q)
    ensures Distinct(Apply(q, acts))
    decreases |acts|
  {
    hide Distinct, Remove;
    if acts != [] {
      AddDistinct(q, acts[0].p);
      RemoveIs(q, acts[0].p);
      ApplyDistinct(Do(q, acts[0]), acts[1..]);
    }
  }

  /** Removing a process from a queue without duplicates leaves what is before and after it. */
  lemma {:induction false} RemoveAt(q: seq<nat>, p: nat)
    requires Distinct(q)
    ensures forall i :: 0 <= i < |q| && q[i] == p ==> Remove(q, p) == q[..i] + q[i + 1..]
  {
    forall i | 0 <= i < |q| && q[i] == p ensures Remove(q, p) == q[..i] + q[i + 1..] {
      if i > 0 {
        assert q[1..][i - 1] == p;
        RemoveAt(q[1..], p);
        assert q[..i] == [q[0]] + q[1..][..i - 1];
      }
    }
  }

  /** A process that does nothing goes to the end of the queue, or out of it. */
  lemma {:induction false} TurnAlone(q: seq<nat>, again: nat -> bool)
    requires q != []
    ensures Turn(q, again, []) == q[1..] + if again(q[0]) then [q[0]] else []
  {
  }

  /** What it does last comes last: starting puts a process at the end of the queue unless it is in it, stopping
      removes it, and references do not concern the queue. */
  lemma {:induction false} TurnLast(q: seq<nat>, again: nat -> bool, acts: seq<Act>, act: Act)
    requires q != []
    ensures var t, t' := Turn(q, again, acts), Turn(q, again, acts + [act]);
            && (act.Start? ==> t' == if act.p in t then t else t + [act.p])
            && (act.Stop? ==> t' == Remove(t, act.p))
            && (act.Take? || act.Drop? ==> t' == t)
  {
    ApplyLast(if again(q[0]) then q[1..] + [q[0]] else q[1..], acts, act);
  }

  lemma {:induction false} ApplyLast(q: seq<nat>, acts: seq<Act>, act: Act)
    ensures Apply(q, acts + [act]) == Do(Apply(q, acts), act)
    decreases |acts|
  {
    hide Do;
    if acts == [] {
      assert [] + [act] == [act] && [act][1..] == [];
    } else {
      assert (acts + [act])[1..] == acts[1..] + [act];
      ApplyLast(Do(q, acts[0]), acts[1..], act);
    }
  }

  /** No process is ever queued twice. */
  lemma {:induction false} TurnDistinct(q: seq<nat>, again: nat -> bool, acts: seq<Act>)
    requires Distinct(q)
    ensures Distinct(Turn(q, again, acts))
  {
    if q != [] {
      ApplyDistinct(if again(q[0]) then q[1..] + [q[0]] else q[1..], acts);
    }
  }

  // ----- Fairness

  /** Process `x` is queued with at most `k` others before it. */
  ghost predicate Within(q: seq<nat>, x: nat, k: nat) {
    exists i :: 0 <= i < |q| && i <= k && q[i] == x
  }

  lemma {:induction false} RemoveWithin(q: seq<nat>, p: nat, x: nat, k: nat)
    requires Within(q, x, k) && p != x
    ensures Within(Remove(q, p), x, k)
  {
    if q[0] == x {
      assert Remove(q, p)[0] == x;
    } else {
      var i :| 0 <= i < |q| && i <= k && q[i] == x;
      assert q[1..][i - 1] == x;
      if q[0] == p {
        assert Remove(q, p)[i - 1] == x;
      } else {
        RemoveWithin(q[1..], p, x, k - 1);
        var j :| 0 <= j < |Remove(q[1..], p)| && j <= k - 1 && Remove(q[1..], p)[j] == x;
        assert Remove(q, p)[j + 1] == x;
      }
    }
  }

  ghost predicate NeverStopped(acts: seq<Act>, x: nat) {
    forall i :: 0 <= i < |acts| ==> acts[i] != Stop(x)
  }

  /** Whatever others start or stop, nobody gets in front. */
  lemma {:induction false} ApplyWithin(q: seq<nat>, acts: seq<Act>, x: nat, k: nat)
    requires Within(q, x, k) && NeverStopped(acts, x)
    ensures Within(Apply(q, acts), x, k)
    decreases |acts|
  {
    hide Remove;
    if acts != [] {
      var q' := Do(q, acts[0]);
      if acts[0].Start? {
        var i :| 0 <= i < |q| && i <= k && q[i] == x;
        assert q'[i] == x;
      } else if acts[0].Stop? {
        assert acts[0] != Stop(x);
        RemoveWithin(q, acts[0].p, x, k);
      }
      ApplyWithin(q', acts[1..], x, k);
    }
  }

  /** Each turn brings a process that waits one place forward. */
  lemma {:induction false} TurnWithin(q: seq<nat>, again: nat -> bool, acts: seq<Act>, x: nat, k: nat)
    requires Within(q, x, k) && q[0] != x && NeverStopped(acts, x)
    ensures k > 0 && Within(Turn(q, again, acts), x, k - 1)
  {
    var i :| 0 <= i < |q| && i <= k && q[i] == x;
    var q' := if again(q[0]) then q[1..] + [q[0]] else q[1..];
    assert q'[i - 1] == x;
    ApplyWithin(q', acts, x, k - 1);
  }

  /** The queue after some turns. */
  function After(q: seq<nat>, again: nat -> bool, plan: seq<seq<Act>>, n: nat): seq<nat>
    requires n <= |plan|
  {
    if n == 0 then q else Turn(After(q, again, plan, n - 1), again, plan[n - 1])
  }

  /** A process that is queued with `k` others before it runs within `k + 1` turns, whatever the
      processes that run start or stop, unless it is stopped itself. */
  lemma {:induction false} Fair(q: seq<nat>, again: nat -> bool, plan: seq<seq<Act>>, x: nat, k: nat) returns (n: nat)
    requires Within(q, x, k) && k < |plan| && forall i :: 0 <= i < |plan| ==> NeverStopped(plan[i], x)
    ensures n <= k && After(q, again, plan, n) != [] && After(q, again, plan, n)[0] == x
  {
    hide Turn, Within, NeverStopped;
    n := 0;
    assert q != [] by { Queued(q, x, k); }
    while After(q, again, plan, n)[0] != x
      invariant n <= k && After(q, again, plan, n) != [] && Within(After(q, again, plan, n), x, k - n)
      decreases k - n
    {
      assert NeverStopped(plan[n], x);
      TurnWithin(After(q, again, plan, n), again, plan[n], x, k - n);
      n := n + 1;
      assert After(q, again, plan, n) != [] by { Queued(After(q, again, plan, n), x, k - n); }
    }
  }

  lemma {:induction false} Queued(q: seq<nat>, x: nat, k: nat)
    requires Within(q, x, k)
    ensures q != []
  {
  }

  // ----- References

  /** Somebody holds a process: the queue, the scheduler while it runs, or others. */
  ghost predicate Alive(q: seq<nat>, held: seq<nat>, current: int, p: nat) {
    p < |held| && (held[p] > 0 || p in q || p == current)
  }

  /** References of others after one has been taken or dropped. */
  ghost function Referenced(held: seq<nat>, act: Act): (held': seq<nat>)
    ensures |held'| == |held|
  {
    if act.p >= |held| then held
    else if act.Take? then held[act.p := held[act.p] + 1]
    else if act.Drop? && held[act.p] > 0 then held[act.p := held[act.p] - 1]
    else held
  }

  /** A process may start, stop and reference what somebody holds and drop what others hold, one after
      the other. */
  ghost predicate Allowed(acts: seq<Act>, q: seq<nat>, held: seq<nat>, current: int)
    decreases |acts|
  {
    acts == []
    || (Alive(q, held, current, acts[0].p) && (acts[0].Drop? ==> held[acts[0].p] > 0)
        && Allowed(acts[1..], Do(q, acts[0]), Referenced(held, acts[0]), current))
  }

  ghost function HeldAfter(held: seq<nat>, acts: seq<Act>): seq<nat>
    decreases |acts|
  {
    if acts == [] then held else HeldAfter(Referenced(held, acts[0]), acts[1..])
  }

  // ----- The queue in place

  /** The run queue with the reference count of each process.  A count is one less than the number
      of holders: the queue, if the process is in it, the scheduler, if it is running, and `held`
      others.  A process is destroyed when its count drops below zero, and never again. */
  class Scheduler {
    var queue: seq<nat>
    const count: array<int>
    const again: nat -> bool
    ghost var held: seq<nat>
    ghost var current: int
    ghost var destroyed: seq<nat>

    ghost predicate Valid()
      reads this, count
    {
      && Distinct(queue) && (forall i :: 0 <= i < |queue| ==> queue[i] < count.Length)
      && |held| == |destroyed| == count.Length && current < count.Length
      && (forall p :: 0 <= p < count.Length ==> count[p] + 1 == Holders(p))
      && (forall p :: 0 <= p < count.Length ==> destroyed[p] == if count[p] < 0 then 1 else 0)
    }

    ghost function Holders(p: nat): nat
      requires p < |held|
      reads this
    {
      held[p] + (if p in queue then 1 else 0) + (if p == current then 1 else 0)
    }

    constructor (processes: nat, again: nat -> bool)
      ensures Valid() && queue == [] && current == -1 && fresh(count) && count.Length == processes
      ensures forall p :: 0 <= p < processes ==> held[p] == 1
    {
      queue, current := [], -1;
      count := new int[processes](i => 0);
      this.again := again;
      held := seq(processes, i => 1);
      destroyed := seq(processes, i => 0);
    }

    /** Drop a reference that nobody accounts for any more. */
    method Put(p: nat)
      requires p < count.Length == |destroyed|
      modifies this`destroyed, count
      ensures count[..] == old(count[..])[p := old(count[p]) - 1]
      ensures destroyed == if old(count[p]) == 0 then old(destroyed)[p := old(destroyed)[p] + 1] else old(destroyed)
    {
      count[p] := count[p] - 1;
      if count[p] == -1 {
        destroyed := destroyed[p := destroyed[p] + 1];
      }
    }

    /** Queue a process unless it is queued already. */
    method ProcessAdd(p: nat)
      requires Valid() && Alive(queue, held, current, p)
      modifies this`queue, count
      ensures Valid() && queue == Add(old(queue), p)
      ensures queue == if p in old(queue) then old(queue) else old(queue) + [p]
    {
      if p !in queue {
        AddDistinct(queue, p);
        count[p] := count[p] + 1;
        queue := queue + [p];
      }
    }

    /** Take a process out of the queue if it is queued, which destroys it if nobody else holds it. */
    method ProcessDel(p: nat)
      requires Valid() && p < count.Length
      modifies this`queue, this`destroyed, count
      ensures Valid() && queue == Remove(old(queue), p) && p !in queue
      ensures p !in old(queue) ==> queue == old(queue)
      ensures forall i :: 0 <= i < |old(queue)| && old(queue)[i] == p ==> queue == old(queue)[..i] + old(queue)[i + 1..]
    {
      hide Distinct, Remove;
      RemoveAt(queue, p);
      RemoveIs(queue, p);
      if p in queue {
        queue := Remove(queue, p);
        Put(p);
        assert forall i :: 0 <= i < |queue| ==> queue[i] in queue;
      } else {
        RemoveNone(queue, p);
      }
    }

    /** Let the first process run.  The scheduler holds it throughout, so that it is not destroyed in
        the middle of its step even if it stops itself and drops the last other reference to itself;
        it is then destroyed at the end. */
    method Step(acts: seq<Act>)
      requires Valid() && current == -1
      requires queue != [] ==> Allowed(acts, if again(queue[0]) then queue[1..] + [queue[0]] else queue[1..], held,
               queue[0])
      modifies this`queue, this`held, this`current, this`destroyed, count
      ensures Valid() && current == -1
      ensures queue == if old(queue) == [] then old(queue) else Turn(old(queue), again, acts)
      ensures old(queue) != [] && acts == [] ==>
                queue == old(queue)[1..] + if again(old(queue)[0]) then [old(queue)[0]] else []
      ensures held == if old(queue) == [] then old(held) else HeldAfter(old(held), acts)
      ensures old(queue) != [] ==> (destroyed[old(queue)[0]] == 1 <==> Holders(old(queue)[0]) == 0)
    {
      hide Distinct, Apply, HeldAfter, Allowed;
      if queue == [] {
        return;
      }
      TurnAlone(queue, again);
      var p := queue[0];
      count[p], current := count[p] + 1, p;
      Advance();
      Execute(acts);
      current := -1;
      Put(p);
    }

    /** Move the first process to the end of the queue, or out of it. */
    method Advance()
      requires Valid() && queue != []
      modifies this`queue, this`destroyed, count
      ensures Valid() && queue == if again(old(queue)[0]) then old(queue)[1..] + [old(queue)[0]] else old(queue)[1..]
    {
      var p := queue[0];
      if again(p) {
        RotateDistinct(queue);
        queue := queue[1..] + [p];
      } else {
        assert Remove(queue, p) == queue[1..];
        ProcessDel(p);
      }
    }

    /** One thing that the running process does; it is not destroyed meanwhile. */
    method Perform(act: Act)
      requires Valid() && current >= 0 && Alive(queue, held, current, act.p) && (act.Drop? ==> held[act.p] > 0)
      modifies this`queue, this`held, this`destroyed, count
      ensures Valid() && queue == Do(old(queue), act) && held == Referenced(old(held), act)
      ensures count[current] >= 0 && destroyed[current] == 0
    {
      hide Remove, Distinct, Add;
      match act {
        case Start(p) => ProcessAdd(p);
        case Stop(p) => ProcessDel(p);
        case Take(p) =>
          held := Referenced(held, act);
          count[p] := count[p] + 1;
        case Drop(p) =>
          held := Referenced(held, act);
          Put(p);
      }
    }

    /** What the running process does, one thing after the other. */
    method Execute(acts: seq<Act>)
      requires Valid() && current >= 0 && Allowed(acts, queue, held, current)
      modifies this`queue, this`held, this`destroyed, count
      ensures Valid() && queue == Apply(old(queue), acts) && held == HeldAfter(old(held), acts)
    {
      hide Do, Referenced, Distinct, Alive;
      assert acts[0..] == acts;
      for i := 0 to |acts|
        invariant Valid() && Allowed(acts[i..], queue, held, current)
        invariant Apply(queue, acts[i..]) == Apply(old(queue), acts)
        invariant HeldAfter(held, acts[i..]) == HeldAfter(old(held), acts)
      {
        assert acts[i..][0] == acts[i] && acts[i..][1..] == acts[i + 1..];
        Perform(acts[i]);
      }
      assert acts[|acts|..] == [];
    }
  }

  lemma {:induction false} RemoveNone(q: seq<nat>, p: nat)
    requires p !in q
    ensures Remove(q, p) == q
  {
    if q != [] {
      RemoveNone(q[1..], p);
    }
  }
}
