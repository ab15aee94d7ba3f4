/**
 * `_drupal_shutdown_function` (includes/bootstrap.inc): runs the registered
 * shutdown callbacks by walking the shared `$callbacks` array with its
 * internal pointer, so that a callback registered by another callback while
 * the loop runs is still reached.
 *
 * What a callback does when invoked is outside the model except for the one
 * effect the loop observes: the callbacks it registers in turn through
 * `drupal_register_shutdown_function`, which appends them to the same array.
 * A callback is therefore a finite tree: its name and arguments, and the
 * callbacks it registers.
 */
module Shutdown {
  import opened Php
  import opened PhpArray

  /** A registered shutdown function: `$callback['callback']`, `$callback['arguments']`, and what it registers when run. */
  datatype Callback = Callback(callback: string, arguments: seq<string>, registers: seq<Callback>)

  /** The number of callbacks in `q`, counting those they register, transitively. */
  function Weight(q: seq<Callback>): nat
    decreases q
  {
    if q == [] then 0
    else
      assert q[0] in q;
      1 + Weight(q[0].registers) + Weight(q[1..])
  }

  lemma {:induction false} WeightAppend(a: seq<Callback>, b: seq<Callback>)
    ensures Weight(a + b) == Weight(a) + Weight(b)
    decreases |a|
  {
    if a == [] {
      assert a + b == b;
    } else {
      assert (a + b)[0] == a[0];
      assert (a + b)[1..] == a[1..] + b;
      WeightAppend(a[1..], b);
    }
  }

  /**
   * The order in which the callbacks pending in `q` run: first come, first
   * served, with the callbacks a callback registers queued behind everything
   * already pending.
   */
  function DispatchOrder(q: seq<Callback>): seq<Callback>
    decreases Weight(q)
  {
    if q == [] then []
    else
      WeightAppend(q[1..], q[0].registers);
      [q[0]] + DispatchOrder(q[1..] + q[0].registers)
  }

  /** The callbacks that the callbacks of `q` register, in registration order. */
  function Registered(q: seq<Callback>): seq<Callback> {
    if q == [] then [] else q[0].registers + Registered(q[1..])
  }

  /**
   * Dispatch runs, after the callbacks of `a`, exactly what running the
   * queue `b` followed by everything `a` registered would run.
   */
  lemma {:induction false} DispatchSplit(a: seq<Callback>, b: seq<Callback>)
    ensures DispatchOrder(a + b) == a + DispatchOrder(b + Registered(a))
    decreases |a|
  {
    if a == [] {
      assert a + b == b;
      assert b + Registered(a) == b;
    } else {
      var x, rest := a[0], a[1..];
      assert (a + b)[0] == x;
      assert (a + b)[1..] + x.registers == rest + (b + x.registers);
      DispatchSplit(rest, b + x.registers);
      assert b + x.registers + Registered(rest) == b + Registered(a);
    }
  }

  /**
   * The callbacks registered before the loop starts run first and in
   * registration order; after them run the callbacks they registered, again
   * in registration order.
   */
  lemma PendingRunFirst(q: seq<Callback>)
    ensures DispatchOrder(q) == q + DispatchOrder(Registered(q))
  {
    DispatchSplit(q, []);
    assert q + [] == q;
    assert [] + Registered(q) == Registered(q);
  }

  /** Every callback of `q` and, transitively, every callback they register, each once, in depth-first order. */
  function Forest(q: seq<Callback>): (r: seq<Callback>)
    ensures |r| == Weight(q)
    decreases q
  {
    if q == [] then []
    else
      assert q[0] in q;
      [q[0]] + Forest(q[0].registers) + Forest(q[1..])
  }

  lemma {:induction false} ForestAppend(a: seq<Callback>, b: seq<Callback>)
    ensures Forest(a + b) == Forest(a) + Forest(b)
    decreases |a|
  {
    if a == [] {
      assert a + b == b;
    } else {
      assert (a + b)[0] == a[0];
      assert (a + b)[1..] == a[1..] + b;
      ForestAppend(a[1..], b);
    }
  }

  /**
   * Dispatch runs every callback pending or registered along the way, and
   * each exactly once: as a multiset, what runs is every node of the
   * registration forest.
   */
  lemma {:induction false} DispatchRunsEveryCallback(q: seq<Callback>)
    ensures multiset(DispatchOrder(q)) == multiset(Forest(q))
    ensures |DispatchOrder(q)| == Weight(q)
    decreases Weight(q)
  {
    if q != [] {
      var q' := q[1..] + q[0].registers;
      WeightAppend(q[1..], q[0].registers);
      DispatchRunsEveryCallback(q');
      ForestAppend(q[1..], q[0].registers);
      assert DispatchOrder(q) == [q[0]] + DispatchOrder(q');
      assert Forest(q) == [q[0]] + Forest(q[0].registers) + Forest(q[1..]);
      calc {
        multiset(DispatchOrder(q));
        multiset([q[0]]) + multiset(Forest(q'));
        multiset([q[0]]) + multiset(Forest(q[1..])) + multiset(Forest(q[0].registers));
        multiset(Forest(q));
      }
    }
  }

  /** A callback that runs has every callback it registered run too, later. */
  lemma {:induction false} RegisteredCallbacksRun(q: seq<Callback>, i: nat, d: Callback)
    requires i < |DispatchOrder(q)| && d in DispatchOrder(q)[i].registers
    ensures exists j :: i < j < |DispatchOrder(q)| && DispatchOrder(q)[j] == d
    decreases Weight(q)
  {
    var r := DispatchOrder(q);
    var q' := q[1..] + q[0].registers;
    WeightAppend(q[1..], q[0].registers);
    assert r == [q[0]] + DispatchOrder(q');
    if i == 0 {
      PendingRunFirst(q');
      var k :| 0 <= k < |q[0].registers| && q[0].registers[k] == d;
      assert DispatchOrder(q')[|q[1..]| + k] == d;
      assert r[1 + |q[1..]| + k] == d;
    } else {
      RegisteredCallbacksRun(q', i - 1, d);
      var j :| i - 1 < j < |DispatchOrder(q')| && DispatchOrder(q')[j] == d;
      assert r[j + 1] == d;
    }
  }

  /** `$callbacks` is a list: the keys are 0, 1, 2, ... in order, as `$callbacks[] = ...` makes them. */
  ghost predicate IsList(e: seq<(int, Callback)>) {
    forall i :: 0 <= i < |e| ==> e[i].0 == i
  }

  /** The callbacks held in a list of entries, in order. */
  function Values(e: seq<(int, Callback)>): (vs: seq<Callback>)
    ensures |vs| == |e| && forall i :: 0 <= i < |e| ==> vs[i] == e[i].1
  {
    if e == [] then [] else [e[0].1] + Values(e[1..])
  }

  /** The callbacks still ahead of the array's internal pointer. */
  ghost function Pending(callbacks: OrderedArray<int, Callback>): seq<Callback>
    reads callbacks
    requires callbacks.Valid()
  {
    Values(callbacks.Entries())[callbacks.Cursor()..]
  }

  /** `drupal_register_shutdown_function`: `$callbacks[] = $callback`, appended under the next integer key. */
  method RegisterShutdownFunction(callbacks: OrderedArray<int, Callback>, c: Callback)
    requires callbacks.Valid() && IsList(callbacks.Entries())
    modifies callbacks
    ensures callbacks.Valid() && IsList(callbacks.Entries())
    ensures Values(callbacks.Entries()) == Values(old(callbacks.Entries())) + [c]
    ensures callbacks.Cursor() == old(callbacks.Cursor())
  {
    ghost var e := callbacks.Entries();
    var n := |callbacks.Entries()|;
    assert IndexOf(e, n) == |e|;
    callbacks.Set(n, c);
    assert callbacks.Entries() == e + [(n, c)];
    assert Values(e + [(n, c)]) == Values(e) + [c];
  }

  /** `call_user_func_array($callback['callback'], $callback['arguments'])`, seen through what it registers. */
  method Invoke(callbacks: OrderedArray<int, Callback>, c: Callback)
    requires callbacks.Valid() && IsList(callbacks.Entries())
    modifies callbacks
    ensures callbacks.Valid() && IsList(callbacks.Entries())
    ensures Values(callbacks.Entries()) == Values(old(callbacks.Entries())) + c.registers
    ensures callbacks.Cursor() == old(callbacks.Cursor())
  {
    ghost var vs0, c0 := Values(callbacks.Entries()), callbacks.Cursor();
    assert c.registers[..0] == [];
    for k := 0 to |c.registers|
      invariant Appended(callbacks, vs0, c0, c.registers[..k])
    {
      RegisterNext(callbacks, vs0, c0, c.registers, k);
    }
    assert c.registers[..|c.registers|] == c.registers;
  }

  /** One pass of `Invoke`'s loop: registering `regs[k]` extends what was added by it. */
  method RegisterNext(callbacks: OrderedArray<int, Callback>, ghost vs0: seq<Callback>, ghost c0: nat, regs: seq<Callback>, k: nat)
    requires k < |regs| && Appended(callbacks, vs0, c0, regs[..k])
    modifies callbacks
    ensures Appended(callbacks, vs0, c0, regs[..k + 1])
  {
    RegisterShutdownFunction(callbacks, regs[k]);
    assert regs[..k + 1] == regs[..k] + [regs[k]];
    assert vs0 + regs[..k] + [regs[k]] == vs0 + regs[..k + 1];
  }

  /** `$callbacks` is still a list, holding `vs0` followed by `added`, with the pointer at `c0`. */
  ghost predicate Appended(callbacks: OrderedArray<int, Callback>, vs0: seq<Callback>, c0: nat, added: seq<Callback>)
    reads callbacks
  {
    && callbacks.Valid() && IsList(callbacks.Entries())
    && Values(callbacks.Entries()) == vs0 + added
    && callbacks.Cursor() == c0
  }

  /**
   * The loop's state: `$callbacks` is still a list, and `invoked` is what ran
   * since the loop started with the callbacks `vs0` and the pointer at `c0`.
   */
  ghost predicate Progress(callbacks: OrderedArray<int, Callback>, vs0: seq<Callback>, c0: nat, invoked: seq<Callback>)
    reads callbacks
  {
    && callbacks.Valid() && IsList(callbacks.Entries())
    && RunSoFar(vs0, c0, Values(callbacks.Entries()), callbacks.Cursor(), invoked)
  }

  /** What is left to run: the callbacks ahead of the pointer and all they will register. */
  ghost function Remaining(callbacks: OrderedArray<int, Callback>): nat
    reads callbacks
    requires callbacks.Valid()
  {
    Weight(Pending(callbacks))
  }

  /** One pass of the loop body: call the callback under the pointer, then `next($callbacks)`. */
  method RunCurrent(callbacks: OrderedArray<int, Callback>, ghost vs0: seq<Callback>, ghost c0: nat, ghost invoked: seq<Callback>)
    returns (ran: Callback)
    requires Progress(callbacks, vs0, c0, invoked) && callbacks.Current().Some?
    modifies callbacks
    ensures ran == old(callbacks.Current()).value
    ensures Progress(callbacks, vs0, c0, invoked + [ran])
    ensures Values(callbacks.Entries()) == Values(old(callbacks.Entries())) + ran.registers
    ensures callbacks.Cursor() == old(callbacks.Cursor()) + 1
    ensures Remaining(callbacks) < old(Remaining(callbacks))
  {
    ghost var vs, c := Values(callbacks.Entries()), callbacks.Cursor();
    ran := callbacks.Current().value;
    Invoke(callbacks, ran);
    callbacks.Next();
    LoopStep(vs0, c0, vs, c, invoked, Values(callbacks.Entries()));
  }

  /**
   * The dispatch loop: `while ($callback = current($callbacks))`, run it,
   * `next($callbacks)`. It runs the callbacks ahead of the pointer in
   * `DispatchOrder`, including every callback registered while it runs; the
   * array only grows, the callbacks run are exactly those from the starting
   * pointer to the end of the final array, in array order, and the pointer
   * is left past the end.
   */
  method DrupalShutdownFunction(callbacks: OrderedArray<int, Callback>) returns (invoked: seq<Callback>)
    requires callbacks.Valid() && IsList(callbacks.Entries())
    modifies callbacks
    ensures callbacks.Valid() && IsList(callbacks.Entries())
    ensures invoked == DispatchOrder(old(Pending(callbacks)))
    ensures multiset(invoked) == multiset(Forest(old(Pending(callbacks))))
    ensures Values(old(callbacks.Entries())) <= Values(callbacks.Entries())
    ensures invoked == Values(callbacks.Entries())[old(callbacks.Cursor())..]
    ensures callbacks.Current() == None
  {
    invoked := [];
    ghost var vs0 := Values(callbacks.Entries());
    ghost var c0 := callbacks.Cursor();
    var callback := callbacks.Current();
    while callback.Some?
      invariant Progress(callbacks, vs0, c0, invoked) && callback == callbacks.Current()
      decreases Remaining(callbacks)
    {
      var ran := RunCurrent(callbacks, vs0, c0, invoked);
      invoked := invoked + [ran];
      callback := callbacks.Current();
    }
    RunDone(vs0, c0, Values(callbacks.Entries()), callbacks.Cursor(), invoked);
    DispatchRunsEveryCallback(vs0[c0..]);
  }

  /**
   * The loop's invariant over the callbacks before it started (`vs0`, pointer
   * `c0`) and now (`vs`, pointer `c`): the array only grew, the callbacks
   * between the two pointers are those invoked, and invoking what is still
   * pending completes the dispatch order.
   */
  ghost predicate RunSoFar(vs0: seq<Callback>, c0: nat, vs: seq<Callback>, c: nat, invoked: seq<Callback>) {
    && c0 <= c <= |vs| && vs0 <= vs
    && invoked == vs[c0..c]
    && c0 <= |vs0| && invoked + DispatchOrder(vs[c..]) == DispatchOrder(vs0[c0..])
  }

  /** When the pointer has run off the end, everything invoked is the whole dispatch order. */
  lemma RunDone(vs0: seq<Callback>, c0: nat, vs: seq<Callback>, c: nat, invoked: seq<Callback>)
    requires RunSoFar(vs0, c0, vs, c, invoked) && c == |vs|
    ensures invoked == DispatchOrder(vs0[c0..]) && invoked == vs[c0..]
  {
    assert vs[c..] == [];
  }

  /** One turn of the dispatch loop: the callback under the pointer runs, what it registers is appended, the pointer moves on. */
  lemma LoopStep(vs0: seq<Callback>, c0: nat, vs: seq<Callback>, c: nat, invoked: seq<Callback>, vs': seq<Callback>)
    requires RunSoFar(vs0, c0, vs, c, invoked) && c < |vs| && vs' == vs + vs[c].registers
    ensures RunSoFar(vs0, c0, vs', c + 1, invoked + [vs[c]])
    ensures Weight(vs'[c + 1..]) < Weight(vs[c..])
  {
    var q := vs[c..];
    assert vs'[c + 1..] == q[1..] + q[0].registers;
    assert vs'[c0..c + 1] == vs[c0..c] + [vs[c]];
    DispatchStep(q, invoked, vs0[c0..]);
  }

  /** One turn of the dispatch loop on the queue: the head runs and what it registers joins the back. */
  lemma DispatchStep(q: seq<Callback>, invoked: seq<Callback>, q0: seq<Callback>)
    requires q != [] && invoked + DispatchOrder(q) == DispatchOrder(q0)
    ensures (invoked + [q[0]]) + DispatchOrder(q[1..] + q[0].registers) == DispatchOrder(q0)
    ensures Weight(q[1..] + q[0].registers) < Weight(q)
  {
    WeightAppend(q[1..], q[0].registers);
    var rest := DispatchOrder(q[1..] + q[0].registers);
    assert DispatchOrder(q) == [q[0]] + rest;
    assert invoked + ([q[0]] + rest) == (invoked + [q[0]]) + rest;
  }
}
