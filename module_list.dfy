/**
 * The dependency worklists of `module_enable` and `module_disable`
 * (includes/module.inc). Both turn the requested module names into an
 * associative array `name => weight` with `array_flip(array_values(...))`
 * and then walk it with its internal pointer: read the key, move the
 * pointer on, and only then look at the module. The body may `unset` the
 * module just read, or give it its weight and append the modules it pulls in
 * (dependencies when enabling, dependents when disabling), which the walk
 * must still reach.
 *
 * Everything the body does besides that is outside the model; what it
 * decides for a module found in `$module_data` is the parameter `step`.
 */
module ModuleList {
  import opened Php
  import opened PhpArray

  /** What the rest of the loop body decides for a module present in `$module_data`. */
  datatype Visit =
    | Drop                                      // `unset($module_list[$module]); continue;`
    | Keep(weight: int, pulls: seq<string>)     // `$module_list[$module] = weight;` then queue each pulled module

  /** One pass of the loop body for the module just read. */
  datatype Action = Abort | Do(visit: Visit)

  predicate Kept(a: Action) {
    a.Do? && a.visit.Keep?
  }

  /** The outcome of a walk: whether it ran to the end, the final `$module_list`, and the modules read, in order. */
  datatype Run = Run(ok: bool, list: seq<(string, int)>, visited: seq<string>)

  /** The walk `r`, preceded by the modules `visited` already read. */
  function Then(visited: seq<string>, r: Run): Run {
    Run(r.ok, r.list, visited + r.visited)
  }

  /** The names in order of first occurrence, every repeat dropped. */
  function Dedup(names: seq<string>): (r: seq<string>)
    ensures forall n :: n in r <==> n in names
    ensures forall i, j :: 0 <= i < j < |r| ==> r[i] != r[j]
  {
    if names == [] then []
    else
      var init, last := names[..|names| - 1], names[|names| - 1];
      assert names == init + [last];
      if last in init then Dedup(init) else Dedup(init) + [last]
  }

  /** Names given without repeats come out of `Dedup` unchanged. */
  lemma {:induction false} DedupDistinct(names: seq<string>)
    requires forall i, j :: 0 <= i < j < |names| ==> names[i] != names[j]
    ensures Dedup(names) == names
  {
    if names != [] {
      var init, last := names[..|names| - 1], names[|names| - 1];
      DedupDistinct(init);
      assert last !in init by {
        forall i | 0 <= i < |init| ensures init[i] != last {
          assert init[i] == names[i];
        }
      }
      assert names == init + [last];
    }
  }

  /**
   * `e` is `array_flip(array_values($names))`: each name once, in order of
   * first occurrence, and mapped to the index of its last occurrence.
   */
  ghost predicate IsFlipOf(e: seq<(string, int)>, names: seq<string>) {
    && DistinctKeys(e)
    && KeysOf(e) == Dedup(names)
    && forall i :: 0 <= i < |e| ==>
         && 0 <= e[i].1 < |names| && names[e[i].1] == e[i].0
         && forall j :: e[i].1 < j < |names| ==> names[j] != e[i].0
  }

  /** `array_flip` reads the names in order: the next name is assigned its index. */
  lemma FlipExtend(e: seq<(string, int)>, init: seq<string>, last: string)
    requires IsFlipOf(e, init)
    ensures IsFlipOf(Assign(e, last, |init|), init + [last])
  {
    var names := init + [last];
    var r := Assign(e, last, |init|);
    AssignKeepsKeysUnique(e, last, |init|);
    AssignKeys(e, last, |init|);
    assert names[..|names| - 1] == init;
    assert last in KeysOf(e) <==> last in init;
    forall i | 0 <= i < |r|
      ensures && 0 <= r[i].1 < |names| && names[r[i].1] == r[i].0
              && forall j :: r[i].1 < j < |names| ==> names[j] != r[i].0
    {
      if r[i].0 == last {
        assert i == IndexOf(r, last);
      } else {
        assert r[i] == e[i];
        forall j | r[i].1 < j < |names| ensures names[j] != r[i].0 {
          if j < |init| {
            assert names[j] == init[j];
          }
        }
      }
    }
  }

  /**
   * `array_flip(array_values($names))`: each name once, in order of first
   * occurrence, mapped to the index of its last occurrence.
   */
  function Flip(names: seq<string>): (e: seq<(string, int)>)
    ensures IsFlipOf(e, names)
    ensures DistinctKeys(e) && KeysOf(e) == Dedup(names)
    ensures forall n :: n in KeysOf(e) <==> n in names
  {
    if names == [] then []
    else
      var init, last := names[..|names| - 1], names[|names| - 1];
      var e := Flip(init);
      FlipExtend(e, init, last);
      assert names == init + [last];
      Assign(e, last, |names| - 1)
  }

  /** `if (!isset($module_list[$p])) $module_list[$p] = 0;` */
  function QueueOne(e: seq<(string, int)>, p: string): seq<(string, int)> {
    if IndexOf(e, p) < |e| then e else e + [(p, 0)]
  }

  /** Each pulled module `p`, in order, queued with `QueueOne`. */
  function QueuePulls(e: seq<(string, int)>, pulls: seq<string>): seq<(string, int)>
    decreases |pulls|
  {
    if pulls == [] then e else QueuePulls(QueueOne(e, pulls[0]), pulls[1..])
  }

  /** Queueing one module appends it when absent and otherwise changes nothing; either way it is then in the list. */
  lemma QueueOneAppends(e: seq<(string, int)>, p: string)
    requires DistinctKeys(e)
    ensures var e1 := QueueOne(e, p);
      && DistinctKeys(e1) && |e| <= |e1| && e1[..|e|] == e && p in KeysOf(e1)
      && forall i :: |e| <= i < |e1| ==> e1[i].0 == p
  {
    AssignKeepsKeysUnique(e, p, 0);
    if IndexOf(e, p) < |e| {
      assert KeysOf(e)[IndexOf(e, p)] == p;
    } else {
      assert Assign(e, p, 0) == QueueOne(e, p);
      assert KeysOf(QueueOne(e, p))[|e|] == p;
    }
  }

  lemma KeysOfPrefix(a: seq<(string, int)>, b: seq<(string, int)>)
    requires |a| <= |b| && b[..|a|] == a
    ensures forall k :: k in KeysOf(a) ==> k in KeysOf(b)
  {
    forall k | k in KeysOf(a) ensures k in KeysOf(b) {
      var j :| 0 <= j < |a| && KeysOf(a)[j] == k;
      assert b[j] == b[..|a|][j] == a[j];
      assert KeysOf(b)[j] == k;
    }
  }

  /** Queueing only appends, keeps the keys distinct, and leaves every pulled module in the list. */
  lemma {:induction false} QueuePullsAppends(e: seq<(string, int)>, pulls: seq<string>)
    requires DistinctKeys(e)
    ensures var r := QueuePulls(e, pulls);
      && DistinctKeys(r) && |e| <= |r| && r[..|e|] == e
      && (forall p :: p in pulls ==> p in KeysOf(r))
      && (forall i :: |e| <= i < |r| ==> r[i].0 in pulls)
    decreases |pulls|
  {
    if pulls != [] {
      var e1 := QueueOne(e, pulls[0]);
      QueueOneAppends(e, pulls[0]);
      QueuePullsAppends(e1, pulls[1..]);
      var r := QueuePulls(e1, pulls[1..]);
      assert r[..|e1|][..|e|] == r[..|e|];
      KeysOfPrefix(e1, r);
      forall q | q in pulls ensures q in KeysOf(r) {
        if q != pulls[0] {
          assert q in pulls[1..];
        }
      }
      forall i | |e| <= i < |r| ensures r[i].0 in pulls {
        if i < |e1| {
          assert r[i] == r[..|e1|][i] == e1[i];
        } else {
          assert r[i].0 in pulls[1..];
        }
      }
    }
  }

  /** The names before the cursor: the modules already read and kept. */
  ghost function KeysBefore(e: seq<(string, int)>, c: nat): set<string>
    requires c <= |e|
  {
    set i | 0 <= i < c :: e[i].0
  }

  /** What holds of the list whenever the loop tests `key($module_list)`. */
  ghost predicate DrainState(e: seq<(string, int)>, c: nat, act: string -> Action, keepable: set<string>) {
    && c <= |e|
    && DistinctKeys(e)
    && (forall i :: 0 <= i < c ==> Kept(act(e[i].0)))
    && (forall n :: Kept(act(n)) ==> n in keepable)
  }

  lemma KeysBeforeSame(e: seq<(string, int)>, e': seq<(string, int)>, c: nat)
    requires c <= |e| && c <= |e'| && e[..c] == e'[..c]
    ensures KeysBefore(e, c) == KeysBefore(e', c)
  {
    assert forall i :: 0 <= i < c ==> e[i] == e[..c][i] == e'[..c][i] == e'[i];
  }

  lemma KeysBeforeNext(e: seq<(string, int)>, c: nat)
    requires c < |e|
    ensures KeysBefore(e, c + 1) == KeysBefore(e, c) + {e[c].0}
  {
  }

  /** Unsetting the module just read, after `next()`: the pointer stays on the entry that followed it. */
  lemma DropStep(e: seq<(string, int)>, c: nat, act: string -> Action, keepable: set<string>)
    requires DrainState(e, c, act, keepable) && c < |e|
    ensures var name := e[c].0; var e' := Without(e, name);
      && CursorAfterUnset(e, Advance(e, c), name) == c
      && |e'| == |e| - 1 && e'[c..] == e[c + 1..]
      && DrainState(e', c, act, keepable)
      && KeysBefore(e', c) == KeysBefore(e, c)
  {
    var name := e[c].0;
    AdvanceThenUnsetKeepsPlace(e, c);
    WithoutRemovesKey(e, name);
    var e' := Without(e, name);
    KeysBeforeSame(e, e', c);
    assert forall i :: 0 <= i < c ==> e'[i] == e'[..c][i] == e[..c][i] == e[i];
  }

  /** Giving the module just read its weight updates its entry in place. */
  lemma AssignCurrent(e: seq<(string, int)>, c: nat, w: int)
    requires DistinctKeys(e) && c < |e|
    ensures Assign(e, e[c].0, w) == e[c := (e[c].0, w)]
    ensures DistinctKeys(Assign(e, e[c].0, w))
  {
    assert IndexOf(e, e[c].0) == c;
    AssignKeepsKeysUnique(e, e[c].0, w);
  }

  /** After giving the module at `c` its weight and queueing its pulled modules, the list agrees with the old one up to `c`. */
  lemma KeepShape(e: seq<(string, int)>, c: nat, w: int, pulls: seq<string>)
    requires DistinctKeys(e) && c < |e|
    ensures var e' := QueuePulls(Assign(e, e[c].0, w), pulls);
      && DistinctKeys(e') && |e| <= |e'|
      && e'[..c] == e[..c] && e'[c].0 == e[c].0 && e'[c + 1..|e|] == e[c + 1..]
  {
    var a := Assign(e, e[c].0, w);
    AssignCurrent(e, c, w);
    QueuePullsAppends(a, pulls);
    var e' := QueuePulls(a, pulls);
    assert forall i :: 0 <= i < |a| ==> e'[i] == e'[..|a|][i] == a[i];
  }

  /** The loop's state carries over to a list that agrees up to `c` and keeps the module at `c`. */
  lemma DrainStateExtend(e: seq<(string, int)>, e': seq<(string, int)>, c: nat, act: string -> Action, keepable: set<string>)
    requires DrainState(e, c, act, keepable) && c < |e| && c < |e'| && DistinctKeys(e')
    requires e'[..c] == e[..c] && e'[c].0 == e[c].0 && Kept(act(e[c].0))
    ensures DrainState(e', c + 1, act, keepable)
    ensures KeysBefore(e', c + 1) == KeysBefore(e, c) + {e[c].0}
    ensures keepable - KeysBefore(e', c + 1) < keepable - KeysBefore(e, c)
  {
    forall i | 0 <= i < c ensures e'[i] == e[i] {
      assert e'[i] == e'[..c][i];
    }
    KeysBeforeSame(e, e', c);
    KeysBeforeNext(e', c);
    assert e[c].0 !in KeysBefore(e, c);
  }

  /** Keeping the module just read, after `next()`: the pointer is past it, and what was ahead is still ahead. */
  lemma KeepStep(e: seq<(string, int)>, c: nat, w: int, pulls: seq<string>, act: string -> Action, keepable: set<string>)
    requires DrainState(e, c, act, keepable) && c < |e| && act(e[c].0) == Do(Keep(w, pulls))
    ensures var name := e[c].0; var e' := QueuePulls(Assign(e, name, w), pulls);
      && Advance(e, c) == c + 1
      && |e| <= |e'| && e'[c + 1..|e|] == e[c + 1..]
      && DrainState(e', c + 1, act, keepable)
      && KeysBefore(e', c + 1) == KeysBefore(e, c) + {name}
      && keepable - KeysBefore(e', c + 1) < keepable - KeysBefore(e, c)
  {
    KeepShape(e, c, w, pulls);
    DrainStateExtend(e, QueuePulls(Assign(e, e[c].0, w), pulls), c, act, keepable);
  }

  /**
   * The walk from list `e` with the pointer before entry `c`: stop when
   * `key()` is falsy (past the end, or a name "" or "0"); otherwise read the
   * name, move the pointer on, and act on the module.
   */
  ghost function Drain(e: seq<(string, int)>, c: nat, act: string -> Action, keepable: set<string>): Run
    requires DrainState(e, c, act, keepable)
    decreases keepable - KeysBefore(e, c), |e| - c
  {
    if c == |e| || FalsyString(e[c].0) then Run(true, e, [])
    else
      var name := e[c].0;
      var next := Advance(e, c);
      match act(name)
      case Abort => Run(false, e, [name])
      case Do(Drop) =>
        DropStep(e, c, act, keepable);
        var r := Drain(Without(e, name), CursorAfterUnset(e, next, name), act, keepable);
        Run(r.ok, r.list, [name] + r.visited)
      case Do(Keep(w, pulls)) =>
        KeepStep(e, c, w, pulls, act, keepable);
        var r := Drain(QueuePulls(Assign(e, name, w), pulls), next, act, keepable);
        Run(r.ok, r.list, [name] + r.visited)
  }

  /** One pass that unsets the module read: the walk goes on from the same place in the shortened list. */
  lemma DrainDrop(e: seq<(string, int)>, c: nat, act: string -> Action, keepable: set<string>)
    requires DrainState(e, c, act, keepable) && c < |e| && !FalsyString(e[c].0) && act(e[c].0) == Do(Drop)
    ensures var name := e[c].0; var e' := Without(e, name);
      && CursorAfterUnset(e, Advance(e, c), name) == c
      && DrainState(e', c, act, keepable)
      && KeysBefore(e', c) == KeysBefore(e, c) && |e'| < |e|
      && Drain(e, c, act, keepable) == Then([name], Drain(e', c, act, keepable))
  {
    DropStep(e, c, act, keepable);
  }

  /** One pass that keeps the module read: the walk goes on past it in the list with its pulled modules queued. */
  lemma DrainKeep(e: seq<(string, int)>, c: nat, w: int, pulls: seq<string>, act: string -> Action, keepable: set<string>)
    requires DrainState(e, c, act, keepable) && c < |e| && !FalsyString(e[c].0) && act(e[c].0) == Do(Keep(w, pulls))
    ensures var name := e[c].0; var e' := QueuePulls(Assign(e, name, w), pulls);
      && Advance(e, c) == c + 1
      && DrainState(e', c + 1, act, keepable)
      && KeysBefore(e', c + 1) == KeysBefore(e, c) + {name}
      && keepable - KeysBefore(e', c + 1) < keepable - KeysBefore(e, c)
      && Drain(e, c, act, keepable) == Then([name], Drain(e', c + 1, act, keepable))
  {
    KeepStep(e, c, w, pulls, act, keepable);
  }

  lemma ThenAssoc(visited: seq<string>, name: string, r: Run)
    ensures Then(visited, Then([name], r)) == Then(visited + [name], r)
  {
    assert visited + ([name] + r.visited) == (visited + [name]) + r.visited;
  }

  /** Every module read but the last was acted on, and the walk failed exactly when the last one aborted. */
  ghost predicate StopsAtAbort(r: Run, act: string -> Action) {
    && (forall j :: 0 <= j < |r.visited| - 1 ==> act(r.visited[j]).Do?)
    && (r.ok <==> r.visited == [] || act(r.visited[|r.visited| - 1]).Do?)
  }

  lemma StopsAtAbortCons(act: string -> Action, name: string, r': Run)
    requires act(name).Do? && StopsAtAbort(r', act)
    ensures StopsAtAbort(Then([name], r'), act)
  {
    var v := [name] + r'.visited;
    forall j | 0 <= j < |v| - 1 ensures act(v[j]).Do? {
      if j > 0 {
        assert v[j] == r'.visited[j - 1];
      }
    }
    if r'.visited != [] {
      assert v[|v| - 1] == r'.visited[|r'.visited| - 1];
    }
  }

  /** The walk stops at the first module whose action is `Abort`, and reports failure exactly then. */
  lemma {:induction false} DrainStopsAtAbort(e: seq<(string, int)>, c: nat, act: string -> Action, keepable: set<string>)
    requires DrainState(e, c, act, keepable)
    ensures StopsAtAbort(Drain(e, c, act, keepable), act)
    decreases keepable - KeysBefore(e, c), |e| - c
  {
    if c == |e| || FalsyString(e[c].0) {
      assert Drain(e, c, act, keepable).visited == [];
    } else {
      var name := e[c].0;
      match act(name)
      case Abort =>
        assert Drain(e, c, act, keepable) == Run(false, e, [name]);
      case Do(Drop) =>
        DrainDrop(e, c, act, keepable);
        DrainStopsAtAbort(Without(e, name), c, act, keepable);
        StopsAtAbortCons(act, name, Drain(Without(e, name), c, act, keepable));
      case Do(Keep(w, pulls)) =>
        DrainKeep(e, c, w, pulls, act, keepable);
        DrainStopsAtAbort(QueuePulls(Assign(e, name, w), pulls), c + 1, act, keepable);
        StopsAtAbortCons(act, name, Drain(QueuePulls(Assign(e, name, w), pulls), c + 1, act, keepable));
    }
  }

  /** No module pulls in a name PHP would read as false. */
  ghost predicate PullsTruthy(act: string -> Action) {
    forall n :: Kept(act(n)) ==> forall p :: p in act(n).visit.pulls ==> !FalsyString(p)
  }

  ghost predicate TruthyFrom(e: seq<(string, int)>, c: nat) {
    forall i :: c <= i < |e| ==> !FalsyString(e[i].0)
  }

  lemma DroppedTruthy(e: seq<(string, int)>, c: nat, act: string -> Action, keepable: set<string>)
    requires DrainState(e, c, act, keepable) && c < |e| && TruthyFrom(e, c)
    ensures TruthyFrom(Without(e, e[c].0), c)
  {
    DropStep(e, c, act, keepable);
    var e' := Without(e, e[c].0);
    forall i | c <= i < |e'| ensures !FalsyString(e'[i].0) {
      assert e'[i] == e'[c..][i - c] == e[c + 1..][i - c];
    }
  }

  /** After a kept module, the entries ahead of the pointer are the old ones followed by the queued ones. */
  lemma KeepTruthy(e: seq<(string, int)>, c: nat, e': seq<(string, int)>)
    requires c < |e| <= |e'| && e'[c + 1..|e|] == e[c + 1..] && TruthyFrom(e, c)
    requires forall i :: |e| <= i < |e'| ==> !FalsyString(e'[i].0)
    ensures TruthyFrom(e', c + 1)
    ensures KeysOf(e)[c..] == [e[c].0] + KeysOf(e')[c + 1..|e|]
    ensures KeysOf(e')[c + 1..|e|] <= KeysOf(e')[c + 1..]
  {
    forall i | c + 1 <= i < |e| ensures e'[i] == e[i] {
      assert e'[i] == e'[c + 1..|e|][i - c - 1];
    }
    assert KeysOf(e')[c + 1..][..|e| - c - 1] == KeysOf(e')[c + 1..|e|];
  }

  /** With pulled names truthy, everything queued behind the old list is truthy. */
  lemma QueuedTruthy(e: seq<(string, int)>, c: nat, w: int, pulls: seq<string>, act: string -> Action, keepable: set<string>)
    requires DrainState(e, c, act, keepable) && c < |e| && act(e[c].0) == Do(Keep(w, pulls))
    requires TruthyFrom(e, c) && PullsTruthy(act)
    ensures var e' := QueuePulls(Assign(e, e[c].0, w), pulls);
      |e| <= |e'| && TruthyFrom(e', c + 1) && KeysOf(e)[c..] == [e[c].0] + KeysOf(e')[c + 1..|e|]
      && KeysOf(e')[c + 1..|e|] <= KeysOf(e')[c + 1..]
  {
    var name := e[c].0;
    KeepStep(e, c, w, pulls, act, keepable);
    AssignKeepsKeysUnique(e, name, w);
    QueuePullsAppends(Assign(e, name, w), pulls);
    var e' := QueuePulls(Assign(e, name, w), pulls);
    assert |Assign(e, name, w)| == |e| by {
      assert IndexOf(e, name) == c;
    }
    KeepTruthy(e, c, e');
  }

  lemma PrefixTrans<T>(a: seq<T>, b: seq<T>, c: seq<T>)
    requires a <= b && b <= c
    ensures a <= c
  {
    assert c[..|b|][..|a|] == c[..|a|];
  }

  /**
   * A walk that does not abort reads every name ahead of the pointer, in
   * list order, before anything appended later: advancing before the body
   * means an `unset` of the current name skips nothing.
   */
  lemma {:induction false} DrainVisitsPending(e: seq<(string, int)>, c: nat, act: string -> Action, keepable: set<string>)
    requires DrainState(e, c, act, keepable) && TruthyFrom(e, c) && PullsTruthy(act)
    ensures var r := Drain(e, c, act, keepable);
      r.ok ==> KeysOf(e)[c..] <= r.visited
    decreases keepable - KeysBefore(e, c), |e| - c, 1
  {
    if c == |e| {
      assert KeysOf(e)[c..] == [];
    } else {
      match act(e[c].0)
      case Abort =>
        assert !Drain(e, c, act, keepable).ok;
      case Do(Drop) =>
        VisitsPendingDrop(e, c, act, keepable);
      case Do(Keep(w, pulls)) =>
        VisitsPendingKeep(e, c, w, pulls, act, keepable);
    }
  }

  lemma {:induction false} VisitsPendingDrop(e: seq<(string, int)>, c: nat, act: string -> Action, keepable: set<string>)
    requires DrainState(e, c, act, keepable) && TruthyFrom(e, c) && PullsTruthy(act)
    requires c < |e| && act(e[c].0) == Do(Drop)
    ensures var r := Drain(e, c, act, keepable);
      r.ok ==> KeysOf(e)[c..] <= r.visited
    decreases keepable - KeysBefore(e, c), |e| - c, 0
  {
    var name := e[c].0;
    DrainDrop(e, c, act, keepable);
    DroppedTruthy(e, c, act, keepable);
    var e' := Without(e, name);
    DrainVisitsPending(e', c, act, keepable);
    DropStep(e, c, act, keepable);
    assert KeysOf(e)[c..] == [name] + KeysOf(e')[c..] by {
      assert KeysOf(e)[c + 1..] == KeysOf(e')[c..];
    }
    PrefixCons(name, KeysOf(e')[c..], Drain(e', c, act, keepable));
  }

  lemma {:induction false} VisitsPendingKeep(e: seq<(string, int)>, c: nat, w: int, pulls: seq<string>, act: string -> Action, keepable: set<string>)
    requires DrainState(e, c, act, keepable) && TruthyFrom(e, c) && PullsTruthy(act)
    requires c < |e| && act(e[c].0) == Do(Keep(w, pulls))
    ensures var r := Drain(e, c, act, keepable);
      r.ok ==> KeysOf(e)[c..] <= r.visited
    decreases keepable - KeysBefore(e, c), |e| - c, 0
  {
    var name := e[c].0;
    DrainKeep(e, c, w, pulls, act, keepable);
    QueuedTruthy(e, c, w, pulls, act, keepable);
    var e' := QueuePulls(Assign(e, name, w), pulls);
    DrainVisitsPending(e', c + 1, act, keepable);
    var r' := Drain(e', c + 1, act, keepable);
    if r'.ok {
      PrefixTrans(KeysOf(e')[c + 1..|e|], KeysOf(e')[c + 1..], r'.visited);
    }
    PrefixCons(name, KeysOf(e')[c + 1..|e|], r');
  }

  lemma PrefixCons(name: string, ks: seq<string>, r': Run)
    requires r'.ok ==> ks <= r'.visited
    ensures var r := Then([name], r'); r.ok ==> [name] + ks <= r.visited
  {
  }

  /**
   * Every module pulled in by a module the walk `r` kept was read by the
   * walk, or had already been kept (`before`), when the walk did not abort.
   */
  ghost predicate RunsPulls(r: Run, act: string -> Action, before: set<string>) {
    r.ok ==> forall j, p :: 0 <= j < |r.visited| && Kept(act(r.visited[j])) && p in act(r.visited[j]).visit.pulls ==>
      p in r.visited || p in before
  }

  lemma RunsPullsDrop(act: string -> Action, name: string, r': Run, before: set<string>)
    requires !Kept(act(name)) && RunsPulls(r', act, before)
    ensures RunsPulls(Then([name], r'), act, before)
  {
  }

  lemma RunsPullsKeep(act: string -> Action, name: string, r': Run, before: set<string>, e': seq<(string, int)>, c: nat)
    requires Kept(act(name)) && c + 1 <= |e'|
    requires RunsPulls(r', act, KeysBefore(e', c + 1)) && KeysBefore(e', c + 1) == before + {name}
    requires forall p :: p in act(name).visit.pulls ==> p in KeysOf(e')
    requires r'.ok ==> KeysOf(e')[c + 1..] <= r'.visited
    ensures RunsPulls(Then([name], r'), act, before)
  {
    var visited := [name] + r'.visited;
    if r'.ok {
      forall j, p | 0 <= j < |visited| && Kept(act(visited[j])) && p in act(visited[j]).visit.pulls
        ensures p in visited || p in before
      {
        if j > 0 {
          assert visited[j] == r'.visited[j - 1];
        } else {
          var i :| 0 <= i < |e'| && KeysOf(e')[i] == p;
          if i <= c {
            assert p in KeysBefore(e', c + 1);
          } else {
            assert KeysOf(e')[c + 1..][i - c - 1] == p;
          }
        }
      }
    }
  }

  /**
   * A walk that does not abort reads every module pulled in by a module it
   * kept, unless that module was already kept before the walk's start.
   */
  lemma {:induction false} DrainRunsPulls(e: seq<(string, int)>, c: nat, act: string -> Action, keepable: set<string>)
    requires DrainState(e, c, act, keepable) && TruthyFrom(e, c) && PullsTruthy(act)
    ensures RunsPulls(Drain(e, c, act, keepable), act, KeysBefore(e, c))
    decreases keepable - KeysBefore(e, c), |e| - c
  {
    if c == |e| {
      assert Drain(e, c, act, keepable).visited == [];
    } else {
      var name := e[c].0;
      match act(name)
      case Abort =>
        assert !Drain(e, c, act, keepable).ok;
      case Do(Drop) =>
        DrainDrop(e, c, act, keepable);
        DroppedTruthy(e, c, act, keepable);
        DrainRunsPulls(Without(e, name), c, act, keepable);
        RunsPullsDrop(act, name, Drain(Without(e, name), c, act, keepable), KeysBefore(e, c));
      case Do(Keep(w, pulls)) =>
        DrainKeep(e, c, w, pulls, act, keepable);
        QueuedTruthy(e, c, w, pulls, act, keepable);
        var e' := QueuePulls(Assign(e, name, w), pulls);
        AssignCurrent(e, c, w);
        QueuePullsAppends(Assign(e, name, w), pulls);
        DrainRunsPulls(e', c + 1, act, keepable);
        DrainVisitsPending(e', c + 1, act, keepable);
        RunsPullsKeep(act, name, Drain(e', c + 1, act, keepable), KeysBefore(e, c), e', c);
    }
  }

  /** A walk that does not abort leaves in the list only modules it kept. */
  lemma {:induction false} DrainLeavesKept(e: seq<(string, int)>, c: nat, act: string -> Action, keepable: set<string>)
    requires DrainState(e, c, act, keepable) && TruthyFrom(e, c) && PullsTruthy(act)
    ensures var r := Drain(e, c, act, keepable);
      r.ok ==> forall i :: 0 <= i < |r.list| ==> Kept(act(r.list[i].0))
    decreases keepable - KeysBefore(e, c), |e| - c
  {
    if c == |e| {
      assert Drain(e, c, act, keepable).list == e;
    } else {
      var name := e[c].0;
      match act(name)
      case Abort =>
      case Do(Drop) =>
        DrainDrop(e, c, act, keepable);
        DroppedTruthy(e, c, act, keepable);
        DrainLeavesKept(Without(e, name), c, act, keepable);
      case Do(Keep(w, pulls)) =>
        DrainKeep(e, c, w, pulls, act, keepable);
        QueuedTruthy(e, c, w, pulls, act, keepable);
        DrainLeavesKept(QueuePulls(Assign(e, name, w), pulls), c + 1, act, keepable);
    }
  }

  /** `module_enable`: a module missing from `$module_data` aborts; `step` decides for the others. */
  function EnableAction<I>(data: map<string, I>, step: (string, I) -> Visit): string -> Action {
    n => if n in data then Do(step(n, data[n])) else Abort
  }

  /** `module_disable`: a module missing from `$module_data` or already disabled is dropped; `step` decides for the others. */
  function DisableAction<I>(data: map<string, I>, status: I -> bool, step: (string, I) -> Visit): string -> Action {
    n => if n !in data || !status(data[n]) then Do(Drop) else Do(step(n, data[n]))
  }

  /** The pulled modules of one kept module: each one not yet in the list is appended with weight 0. */
  method QueueDependencies(moduleList: OrderedArray<string, int>, pulls: seq<string>)
    requires moduleList.Valid()
    modifies moduleList
    ensures moduleList.Valid()
    ensures moduleList.Entries() == QueuePulls(old(moduleList.Entries()), pulls)
    ensures moduleList.Cursor() == old(moduleList.Cursor())
  {
    for k := 0 to |pulls|
      invariant moduleList.Valid()
      invariant QueuePulls(moduleList.Entries(), pulls[k..]) == QueuePulls(old(moduleList.Entries()), pulls)
      invariant moduleList.Cursor() == old(moduleList.Cursor())
    {
      ghost var e := moduleList.Entries();
      var p := pulls[k];
      assert pulls[k..][1..] == pulls[k + 1..];
      if !moduleList.Has(p) {
        assert IndexOf(e, p) == |e|;
        moduleList.Set(p, 0);
      } else {
        assert IndexOf(e, p) < |e|;
      }
    }
  }

  /**
   * The loop of `module_enable`: `while ($module = key($module_list))`,
   * `next($module_list)`, then the body. Returns `false` when a module is
   * not in `$module_data`, and otherwise the final list; `visited` is the
   * modules read, in order.
   */
  method ModuleEnable<I>(modules: seq<string>, moduleData: map<string, I>, step: (string, I) -> Visit)
    returns (ok: bool, list: seq<(string, int)>, visited: seq<string>)
    ensures DrainState(Flip(modules), 0, EnableAction(moduleData, step), moduleData.Keys)
    ensures Run(ok, list, visited) == Drain(Flip(modules), 0, EnableAction(moduleData, step), moduleData.Keys)
  {
    ghost var act := EnableAction(moduleData, step);
    ghost var keepable := moduleData.Keys;
    ghost var run := Drain(Flip(modules), 0, act, keepable);
    var moduleList := new OrderedArray<string, int>.FromEntries(Flip(modules));
    visited := [];
    var key := moduleList.Key();
    while key.Some? && !FalsyString(key.value)
      invariant moduleList.Valid() && key == moduleList.Key()
      invariant DrainState(moduleList.Entries(), moduleList.Cursor(), act, keepable)
      invariant Then(visited, Drain(moduleList.Entries(), moduleList.Cursor(), act, keepable)) == run
      decreases keepable - KeysBefore(moduleList.Entries(), moduleList.Cursor()), |moduleList.Entries()| - moduleList.Cursor()
    {
      var name := key.value;
      ghost var e, c := moduleList.Entries(), moduleList.Cursor();
      moduleList.Next();
      if name !in moduleData {
        ok, list, visited := false, moduleList.Entries(), visited + [name];
        return;
      }
      match step(name, moduleData[name]) {
        case Drop =>
          DrainDrop(e, c, act, keepable);
          moduleList.Unset(name);
        case Keep(weight, pulls) =>
          DrainKeep(e, c, weight, pulls, act, keepable);
          moduleList.Set(name, weight);
          QueueDependencies(moduleList, pulls);
      }
      ThenAssoc(visited, name, Drain(moduleList.Entries(), moduleList.Cursor(), act, keepable));
      visited := visited + [name];
      key := moduleList.Key();
    }
    ok, list := true, moduleList.Entries();
  }

  /**
   * The loop of `module_disable`: as `ModuleEnable`, except that a module
   * missing from `$module_data` or already disabled is unset and skipped.
   */
  method ModuleDisable<I>(modules: seq<string>, moduleData: map<string, I>, status: I -> bool, step: (string, I) -> Visit)
    returns (list: seq<(string, int)>, visited: seq<string>)
    ensures DrainState(Flip(modules), 0, DisableAction(moduleData, status, step), moduleData.Keys)
    ensures Run(true, list, visited) == Drain(Flip(modules), 0, DisableAction(moduleData, status, step), moduleData.Keys)
  {
    ghost var act := DisableAction(moduleData, status, step);
    ghost var keepable := moduleData.Keys;
    ghost var run := Drain(Flip(modules), 0, act, keepable);
    var moduleList := new OrderedArray<string, int>.FromEntries(Flip(modules));
    visited := [];
    var key := moduleList.Key();
    while key.Some? && !FalsyString(key.value)
      invariant moduleList.Valid() && key == moduleList.Key()
      invariant DrainState(moduleList.Entries(), moduleList.Cursor(), act, keepable)
      invariant Then(visited, Drain(moduleList.Entries(), moduleList.Cursor(), act, keepable)) == run
      decreases keepable - KeysBefore(moduleList.Entries(), moduleList.Cursor()), |moduleList.Entries()| - moduleList.Cursor()
    {
      var name := key.value;
      ghost var e, c := moduleList.Entries(), moduleList.Cursor();
      moduleList.Next();
      var visit := if name !in moduleData || !status(moduleData[name]) then Drop else step(name, moduleData[name]);
      assert act(e[c].0) == Do(visit);
      match visit {
        case Drop =>
          DrainDrop(e, c, act, keepable);
          moduleList.Unset(name);
        case Keep(weight, pulls) =>
          DrainKeep(e, c, weight, pulls, act, keepable);
          moduleList.Set(name, weight);
          QueueDependencies(moduleList, pulls);
      }
      ThenAssoc(visited, name, Drain(moduleList.Entries(), moduleList.Cursor(), act, keepable));
      visited := visited + [name];
      key := moduleList.Key();
    }
    list := moduleList.Entries();
  }

  /**
   * `module_enable` returns FALSE exactly when it reads a module missing
   * from `$module_data`; that module is the last one it reads, and every
   * module read before it was found.
   */
  lemma ModuleEnableAbortsAtMissing<I>(modules: seq<string>, moduleData: map<string, I>, step: (string, I) -> Visit)
    ensures var r := Drain(Flip(modules), 0, EnableAction(moduleData, step), moduleData.Keys);
      && (forall j :: 0 <= j < |r.visited| - 1 ==> r.visited[j] in moduleData)
      && (!r.ok <==> r.visited != [] && r.visited[|r.visited| - 1] !in moduleData)
  {
    DrainStopsAtAbort(Flip(modules), 0, EnableAction(moduleData, step), moduleData.Keys);
  }

  /** The names a caller passes and the modules `step` pulls in are never "" or "0". */
  ghost predicate TruthyNames<I>(modules: seq<string>, moduleData: map<string, I>, step: (string, I) -> Visit) {
    && (forall n :: n in modules ==> !FalsyString(n))
    && (forall n :: n in moduleData && step(n, moduleData[n]).Keep? ==>
          forall p :: p in step(n, moduleData[n]).pulls ==> !FalsyString(p))
  }

  lemma TruthyStart<I>(modules: seq<string>, moduleData: map<string, I>, step: (string, I) -> Visit, act: string -> Action)
    requires TruthyNames(modules, moduleData, step)
    requires forall n :: Kept(act(n)) ==> n in moduleData && act(n) == Do(step(n, moduleData[n]))
    ensures TruthyFrom(Flip(modules), 0) && PullsTruthy(act) && KeysBefore(Flip(modules), 0) == {}
  {
    var e := Flip(modules);
    forall i | 0 <= i < |e| ensures !FalsyString(e[i].0) {
      assert e[i].0 == KeysOf(e)[i];
    }
  }

  /** The list was read in full: every requested name was read. */
  lemma ReadsRequested(modules: seq<string>, visited: seq<string>)
    requires KeysOf(Flip(modules)) <= visited
    ensures forall n :: n in modules ==> n in visited
  {
    var e := Flip(modules);
    forall n | n in modules ensures n in visited {
      var i :| 0 <= i < |e| && KeysOf(e)[i] == n;
      assert visited[i] == n;
    }
  }

  /**
   * When `module_enable` does not abort, it reads every requested module,
   * first, in the order requested (repeats dropped), before any module
   * queued later.
   */
  lemma ModuleEnableReadsRequested<I>(modules: seq<string>, moduleData: map<string, I>, step: (string, I) -> Visit)
    requires TruthyNames(modules, moduleData, step)
    ensures var r := Drain(Flip(modules), 0, EnableAction(moduleData, step), moduleData.Keys);
      r.ok ==> Dedup(modules) <= r.visited && forall n :: n in modules ==> n in r.visited
  {
    var act := EnableAction(moduleData, step);
    var e := Flip(modules);
    TruthyStart(modules, moduleData, step, act);
    DrainVisitsPending(e, 0, act, moduleData.Keys);
    var r := Drain(e, 0, act, moduleData.Keys);
    assert KeysOf(e)[0..] == KeysOf(e);
    if r.ok {
      ReadsRequested(modules, r.visited);
    }
  }

  /** The modules that `step` pulls in for module `n`, none when it is dropped or missing. */
  function Pulled<I>(moduleData: map<string, I>, step: (string, I) -> Visit, n: string): seq<string> {
    if n in moduleData && step(n, moduleData[n]).Keep? then step(n, moduleData[n]).pulls else []
  }

  /** `RunsPulls` for the actions of `module_enable`, restated with the modules each kept module pulls in. */
  lemma PulledReached<I>(r: Run, moduleData: map<string, I>, step: (string, I) -> Visit)
    requires RunsPulls(r, EnableAction(moduleData, step), {})
    ensures r.ok ==> forall j, p :: 0 <= j < |r.visited| && p in Pulled(moduleData, step, r.visited[j]) ==> p in r.visited
  {
    var act := EnableAction(moduleData, step);
    if r.ok {
      forall j, p | 0 <= j < |r.visited| && p in Pulled(moduleData, step, r.visited[j]) ensures p in r.visited {
        var n := r.visited[j];
        assert act(n) == Do(step(n, moduleData[n]));
      }
    }
  }

  /**
   * When `module_enable` does not abort, it reads every dependency of every
   * module it keeps: modules added to `$module_list` inside the loop are
   * processed.
   */
  lemma ModuleEnableReachesDependencies<I>(modules: seq<string>, moduleData: map<string, I>, step: (string, I) -> Visit)
    requires TruthyNames(modules, moduleData, step)
    ensures var r := Drain(Flip(modules), 0, EnableAction(moduleData, step), moduleData.Keys);
      r.ok ==> forall j, p :: 0 <= j < |r.visited| && p in Pulled(moduleData, step, r.visited[j]) ==> p in r.visited
  {
    var act := EnableAction(moduleData, step);
    var e := Flip(modules);
    TruthyStart(modules, moduleData, step, act);
    DrainRunsPulls(e, 0, act, moduleData.Keys);
    PulledReached(Drain(e, 0, act, moduleData.Keys), moduleData, step);
  }

  /** The first requested name is the first key of the flipped list. */
  lemma {:induction false} FlipFirst(names: seq<string>)
    requires names != []
    ensures |Flip(names)| > 0 && Flip(names)[0].0 == names[0]
  {
    if |names| > 1 {
      var init := names[..|names| - 1];
      FlipFirst(init);
      AssignKeepsKeysUnique(Flip(init), names[|names| - 1], |names| - 1);
      assert init[0] == names[0];
    }
  }

  /**
   * `while ($module = key($module_list))` tests the key for truthiness: when
   * the first requested name is "" or "0", `module_enable` reads nothing and
   * returns with the list as `array_flip` built it.
   */
  lemma ModuleEnableStopsAtFalsyName<I>(modules: seq<string>, moduleData: map<string, I>, step: (string, I) -> Visit)
    requires modules != [] && FalsyString(modules[0])
    ensures Drain(Flip(modules), 0, EnableAction(moduleData, step), moduleData.Keys) == Run(true, Flip(modules), [])
  {
    FlipFirst(modules);
  }

  /**
   * `module_disable` never fails; it reads every requested module, and the
   * list it leaves holds only modules present in `$module_data` and enabled:
   * a missing or already disabled module is absent afterwards.
   */
  lemma ModuleDisableDropsDisabled<I>(modules: seq<string>, moduleData: map<string, I>, status: I -> bool, step: (string, I) -> Visit)
    requires TruthyNames(modules, moduleData, step)
    ensures var r := Drain(Flip(modules), 0, DisableAction(moduleData, status, step), moduleData.Keys);
      && r.ok
      && (forall n :: n in modules ==> n in r.visited)
      && (forall i :: 0 <= i < |r.list| ==> r.list[i].0 in moduleData && status(moduleData[r.list[i].0]))
  {
    var act := DisableAction(moduleData, status, step);
    var e := Flip(modules);
    TruthyStart(modules, moduleData, step, act);
    DrainStopsAtAbort(e, 0, act, moduleData.Keys);
    DrainVisitsPending(e, 0, act, moduleData.Keys);
    DrainLeavesKept(e, 0, act, moduleData.Keys);
    var r := Drain(e, 0, act, moduleData.Keys);
    assert KeysOf(e)[0..] == KeysOf(e);
    ReadsRequested(modules, r.visited);
  }
}
