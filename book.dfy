/**
 * The linear searches of `book_prev` and `book_next` (modules/book/book.module)
 * over the flat list of a book's menu links, keyed by menu link id (`mlid`).
 * Both `reset()` the array's internal pointer and then, in a do-while, read
 * the key (and, for `book_prev`, the current element), move the pointer on,
 * and go on while the key is truthy and differs from the target `mlid`.
 */
module Book {
  import opened Php
  import opened PhpArray

  /**
   * The position at which the do-while stops: the first entry whose key is
   * 0 (falsy) or the target, or the end of the list when there is none.
   */
  function StopAt<V>(e: seq<(int, V)>, mlid: int): (s: nat)
    ensures s <= |e|
    ensures s < |e| ==> e[s].0 == 0 || e[s].0 == mlid
    ensures forall j :: 0 <= j < s ==> e[j].0 != 0 && e[j].0 != mlid
  {
    if e == [] then 0
    else if e[0].0 == 0 || e[0].0 == mlid then 0
    else 1 + StopAt(e[1..], mlid)
  }

  /** PHP's loose `$key == $mlid`, where `key()` gives NULL past the end and NULL equals 0. */
  predicate LooseEquals(key: Option<int>, mlid: int) {
    match key
    case None => mlid == 0
    case Some(k) => k == mlid
  }

  /** The key the loop reads at position `s`: NULL past the end. */
  function KeyAt<V>(e: seq<(int, V)>, s: nat): Option<int> {
    if s < |e| then Some(e[s].0) else None
  }

  /**
   * Menu link ids are positive. For a positive target, the search stops on
   * the target's own entry when it is in the list, and runs to the end,
   * where the final `$key == $mlid` test fails, when it is not.
   */
  lemma {:induction false} StopAtTarget<V>(e: seq<(int, V)>, mlid: int)
    requires mlid > 0 && forall i :: 0 <= i < |e| ==> e[i].0 > 0
    ensures var s := StopAt(e, mlid);
      && (s < |e| <==> exists i :: 0 <= i < |e| && e[i].0 == mlid)
      && (s < |e| ==> s == IndexOf(e, mlid))
      && (LooseEquals(KeyAt(e, s), mlid) <==> s < |e|)
  {
    var s := StopAt(e, mlid);
    if s < |e| {
      assert e[s].0 == mlid;
      assert IndexOf(e, mlid) <= s;
    } else {
      assert forall i :: 0 <= i < |e| ==> e[i].0 != mlid;
    }
  }

  /**
   * A key 0 ends the search early: the do-while tests the key for
   * truthiness before comparing it, so an entry keyed 0 before the target
   * hides the target.
   */
  lemma ZeroKeyHidesTarget<V>(e: seq<(int, V)>, mlid: int, z: nat)
    requires z < |e| && e[z].0 == 0 && mlid != 0
    requires forall j :: 0 <= j < z ==> e[j].0 != mlid
    ensures StopAt(e, mlid) <= z && !LooseEquals(KeyAt(e, StopAt(e, mlid)), mlid)
  {
  }

  /**
   * `book_prev`: `reset($flat)`, `$curr = NULL`, then do { `$prev = $curr`,
   * `$curr = current($flat)`, `$key = key($flat)`, `next($flat)` } while the
   * key is truthy and not the target; then `$key == $mlid`. At the end
   * `$curr` is the entry where the search stopped and `$prev` the one just
   * before it, NULL when the search stopped on the first entry.
   */
  method BookPrev<V>(flat: OrderedArray<int, V>, mlid: int)
    returns (found: bool, prev: Option<V>, curr: Option<V>, key: Option<int>, iterations: nat)
    requires flat.Valid()
    modifies flat
    ensures flat.Valid() && flat.Entries() == old(flat.Entries())
    ensures var e := old(flat.Entries()); var s := StopAt(e, mlid);
      && iterations == s + 1
      && key == KeyAt(e, s)
      && curr == (if s < |e| then Some(e[s].1) else None)
      && prev == (if s == 0 then None else Some(e[s - 1].1))
      && found == LooseEquals(key, mlid)
      && flat.Cursor() == Advance(e, s)
  {
    flat.Reset();
    ghost var e := flat.Entries();
    curr := None;
    prev, key, iterations := None, None, 0;
    while true
      invariant flat.Valid() && flat.Entries() == e
      invariant iterations == flat.Cursor() <= StopAt(e, mlid)
      invariant curr == (if iterations == 0 then None else Some(e[iterations - 1].1))
      decreases |e| - iterations
    {
      prev := curr;
      curr := flat.Current();
      key := flat.Key();
      flat.Next();
      iterations := iterations + 1;
      if !(key.Some? && key.value != 0 && key.value != mlid) {
        break;
      }
    }
    found := LooseEquals(key, mlid);
  }

  /**
   * `book_next`: `reset($flat)`, then do { `$key = key($flat)`,
   * `next($flat)` } while the key is truthy and not the target. The pointer
   * is left just past the entry where the search stopped, so `current()`
   * is the entry after the target, or false past the end.
   */
  method BookNext<V>(flat: OrderedArray<int, V>, mlid: int) returns (found: bool, key: Option<int>, iterations: nat)
    requires flat.Valid()
    modifies flat
    ensures flat.Valid() && flat.Entries() == old(flat.Entries())
    ensures var e := old(flat.Entries()); var s := StopAt(e, mlid);
      && iterations == s + 1 && iterations <= |e| + 1
      && key == KeyAt(e, s)
      && found == LooseEquals(key, mlid)
      && flat.Cursor() == Advance(e, s)
      && flat.Current() == (if s + 1 < |e| then Some(e[s + 1].1) else None)
  {
    flat.Reset();
    ghost var e := flat.Entries();
    key, iterations := None, 0;
    while true
      invariant flat.Valid() && flat.Entries() == e
      invariant iterations == flat.Cursor() <= StopAt(e, mlid)
      decreases |e| - iterations
    {
      key := flat.Key();
      flat.Next();
      iterations := iterations + 1;
      if !(key.Some? && key.value != 0 && key.value != mlid) {
        break;
      }
    }
    found := LooseEquals(key, mlid);
  }
}
