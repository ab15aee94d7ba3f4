/**
 * A PHP array with its internal pointer.
 *
 * A PHP array is an insertion-ordered hash table: every entry lives in a
 * bucket, buckets are used in order, `unset` turns a bucket into a hole, and
 * the internal pointer that `current`, `key`, `next` and `reset` work with is
 * a bucket index. The pointer reads the live array: an entry appended after
 * the pointer is reached by `next`, and a pointer that has run off the end
 * (index == number of buckets) lands on the next entry appended.
 *
 * The abstract view is the sequence of live entries in order (`Entries`) and
 * the number of entries before the pointer (`Cursor`); the functions below
 * the class say what every operation does to that view.
 */
module PhpArray {
  import opened Php

  /** A bucket: a live entry, or the hole an `unset` leaves. */
  datatype Slot<K, V> = Live(key: K, value: V) | Hole

  /** The entries of a bucket sequence, holes skipped, in bucket order. */
  function LiveEntries<K, V>(slots: seq<Slot<K, V>>): (r: seq<(K, V)>)
    ensures |r| <= |slots|
  {
    if slots == [] then []
    else
      var last := slots[|slots| - 1];
      LiveEntries(slots[..|slots| - 1]) + if last.Live? then [(last.key, last.value)] else []
  }

  /** No key occurs twice: PHP array keys are unique. */
  ghost predicate DistinctKeys<K, V>(e: seq<(K, V)>) {
    forall i, j :: 0 <= i < j < |e| ==> e[i].0 != e[j].0
  }

  /** The keys of the entries, in order. */
  function KeysOf<K, V>(e: seq<(K, V)>): (ks: seq<K>)
    ensures |ks| == |e| && forall i :: 0 <= i < |e| ==> ks[i] == e[i].0
  {
    seq(|e|, i requires 0 <= i < |e| => e[i].0)
  }

  /** The position of key `k` among the entries, or |e| when it is absent. */
  function IndexOf<K(==), V>(e: seq<(K, V)>, k: K): (i: nat)
    ensures i <= |e|
    ensures i < |e| ==> e[i].0 == k
    ensures forall j :: 0 <= j < i ==> e[j].0 != k
  {
    if e == [] then 0 else if e[0].0 == k then 0 else 1 + IndexOf(e[1..], k)
  }

  /** `$a[$k] = $v`: overwrite the entry in place when the key exists, append otherwise. */
  function Assign<K(==), V>(e: seq<(K, V)>, k: K, v: V): seq<(K, V)> {
    var i := IndexOf(e, k);
    if i < |e| then e[i := (k, v)] else e + [(k, v)]
  }

  /** `unset($a[$k])`: the entry with key `k` leaves the order, the others keep theirs. */
  function Without<K(==), V>(e: seq<(K, V)>, k: K): seq<(K, V)> {
    var i := IndexOf(e, k);
    if i < |e| then e[..i] + e[i + 1..] else e
  }

  /** The cursor after `next`: one entry further, or still exhausted. */
  function Advance<K, V>(e: seq<(K, V)>, c: nat): nat {
    if c < |e| then c + 1 else c
  }

  /** The cursor after `unset($a[$k])`: it loses one when the entry removed was before it. */
  function CursorAfterUnset<K(==), V>(e: seq<(K, V)>, c: nat, k: K): nat {
    if IndexOf(e, k) < c then c - 1 else c
  }

  /** `$a[$k] = $v` keeps keys unique, leaves `k` bound to `v`, and keeps every other key where it was. */
  lemma AssignKeepsKeysUnique<K, V>(e: seq<(K, V)>, k: K, v: V)
    requires DistinctKeys(e)
    ensures var r := Assign(e, k, v);
      && DistinctKeys(r)
      && IndexOf(r, k) < |r| && r[IndexOf(r, k)] == (k, v)
      && |e| <= |r| <= |e| + 1
      && (forall i :: 0 <= i < |e| ==> r[i].0 == e[i].0 && (e[i].0 != k ==> r[i] == e[i]))
      && forall n :: n in KeysOf(r) <==> n in KeysOf(e) || n == k
  {
    var r := Assign(e, k, v);
    var i := IndexOf(e, k);
    if i == |e| {
      assert r[|e|] == (k, v);
    } else {
      assert r[i] == (k, v);
    }
  }

  /** The keys after `$a[$k] = $v`: unchanged when `k` was present, `k` appended otherwise. */
  lemma AssignKeys<K, V>(e: seq<(K, V)>, k: K, v: V)
    ensures KeysOf(Assign(e, k, v)) == if k in KeysOf(e) then KeysOf(e) else KeysOf(e) + [k]
  {
    var i := IndexOf(e, k);
    if i < |e| {
      assert KeysOf(e)[i] == k;
      assert KeysOf(Assign(e, k, v)) == KeysOf(e);
    } else {
      assert k !in KeysOf(e);
      assert KeysOf(Assign(e, k, v)) == KeysOf(e) + [k];
    }
  }

  /** The entries whose key is not `k`, in their order: what `unset` should leave. */
  function OtherEntries<K(==), V>(e: seq<(K, V)>, k: K): (r: seq<(K, V)>)
    ensures |r| <= |e|
  {
    if e == [] then [] else (if e[0].0 == k then [] else [e[0]]) + OtherEntries(e[1..], k)
  }

  /** Without key `k` among the entries, filtering it out changes nothing. */
  lemma {:induction false} OtherEntriesAbsent<K, V>(e: seq<(K, V)>, k: K)
    requires forall j :: 0 <= j < |e| ==> e[j].0 != k
    ensures OtherEntries(e, k) == e
  {
    if e != [] {
      OtherEntriesAbsent(e[1..], k);
      assert e == [e[0]] + e[1..];
    }
  }

  /** `unset($a[$k])` removes exactly the entry with key `k`; every other entry stays, in order. */
  lemma {:induction false} WithoutIsOtherEntries<K, V>(e: seq<(K, V)>, k: K)
    requires DistinctKeys(e)
    ensures Without(e, k) == OtherEntries(e, k)
  {
    if e != [] {
      var t := e[1..];
      assert DistinctKeys(t) by {
        forall i, j | 0 <= i < j < |t| ensures t[i].0 != t[j].0 {
          assert t[i] == e[i + 1] && t[j] == e[j + 1];
        }
      }
      if e[0].0 == k {
        forall j | 0 <= j < |t| ensures t[j].0 != k {
          assert t[j] == e[j + 1];
        }
        OtherEntriesAbsent(t, k);
      } else {
        WithoutIsOtherEntries(t, k);
        var i := IndexOf(t, k);
        assert IndexOf(e, k) == i + 1;
        if i < |t| {
          assert e[..i + 1] == [e[0]] + t[..i];
          assert e[i + 2..] == t[i + 1..];
        }
      }
    }
  }

  /**
   * `unset` keeps keys unique, leaves `k` absent, keeps every other entry in
   * its order, and shrinks the array by one exactly when `k` was present.
   */
  lemma WithoutRemovesKey<K, V>(e: seq<(K, V)>, k: K)
    requires DistinctKeys(e)
    ensures var r := Without(e, k);
      && DistinctKeys(r)
      && (forall j :: 0 <= j < |r| ==> r[j].0 != k)
      && r == OtherEntries(e, k)
      && (forall x :: x in r <==> x in e && x.0 != k)
      && |r| == if k in KeysOf(e) then |e| - 1 else |e|
  {
    WithoutIsOtherEntries(e, k);
    var i := IndexOf(e, k);
    if i < |e| {
      WithoutPresent(e, k, i);
    } else {
      assert k !in KeysOf(e);
    }
  }

  /** `WithoutRemovesKey` when the key is present at position `i`. */
  lemma WithoutPresent<K, V>(e: seq<(K, V)>, k: K, i: nat)
    requires DistinctKeys(e) && i == IndexOf(e, k) < |e|
    ensures var r := Without(e, k);
      && DistinctKeys(r)
      && (forall j :: 0 <= j < |r| ==> r[j].0 != k)
      && (forall x :: x in r <==> x in e && x.0 != k)
      && k in KeysOf(e) && |r| == |e| - 1
  {
    var r := Without(e, k);
    assert r == e[..i] + e[i + 1..];
    assert k in KeysOf(e) by { assert KeysOf(e)[i] == k; }
    assert DistinctKeys(r) by {
      forall j1, j2 | 0 <= j1 < j2 < |r| ensures r[j1].0 != r[j2].0 {
        var s1 := if j1 < i then j1 else j1 + 1;
        var s2 := if j2 < i then j2 else j2 + 1;
        assert r[j1] == e[s1] && r[j2] == e[s2] && s1 < s2;
      }
    }
    forall x | x in r ensures x in e && x.0 != k {
      var j :| 0 <= j < |r| && r[j] == x;
      var sj := if j < i then j else j + 1;
      assert r[j] == e[sj] && sj != i;
    }
    forall x | x in e && x.0 != k ensures x in r {
      var j :| 0 <= j < |e| && e[j] == x;
      if j < i { assert r[j] == x; } else { assert r[j - 1] == x; }
    }
  }

  /**
   * Advancing first and then unsetting the entry just read, as module_enable
   * and module_disable do, leaves the cursor on the entry that followed it:
   * nothing is skipped and nothing is read twice.
   */
  lemma AdvanceThenUnsetKeepsPlace<K, V>(e: seq<(K, V)>, c: nat)
    requires DistinctKeys(e) && c < |e|
    ensures var k := e[c].0;
      var c' := CursorAfterUnset(e, Advance(e, c), k);
      var e' := Without(e, k);
      c' == c && e'[..c'] == e[..c] && e'[c'..] == e[c + 1..]
  {
    assert IndexOf(e, e[c].0) == c;
  }

  /**
   * The other order, unsetting the entry under the cursor and then advancing,
   * skips the entry that followed it: the cursor ends two entries on.
   */
  lemma UnsetThenAdvanceSkips<K, V>(e: seq<(K, V)>, c: nat)
    requires DistinctKeys(e) && c + 1 < |e|
    ensures var k := e[c].0;
      var e' := Without(e, k);
      var c' := Advance(e', CursorAfterUnset(e, c, k));
      e'[..c'] == e[..c] + [e[c + 1]] && e'[c'..] == e[c + 2..]
  {
    assert IndexOf(e, e[c].0) == c;
  }

  // ----- buckets -----

  /** The first live bucket at or after `i`, or |slots| when there is none. */
  function NextLive<K, V>(slots: seq<Slot<K, V>>, i: nat): (j: nat)
    requires i <= |slots|
    ensures i <= j <= |slots|
    ensures j < |slots| ==> slots[j].Live?
    ensures forall m :: i <= m < j ==> slots[m].Hole?
    decreases |slots| - i
  {
    if i == |slots| || slots[i].Live? then i else NextLive(slots, i + 1)
  }

  /** The bucket holding key `k`, or |slots| when there is none. */
  function SlotOf<K(==), V>(slots: seq<Slot<K, V>>, k: K): (i: nat)
    ensures i <= |slots|
    ensures i < |slots| ==> slots[i].Live? && slots[i].key == k
    ensures forall m :: 0 <= m < i ==> !(slots[m].Live? && slots[m].key == k)
  {
    if slots == [] then 0
    else if slots[0].Live? && slots[0].key == k then 0
    else 1 + SlotOf(slots[1..], k)
  }

  /** One live bucket for every entry. */
  function LiveSlots<K, V>(e: seq<(K, V)>): (slots: seq<Slot<K, V>>)
    ensures |slots| == |e|
    ensures forall i :: 0 <= i < |e| ==> slots[i] == Live(e[i].0, e[i].1)
  {
    if e == [] then [] else LiveSlots(e[..|e| - 1]) + [Live(e[|e| - 1].0, e[|e| - 1].1)]
  }

  lemma {:induction false} LiveSlotsEntries<K, V>(e: seq<(K, V)>)
    ensures LiveEntries(LiveSlots(e)) == e
    decreases |e|
  {
    if e != [] {
      var s := LiveSlots(e);
      assert s[..|s| - 1] == LiveSlots(e[..|e| - 1]);
      LiveSlotsEntries(e[..|e| - 1]);
    }
  }

  lemma {:induction false} LiveConcat<K, V>(a: seq<Slot<K, V>>, b: seq<Slot<K, V>>)
    ensures LiveEntries(a + b) == LiveEntries(a) + LiveEntries(b)
    decreases |b|
  {
    if b == [] {
      assert a + b == a;
    } else {
      var b' := b[..|b| - 1];
      assert (a + b)[..|a + b| - 1] == a + b';
      assert (a + b)[|a + b| - 1] == b[|b| - 1];
      LiveConcat(a, b');
    }
  }

  lemma LiveSingle<K, V>(x: Slot<K, V>)
    ensures LiveEntries([x]) == if x.Live? then [(x.key, x.value)] else []
  {
    assert [x][..0] == [];
  }

  /** Holes between `i` and `j` add no entries. */
  lemma {:induction false} HolesSkipped<K, V>(slots: seq<Slot<K, V>>, i: nat, j: nat)
    requires i <= j <= |slots|
    requires forall m :: i <= m < j ==> slots[m].Hole?
    ensures LiveEntries(slots[..j]) == LiveEntries(slots[..i])
    decreases j - i
  {
    if i < j {
      HolesSkipped(slots, i, j - 1);
      assert slots[..j][..j - 1] == slots[..j - 1];
    }
  }

  /** The entries before bucket `p` are a prefix of all the entries. */
  lemma PrefixEntries<K, V>(slots: seq<Slot<K, V>>, p: nat)
    requires p <= |slots|
    ensures LiveEntries(slots) == LiveEntries(slots[..p]) + LiveEntries(slots[p..])
  {
    assert slots == slots[..p] + slots[p..];
    LiveConcat(slots[..p], slots[p..]);
  }

  /** A live bucket `p` holds the entry at position |entries before p|. */
  lemma EntryAtSlot<K, V>(slots: seq<Slot<K, V>>, p: nat)
    requires p < |slots| && slots[p].Live?
    ensures |LiveEntries(slots[..p])| < |LiveEntries(slots)|
    ensures LiveEntries(slots)[|LiveEntries(slots[..p])|] == (slots[p].key, slots[p].value)
  {
    PrefixEntries(slots, p);
    assert slots[p..] == [slots[p]] + slots[p + 1..];
    LiveConcat([slots[p]], slots[p + 1..]);
    LiveSingle(slots[p]);
  }

  /** No live bucket holds `k`, so no entry has key `k`. */
  lemma {:induction false} AbsentKey<K, V>(slots: seq<Slot<K, V>>, k: K)
    requires forall m :: 0 <= m < |slots| ==> !(slots[m].Live? && slots[m].key == k)
    ensures forall j :: 0 <= j < |LiveEntries(slots)| ==> LiveEntries(slots)[j].0 != k
    decreases |slots|
  {
    if slots != [] {
      AbsentKey(slots[..|slots| - 1], k);
    }
  }

  /** The entry position of a key is the number of entries before its bucket. */
  lemma SlotIndex<K, V>(slots: seq<Slot<K, V>>, k: K)
    ensures var i := SlotOf(slots, k);
      IndexOf(LiveEntries(slots), k) == if i < |slots| then |LiveEntries(slots[..i])| else |LiveEntries(slots)|
  {
    var i := SlotOf(slots, k);
    var e := LiveEntries(slots);
    if i < |slots| {
      EntryAtSlot(slots, i);
      PrefixEntries(slots, i);
      AbsentKey(slots[..i], k);
      var m := |LiveEntries(slots[..i])|;
      assert forall j :: 0 <= j < m ==> e[j] == LiveEntries(slots[..i])[j];
    } else {
      AbsentKey(slots, k);
    }
  }

  /** The entries of a non-empty bucket sequence: those of its first bucket, then the rest. */
  lemma FirstEntries<K, V>(t: seq<Slot<K, V>>)
    requires |t| > 0
    ensures LiveEntries(t) == LiveEntries([t[0]]) + LiveEntries(t[1..])
  {
    assert t == [t[0]] + t[1..];
    LiveConcat([t[0]], t[1..]);
  }

  /** The entries of `slots` split around bucket `i`. */
  lemma SplitAt<K, V>(slots: seq<Slot<K, V>>, i: nat)
    requires i < |slots|
    ensures LiveEntries(slots) == LiveEntries(slots[..i]) + LiveEntries([slots[i]]) + LiveEntries(slots[i + 1..])
  {
    PrefixEntries(slots, i);
    FirstEntries(slots[i..]);
    assert slots[i..][1..] == slots[i + 1..];
  }

  /** Replacing a live bucket by another live bucket replaces one entry in place. */
  lemma LiveUpdate<K, V>(slots: seq<Slot<K, V>>, i: nat, x: Slot<K, V>)
    requires i < |slots| && slots[i].Live? && x.Live?
    ensures var m := |LiveEntries(slots[..i])|;
      m < |LiveEntries(slots)| &&
      LiveEntries(slots[i := x]) == LiveEntries(slots)[m := (x.key, x.value)]
  {
    var s := slots[i := x];
    SplitAt(slots, i);
    SplitAt(s, i);
    assert s[..i] == slots[..i];
    assert s[i + 1..] == slots[i + 1..];
    LiveSingle(slots[i]);
    LiveSingle(x);
    ReplaceMiddle(LiveEntries(slots[..i]), (slots[i].key, slots[i].value), (x.key, x.value), LiveEntries(slots[i + 1..]));
  }

  lemma ReplaceMiddle<T>(a: seq<T>, p: T, q: T, b: seq<T>)
    ensures |a| < |a + [p] + b| && (a + [p] + b)[|a| := q] == a + [q] + b
  {
  }

  /** Turning a live bucket into a hole removes its entry from the order. */
  lemma LiveHole<K, V>(slots: seq<Slot<K, V>>, i: nat)
    requires i < |slots| && slots[i].Live?
    ensures var m := |LiveEntries(slots[..i])|;
      var e := LiveEntries(slots);
      m < |e| &&
      LiveEntries(slots[i := Hole]) == e[..m] + e[m + 1..]
  {
    LiveSplit(slots, i);
    HoleSplit(slots, i);
    DropMiddle(LiveEntries(slots[..i]), (slots[i].key, slots[i].value), LiveEntries(slots[i + 1..]));
  }

  lemma LiveSplit<K, V>(slots: seq<Slot<K, V>>, i: nat)
    requires i < |slots| && slots[i].Live?
    ensures LiveEntries(slots) == LiveEntries(slots[..i]) + [(slots[i].key, slots[i].value)] + LiveEntries(slots[i + 1..])
  {
    SplitAt(slots, i);
    LiveSingle(slots[i]);
  }

  lemma HoleSplit<K, V>(slots: seq<Slot<K, V>>, i: nat)
    requires i < |slots|
    ensures LiveEntries(slots[i := Hole]) == LiveEntries(slots[..i]) + LiveEntries(slots[i + 1..])
  {
    var s := slots[i := Hole];
    SplitAt(s, i);
    assert s[..i] == slots[..i];
    assert s[i + 1..] == slots[i + 1..];
    LiveSingle<K, V>(Hole);
  }

  lemma DropMiddle<T>(a: seq<T>, p: T, b: seq<T>)
    ensures var e := a + [p] + b;
      |a| < |e| && e[..|a|] + e[|a| + 1..] == a + b
  {
    var e := a + [p] + b;
    assert e[..|a|] == a;
    assert e[|a| + 1..] == b;
  }

  /** Rewriting a live bucket in place leaves the number of entries before any bucket `p` unchanged. */
  lemma UpdateKeepsCursor<K, V>(slots: seq<Slot<K, V>>, p: nat, i: nat, x: Slot<K, V>)
    requires p <= |slots| && i < |slots| && slots[i].Live? && x.Live?
    ensures |LiveEntries(slots[i := x][..p])| == |LiveEntries(slots[..p])|
  {
    if i < p {
      LiveUpdate(slots[..p], i, x);
      assert slots[..p][i := x] == slots[i := x][..p];
    } else {
      assert slots[..p] == slots[i := x][..p];
    }
  }

  /** Punching a hole at bucket `i < p` leaves one entry fewer before bucket `p`. */
  lemma HoleBeforeCursor<K, V>(slots: seq<Slot<K, V>>, p: nat, i: nat)
    requires i < p <= |slots| && slots[i].Live?
    ensures |LiveEntries(slots[..i])| < |LiveEntries(slots[..p])|
    ensures |LiveEntries(slots[i := Hole][..p])| == |LiveEntries(slots[..p])| - 1
  {
    LiveHole(slots[..p], i);
    assert slots[..p][..i] == slots[..i];
    assert slots[..p][i := Hole] == slots[i := Hole][..p];
  }

  /** The pointer is on a live bucket or just past the last one, and keys are unique. */
  ghost predicate WellFormed<K, V>(slots: seq<Slot<K, V>>, pos: nat) {
    && pos <= |slots|
    && (pos < |slots| ==> slots[pos].Live?)
    && DistinctKeys(LiveEntries(slots))
  }

  /** The buckets after `$a[$k] = $v`. */
  function AssignedSlots<K(==), V>(slots: seq<Slot<K, V>>, k: K, v: V): seq<Slot<K, V>> {
    var i := SlotOf(slots, k);
    if i < |slots| then slots[i := Live(k, v)] else slots + [Live(k, v)]
  }

  lemma AssignSlots<K, V>(slots: seq<Slot<K, V>>, pos: nat, k: K, v: V)
    requires WellFormed(slots, pos)
    ensures var s := AssignedSlots(slots, k, v);
      && WellFormed(s, pos)
      && LiveEntries(s) == Assign(LiveEntries(slots), k, v)
      && |LiveEntries(s[..pos])| == |LiveEntries(slots[..pos])|
  {
    var i := SlotOf(slots, k);
    var e := LiveEntries(slots);
    SlotIndex(slots, k);
    AssignKeepsKeysUnique(e, k, v);
    if i < |slots| {
      AssignInPlace(slots, pos, i, k, v);
      assert IndexOf(e, k) == |LiveEntries(slots[..i])|;
      assert LiveEntries(AssignedSlots(slots, k, v)) == Assign(e, k, v);
    } else {
      AssignAppend(slots, pos, k, v);
      assert IndexOf(e, k) == |e|;
      assert LiveEntries(AssignedSlots(slots, k, v)) == Assign(e, k, v);
    }
  }

  lemma AssignInPlace<K, V>(slots: seq<Slot<K, V>>, pos: nat, i: nat, k: K, v: V)
    requires pos <= |slots| && i < |slots| && slots[i].Live?
    ensures |LiveEntries(slots[..i])| < |LiveEntries(slots)|
    ensures LiveEntries(slots[i := Live(k, v)]) == LiveEntries(slots)[|LiveEntries(slots[..i])| := (k, v)]
    ensures |LiveEntries(slots[i := Live(k, v)][..pos])| == |LiveEntries(slots[..pos])|
  {
    LiveUpdate(slots, i, Live(k, v));
    UpdateKeepsCursor(slots, pos, i, Live(k, v));
  }

  lemma AssignAppend<K, V>(slots: seq<Slot<K, V>>, pos: nat, k: K, v: V)
    requires pos <= |slots|
    ensures LiveEntries(slots + [Live(k, v)]) == LiveEntries(slots) + [(k, v)]
    ensures (slots + [Live(k, v)])[..pos] == slots[..pos]
  {
    LiveConcat(slots, [Live(k, v)]);
    LiveSingle(Live(k, v));
  }

  lemma UnsetSlots<K, V>(slots: seq<Slot<K, V>>, pos: nat, k: K)
    requires WellFormed(slots, pos)
    ensures var i := SlotOf(slots, k);
      var s := if i < |slots| then slots[i := Hole] else slots;
      var p := if i < |slots| && i == pos then NextLive(s, i + 1) else pos;
      var e := LiveEntries(slots);
      && WellFormed(s, p)
      && LiveEntries(s) == Without(e, k)
      && |LiveEntries(s[..p])| == CursorAfterUnset(e, |LiveEntries(slots[..pos])|, k)
  {
    var i := SlotOf(slots, k);
    var e := LiveEntries(slots);
    SlotIndex(slots, k);
    WithoutRemovesKey(e, k);
    PrefixEntries(slots, pos);
    if i < |slots| {
      LiveHole(slots, i);
      assert IndexOf(e, k) == |LiveEntries(slots[..i])|;
      assert LiveEntries(slots[i := Hole]) == Without(e, k);
      if i < pos {
        HoleBeforeCursor(slots, pos, i);
      } else if i == pos {
        HoleAtCursor(slots, i);
      } else {
        assert slots[..pos] == slots[i := Hole][..pos];
        PrefixEntries(slots[..i], pos);
        assert slots[..i][..pos] == slots[..pos];
      }
    } else {
      assert IndexOf(e, k) == |e|;
    }
  }

  /** Punching a hole under the pointer and moving it on keeps the number of entries before it. */
  lemma HoleAtCursor<K, V>(slots: seq<Slot<K, V>>, i: nat)
    requires i < |slots|
    ensures var s := slots[i := Hole];
      var p := NextLive(s, i + 1);
      LiveEntries(s[..p]) == LiveEntries(slots[..i])
  {
    var s := slots[i := Hole];
    var p := NextLive(s, i + 1);
    HolesSkipped(s, i, p);
    assert s[..i] == slots[..i];
  }

  /**
   * A PHP array value together with its internal pointer. `slots` are the
   * buckets in order, `pos` the bucket the pointer is on; the pointer is
   * always on a live bucket or just past the last bucket, because `unset`
   * of the bucket under the pointer moves the pointer on.
   */
  class OrderedArray<K(==), V> {
    var slots: seq<Slot<K, V>>
    var pos: nat

    ghost predicate Valid()
      reads this
    {
      WellFormed(slots, pos)
    }

    /** The entries of the array, in iteration order. */
    function Entries(): seq<(K, V)>
      reads this
    {
      LiveEntries(slots)
    }

    /** The number of entries before the internal pointer. */
    function Cursor(): (c: nat)
      reads this
      requires Valid()
      ensures c <= |Entries()|
      ensures pos == |slots| ==> c == |Entries()|
    {
      PrefixEntries(slots, pos);
      assert pos == |slots| ==> slots[..pos] == slots;
      |LiveEntries(slots[..pos])|
    }

    /** An array holding `e`, its pointer on the first entry, as a fresh array literal has. */
    constructor FromEntries(e: seq<(K, V)>)
      requires DistinctKeys(e)
      ensures Valid() && Entries() == e && Cursor() == 0
    {
      slots := LiveSlots(e);
      pos := 0;
      new;
      LiveSlotsEntries(e);
    }

    /** `current($a)`: the value under the pointer, or nothing (PHP's `false`) when it is past the end. */
    function Current(): (r: Option<V>)
      reads this
      requires Valid()
      ensures r.Some? <==> Cursor() < |Entries()|
      ensures r.Some? ==> r.value == Entries()[Cursor()].1
    {
      if pos < |slots| then EntryAtSlot(slots, pos); Some(slots[pos].value) else None
    }

    /** `key($a)`: the key under the pointer, or nothing (PHP's `NULL`) when it is past the end. */
    function Key(): (r: Option<K>)
      reads this
      requires Valid()
      ensures r.Some? <==> Cursor() < |Entries()|
      ensures r.Some? ==> r.value == Entries()[Cursor()].0
    {
      if pos < |slots| then EntryAtSlot(slots, pos); Some(slots[pos].key) else None
    }

    /** `isset($a[$k])` for an array whose values are never NULL. */
    function Has(k: K): (r: bool)
      reads this
      requires Valid()
      ensures r <==> exists i :: 0 <= i < |Entries()| && Entries()[i].0 == k
    {
      var i := SlotOf(slots, k);
      SlotIndex(slots, k);
      if i < |slots| then
        EntryAtSlot(slots, i);
        assert Entries()[|LiveEntries(slots[..i])|].0 == k;
        true
      else false
    }

    /** `reset($a)`: the pointer goes to the first entry. */
    method Reset()
      requires Valid()
      modifies this
      ensures Valid() && Entries() == old(Entries())
      ensures Cursor() == 0
    {
      pos := NextLive(slots, 0);
      HolesSkipped(slots, 0, pos);
    }

    /** `next($a)`: the pointer goes to the next entry in the array's present order. */
    method Next()
      requires Valid()
      modifies this
      ensures Valid() && Entries() == old(Entries())
      ensures Cursor() == Advance(old(Entries()), old(Cursor()))
    {
      if pos < |slots| {
        EntryAtSlot(slots, pos);
        var p := pos;
        pos := NextLive(slots, p + 1);
        HolesSkipped(slots, p + 1, pos);
        assert slots[..p + 1][..p] == slots[..p];
        LiveConcat(slots[..p], [slots[p]]);
        assert slots[..p + 1] == slots[..p] + [slots[p]];
        LiveSingle(slots[p]);
      }
    }

    /** `$a[$k] = $v`: the pointer stays where it is; an entry appended to an exhausted array becomes current. */
    method Set(k: K, v: V)
      requires Valid()
      modifies this
      ensures Valid()
      ensures Entries() == Assign(old(Entries()), k, v)
      ensures Cursor() == old(Cursor())
    {
      AssignSlots(slots, pos, k, v);
      slots := AssignedSlots(slots, k, v);
    }

    /** `unset($a[$k])`: the bucket becomes a hole; a pointer on it moves to the next entry. */
    method Unset(k: K)
      requires Valid()
      modifies this
      ensures Valid()
      ensures Entries() == Without(old(Entries()), k)
      ensures Cursor() == CursorAfterUnset(old(Entries()), old(Cursor()), k)
    {
      UnsetSlots(slots, pos, k);
      var i := SlotOf(slots, k);
      if i < |slots| {
        var s := slots[i := Hole];
        slots := s;
        if i == pos {
          pos := NextLive(s, i + 1);
        }
      }
    }
  }
}
