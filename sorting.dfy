/** `sort_tasks`: `self.tasks.sort(key=lambda x: (x["status"] == "done", x.get("due", "")))`.
    Python's `list.sort` is stable; `SortByKey` is a stable insertion sort, and
    `StableSortIsUnique` shows that every stable sort by this key gives its result. */
module Sorting {
  import opened Tasks
  import opened Ordering

  /** The sort key of a task. Every task has a `due` field, so `.get("due", "")` is `due`. */
  function KeyOf(t: Task): (k: SortKey)
    ensures k.done <==> t.status == Done
    ensures k.due == t.due
  {
    SortKey(t.status == Done, t.due)
  }

  /** `s` is ordered by key: unfinished tasks first, then by due string. */
  ghost predicate Sorted(s: seq<Task>)
  {
    forall i, j :: 0 <= i < j < |s| ==> KeyLe(KeyOf(s[i]), KeyOf(s[j]))
  }

  /** The tasks of `s` whose key is `k`, in their order in `s`. */
  function WithKey(s: seq<Task>, k: SortKey): (r: seq<Task>)
    ensures forall t :: t in r ==> t in s && KeyOf(t) == k
  {
    if s == [] then []
    else (if KeyOf(s[0]) == k then [s[0]] else []) + WithKey(s[1..], k)
  }

  /** `r` is `s` stably sorted by key: ordered, a permutation of `s`, and the tasks of
      each key appear in `r` in the order they had in `s`. */
  ghost predicate IsStableSortOf(r: seq<Task>, s: seq<Task>)
  {
    && Sorted(r)
    && multiset(r) == multiset(s)
    && forall k :: WithKey(r, k) == WithKey(s, k)
  }

  /** Insert `x` before the first task of `r` whose key is not smaller than its own. */
  function Insert(x: Task, r: seq<Task>): (o: seq<Task>)
    ensures multiset(o) == multiset(r) + multiset{x}
  {
    if r == [] || KeyLe(KeyOf(x), KeyOf(r[0])) then [x] + r
    else
      assert r == [r[0]] + r[1..];
      [r[0]] + Insert(x, r[1..])
  }

  /** A stable insertion sort by `KeyOf`. */
  function SortByKey(s: seq<Task>): (r: seq<Task>)
    ensures multiset(r) == multiset(s)
  {
    if s == [] then []
    else
      assert s == [s[0]] + s[1..];
      Insert(s[0], SortByKey(s[1..]))
  }

  lemma {:induction false} InsertSorted(x: Task, r: seq<Task>)
    requires Sorted(r)
    ensures Sorted(Insert(x, r))
  {
    if r == [] || KeyLe(KeyOf(x), KeyOf(r[0])) {
      var o := [x] + r;
      forall m, n | 0 <= m < n < |o| ensures KeyLe(KeyOf(o[m]), KeyOf(o[n])) {
        assert o[n] == r[n - 1];
        if m == 0 {
          if n > 1 { KeyLeTransitive(KeyOf(x), KeyOf(r[0]), KeyOf(r[n - 1])); }
        } else {
          assert o[m] == r[m - 1];
        }
      }
    } else {
      var rest := r[1..];
      InsertSorted(x, rest);
      var o := Insert(x, rest);
      KeyLeTotal(KeyOf(x), KeyOf(r[0]));
      forall j | 0 <= j < |o| ensures KeyLe(KeyOf(r[0]), KeyOf(o[j])) {
        assert o[j] in multiset(o);
        if o[j] != x {
          assert o[j] in multiset(rest);
          var m :| 0 <= m < |rest| && rest[m] == o[j];
          assert r[m + 1] == o[j];
        }
      }
    }
  }

  /** The result of `SortByKey` is ordered by key. */
  lemma {:induction false} SortByKeySorted(s: seq<Task>)
    ensures Sorted(SortByKey(s))
  {
    if s != [] {
      SortByKeySorted(s[1..]);
      InsertSorted(s[0], SortByKey(s[1..]));
    }
  }

  /** Insertion keeps the tasks of each key in order, with `x` ahead of those with its key. */
  lemma {:induction false} InsertWithKey(x: Task, r: seq<Task>, k: SortKey)
    ensures WithKey(Insert(x, r), k) == WithKey([x] + r, k)
  {
    if r == [] || KeyLe(KeyOf(x), KeyOf(r[0])) {
    } else {
      var r0, rest := r[0], r[1..];
      KeyLeReflexive(KeyOf(x));
      assert KeyOf(r0) != KeyOf(x);
      InsertWithKey(x, rest, k);
      assert r == [r0] + rest;
      WithKeyCons(r0, Insert(x, rest), k);
      WithKeyCons(x, rest, k);
      WithKeyCons(x, r, k);
      WithKeyCons(r0, rest, k);
      if KeyOf(x) == k {
        assert WithKey(Insert(x, r), k) == [x] + WithKey(rest, k);
      } else if KeyOf(r0) == k {
        assert WithKey(Insert(x, r), k) == [r0] + WithKey(rest, k);
      }
    }
  }

  lemma WithKeyCons(t: Task, s: seq<Task>, k: SortKey)
    ensures WithKey([t] + s, k) == (if KeyOf(t) == k then [t] else []) + WithKey(s, k)
  {
    assert ([t] + s)[1..] == s;
  }

  /** `SortByKey` is stable: the tasks of each key keep their relative order. */
  lemma {:induction false} SortByKeyStable(s: seq<Task>, k: SortKey)
    ensures WithKey(SortByKey(s), k) == WithKey(s, k)
  {
    if s != [] {
      var rest := SortByKey(s[1..]);
      SortByKeyStable(s[1..], k);
      InsertWithKey(s[0], rest, k);
      assert ([s[0]] + rest)[1..] == rest;
    }
  }

  /** `SortByKey(s)` is a stable sort of `s`. */
  lemma {:induction false} SortByKeyIsStableSort(s: seq<Task>)
    ensures IsStableSortOf(SortByKey(s), s)
  {
    SortByKeySorted(s);
    forall k ensures WithKey(SortByKey(s), k) == WithKey(s, k) {
      SortByKeyStable(s, k);
    }
  }

  lemma {:induction false} WithKeyHead(s: seq<Task>)
    requires s != []
    ensures WithKey(s, KeyOf(s[0])) == [s[0]] + WithKey(s[1..], KeyOf(s[0]))
    ensures forall k :: k != KeyOf(s[0]) ==> WithKey(s, k) == WithKey(s[1..], k)
  {
  }

  lemma SortedTail(s: seq<Task>)
    requires Sorted(s) && s != []
    ensures Sorted(s[1..])
  {
    forall i, j | 0 <= i < j < |s| - 1 ensures KeyLe(KeyOf(s[1..][i]), KeyOf(s[1..][j])) {
      assert s[1..][i] == s[i + 1] && s[1..][j] == s[j + 1];
    }
  }

  /** The first task of a sorted non-empty list has a key no larger than any task in it. */
  lemma SortedHeadIsLeast(s: seq<Task>, t: Task)
    requires Sorted(s) && s != [] && t in s
    ensures KeyLe(KeyOf(s[0]), KeyOf(t))
  {
    var j :| 0 <= j < |s| && s[j] == t;
    if j == 0 { KeyLeReflexive(KeyOf(t)); }
  }

  /** There is only one stable sort: two ordered lists that list the tasks of every key
      in the same order are the same list. */
  lemma {:induction false} StableOrderIsUnique(a: seq<Task>, b: seq<Task>)
    requires Sorted(a) && Sorted(b)
    requires forall k :: WithKey(a, k) == WithKey(b, k)
    ensures a == b
    decreases |a|
  {
    if a == [] && b != [] {
      WithKeyHead(b);
      assert false;
    } else if a != [] && b == [] {
      WithKeyHead(a);
      assert false;
    } else if a != [] {
      var ka, kb := KeyOf(a[0]), KeyOf(b[0]);
      WithKeyHead(a);
      WithKeyHead(b);
      var wa, wb := WithKey(a, ka), WithKey(b, kb);
      assert wa[0] == a[0] && wb[0] == b[0];
      assert WithKey(b, ka)[0] in WithKey(b, ka);
      SortedHeadIsLeast(b, WithKey(b, ka)[0]);
      assert WithKey(a, kb)[0] in WithKey(a, kb);
      SortedHeadIsLeast(a, WithKey(a, kb)[0]);
      KeyLeAntisymmetric(ka, kb);
      assert a[0] == b[0];
      forall k ensures WithKey(a[1..], k) == WithKey(b[1..], k) {
        if k == ka {
          var x, y := WithKey(a[1..], k), WithKey(b[1..], k);
          assert [a[0]] + x == [b[0]] + y;
          assert x == ([a[0]] + x)[1..] && y == ([b[0]] + y)[1..];
        } else {
          assert WithKey(a, k) == WithKey(a[1..], k);
          assert WithKey(b, k) == WithKey(b[1..], k);
        }
      }
      SortedTail(a);
      SortedTail(b);
      StableOrderIsUnique(a[1..], b[1..]);
      assert a == [a[0]] + a[1..] && b == [b[0]] + b[1..];
    }
  }

  /** Whatever algorithm performs it, a stable sort of `s` is `SortByKey(s)`. */
  lemma StableSortIsUnique(r: seq<Task>, s: seq<Task>)
    requires IsStableSortOf(r, s)
    ensures r == SortByKey(s)
  {
    SortByKeyIsStableSort(s);
    StableOrderIsUnique(r, SortByKey(s));
  }

  /** Sorting an ordered list leaves it as it is. */
  lemma {:induction false} SortedIsFixpoint(s: seq<Task>)
    requires Sorted(s)
    ensures SortByKey(s) == s
  {
    StableSortIsUnique(s, s);
  }

  /** Sorting twice is sorting once. */
  lemma {:induction false} SortByKeyIdempotent(s: seq<Task>)
    ensures SortByKey(SortByKey(s)) == SortByKey(s)
  {
    SortByKeySorted(s);
    SortedIsFixpoint(SortByKey(s));
  }

  /** Deleting a task from an ordered list leaves it ordered. */
  lemma SortedRemoveAt(s: seq<Task>, i: nat)
    requires Sorted(s) && i < |s|
    ensures Sorted(RemoveAt(s, i))
  {
    var r := RemoveAt(s, i);
    forall m, n | 0 <= m < n < |r| ensures KeyLe(KeyOf(r[m]), KeyOf(r[n])) {
      var m', n' := if m < i then m else m + 1, if n < i then n else n + 1;
      assert r[m] == s[m'] && r[n] == s[n'];
    }
  }

  /** Replacing a task of an ordered list by one with the same key leaves it ordered;
      editing the text is such a replacement. */
  lemma SortedEditAt(s: seq<Task>, i: nat, text: string)
    requires Sorted(s) && i < |s|
    ensures Sorted(EditAt(s, i, text))
  {
    var r := EditAt(s, i, text);
    forall m, n | 0 <= m < n < |r| ensures KeyLe(KeyOf(r[m]), KeyOf(r[n])) {
      assert KeyOf(r[m]) == KeyOf(s[m]) && KeyOf(r[n]) == KeyOf(s[n]);
    }
  }

  /** How `Insert` places a task in front of, or behind, the first task of a list. */
  lemma InsertStep(x: Task, y: Task, r: seq<Task>)
    ensures KeyLe(KeyOf(x), KeyOf(y)) ==> Insert(x, [y] + r) == [x, y] + r
    ensures !KeyLe(KeyOf(x), KeyOf(y)) ==> Insert(x, [y] + r) == [y] + Insert(x, r)
  {
    assert ([y] + r)[0] == y && ([y] + r)[1..] == r;
  }

  /** Two tasks are sorted into key order, and kept in place when the keys tie. */
  lemma SortPair(x: Task, y: Task)
    ensures SortByKey([x, y]) == if KeyLe(KeyOf(x), KeyOf(y)) then [x, y] else [y, x]
  {
    assert [x, y][1..] == [y] && [y][1..] == [];
    assert SortByKey([y]) == [y];
    InsertStep(x, y, []);
  }

  /** Inserting a task behind the first of two tasks and in front of the second. */
  lemma InsertBetween(x: Task, y: Task, z: Task)
    requires !KeyLe(KeyOf(x), KeyOf(y)) && KeyLe(KeyOf(x), KeyOf(z))
    ensures Insert(x, [y, z]) == [y, x, z]
  {
    InsertStep(x, y, [z]);
    InsertStep(x, z, []);
  }

  /** Three tasks whose keys are ordered c < a < b (with b not below c) sort to c, a, b. */
  lemma SortThree(a: Task, b: Task, c: Task)
    requires !KeyLe(KeyOf(b), KeyOf(c)) && !KeyLe(KeyOf(a), KeyOf(c)) && KeyLe(KeyOf(a), KeyOf(b))
    ensures SortByKey([a, b, c]) == [c, a, b]
  {
    assert [a, b, c][0] == a && [a, b, c][1..] == [b, c];
    SortPair(b, c);
    InsertBetween(a, c, b);
  }

  /** The ordering of three tasks: unfinished ones first; among those, no due date before
      a due date. */
  lemma SortExample()
    ensures
      var a, b, c := Task("A", InProgress, "2024-06-01"), Task("B", Done, ""), Task("C", InProgress, "");
      SortByKey([a, b, c]) == [c, a, b]
  {
    var a, b, c := Task("A", InProgress, "2024-06-01"), Task("B", Done, ""), Task("C", InProgress, "");
    assert KeyOf(a) == SortKey(false, "2024-06-01");
    assert KeyOf(b) == SortKey(true, "") && KeyOf(c) == SortKey(false, "");
    SortThree(a, b, c);
  }

  /** Toggling a task and then toggling it again at the row it moved to restores its
      status, but not necessarily the order: an unfinished task that comes first among
      tasks of equal key is put back after them. */
  lemma ToggleTwiceCanReorder()
    ensures
      var a, b := Task("A", InProgress, ""), Task("B", InProgress, "");
      var once := SortByKey(ToggleAt([a, b], 0));
      && once == [b, a.(status := Done)]
      && SortByKey(ToggleAt(once, 1)) == [b, a]
  {
    var a, b := Task("A", InProgress, ""), Task("B", InProgress, "");
    var doneA := a.(status := Done);
    assert KeyOf(a) == SortKey(false, "") && KeyOf(b) == SortKey(false, "");
    assert KeyOf(doneA) == SortKey(true, "");
    assert ToggleAt([a, b], 0) == [doneA, b];
    assert !KeyLe(KeyOf(doneA), KeyOf(b));
    SortPair(doneA, b);
    assert ToggleAt([b, doneA], 1) == [b, a];
    assert KeyLe(KeyOf(b), KeyOf(a)) by { LexLeReflexive(""); }
    SortPair(b, a);
  }
}
