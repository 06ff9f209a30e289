/** The order `sort_tasks` sorts by: Python's `<=` on strings (code point by code point)
    and on the key tuple `(status == "done", due)`, where `False < True`. */
module Ordering {

  /** Python's `a <= b` on `str`. (Dafny's own `<=` on sequences is the prefix relation.) */
  predicate LexLe(a: string, b: string): (r: bool)
    ensures b == [] ==> (r <==> a == [])
    ensures r && a != [] ==> b != [] && a[0] <= b[0]
  {
    a == [] || (b != [] && (a[0] < b[0] || (a[0] == b[0] && LexLe(a[1..], b[1..]))))
  }

  /** A string is <= any string it is a prefix of. */
  lemma {:induction false} PrefixIsLexLe(a: string, b: string)
    requires a <= b
    ensures LexLe(a, b)
  {
    if a != [] {
      assert a[0] == b[0];
      assert a[1..] <= b[1..];
      PrefixIsLexLe(a[1..], b[1..]);
    }
  }

  /** A string is <= any string it agrees with up to a position where its character
      is the smaller one. */
  lemma {:induction false} FirstDifferenceIsLexLe(a: string, b: string, i: nat)
    requires i < |a| && i < |b| && a[..i] == b[..i] && a[i] < b[i]
    ensures LexLe(a, b)
  {
    if i > 0 {
      assert a[0] == a[..i][0] && b[0] == b[..i][0];
      assert a[1..][..i - 1] == a[..i][1..] && b[1..][..i - 1] == b[..i][1..];
      FirstDifferenceIsLexLe(a[1..], b[1..], i - 1);
    }
  }

  /** Conversely, `a <= b` holds only by one of those two cases. */
  lemma {:induction false} LexLeIsPrefixOrFirstDifference(a: string, b: string)
    requires LexLe(a, b)
    ensures a <= b || exists i :: 0 <= i < |a| && i < |b| && a[..i] == b[..i] && a[i] < b[i]
  {
    if a == [] {
    } else if a[0] < b[0] {
      assert a[..0] == b[..0];
    } else {
      var a', b' := a[1..], b[1..];
      LexLeIsPrefixOrFirstDifference(a', b');
      assert a == [a[0]] + a' && b == [b[0]] + b';
      if !(a' <= b') {
        var i :| 0 <= i < |a'| && i < |b'| && a'[..i] == b'[..i] && a'[i] < b'[i];
        assert a[..i + 1] == [a[0]] + a'[..i] && b[..i + 1] == [b[0]] + b'[..i];
        assert a[i + 1] == a'[i] && b[i + 1] == b'[i];
      }
    }
  }

  lemma {:induction false} LexLeReflexive(a: string)
    ensures LexLe(a, a)
  {
    if a != [] { LexLeReflexive(a[1..]); }
  }

  lemma {:induction false} LexLeTotal(a: string, b: string)
    ensures LexLe(a, b) || LexLe(b, a)
  {
    if a != [] && b != [] && a[0] == b[0] { LexLeTotal(a[1..], b[1..]); }
  }

  lemma {:induction false} LexLeAntisymmetric(a: string, b: string)
    requires LexLe(a, b) && LexLe(b, a)
    ensures a == b
  {
    if a != [] && b != [] {
      LexLeAntisymmetric(a[1..], b[1..]);
      assert a == [a[0]] + a[1..] && b == [b[0]] + b[1..];
    }
  }

  lemma {:induction false} LexLeTransitive(a: string, b: string, c: string)
    requires LexLe(a, b) && LexLe(b, c)
    ensures LexLe(a, c)
  {
    if a != [] && b != [] && c != [] && a[0] == b[0] && b[0] == c[0] {
      LexLeTransitive(a[1..], b[1..], c[1..]);
    }
  }

  /** The value of the sort key lambda `(x["status"] == "done", x.get("due", ""))`. */
  datatype SortKey = SortKey(done: bool, due: string)

  /** Python's `<=` on that tuple: compare the flags first (`False < True`), then the dates. */
  predicate KeyLe(x: SortKey, y: SortKey): (r: bool)
    ensures !x.done && y.done ==> r
    ensures x.done && !y.done ==> !r
    ensures x.done == y.done ==> (r <==> LexLe(x.due, y.due))
  {
    (!x.done && y.done) || (x.done == y.done && LexLe(x.due, y.due))
  }

  lemma KeyLeReflexive(x: SortKey)
    ensures KeyLe(x, x)
  {
    LexLeReflexive(x.due);
  }

  lemma KeyLeTotal(x: SortKey, y: SortKey)
    ensures KeyLe(x, y) || KeyLe(y, x)
  {
    LexLeTotal(x.due, y.due);
  }

  lemma KeyLeAntisymmetric(x: SortKey, y: SortKey)
    requires KeyLe(x, y) && KeyLe(y, x)
    ensures x == y
  {
    LexLeAntisymmetric(x.due, y.due);
  }

  lemma KeyLeTransitive(x: SortKey, y: SortKey, z: SortKey)
    requires KeyLe(x, y) && KeyLe(y, z)
    ensures KeyLe(x, z)
  {
    if x.done == y.done == z.done { LexLeTransitive(x.due, y.due, z.due); }
  }
}
