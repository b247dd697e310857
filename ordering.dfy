/** The order in which a file's diagnostics are printed: a stable sort on
    the start byte of each diagnostic's range. The sort is stated as an
    insertion sort, and shown to be the only sorted arrangement that keeps,
    for every start byte, the diagnostics with that start byte in their
    original order -- which is what a stable sort promises. */
module Ordering {
  import opened LintTypes

  /** The sort key. */
  function StartOf(d: RawDiagnostic): nat {
    d.range.startByte
  }

  predicate SortedByStart(s: seq<RawDiagnostic>) {
    forall i, j :: 0 <= i < j < |s| ==> StartOf(s[i]) <= StartOf(s[j])
  }

  /** The diagnostics of s that start at byte k, in their order in s. */
  function WithStart(s: seq<RawDiagnostic>, k: nat): seq<RawDiagnostic> {
    if s == [] then []
    else
      WithStart(s[..|s| - 1], k) + (if StartOf(s[|s| - 1]) == k then [s[|s| - 1]] else [])
  }

  /** Places x after every element of the sorted t whose key is at most x's. */
  function Insert(t: seq<RawDiagnostic>, x: RawDiagnostic): seq<RawDiagnostic> {
    if t == [] || StartOf(t[|t| - 1]) <= StartOf(x) then t + [x]
    else Insert(t[..|t| - 1], x) + [t[|t| - 1]]
  }

  /** The stable sort by start byte. */
  function SortByStart(s: seq<RawDiagnostic>): (r: seq<RawDiagnostic>)
    ensures SortedByStart(r)
    ensures multiset(r) == multiset(s)
    ensures forall k :: WithStart(r, k) == WithStart(s, k)
  {
    if s == [] then []
    else
      var front := s[..|s| - 1];
      var x := s[|s| - 1];
      var t := SortByStart(front);
      InsertSorted(t, x);
      InsertMultiset(t, x);
      assert s == front + [x];
      forall k ensures WithStart(Insert(t, x), k) == WithStart(s, k) {
        InsertWithStart(t, x, k);
      }
      Insert(t, x)
  }

  lemma WithStartSnoc(s: seq<RawDiagnostic>, x: RawDiagnostic, k: nat)
    ensures WithStart(s + [x], k) == WithStart(s, k) + (if StartOf(x) == k then [x] else [])
  {
    assert (s + [x])[..|s|] == s;
  }

  /** Every element of Insert(t, x) is x or an element of t, and Insert
      keeps a sorted sequence sorted. */
  lemma {:induction false} InsertSorted(t: seq<RawDiagnostic>, x: RawDiagnostic)
    requires SortedByStart(t)
    ensures SortedByStart(Insert(t, x))
    ensures |Insert(t, x)| == |t| + 1
    ensures forall i :: 0 <= i < |Insert(t, x)| ==> Insert(t, x)[i] == x || Insert(t, x)[i] in t
  {
    if t == [] || StartOf(t[|t| - 1]) <= StartOf(x) {
      var r := t + [x];
      forall i, j | 0 <= i < j < |r| ensures StartOf(r[i]) <= StartOf(r[j]) {
        if j == |t| && i < |t| {
          assert StartOf(t[i]) <= StartOf(t[|t| - 1]);
        }
      }
    } else {
      var front := t[..|t| - 1];
      var last := t[|t| - 1];
      InsertSorted(front, x);
      var u := Insert(front, x);
      var r := u + [last];
      forall i | 0 <= i < |u| ensures StartOf(u[i]) <= StartOf(last) {
        if u[i] != x {
          var j :| 0 <= j < |front| && front[j] == u[i];
          assert t[j] == front[j];
        }
      }
      forall i, j | 0 <= i < j < |r| ensures StartOf(r[i]) <= StartOf(r[j]) {
        if j < |u| {
          assert r[i] == u[i] && r[j] == u[j];
        }
      }
      forall i | 0 <= i < |r| ensures r[i] == x || r[i] in t {
        if i < |u| && u[i] != x {
          assert u[i] in front;
        }
      }
    }
  }

  lemma {:induction false} InsertMultiset(t: seq<RawDiagnostic>, x: RawDiagnostic)
    ensures multiset(Insert(t, x)) == multiset(t) + multiset{x}
  {
    if !(t == [] || StartOf(t[|t| - 1]) <= StartOf(x)) {
      var front := t[..|t| - 1];
      InsertMultiset(front, x);
      assert t == front + [t[|t| - 1]];
    }
  }

  /** Insertion is stable: x goes behind every element of t with its key. */
  lemma {:induction false} InsertWithStart(t: seq<RawDiagnostic>, x: RawDiagnostic, k: nat)
    ensures WithStart(Insert(t, x), k) == WithStart(t, k) + (if StartOf(x) == k then [x] else [])
  {
    if t == [] || StartOf(t[|t| - 1]) <= StartOf(x) {
      WithStartSnoc(t, x, k);
    } else {
      var front := t[..|t| - 1];
      var last := t[|t| - 1];
      InsertWithStart(front, x, k);
      WithStartSnoc(Insert(front, x), last, k);
      assert t == front + [last];
      WithStartSnoc(front, last, k);
      var ex := if StartOf(x) == k then [x] else [];
      var el := if StartOf(last) == k then [last] else [];
      assert ex == [] || el == [];
      AppendAssoc(WithStart(front, k), ex, el);
      AppendAssoc(WithStart(front, k), el, ex);
    }
  }

  /** Filtering by key distributes over concatenation. */
  lemma {:induction false} WithStartAppend(a: seq<RawDiagnostic>, b: seq<RawDiagnostic>, k: nat)
    ensures WithStart(a + b, k) == WithStart(a, k) + WithStart(b, k)
    decreases |b|
  {
    if b == [] {
      assert a + b == a;
    } else {
      var front := b[..|b| - 1];
      var y := b[|b| - 1];
      WithStartAppend(a, front, k);
      assert b == front + [y];
      assert a + b == (a + front) + [y];
      WithStartSnoc(a + front, y, k);
      WithStartSnoc(front, y, k);
      AppendAssoc(WithStart(a, k), WithStart(front, k), if StartOf(y) == k then [y] else []);
    }
  }

  /** What WithStart picks: elements of s, all with key k, and every element
      of s with key k. */
  lemma {:induction false} WithStartMembers(s: seq<RawDiagnostic>, k: nat)
    ensures forall i :: 0 <= i < |WithStart(s, k)| ==> WithStart(s, k)[i] in s && StartOf(WithStart(s, k)[i]) == k
    ensures forall i :: 0 <= i < |s| && StartOf(s[i]) == k ==> s[i] in WithStart(s, k)
  {
    if s != [] {
      var front := s[..|s| - 1];
      var x := s[|s| - 1];
      WithStartMembers(front, k);
      assert s == front + [x];
      var w := WithStart(s, k);
      forall i | 0 <= i < |w| ensures w[i] in s && StartOf(w[i]) == k {
        if i < |WithStart(front, k)| {
          assert w[i] == WithStart(front, k)[i];
          assert w[i] in front;
        }
      }
      forall i | 0 <= i < |s| && StartOf(s[i]) == k ensures s[i] in w {
        if i < |front| {
          assert s[i] == front[i];
        }
      }
    }
  }

  /** The last element of a sorted sequence carries its largest key. */
  lemma LastIsMax(s: seq<RawDiagnostic>, k: nat)
    requires SortedByStart(s) && s != [] && WithStart(s, k) != []
    ensures k <= StartOf(s[|s| - 1])
  {
    WithStartMembers(s, k);
    var d := WithStart(s, k)[0];
    var i :| 0 <= i < |s| && s[i] == d;
  }

  /** A stable sort has only one possible result: two sorted sequences that
      agree, key by key, on their elements and their order are equal. */
  lemma {:induction false} StableSortUnique(a: seq<RawDiagnostic>, b: seq<RawDiagnostic>)
    requires SortedByStart(a) && SortedByStart(b)
    requires forall k :: WithStart(a, k) == WithStart(b, k)
    ensures a == b
    decreases |a| + |b|
  {
    if a == [] && b == [] {
    } else if a == [] {
      var y := b[|b| - 1];
      WithStartMembers(b, StartOf(y));
    } else if b == [] {
      var x := a[|a| - 1];
      WithStartMembers(a, StartOf(x));
    } else {
      var x := a[|a| - 1];
      var y := b[|b| - 1];
      var a' := a[..|a| - 1];
      var b' := b[..|b| - 1];
      LastIsMax(b, StartOf(x)) by {
        assert WithStart(a, StartOf(x)) == WithStart(a', StartOf(x)) + [x];
      }
      LastIsMax(a, StartOf(y)) by {
        assert WithStart(b, StartOf(y)) == WithStart(b', StartOf(y)) + [y];
      }
      var key := StartOf(x);
      assert StartOf(y) == key;
      var w := WithStart(a, key);
      assert w == WithStart(a', key) + [x];
      assert w == WithStart(b', key) + [y];
      assert x == w[|w| - 1] == y;
      forall k ensures WithStart(a', k) == WithStart(b', k) {
        if k == key {
          assert WithStart(a', k) == w[..|w| - 1];
          assert WithStart(b', k) == w[..|w| - 1];
        } else {
          assert WithStart(a, k) == WithStart(a', k) + [] == WithStart(a', k);
          assert WithStart(b, k) == WithStart(b', k) + [] == WithStart(b', k);
        }
      }
      SortedPrefix(a);
      SortedPrefix(b);
      StableSortUnique(a', b');
      assert a == a' + [x];
      assert b == b' + [y];
    }
  }

  lemma SortedPrefix(s: seq<RawDiagnostic>)
    requires SortedByStart(s) && s != []
    ensures SortedByStart(s[..|s| - 1])
  {
  }

  /** SortByStart is the stable sort: any sorted arrangement of s that keeps
      the relative order of equal keys is SortByStart(s). */
  lemma SortByStartIsTheStableSort(s: seq<RawDiagnostic>, r: seq<RawDiagnostic>)
    requires SortedByStart(r)
    requires forall k :: WithStart(r, k) == WithStart(s, k)
    ensures r == SortByStart(s)
  {
    StableSortUnique(r, SortByStart(s));
  }
}
