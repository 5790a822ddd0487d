// Sequences up to order: mapping, filtering, counting and sorting depend on contents only.
module Permutations {
  /** Every element replaced by a short sequence. */
  function Flat<T, U>(f: T -> seq<U>, s: seq<T>): seq<U> {
    if s == [] then [] else Flat(f, s[..|s| - 1]) + f(s[|s| - 1])
  }

  lemma {:induction false} FlatConcat<T, U>(f: T -> seq<U>, a: seq<T>, b: seq<T>)
    ensures Flat(f, a + b) == Flat(f, a) + Flat(f, b)
  {
    if b == [] {
      assert a + b == a;
    } else {
      FlatConcat(f, a, b[..|b| - 1]);
      assert (a + b)[..|a + b| - 1] == a + b[..|b| - 1];
    }
  }

  lemma FlatOne<T, U>(f: T -> seq<U>, x: T)
    ensures Flat(f, [x]) == f(x)
  {
    assert [x][..0] == [];
  }

  lemma FlatSplit<T, U>(f: T -> seq<U>, t: seq<T>, rest: seq<T>, a: seq<T>, x: T, b: seq<T>)
    requires t == a + [x] + b && rest == a + b
    ensures multiset(Flat(f, t)) == multiset(Flat(f, rest)) + multiset(f(x))
  {
    FlatConcat(f, a + [x], b);
    FlatConcat(f, a, [x]);
    FlatConcat(f, a, b);
    FlatOne(f, x);
  }

  function Drop<T>(t: seq<T>, j: nat): seq<T>
    requires j < |t|
  {
    t[..j] + t[j + 1..]
  }

  lemma Around<T>(t: seq<T>, j: nat)
    requires j < |t|
    ensures t == t[..j] + [t[j]] + t[j + 1..]
  {
  }

  lemma DropContents<T>(t: seq<T>, j: nat)
    requires j < |t|
    ensures multiset(Drop(t, j)) == multiset(t) - multiset{t[j]}
  {
    assert t == t[..j] + [t[j]] + t[j + 1..];
  }

  lemma DropLast<T>(t: seq<T>)
    requires t != []
    ensures Drop(t, |t| - 1) == t[..|t| - 1]
  {
  }

  lemma FlatDrop<T, U>(f: T -> seq<U>, t: seq<T>, j: nat)
    requires j < |t|
    ensures multiset(Flat(f, t)) == multiset(Flat(f, Drop(t, j))) + multiset(f(t[j]))
  {
    Around(t, j);
    FlatSplit(f, t, Drop(t, j), t[..j], t[j], t[j + 1..]);
  }

  lemma SameLength<T>(s: seq<T>, t: seq<T>)
    requires multiset(s) == multiset(t)
    ensures |s| == |t|
  {
    assert |multiset(s)| == |multiset(t)|;
  }

  lemma Occurs<T>(s: seq<T>, t: seq<T>, i: nat) returns (j: nat)
    requires multiset(s) == multiset(t) && i < |s|
    ensures j < |t| && t[j] == s[i]
    ensures multiset(Drop(s, i)) == multiset(Drop(t, j))
  {
    assert s[i] in multiset(t);
    j :| 0 <= j < |t| && t[j] == s[i];
    DropContents(s, i);
    DropContents(t, j);
  }

  /** Reordering the input reorders the output. */
  lemma {:induction false} FlatPermuted<T, U>(f: T -> seq<U>, s: seq<T>, t: seq<T>)
    requires multiset(s) == multiset(t)
    ensures multiset(Flat(f, s)) == multiset(Flat(f, t))
    decreases |s|
  {
    SameLength(s, t);
    if s != [] {
      var i := |s| - 1;
      var j := Occurs(s, t, i);
      FlatPermuted(f, Drop(s, i), Drop(t, j));
      FlatDrop(f, s, i);
      FlatDrop(f, t, j);
    }
  }

  // ---------- Sorting reals ----------

  predicate Ascending(s: seq<real>) {
    forall i, j :: 0 <= i < j < |s| ==> s[i] <= s[j]
  }

  lemma LastAtMost(s: seq<real>, t: seq<real>)
    requires s != [] && t != [] && Ascending(t) && multiset(s) == multiset(t)
    ensures s[|s| - 1] <= t[|t| - 1]
  {
    assert s[|s| - 1] in multiset(t);
  }

  lemma SameButLast(s: seq<real>, t: seq<real>)
    requires s != [] && |s| == |t| && s[|s| - 1] == t[|t| - 1] && multiset(s) == multiset(t)
    ensures multiset(s[..|s| - 1]) == multiset(t[..|t| - 1])
  {
    DropContents(s, |s| - 1);
    DropContents(t, |t| - 1);
    DropLast(s);
    DropLast(t);
  }

  /** Sorted sequences with equal contents are equal. */
  lemma {:induction false} AscendingUnique(s: seq<real>, t: seq<real>)
    requires Ascending(s) && Ascending(t) && multiset(s) == multiset(t)
    ensures s == t
  {
    SameLength(s, t);
    if s != [] {
      var n := |s| - 1;
      LastAtMost(s, t);
      LastAtMost(t, s);
      SameButLast(s, t);
      AscendingUnique(s[..n], t[..n]);
      assert forall i :: 0 <= i < n ==> s[i] == s[..n][i] && t[i] == t[..n][i];
    }
  }

  function Insert(x: real, s: seq<real>): seq<real> {
    if s == [] || s[|s| - 1] <= x then s + [x] else Insert(x, s[..|s| - 1]) + [s[|s| - 1]]
  }

  lemma {:induction false} InsertContents(x: real, s: seq<real>)
    ensures multiset(Insert(x, s)) == multiset(s) + multiset{x}
  {
    if s != [] && s[|s| - 1] > x {
      var n := |s| - 1;
      InsertContents(x, s[..n]);
      assert s == s[..n] + [s[n]];
    }
  }

  lemma {:induction false} InsertBounded(x: real, s: seq<real>, y: real)
    requires x <= y && forall i :: 0 <= i < |s| ==> s[i] <= y
    ensures forall i :: 0 <= i < |Insert(x, s)| ==> Insert(x, s)[i] <= y
  {
    if s != [] && s[|s| - 1] > x {
      InsertBounded(x, s[..|s| - 1], y);
    }
  }

  lemma {:induction false} InsertSorts(x: real, s: seq<real>)
    requires Ascending(s)
    ensures Ascending(Insert(x, s))
  {
    if s != [] && s[|s| - 1] > x {
      var n := |s| - 1;
      InsertSorts(x, s[..n]);
      InsertBounded(x, s[..n], s[n]);
    }
  }

  function Sort(s: seq<real>): seq<real> {
    if s == [] then [] else Insert(s[|s| - 1], Sort(s[..|s| - 1]))
  }

  lemma {:induction false} SortContents(s: seq<real>)
    ensures multiset(Sort(s)) == multiset(s)
  {
    if s != [] {
      var n := |s| - 1;
      SortContents(s[..n]);
      InsertContents(s[n], Sort(s[..n]));
      assert s == s[..n] + [s[n]];
    }
  }

  lemma {:induction false} SortAscends(s: seq<real>)
    ensures Ascending(Sort(s))
  {
    if s != [] {
      SortAscends(s[..|s| - 1]);
      InsertSorts(s[|s| - 1], Sort(s[..|s| - 1]));
    }
  }

  lemma SortSorts(s: seq<real>)
    ensures Ascending(Sort(s)) && multiset(Sort(s)) == multiset(s) && |Sort(s)| == |s|
  {
    SortContents(s);
    SortAscends(s);
    SameLength(Sort(s), s);
  }

  lemma SortPermuted(s: seq<real>, t: seq<real>)
    requires multiset(s) == multiset(t)
    ensures Sort(s) == Sort(t)
  {
    SortSorts(s);
    SortSorts(t);
    AscendingUnique(Sort(s), Sort(t));
  }

  // ---------- Counting ----------

  function Keep(p: real -> bool, s: seq<real>): seq<real> {
    Flat((v: real) => if p(v) then [v] else [], s)
  }

  /** As many positions satisfy p as elements are kept. */
  lemma {:induction false} KeepCounts(p: real -> bool, s: seq<real>)
    ensures |set i | 0 <= i < |s| && p(s[i])| == |Keep(p, s)|
  {
    if s != [] {
      var n := |s| - 1;
      KeepCounts(p, s[..n]);
      var old_set := set i | 0 <= i < |s[..n]| && p(s[..n][i]);
      var new_set := set i | 0 <= i < |s| && p(s[i]);
      assert forall i :: 0 <= i < n ==> s[..n][i] == s[i];
      assert new_set == if p(s[n]) then old_set + {n} else old_set;
    }
  }

  lemma KeepPermuted(p: real -> bool, s: seq<real>, t: seq<real>)
    requires multiset(s) == multiset(t)
    ensures |Keep(p, s)| == |Keep(p, t)|
  {
    FlatPermuted((v: real) => if p(v) then [v] else [], s, t);
    assert |multiset(Keep(p, s))| == |multiset(Keep(p, t))|;
  }
}
