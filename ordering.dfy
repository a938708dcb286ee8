/**
 * Python's ordering of `str` values (code point by code point, a proper
 * prefix first) and `sorted(..., reverse=True)` over a list of names.
 */
module Ordering {

  /** `a <= b` on Python strings. */
  predicate LexLe(a: string, b: string)
    decreases |a|
  {
    a == [] || (b != [] && (a[0] < b[0] || (a[0] == b[0] && LexLe(a[1..], b[1..]))))
  }

  lemma {:induction false} LexLeReflexive(a: string)
    ensures LexLe(a, a)
    decreases |a|
  {
    if a != [] { LexLeReflexive(a[1..]); }
  }

  lemma {:induction false} LexLeTotal(a: string, b: string)
    ensures LexLe(a, b) || LexLe(b, a)
    decreases |a|
  {
    if a != [] && b != [] && a[0] == b[0] {
      LexLeTotal(a[1..], b[1..]);
    }
  }

  lemma {:induction false} LexLeTransitive(a: string, b: string, c: string)
    requires LexLe(a, b) && LexLe(b, c)
    ensures LexLe(a, c)
    decreases |a|
  {
    if a != [] && a[0] == b[0] && b[0] == c[0] {
      LexLeTransitive(a[1..], b[1..], c[1..]);
    }
  }

  lemma {:induction false} LexLeAntisymmetric(a: string, b: string)
    requires LexLe(a, b) && LexLe(b, a)
    ensures a == b
    decreases |a|
  {
    if a != [] {
      LexLeAntisymmetric(a[1..], b[1..]);
      assert a == [a[0]] + a[1..] && b == [b[0]] + b[1..];
    }
  }

  /** Each element is at least as large as every later one. */
  ghost predicate Descending(s: seq<string>) {
    forall i, j :: 0 <= i < j < |s| ==> LexLe(s[j], s[i])
  }

  /** Places `x` into the descending list `s`, after every element greater than it. */
  function InsertDesc(x: string, s: seq<string>): (r: seq<string>)
    requires Descending(s)
    ensures Descending(r)
    ensures multiset(r) == multiset(s) + multiset{x}
  {
    if s == [] then [x]
    else if LexLe(s[0], x) then
      BelowHead(s, x);
      ConsDescending(x, s);
      [x] + s
    else
      var t := InsertDesc(x, s[1..]);
      LexLeTotal(s[0], x);
      InsertedBelow(s, x, t);
      ConsDescending(s[0], t);
      assert s == [s[0]] + s[1..];
      [s[0]] + t
  }

  /** Everything in a descending list is at most its head, hence at most anything above the head. */
  lemma BelowHead(s: seq<string>, x: string)
    requires Descending(s) && s != [] && LexLe(s[0], x)
    ensures forall k :: 0 <= k < |s| ==> LexLe(s[k], x)
  {
    forall k | 0 <= k < |s| ensures LexLe(s[k], x) {
      if k > 0 { LexLeTransitive(s[k], s[0], x); }
    }
  }

  /** `x` and the tail of `s`, rearranged, all lie below the head of `s` when `x` does. */
  lemma InsertedBelow(s: seq<string>, x: string, t: seq<string>)
    requires Descending(s) && s != [] && LexLe(x, s[0])
    requires multiset(t) == multiset(s[1..]) + multiset{x}
    ensures forall k :: 0 <= k < |t| ==> LexLe(t[k], s[0])
  {
    forall k | 0 <= k < |t| ensures LexLe(t[k], s[0]) {
      assert t[k] in multiset(t);
      if t[k] != x {
        assert t[k] in multiset(s[1..]);
        var m :| 0 <= m < |s[1..]| && s[1..][m] == t[k];
        assert s[1 + m] == t[k];
      }
    }
  }

  lemma ConsDescending(h: string, t: seq<string>)
    requires Descending(t) && forall k :: 0 <= k < |t| ==> LexLe(t[k], h)
    ensures Descending([h] + t)
  {
    var r := [h] + t;
    forall i, j | 0 <= i < j < |r| ensures LexLe(r[j], r[i]) {
      assert r[j] == t[j - 1];
      if i > 0 { assert r[i] == t[i - 1]; }
    }
  }

  /** `sorted(names, reverse=True)`. */
  function SortDesc(s: seq<string>): (r: seq<string>)
    ensures Descending(r)
    ensures multiset(r) == multiset(s)
  {
    if s == [] then []
    else
      assert s == [s[0]] + s[1..];
      InsertDesc(s[0], SortDesc(s[1..]))
  }

  /** Two descending arrangements of the same names start with the same name. */
  lemma SameHead(t: seq<string>, u: seq<string>)
    requires Descending(t) && Descending(u) && t != []
    requires multiset(t) == multiset(u)
    ensures u != [] && t[0] == u[0]
  {
    assert t[0] in multiset(u);
    var k :| 0 <= k < |u| && u[k] == t[0];
    assert u[0] in multiset(t);
    var m :| 0 <= m < |t| && t[m] == u[0];
    assert LexLe(u[k], u[0]) by { if k == 0 { LexLeReflexive(u[0]); } }
    assert LexLe(t[m], t[0]) by { if m == 0 { LexLeReflexive(t[0]); } }
    LexLeAntisymmetric(t[0], u[0]);
  }

  lemma TailMultiset(t: seq<string>)
    requires t != []
    ensures multiset(t[1..]) == multiset(t) - multiset{t[0]}
  {
    assert t == [t[0]] + t[1..];
  }

  /** Two descending arrangements of the same names are the same list. */
  lemma {:induction false} DescendingUnique(t: seq<string>, u: seq<string>)
    requires Descending(t) && Descending(u)
    requires multiset(t) == multiset(u)
    ensures t == u
    decreases |t|
  {
    if t == [] {
      assert |multiset(u)| == 0;
    } else {
      SameHead(t, u);
      TailMultiset(t);
      TailMultiset(u);
      DescendingUnique(t[1..], u[1..]);
      assert t == [t[0]] + t[1..] && u == [u[0]] + u[1..];
    }
  }

  /** `SortDesc` is the only descending rearrangement of its input. */
  lemma SortDescUnique(s: seq<string>, t: seq<string>)
    requires Descending(t) && multiset(t) == multiset(s)
    ensures t == SortDesc(s)
  {
    DescendingUnique(t, SortDesc(s));
  }

  /** In the sorted list a strictly greater name sits strictly earlier. */
  lemma GreaterFirst(s: seq<string>, big: string, small: string)
    requires big in s && small in s
    requires LexLe(small, big) && small != big
    ensures exists i, j :: 0 <= i < j < |SortDesc(s)| && SortDesc(s)[i] == big && SortDesc(s)[j] == small
  {
    var r := SortDesc(s);
    assert big in multiset(s) && small in multiset(s);
    assert big in multiset(r) && small in multiset(r);
    var i, j := DescendingPositions(r, big, small);
    assert r[i] == big && r[j] == small;
  }

  /** In any descending list a strictly greater name sits strictly earlier. */
  lemma DescendingPositions(r: seq<string>, big: string, small: string) returns (i: nat, j: nat)
    requires Descending(r) && big in r && small in r
    requires LexLe(small, big) && small != big
    ensures i < j < |r| && r[i] == big && r[j] == small
  {
    i :| 0 <= i < |r| && r[i] == big;
    j :| 0 <= j < |r| && r[j] == small;
    if j < i {
      LexLeAntisymmetric(small, big);
    }
  }
}
