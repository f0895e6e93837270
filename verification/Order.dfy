/** Orders and sorting: Go's string comparison and the contracts of `sort.Slice`,
    `sort.SliceStable` and `sort.Strings`. */
module Order {

  /** A total preorder: what a Go `less` function must induce for `sort` to be meaningful. */
  ghost predicate TotalPreorder<T(!new)>(le: (T, T) -> bool) {
    && (forall x, y :: le(x, y) || le(y, x))
    && (forall x, y, z :: le(x, y) && le(y, z) ==> le(x, z))
  }

  ghost predicate Sorted<T>(s: seq<T>, le: (T, T) -> bool) {
    forall i, j :: 0 <= i < j < |s| ==> le(s[i], s[j])
  }

  /** Inserts `x` behind every element that is not greater. */
  function Insert<T>(s: seq<T>, x: T, le: (T, T) -> bool): (r: seq<T>)
    ensures |r| == |s| + 1
    ensures multiset(r) == multiset(s) + multiset{x}
  {
    if s == [] then [x]
    else
      assert s == s[..|s| - 1] + [s[|s| - 1]];
      if le(s[|s| - 1], x) then s + [x]
      else Insert(s[..|s| - 1], x, le) + [s[|s| - 1]]
  }

  /** Stable insertion sort. */
  function Sort<T>(s: seq<T>, le: (T, T) -> bool): (r: seq<T>)
    ensures |r| == |s|
    ensures multiset(r) == multiset(s)
  {
    if s == [] then []
    else
      assert s == s[..|s| - 1] + [s[|s| - 1]];
      Insert(Sort(s[..|s| - 1], le), s[|s| - 1], le)
  }

  lemma {:induction false} InsertKeepsSorted<T(!new)>(s: seq<T>, x: T, le: (T, T) -> bool)
    requires TotalPreorder(le) && Sorted(s, le)
    ensures Sorted(Insert(s, x, le), le)
  {
    if s != [] && !le(s[|s| - 1], x) {
      var front, last := s[..|s| - 1], s[|s| - 1];
      InsertKeepsSorted(front, x, le);
      var r := Insert(front, x, le);
      forall i | 0 <= i < |r| ensures le(r[i], last) {
        assert r[i] in multiset(r);
        if r[i] != x {
          assert r[i] in multiset(front);
          assert r[i] in front;
        }
      }
    } else if s != [] {
      forall i | 0 <= i < |s| ensures le(s[i], x) {
        if i < |s| - 1 { assert le(s[i], s[|s| - 1]); }
      }
    }
  }

  lemma {:induction false} SortSorts<T(!new)>(s: seq<T>, le: (T, T) -> bool)
    requires TotalPreorder(le)
    ensures Sorted(Sort(s, le), le)
  {
    if s != [] {
      SortSorts(s[..|s| - 1], le);
      InsertKeepsSorted(Sort(s[..|s| - 1], le), s[|s| - 1], le);
    }
  }

  /** The elements of `s` that are level with `x`, in order. */
  ghost function LevelWith<T(!new)>(s: seq<T>, x: T, le: (T, T) -> bool): seq<T> {
    if s == [] then []
    else
      var last := s[|s| - 1];
      LevelWith(s[..|s| - 1], x, le) + if le(last, x) && le(x, last) then [last] else []
  }

  lemma LevelSnoc<T(!new)>(s: seq<T>, y: T, x: T, le: (T, T) -> bool)
    ensures LevelWith(s + [y], x, le) == LevelWith(s, x, le) + if le(y, x) && le(x, y) then [y] else []
  {
    assert (s + [y])[..|s + [y]| - 1] == s;
  }

  lemma {:induction false} InsertIsStable<T(!new)>(s: seq<T>, y: T, x: T, le: (T, T) -> bool)
    requires TotalPreorder(le)
    ensures LevelWith(Insert(s, y, le), x, le) == LevelWith(s + [y], x, le)
  {
    LevelSnoc(s, y, x, le);
    if s == [] {
      assert s + [y] == [y];
    } else {
      var front, last := s[..|s| - 1], s[|s| - 1];
      assert s == front + [last];
      LevelSnoc(front, last, x, le);
      if !le(last, y) {
        InsertIsStable(front, y, x, le);
        LevelSnoc(front, y, x, le);
        LevelSnoc(Insert(front, y, le), last, x, le);
        assert Insert(s, y, le) == Insert(front, y, le) + [last];
        assert !(le(last, x) && le(x, last) && le(y, x) && le(x, y));
        hide *;
      }
    }
  }

  /** The sort keeps the order of elements that are level. */
  lemma {:induction false} SortIsStable<T(!new)>(s: seq<T>, x: T, le: (T, T) -> bool)
    requires TotalPreorder(le)
    ensures LevelWith(Sort(s, le), x, le) == LevelWith(s, x, le)
  {
    if s != [] {
      var front, last := s[..|s| - 1], s[|s| - 1];
      SortIsStable(front, x, le);
      InsertIsStable(Sort(front, le), last, x, le);
      LevelSnoc(Sort(front, le), last, x, le);
    }
  }

  ghost predicate NoTies<T(!new)>(s: seq<T>, le: (T, T) -> bool) {
    forall x, y :: x in s && y in s && le(x, y) && le(y, x) ==> x == y
  }

  lemma FirstIsLeast<T(!new)>(s: seq<T>, t: seq<T>, le: (T, T) -> bool)
    requires Sorted(s, le) && multiset(s) == multiset(t) && |s| > 0 && |t| > 0
    ensures t[0] in s && (s[0] == t[0] || le(s[0], t[0]))
  {
    assert t[0] in multiset(t);
    var j :| 0 <= j < |s| && s[j] == t[0];
  }

  lemma TailKeeps<T(!new)>(s: seq<T>, le: (T, T) -> bool)
    requires |s| > 0
    ensures Sorted(s, le) ==> Sorted(s[1..], le)
    ensures NoTies(s, le) ==> NoTies(s[1..], le)
    ensures s == [s[0]] + s[1..]
    ensures multiset(s[1..]) == multiset(s) - multiset{s[0]}
  {
    assert s == [s[0]] + s[1..];
  }

  /** Two sorted arrangements of the same elements agree when ties are impossible. */
  lemma {:induction false} SortedUnique<T(!new)>(s: seq<T>, t: seq<T>, le: (T, T) -> bool)
    requires Sorted(s, le) && Sorted(t, le) && multiset(s) == multiset(t) && NoTies(s, le)
    ensures s == t
  {
    assert |s| == |multiset(s)| == |multiset(t)| == |t|;
    if s != [] {
      FirstIsLeast(s, t, le);
      FirstIsLeast(t, s, le);
      assert s[0] == t[0] && t[0] in s;
      hide *;
      TailKeeps(s, le);
      TailKeeps(t, le);
      SortedUnique(s[1..], t[1..], le);
    }
  }

  /** `sort.Slice`: in place, a sorted permutation, no promise about ties. */
  method SortSlice<T(!new)>(a: array<T>, le: (T, T) -> bool)
    requires TotalPreorder(le)
    modifies a
    ensures Sorted(a[..], le)
    ensures multiset(a[..]) == multiset(old(a[..]))
  {
    var sorted := Sort(a[..], le);
    SortSorts(a[..], le);
    forall i | 0 <= i < a.Length {
      a[i] := sorted[i];
    }
    assert a[..] == sorted;
  }

  // ---- strings ----

  /** Go compares strings byte by byte; so does this, character by character. */
  predicate StringLe(a: string, b: string) {
    a == [] || (b != [] && (a[0] < b[0] || (a[0] == b[0] && StringLe(a[1..], b[1..]))))
  }

  predicate StringLess(a: string, b: string) {
    !StringLe(b, a)
  }

  lemma {:induction false} StringTotal(a: string, b: string)
    ensures StringLe(a, b) || StringLe(b, a)
  {
    if a != [] && b != [] { StringTotal(a[1..], b[1..]); }
  }

  lemma {:induction false} StringTransitive(a: string, b: string, c: string)
    requires StringLe(a, b) && StringLe(b, c)
    ensures StringLe(a, c)
  {
    if a != [] && a[0] == b[0] && b[0] == c[0] { StringTransitive(a[1..], b[1..], c[1..]); }
  }

  lemma {:induction false} StringAntisymmetric(a: string, b: string)
    requires StringLe(a, b) && StringLe(b, a)
    ensures a == b
  {
    if a != [] {
      StringAntisymmetric(a[1..], b[1..]);
      assert a == [a[0]] + a[1..] && b == [b[0]] + b[1..];
    }
  }

  lemma StringOrder()
    ensures TotalPreorder(StringLe)
    ensures forall a, b :: StringLe(a, b) && StringLe(b, a) ==> a == b
  {
    forall a, b ensures StringLe(a, b) || StringLe(b, a) { StringTotal(a, b); }
    forall a, b, c | StringLe(a, b) && StringLe(b, c) ensures StringLe(a, c) { StringTransitive(a, b, c); }
    forall a, b | StringLe(a, b) && StringLe(b, a) ensures a == b { StringAntisymmetric(a, b); }
  }

  /** Which string comes first: the one with the smaller character where they first differ, and a
      prefix before what it begins. */
  lemma {:induction false} StringLessMeaning(a: string, b: string, k: nat)
    requires k <= |a| && k <= |b| && a[..k] == b[..k]
    ensures k < |a| && k < |b| && a[k] < b[k] ==> StringLess(a, b)
    ensures k == |a| < |b| ==> StringLess(a, b)
    ensures k == |a| == |b| ==> StringLe(a, b) && StringLe(b, a)
  {
    if k > 0 {
      assert a[0] == a[..k][0] == b[..k][0] == b[0];
      assert a[1..][..k - 1] == a[..k][1..] == b[..k][1..] == b[1..][..k - 1];
      StringLessMeaning(a[1..], b[1..], k - 1);
    }
  }

  function Lower(s: string): (r: string)
    ensures |r| == |s|
  {
    seq(|s|, i requires 0 <= i < |s| => if 'A' <= s[i] <= 'Z' then s[i] - 'A' + 'a' else s[i])
  }

  /** `strings.EqualFold` on ASCII. */
  predicate EqualFold(a: string, b: string) {
    Lower(a) == Lower(b)
  }

  /** Two strings fold together when they agree up to the case of their letters. */
  lemma FoldMeaning(a: string, b: string)
    ensures EqualFold(a, b) <==>
              && |a| == |b|
              && forall i :: 0 <= i < |a| ==>
                   || a[i] == b[i]
                   || ('A' <= a[i] <= 'Z' && b[i] as int == a[i] as int + 32)
                   || ('A' <= b[i] <= 'Z' && a[i] as int == b[i] as int + 32)
  {
    forall i | 0 <= i < |a| && |a| == |b|
      ensures Lower(a)[i] == Lower(b)[i] <==>
                || a[i] == b[i]
                || ('A' <= a[i] <= 'Z' && b[i] as int == a[i] as int + 32)
                || ('A' <= b[i] <= 'Z' && a[i] as int == b[i] as int + 32)
    {
      SameFold(a[i], b[i]);
    }
    if EqualFold(a, b) { assert |Lower(a)| == |Lower(b)|; }
  }

  lemma SameFold(x: char, y: char)
    ensures (if 'A' <= x <= 'Z' then x - 'A' + 'a' else x) == (if 'A' <= y <= 'Z' then y - 'A' + 'a' else y) <==>
              || x == y
              || ('A' <= x <= 'Z' && y as int == x as int + 32)
              || ('A' <= y <= 'Z' && x as int == y as int + 32)
  {
  }

  // ---- sets of strings in order ----

  function Elements<T>(s: seq<T>): set<T> { set x | x in s }

  ghost predicate StrictlySorted(s: seq<string>) {
    Sorted(s, StringLe) && forall i, j :: 0 <= i < j < |s| ==> s[i] != s[j]
  }

  lemma {:induction false} StrictlySortedUnique(s: seq<string>, t: seq<string>)
    requires StrictlySorted(s) && StrictlySorted(t) && Elements(s) == Elements(t)
    ensures s == t
  {
    StringOrder();
    NoDuplicates(s);
    NoDuplicates(t);
    SortedUnique(s, t, StringLe);
  }

  lemma {:induction false} NoDuplicates<T>(s: seq<T>)
    requires forall i, j :: 0 <= i < j < |s| ==> s[i] != s[j]
    ensures multiset(s) == multiset(Elements(s))
  {
    if s != [] {
      var front := s[..|s| - 1];
      NoDuplicates(front);
      assert s == front + [s[|s| - 1]];
      assert s[|s| - 1] !in front;
      assert Elements(s) == Elements(front) + {s[|s| - 1]};
    }
  }

  /** The strings of `set`, each once, in order. */
  ghost function InOrder(strings: set<string>): (r: seq<string>)
    ensures StrictlySorted(r) && Elements(r) == strings
  {
    StringOrder();
    if strings == {} then []
    else
      var x :| x in strings;
      var rest := InOrder(strings - {x});
      InsertKeepsSorted(rest, x, StringLe);
      var r := Insert(rest, x, StringLe);
      NoDuplicates(rest);
      assert multiset(r) == multiset(strings - {x}) + multiset{x} == multiset(strings);
      FromMultiset(r, strings);
      r
  }

  lemma FromMultiset<T>(s: seq<T>, elements: set<T>)
    requires multiset(s) == multiset(elements)
    ensures Elements(s) == elements
    ensures forall i, j :: 0 <= i < j < |s| ==> s[i] != s[j]
  {
    forall x ensures x in s <==> x in elements {
      assert x in s <==> x in multiset(s);
    }
    forall i, j | 0 <= i < j < |s| ensures s[i] != s[j] {
      assert s == s[..i] + [s[i]] + s[i + 1..j] + [s[j]] + s[j + 1..];
      assert multiset(elements)[s[i]] <= 1;
    }
  }
}
