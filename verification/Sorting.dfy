/** sort.Slice as its callers may rely on it: some permutation in order, ties in
    any order; and the byte order of strings. */
module Sorting {

  ghost predicate TotalPreorder<T(!new)>(le: (T, T) -> bool) {
    && (forall x, y :: le(x, y) || le(y, x))
    && (forall x, y, z :: le(x, y) && le(y, z) ==> le(x, z))
  }

  ghost predicate SortedBy<T>(s: seq<T>, le: (T, T) -> bool) {
    forall i, j | 0 <= i < j < |s| :: le(s[i], s[j])
  }

  method SortSlice<T(!new)>(s: seq<T>, le: (T, T) -> bool) returns (r: seq<T>)
    requires TotalPreorder(le)
    ensures multiset(r) == multiset(s) && |r| == |s|
    ensures SortedBy(r, le)
  {
    r := [];
    for k := 0 to |s|
      invariant |r| == k && multiset(r) == multiset(s[..k])
      invariant SortedBy(r, le)
    {
      var i := |r|;
      while i > 0 && !le(r[i - 1], s[k])
        invariant 0 <= i <= |r|
        invariant forall j | i <= j < |r| :: le(s[k], r[j])
      {
        i := i - 1;
      }
      AllBelow(r, i, s[k], le);
      InsertSorted(r, i, s[k], le);
      assert s[..k + 1] == s[..k] + [s[k]];
      r := r[..i] + [s[k]] + r[i..];
    }
    assert s[..|s|] == s;
  }

  lemma Transitive<T(!new)>(le: (T, T) -> bool, x: T, y: T, z: T)
    requires TotalPreorder(le) && le(x, y) && le(y, z)
    ensures le(x, z)
  {
  }

  lemma AllBelow<T(!new)>(r: seq<T>, i: nat, x: T, le: (T, T) -> bool)
    requires TotalPreorder(le) && SortedBy(r, le) && i <= |r|
    requires i > 0 ==> le(r[i - 1], x)
    ensures forall j | 0 <= j < i :: le(r[j], x)
  {
    forall j | 0 <= j < i
      ensures le(r[j], x)
    {
      if j < i - 1 {
        Transitive(le, r[j], r[i - 1], x);
      }
    }
  }

  lemma InsertSorted<T>(r: seq<T>, i: nat, x: T, le: (T, T) -> bool)
    requires SortedBy(r, le) && i <= |r|
    requires forall j | 0 <= j < i :: le(r[j], x)
    requires forall j | i <= j < |r| :: le(x, r[j])
    ensures SortedBy(r[..i] + [x] + r[i..], le)
    ensures multiset(r[..i] + [x] + r[i..]) == multiset(r) + multiset{x}
  {
    var t := r[..i] + [x] + r[i..];
    assert r == r[..i] + r[i..];
    forall a, b | 0 <= a < b < |t|
      ensures le(t[a], t[b])
    {
      var a', b' := if a < i then a else a - 1, if b < i then b else b - 1;
      assert a != i ==> t[a] == r[a'];
      assert b != i ==> t[b] == r[b'];
    }
  }

  /** The order of Go strings. */
  predicate StringLess(a: string, b: string) {
    b != "" && (a == "" || a[0] < b[0] || (a[0] == b[0] && StringLess(a[1..], b[1..])))
  }

  predicate StringLe(a: string, b: string) {
    !StringLess(b, a)
  }

  lemma StringTrichotomy(a: string, b: string)
    ensures (if StringLess(a, b) then 1 else 0) + (if StringLess(b, a) then 1 else 0) + (if a == b then 1 else 0) == 1
  {
    if a != "" && b != "" {
      StringTrichotomy(a[1..], b[1..]);
      assert a == [a[0]] + a[1..] && b == [b[0]] + b[1..];
    }
  }

  lemma StringLessTransitive(a: string, b: string, c: string)
    requires StringLess(a, b) && StringLess(b, c)
    ensures StringLess(a, c)
  {
    if a != "" && a[0] == b[0] == c[0] {
      StringLessTransitive(a[1..], b[1..], c[1..]);
    }
  }

  lemma StringLeIsTotal()
    ensures TotalPreorder(StringLe)
  {
    forall x, y
      ensures StringLe(x, y) || StringLe(y, x)
    {
      StringTrichotomy(x, y);
    }
    forall x, y, z | StringLe(x, y) && StringLe(y, z)
      ensures StringLe(x, z)
    {
      StringTrichotomy(x, y);
      StringTrichotomy(y, z);
      if StringLess(z, x) {
        if x == y {
        } else {
          StringLessTransitive(z, x, y);
        }
      }
    }
  }
}
