/** The order in which `sort.Strings` puts object keys. Go compares strings byte
    by byte; on UTF-8 text that is the order of code points, so keys are compared
    here code point by code point. */
module KeyOrder {

  /** Strictly smaller in lexicographic order of code points. */
  predicate Before(a: string, b: string)
  {
    b != "" && (a == "" || a[0] < b[0] || (a[0] == b[0] && Before(a[1..], b[1..])))
  }

  /** The two strings agree up to `n`, where `a` ends or has the smaller code point. */
  predicate SmallerAt(a: string, b: string, n: nat) {
    n <= |a| && n < |b| && a[..n] == b[..n] && (n == |a| || a[n] < b[n])
  }

  /** `a` is a proper prefix of `b`, or is the smaller where they first differ. */
  ghost predicate Precedes(a: string, b: string) {
    exists n: nat :: SmallerAt(a, b, n)
  }

  lemma {:induction false} SmallerMeansBefore(a: string, b: string, n: nat)
    requires SmallerAt(a, b, n)
    ensures Before(a, b)
  {
    if n > 0 {
      assert a[0] == a[..n][0] == b[..n][0] == b[0];
      assert a[1..][..n - 1] == a[..n][1..] && b[1..][..n - 1] == b[..n][1..];
      SmallerMeansBefore(a[1..], b[1..], n - 1);
    }
  }

  lemma {:induction false} BeforeMeansSmaller(a: string, b: string) returns (n: nat)
    requires Before(a, b)
    ensures SmallerAt(a, b, n)
  {
    if a == "" || a[0] < b[0] {
      n := 0;
    } else {
      var m := BeforeMeansSmaller(a[1..], b[1..]);
      n := m + 1;
      assert a[..n] == [a[0]] + a[1..][..m] && b[..n] == [b[0]] + b[1..][..m];
    }
  }

  /** The recursive comparison is the order of code points. */
  lemma BeforeIffPrecedes(a: string, b: string)
    ensures Before(a, b) <==> Precedes(a, b)
  {
    if Before(a, b) {
      var n := BeforeMeansSmaller(a, b);
    }
    if n: nat :| SmallerAt(a, b, n) {
      SmallerMeansBefore(a, b, n);
    }
  }

  ghost predicate StrictlySorted(ks: seq<string>) {
    forall i, j :: 0 <= i < j < |ks| ==> Before(ks[i], ks[j])
  }

  ghost function Elements(ks: seq<string>): set<string> {
    set k | k in ks
  }

  lemma BeforeIrreflexive(a: string)
    ensures !Before(a, a)
  {
    if a != "" {
      BeforeIrreflexive(a[1..]);
    }
  }

  lemma {:induction false} BeforeTransitive(a: string, b: string, c: string)
    requires Before(a, b) && Before(b, c)
    ensures Before(a, c)
  {
    if a != "" && a[0] == b[0] && b[0] == c[0] {
      BeforeTransitive(a[1..], b[1..], c[1..]);
    }
  }

  lemma {:induction false} BeforeTotal(a: string, b: string)
    requires a != b
    ensures Before(a, b) || Before(b, a)
  {
    if a != "" && b != "" && a[0] == b[0] {
      assert a == [a[0]] + a[1..] && b == [b[0]] + b[1..];
      BeforeTotal(a[1..], b[1..]);
    }
  }

  /** Puts `k` at its place in a sorted sequence. */
  function Insert(ks: seq<string>, k: string): (r: seq<string>)
    ensures |r| == |ks| + 1
    ensures forall x :: x in r <==> x in ks || x == k
  {
    if ks == [] then [k]
    else if Before(k, ks[0]) then [k] + ks
    else [ks[0]] + Insert(ks[1..], k)
  }

  lemma {:induction false} InsertSorted(ks: seq<string>, k: string)
    requires StrictlySorted(ks) && k !in ks
    ensures StrictlySorted(Insert(ks, k))
  {
    if ks != [] {
      if Before(k, ks[0]) {
        forall j | 0 <= j < |ks| ensures Before(k, ks[j]) {
          if j > 0 { BeforeTransitive(k, ks[0], ks[j]); }
        }
      } else {
        BeforeTotal(k, ks[0]);
        InsertSorted(ks[1..], k);
        var r := Insert(ks[1..], k);
        forall j | 0 <= j < |r| ensures Before(ks[0], r[j]) {
          assert r[j] in r;
          assert r[j] == k || r[j] in ks[1..];
        }
      }
    }
  }

  /** `sort.Strings`: insertion sort stands for the library's algorithm. */
  function SortStrings(ks: seq<string>): (r: seq<string>)
    ensures |r| == |ks|
    ensures forall x :: x in r <==> x in ks
  {
    if ks == [] then [] else
      assert ks == [ks[0]] + ks[1..];
      Insert(SortStrings(ks[1..]), ks[0])
  }

  ghost predicate Distinct(ks: seq<string>) {
    forall i, j :: 0 <= i < j < |ks| ==> ks[i] != ks[j]
  }

  lemma {:induction false} SortStringsSorts(ks: seq<string>)
    requires Distinct(ks)
    ensures StrictlySorted(SortStrings(ks))
  {
    if ks != [] {
      SortStringsSorts(ks[1..]);
      InsertSorted(SortStrings(ks[1..]), ks[0]);
    }
  }

  lemma ElementsEmpty(ks: seq<string>)
    ensures Elements(ks) == {} <==> ks == []
  {
    assert ks != [] ==> ks[0] in Elements(ks);
  }

  /** A finite set of keys has exactly one sorted enumeration. */
  lemma {:induction false} SortedUnique(a: seq<string>, b: seq<string>)
    requires StrictlySorted(a) && StrictlySorted(b) && Elements(a) == Elements(b)
    ensures a == b
  {
    ElementsEmpty(a);
    ElementsEmpty(b);
    if a != [] && b != [] {
      assert a[0] in Elements(b) && b[0] in Elements(a);
      BeforeIrreflexive(a[0]);
      if a[0] != b[0] {
        BeforeTransitive(a[0], b[0], a[0]);
      }
      forall x ensures x in Elements(a[1..]) <==> x in Elements(b[1..]) {
        SortedTail(a, x);
        SortedTail(b, x);
        assert x in Elements(a) <==> x in Elements(b);
      }
      SortedUnique(a[1..], b[1..]);
      assert a == [a[0]] + a[1..] && b == [b[0]] + b[1..];
    }
  }

  lemma SortedTail(a: seq<string>, x: string)
    requires StrictlySorted(a) && a != []
    ensures x in Elements(a[1..]) <==> x in Elements(a) && x != a[0]
  {
    BeforeIrreflexive(a[0]);
    assert a == [a[0]] + a[1..];
  }

  lemma {:induction false} SortedExists(s: set<string>)
    ensures exists ks :: StrictlySorted(ks) && Elements(ks) == s
  {
    if s == {} {
      assert StrictlySorted([]) && Elements([]) == s;
    } else {
      var k :| k in s;
      SortedExists(s - {k});
      var rest :| StrictlySorted(rest) && Elements(rest) == s - {k};
      assert k !in Elements(rest);
      InsertSorted(rest, k);
      assert forall x :: x in rest <==> x in Elements(rest);
      assert Elements(Insert(rest, k)) == s;
    }
  }

  /** The sorted enumeration of a key set: what every enumeration sorts to. */
  ghost function SortedKeys(s: set<string>): (ks: seq<string>)
    ensures StrictlySorted(ks) && Elements(ks) == s
  {
    SortedExists(s);
    var ks :| StrictlySorted(ks) && Elements(ks) == s;
    ks
  }

  /** Any enumeration of the keys in increasing order of code points is the sorted one. */
  lemma IncreasingIsSorted(ks: seq<string>, s: set<string>)
    requires forall i, j :: 0 <= i < j < |ks| ==> Precedes(ks[i], ks[j])
    requires forall k :: k in ks <==> k in s
    ensures SortedKeys(s) == ks
  {
    forall i, j | 0 <= i < j < |ks| ensures Before(ks[i], ks[j]) {
      BeforeIffPrecedes(ks[i], ks[j]);
    }
    assert Elements(ks) == s;
    SortedUnique(SortedKeys(s), ks);
  }

  /** The sorted keys increase in the order of code points. */
  lemma SortedKeysIncrease(s: set<string>, i: nat, j: nat)
    requires i < j < |SortedKeys(s)|
    ensures Precedes(SortedKeys(s)[i], SortedKeys(s)[j])
  {
    BeforeIffPrecedes(SortedKeys(s)[i], SortedKeys(s)[j]);
  }
}
