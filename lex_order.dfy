/** The order `std::sort` puts directory entry names in: `std::string`'s
    `operator<`, which compares byte by byte as unsigned values and puts a
    proper prefix first. The sort itself is modelled by insertion sort;
    only its result (a sorted permutation) matters, and that result is
    unique. */
module LexOrder {
  import opened Common

  /** `a` comes no later than `b` in byte-wise lexicographic order. */
  predicate LexLe(a: Bytes, b: Bytes)
    decreases |a|
  {
    |a| == 0 || (|b| > 0 && (a[0] < b[0] || (a[0] == b[0] && LexLe(a[1..], b[1..]))))
  }

  /** Reference definition: `a` is a prefix of `b`, or the first byte where
      they differ is smaller in `a`. */
  predicate FirstDifferenceLe(a: Bytes, b: Bytes)
  {
    (|a| <= |b| && a == b[..|a|])
    || exists i :: 0 <= i < |a| && i < |b| && a[..i] == b[..i] && a[i] < b[i]
  }

  /** When the first bytes agree, both orders are decided by the tails. */
  lemma FirstDifferenceFromTails(a: Bytes, b: Bytes)
    requires |a| > 0 && |b| > 0 && a[0] == b[0]
    requires FirstDifferenceLe(a[1..], b[1..])
    ensures FirstDifferenceLe(a, b)
  {
    var a', b' := a[1..], b[1..];
    if |a'| <= |b'| && a' == b'[..|a'|] {
      assert a == [a[0]] + a';
      assert b[..|a|] == [b[0]] + b'[..|a'|];
    } else {
      var i :| 0 <= i < |a'| && i < |b'| && a'[..i] == b'[..i] && a'[i] < b'[i];
      assert a[..i + 1] == [a[0]] + a'[..i];
      assert b[..i + 1] == [b[0]] + b'[..i];
      assert a[i + 1] < b[i + 1];
    }
  }

  lemma FirstDifferenceToTails(a: Bytes, b: Bytes)
    requires |a| > 0 && |b| > 0 && a[0] == b[0]
    requires FirstDifferenceLe(a, b)
    ensures FirstDifferenceLe(a[1..], b[1..])
  {
    var a', b' := a[1..], b[1..];
    if |a| <= |b| && a == b[..|a|] {
      assert a' == b'[..|a'|];
    } else {
      var i :| 0 <= i < |a| && i < |b| && a[..i] == b[..i] && a[i] < b[i];
      assert i > 0;
      assert a'[..i - 1] == a[..i][1..];
      assert b'[..i - 1] == b[..i][1..];
      assert a'[i - 1] < b'[i - 1];
    }
  }

  /** When the first bytes differ, the smaller one decides. */
  lemma FirstDifferenceAtHead(a: Bytes, b: Bytes)
    requires |a| > 0 && |b| > 0 && a[0] != b[0]
    ensures FirstDifferenceLe(a, b) <==> a[0] < b[0]
  {
    if a[0] < b[0] {
      assert a[..0] == b[..0];
    }
  }

  lemma {:induction false} LexLeMatchesFirstDifference(a: Bytes, b: Bytes)
    ensures LexLe(a, b) <==> FirstDifferenceLe(a, b)
    decreases |a|
  {
    if |a| == 0 {
      assert a == b[..0];
    } else if |b| == 0 {
    } else if a[0] != b[0] {
      FirstDifferenceAtHead(a, b);
    } else {
      LexLeMatchesFirstDifference(a[1..], b[1..]);
      if FirstDifferenceLe(a[1..], b[1..]) { FirstDifferenceFromTails(a, b); }
      if FirstDifferenceLe(a, b) { FirstDifferenceToTails(a, b); }
    }
  }

  lemma {:induction false} LexLeRefl(a: Bytes)
    ensures LexLe(a, a)
    decreases |a|
  {
    if |a| > 0 {
      LexLeRefl(a[1..]);
    }
  }

  lemma {:induction false} LexLeTotal(a: Bytes, b: Bytes)
    ensures LexLe(a, b) || LexLe(b, a)
    decreases |a|
  {
    if |a| > 0 && |b| > 0 && a[0] == b[0] {
      LexLeTotal(a[1..], b[1..]);
    }
  }

  lemma {:induction false} LexLeAntisymmetric(a: Bytes, b: Bytes)
    requires LexLe(a, b) && LexLe(b, a)
    ensures a == b
    decreases |a|
  {
    if |a| > 0 {
      LexLeAntisymmetric(a[1..], b[1..]);
      assert a == [a[0]] + a[1..] && b == [b[0]] + b[1..];
    }
  }

  lemma {:induction false} LexLeTransitive(a: Bytes, b: Bytes, c: Bytes)
    requires LexLe(a, b) && LexLe(b, c)
    ensures LexLe(a, c)
    decreases |a|
  {
    if |a| > 0 && a[0] == b[0] && b[0] == c[0] {
      LexLeTransitive(a[1..], b[1..], c[1..]);
    }
  }

  /** Every earlier name sorts no later than every later one. */
  predicate Sorted(s: seq<Bytes>)
  {
    forall i, j :: 0 <= i < j < |s| ==> LexLe(s[i], s[j])
  }

  /** Insert `x` into sorted `s` before the first element it does not exceed. */
  function Insert(x: Bytes, s: seq<Bytes>): (r: seq<Bytes>)
  {
    if |s| == 0 then [x]
    else if LexLe(x, s[0]) then [x] + s
    else [s[0]] + Insert(x, s[1..])
  }

  function Sort(s: seq<Bytes>): (r: seq<Bytes>)
  {
    if |s| == 0 then [] else Insert(s[0], Sort(s[1..]))
  }

  lemma {:induction false} InsertPermutes(x: Bytes, s: seq<Bytes>)
    ensures multiset(Insert(x, s)) == multiset(s) + multiset{x}
    decreases |s|
  {
    if |s| > 0 && !LexLe(x, s[0]) {
      InsertPermutes(x, s[1..]);
      assert s == [s[0]] + s[1..];
    }
  }

  lemma {:induction false} InsertKeepsSorted(x: Bytes, s: seq<Bytes>)
    requires Sorted(s)
    ensures Sorted(Insert(x, s))
    decreases |s|
  {
    if |s| == 0 {
    } else if LexLe(x, s[0]) {
      forall j | 0 < j < |s| ensures LexLe(x, s[j]) {
        LexLeTransitive(x, s[0], s[j]);
      }
    } else {
      LexLeTotal(x, s[0]);
      InsertKeepsSorted(x, s[1..]);
      InsertPermutes(x, s[1..]);
      var t := Insert(x, s[1..]);
      forall j | 0 <= j < |t| ensures LexLe(s[0], t[j]) {
        assert t[j] in multiset(t);
        if t[j] != x {
          assert t[j] in multiset(s[1..]);
          var k :| 0 <= k < |s[1..]| && s[1..][k] == t[j];
          assert s[k + 1] == t[j];
        }
      }
    }
  }

  lemma {:induction false} SortIsSortedPermutation(s: seq<Bytes>)
    ensures Sorted(Sort(s))
    ensures multiset(Sort(s)) == multiset(s)
    ensures |Sort(s)| == |s|
    decreases |s|
  {
    if |s| > 0 {
      SortIsSortedPermutation(s[1..]);
      InsertKeepsSorted(s[0], Sort(s[1..]));
      InsertPermutes(s[0], Sort(s[1..]));
      assert s == [s[0]] + s[1..];
    }
    assert |multiset(Sort(s))| == |Sort(s)|;
  }

  /** The first element of a sorted sequence is its least. */
  lemma SortedHeadIsLeast(s: seq<Bytes>, x: Bytes)
    requires Sorted(s) && x in multiset(s)
    ensures |s| > 0 && LexLe(s[0], x)
  {
    var k :| 0 <= k < |s| && s[k] == x;
    if k == 0 { LexLeRefl(x); }
  }

  /** Dropping the head of a sorted sequence keeps it sorted and removes
      exactly the head from its multiset. */
  lemma SortedTail(s: seq<Bytes>)
    requires Sorted(s) && |s| > 0
    ensures Sorted(s[1..])
    ensures multiset(s[1..]) == multiset(s) - multiset{s[0]}
  {
    assert s == [s[0]] + s[1..];
  }

  /** Two sorted arrangements of the same names are the same sequence:
      the index of a name does not depend on the walk's order. */
  lemma {:induction false} SortedPermutationIsUnique(a: seq<Bytes>, b: seq<Bytes>)
    requires Sorted(a) && Sorted(b)
    requires multiset(a) == multiset(b)
    ensures a == b
    decreases |a|
  {
    if |a| == 0 {
      assert |multiset(b)| == |b|;
    } else {
      SortedHeadIsLeast(b, a[0]);
      SortedHeadIsLeast(a, b[0]);
      LexLeAntisymmetric(a[0], b[0]);
      SortedTail(a);
      SortedTail(b);
      SortedPermutationIsUnique(a[1..], b[1..]);
      assert a == [a[0]] + a[1..] && b == [b[0]] + b[1..];
    }
  }

  /** Sorting forgets the order of its input. */
  lemma SortIgnoresOrder(s: seq<Bytes>, t: seq<Bytes>)
    requires multiset(s) == multiset(t)
    ensures Sort(s) == Sort(t)
  {
    SortIsSortedPermutation(s);
    SortIsSortedPermutation(t);
    SortedPermutationIsUnique(Sort(s), Sort(t));
  }

  /** A name added to a walk appears at its sorted position and every
      other name keeps its relative order. */
  lemma AddedNameLandsInPlace(s: seq<Bytes>, x: Bytes)
    ensures Sort(s + [x]) == Insert(x, Sort(s))
  {
    SortIsSortedPermutation(s + [x]);
    SortIsSortedPermutation(s);
    InsertKeepsSorted(x, Sort(s));
    InsertPermutes(x, Sort(s));
    SortedPermutationIsUnique(Sort(s + [x]), Insert(x, Sort(s)));
  }

  /** A walk yielding "b.txt", "a/c.txt", "a.txt" is listed as "a.txt",
      "a/c.txt", "b.txt": '.' (0x2E) sorts before '/' (0x2F). */
  lemma ExampleListingOrder()
    ensures var aTxt: Bytes := [0x61, 0x2E, 0x74, 0x78, 0x74];
            var aCTxt: Bytes := [0x61, 0x2F, 0x63, 0x2E, 0x74, 0x78, 0x74];
            var bTxt: Bytes := [0x62, 0x2E, 0x74, 0x78, 0x74];
            Sort([bTxt, aCTxt, aTxt]) == [aTxt, aCTxt, bTxt]
  {
    var aTxt: Bytes := [0x61, 0x2E, 0x74, 0x78, 0x74];
    var aCTxt: Bytes := [0x61, 0x2F, 0x63, 0x2E, 0x74, 0x78, 0x74];
    var bTxt: Bytes := [0x62, 0x2E, 0x74, 0x78, 0x74];
    assert LexLe(aTxt, aCTxt) by { assert aTxt[1..][0] < aCTxt[1..][0]; }
    assert LexLe(aCTxt, bTxt);
    LexLeTransitive(aTxt, aCTxt, bTxt);
    var listed := [aTxt, aCTxt, bTxt];
    assert Sorted(listed);
    SortIsSortedPermutation([bTxt, aCTxt, aTxt]);
    assert multiset([bTxt, aCTxt, aTxt]) == multiset(listed);
    SortedPermutationIsUnique(Sort([bTxt, aCTxt, aTxt]), listed);
  }
}
