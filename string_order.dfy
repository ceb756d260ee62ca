/** Python's ordering of `str` values and the sorted, duplicate-free list of a
    collection of strings, which is how `CountVectorizer` orders its feature
    names (`sorted` over the vocabulary's keys). */
module StringOrder {

  /** Python's `a < b` on strings: lexicographic by code point, a proper
      prefix before the longer string. */
  predicate Less(a: string, b: string)
    decreases |a|
  {
    if a == [] then b != []
    else if b == [] then false
    else a[0] < b[0] || (a[0] == b[0] && Less(a[1..], b[1..]))
  }

  lemma {:induction false} LessIrreflexive(a: string)
    ensures !Less(a, a)
  {
    if a != [] {
      LessIrreflexive(a[1..]);
    }
  }

  lemma {:induction false} LessAsymmetric(a: string, b: string)
    ensures Less(a, b) ==> !Less(b, a)
  {
    if a != [] && b != [] && a[0] == b[0] {
      LessAsymmetric(a[1..], b[1..]);
    }
  }

  lemma {:induction false} LessTransitive(a: string, b: string, c: string)
    requires Less(a, b) && Less(b, c)
    ensures Less(a, c)
  {
    if a != [] && b != [] && c != [] && a[0] == b[0] == c[0] {
      LessTransitive(a[1..], b[1..], c[1..]);
    }
  }

  /** Any two different strings are ordered one way or the other. */
  lemma {:induction false} LessTotal(a: string, b: string)
    requires a != b
    ensures Less(a, b) || Less(b, a)
  {
    if a != [] && b != [] && a[0] == b[0] {
      assert a == [a[0]] + a[1..] && b == [b[0]] + b[1..];
      LessTotal(a[1..], b[1..]);
    }
  }

  /** Each element is smaller than every later one: sorted with no repeats. */
  predicate StrictlyAscending(xs: seq<string>)
  {
    forall i, j :: 0 <= i < j < |xs| ==> Less(xs[i], xs[j])
  }

  /** Putting in front an element smaller than all of a sorted list keeps it sorted. */
  lemma ConsAscending(h: string, xs: seq<string>)
    requires StrictlyAscending(xs)
    requires forall y :: y in xs ==> Less(h, y)
    ensures StrictlyAscending([h] + xs)
  {
    forall i, j | 0 <= i < j < |[h] + xs|
      ensures Less(([h] + xs)[i], ([h] + xs)[j])
    {
      if i > 0 {
        assert ([h] + xs)[i] == xs[i - 1] && ([h] + xs)[j] == xs[j - 1];
      } else {
        assert ([h] + xs)[j] == xs[j - 1];
      }
    }
  }

  /** `xs` with `x` added at its place, unless `x` is there already. */
  function Insert(x: string, xs: seq<string>): (r: seq<string>)
    requires StrictlyAscending(xs)
    ensures StrictlyAscending(r)
    ensures forall y :: y in r <==> y == x || y in xs
    decreases |xs|
  {
    if xs == [] then [x]
    else if x == xs[0] then xs
    else if Less(x, xs[0]) then
      (forall y | y in xs ensures Less(x, y) {
         if y != xs[0] {
           var j :| 0 < j < |xs| && xs[j] == y;
           LessTransitive(x, xs[0], y);
         }
       }
       ConsAscending(x, xs);
       [x] + xs)
    else
      LessTotal(x, xs[0]);
      assert StrictlyAscending(xs[1..]) by {
        forall i, j | 0 <= i < j < |xs[1..]| ensures Less(xs[1..][i], xs[1..][j]) {
          assert xs[1..][i] == xs[i + 1] && xs[1..][j] == xs[j + 1];
        }
      }
      var rest := Insert(x, xs[1..]);
      assert forall y :: y in rest ==> Less(xs[0], y) by {
        forall y | y in rest ensures Less(xs[0], y) {
          if y != x {
            var j :| 1 <= j < |xs| && xs[j] == y;
          }
        }
      }
      ConsAscending(xs[0], rest);
      [xs[0]] + rest
  }

  /** The distinct elements of `ws` in ascending order: Python's
      `sorted(set(ws))`. */
  function SortedDistinct(ws: seq<string>): (r: seq<string>)
    ensures StrictlyAscending(r)
    ensures forall y :: y in r <==> y in ws
  {
    if ws == [] then []
    else Insert(ws[0], SortedDistinct(ws[1..]))
  }

  /** The set of elements of a sequence. */
  function Members(xs: seq<string>): set<string>
  {
    set y | y in xs
  }

  /** The first element of a sorted list is its least: every element is the
      first one or above it. */
  lemma AscendingHeadIsLeast(xs: seq<string>, y: string)
    requires StrictlyAscending(xs) && y in xs
    ensures y == xs[0] || Less(xs[0], y)
  {
    var j :| 0 <= j < |xs| && xs[j] == y;
  }

  /** A sorted list without repeats is determined by its elements: any two with
      the same elements are the same list. */
  lemma {:induction false} AscendingDeterminedByMembers(xs: seq<string>, ys: seq<string>)
    requires StrictlyAscending(xs) && StrictlyAscending(ys)
    requires forall y :: y in xs <==> y in ys
    ensures xs == ys
  {
    AscendingLength(xs);
    AscendingLength(ys);
    assert Members(xs) == Members(ys);
    if xs != [] {
      AscendingHeadIsLeast(ys, xs[0]);
      AscendingHeadIsLeast(xs, ys[0]);
      LessAsymmetric(xs[0], ys[0]);
      LessIrreflexive(xs[0]);
      AscendingTail(xs);
      AscendingTail(ys);
      assert forall y :: y in xs[1..] <==> y in ys[1..] by {
        forall y ensures y in xs[1..] <==> y in ys[1..] {
          assert y in xs <==> y == xs[0] || y in xs[1..] by { assert xs == [xs[0]] + xs[1..]; }
          assert y in ys <==> y == ys[0] || y in ys[1..] by { assert ys == [ys[0]] + ys[1..]; }
        }
      }
      AscendingDeterminedByMembers(xs[1..], ys[1..]);
      assert xs == [xs[0]] + xs[1..] && ys == [ys[0]] + ys[1..];
    }
  }

  /** The tail of a sorted list is sorted and no longer holds the head. */
  lemma AscendingTail(xs: seq<string>)
    requires StrictlyAscending(xs) && xs != []
    ensures StrictlyAscending(xs[1..])
    ensures xs[0] !in xs[1..]
  {
    forall i, j | 0 <= i < j < |xs[1..]| ensures Less(xs[1..][i], xs[1..][j]) {
      assert xs[1..][i] == xs[i + 1] && xs[1..][j] == xs[j + 1];
    }
    LessIrreflexive(xs[0]);
    forall j | 0 <= j < |xs[1..]| ensures xs[1..][j] != xs[0] {
      assert Less(xs[0], xs[j + 1]);
    }
  }

  /** A sorted list without repeats has one entry per distinct element. */
  lemma {:induction false} AscendingLength(xs: seq<string>)
    requires StrictlyAscending(xs)
    ensures |xs| == |Members(xs)|
  {
    if xs != [] {
      AscendingTail(xs);
      AscendingLength(xs[1..]);
      assert xs == [xs[0]] + xs[1..];
      assert Members(xs) == {xs[0]} + Members(xs[1..]);
    }
  }

  /** Cutting a sorted list after `k` entries keeps its `k` smallest: every
      element left out is above every element kept. */
  lemma AscendingPrefixIsSmallest(xs: seq<string>, k: nat, y: string)
    requires StrictlyAscending(xs) && k <= |xs|
    requires y in xs && y !in xs[..k]
    ensures forall i :: 0 <= i < k ==> Less(xs[i], y)
  {
    var j :| 0 <= j < |xs| && xs[j] == y;
  }

  /** Two duplicate-free lists of the same length: if one holds an element the
      other lacks, the other holds an element the first lacks. */
  lemma MembersPigeonhole(xs: seq<string>, ys: seq<string>, w: string)
    requires StrictlyAscending(xs) && StrictlyAscending(ys) && |xs| == |ys|
    requires w in xs && w !in ys
    ensures exists y :: y in ys && y !in xs
  {
    AscendingLength(xs);
    AscendingLength(ys);
    var a, b := Members(xs), Members(ys);
    assert w in a && w !in b;
    if b <= a {
      SubsetOfEqualSize(b, a);
      assert false;
    }
    var y :| y in b && y !in a;
  }

  /** A subset is no larger than its superset. */
  lemma SubsetSize(a: set<string>, b: set<string>)
    requires a <= b
    ensures |a| <= |b|
  {
    assert (b - a) + a == b && (b - a) * a == {};
  }

  /** A subset as large as its superset is all of it. */
  lemma SubsetOfEqualSize(a: set<string>, b: set<string>)
    requires a <= b && |a| == |b|
    ensures a == b
  {
    assert (b - a) + a == b && (b - a) * a == {};
  }

  /** The first `k` entries of a sorted list are the only sorted list of `k`
      of its elements that leaves out nothing below its own entries. */
  lemma AscendingPrefixDetermined(vs: seq<string>, k: nat, xs: seq<string>)
    requires StrictlyAscending(vs) && k <= |vs|
    requires StrictlyAscending(xs) && |xs| == k
    requires forall w :: w in xs ==> w in vs
    requires forall w :: w in vs && w !in xs ==> forall i :: 0 <= i < |xs| ==> Less(xs[i], w)
    ensures xs == vs[..k]
  {
    var r := vs[..k];
    assert StrictlyAscending(r) by {
      forall i, j | 0 <= i < j < |r| ensures Less(r[i], r[j]) {
        assert r[i] == vs[i] && r[j] == vs[j];
      }
    }
    forall w | w in r ensures w in xs {
      if w !in xs {
        MembersPigeonhole(r, xs, w);
        var y :| y in xs && y !in r;
        AscendingPrefixIsSmallest(vs, k, y);
        var i :| 0 <= i < k && r[i] == w;
        var j :| 0 <= j < |xs| && xs[j] == y;
        assert Less(w, y) && Less(y, w);
        LessAsymmetric(w, y);
        assert false;
      }
    }
    AscendingLength(r);
    AscendingLength(xs);
    SubsetOfEqualSize(Members(r), Members(xs));
    assert forall y :: y in xs <==> y in Members(xs);
    assert forall y :: y in r <==> y in Members(r);
    AscendingDeterminedByMembers(xs, r);
  }
}
