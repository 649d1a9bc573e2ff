/** lab2: `sorted(table, key=lambda x: x[1])`. Python's sort is stable, and
 *  its key comparison is the `bytes` ordering of the chain ends; the model
 *  is an insertion sort with the same outcome. */
module EndOrder {
  import opened PyBytes
  import opened Chain

  /** Ends never decrease from left to right. */
  predicate SortedByEnd(s: seq<Pair>)
  {
    forall i, j :: 0 <= i < j < |s| ==> !Less(s[j].end, s[i].end)
  }

  /** Places `p` just before the first pair whose end is not below `p`'s,
   *  so `p` stays ahead of the pairs with an equal end that follow it. */
  function Insert(p: Pair, s: seq<Pair>): seq<Pair>
  {
    if s == [] then [p]
    else if Less(s[0].end, p.end) then [s[0]] + Insert(p, s[1..])
    else [p] + s
  }

  /** The stable sort of the pairs by end. */
  function SortByEnd(s: seq<Pair>): seq<Pair>
  {
    if s == [] then [] else Insert(s[0], SortByEnd(s[1..]))
  }

  /** The pairs of `s` whose end is `k`, in the order of `s`. */
  function WithEnd(s: seq<Pair>, k: Bytes): seq<Pair>
  {
    if s == [] then []
    else (if s[0].end == k then [s[0]] else []) + WithEnd(s[1..], k)
  }

  lemma {:induction false} InsertPermutation(p: Pair, s: seq<Pair>)
    ensures multiset(Insert(p, s)) == multiset(s) + multiset{p}
  {
    if s != [] && Less(s[0].end, p.end) {
      InsertPermutation(p, s[1..]);
      assert s == [s[0]] + s[1..];
    }
  }

  lemma {:induction false} InsertSorted(p: Pair, s: seq<Pair>)
    requires SortedByEnd(s)
    ensures SortedByEnd(Insert(p, s))
  {
    if s == [] {
    } else if Less(s[0].end, p.end) {
      var t := Insert(p, s[1..]);
      InsertSorted(p, s[1..]);
      InsertPermutation(p, s[1..]);
      forall k | 0 <= k < |t| ensures !Less(t[k].end, s[0].end) {
        assert t[k] in multiset(t);
        if t[k] == p {
          LessAsymmetric(s[0].end, p.end);
        } else {
          assert t[k] in multiset(s[1..]);
          var k' :| 0 <= k' < |s[1..]| && s[1..][k'] == t[k];
          assert s[k' + 1] == t[k];
        }
      }
      assert Insert(p, s) == [s[0]] + t;
    } else {
      forall k | 0 <= k < |s| ensures !Less(s[k].end, p.end) {
        if k > 0 { NotLessTransitive(p.end, s[0].end, s[k].end); }
      }
    }
  }

  /** The sort puts the ends in order. */
  lemma {:induction false} SortByEndSorted(s: seq<Pair>)
    ensures SortedByEnd(SortByEnd(s))
  {
    if s != [] {
      SortByEndSorted(s[1..]);
      InsertSorted(s[0], SortByEnd(s[1..]));
    }
  }

  /** The sort keeps every pair, duplicate ends included. */
  lemma {:induction false} SortByEndPermutation(s: seq<Pair>)
    ensures multiset(SortByEnd(s)) == multiset(s)
    ensures |SortByEnd(s)| == |s|
  {
    if s != [] {
      SortByEndPermutation(s[1..]);
      InsertPermutation(s[0], SortByEnd(s[1..]));
      assert s == [s[0]] + s[1..];
    }
    assert |multiset(SortByEnd(s))| == |SortByEnd(s)|;
  }

  lemma {:induction false} InsertWithEnd(p: Pair, s: seq<Pair>, k: Bytes)
    ensures WithEnd(Insert(p, s), k) == (if p.end == k then [p] else []) + WithEnd(s, k)
  {
    if s != [] && Less(s[0].end, p.end) {
      InsertWithEnd(p, s[1..], k);
      if s[0].end == p.end { LessIrreflexive(p.end); }
      assert Insert(p, s) == [s[0]] + Insert(p, s[1..]);
    } else if s != [] {
      assert ([p] + s)[1..] == s;
    }
  }

  /** The sort is stable: the pairs sharing an end keep the order in which
   *  they were generated. */
  lemma {:induction false} SortByEndStable(s: seq<Pair>, k: Bytes)
    ensures WithEnd(SortByEnd(s), k) == WithEnd(s, k)
  {
    if s != [] {
      SortByEndStable(s[1..], k);
      InsertWithEnd(s[0], SortByEnd(s[1..]), k);
    }
  }
}
