/** lab2 `_find_preimage(L, table, target)`: for each hypothesised position
 *  `j` the probe `y` (the target after `j` chain steps) is looked up among
 *  the sorted ends by binary search; the first end that matches is replayed
 *  from its start for at most `L - j` steps, and whatever the replay gives
 *  ends the search. */
module TableSearch {
  import opened PyBytes
  import opened Ripemd160
  import opened Wrappers
  import opened Chain
  import opened EndOrder
  import opened TableBuild

  function Pow2(n: nat): (p: nat)
    ensures p >= 1
  {
    if n == 0 then 1 else 2 * Pow2(n - 1)
  }

  /** Python's `n.bit_length()`: the most probes one binary search over `n`
   *  entries can make. */
  function BitLength(n: nat): nat
  {
    if n == 0 then 0 else 1 + BitLength(n / 2)
  }

  /** `n.bit_length()` is floor(log2 n) + 1. */
  lemma {:induction false} BitLengthIsLog2(n: nat)
    requires n >= 1
    ensures BitLength(n) >= 1
    ensures Pow2(BitLength(n) - 1) <= n < Pow2(BitLength(n))
  {
    if n > 1 {
      BitLengthIsLog2(n / 2);
    }
  }

  lemma {:induction false} BitLengthMonotone(a: nat, b: nat)
    requires a <= b
    ensures BitLength(a) <= BitLength(b)
  {
    if a > 0 {
      BitLengthMonotone(a / 2, b / 2);
    }
  }

  /** The ends stored in a table. */
  function Ends(tab: seq<Pair>): set<Bytes>
  {
    set p | p in tab :: p.end
  }

  /** The first position `j` in `from .. L - 1` whose probe, the target after
   *  `j` chain steps, is a stored end. */
  function FirstMatch(h: Digest, r: Bytes, ends: set<Bytes>, target: Bytes, L: nat, from: nat): (o: Option<nat>)
    decreases L - from
    ensures o.Some? ==>
      from <= o.value < L && Iterate(h, r, target, o.value) in ends &&
      forall j :: from <= j < o.value ==> Iterate(h, r, target, j) !in ends
    ensures o.None? ==> forall j :: from <= j < L ==> Iterate(h, r, target, j) !in ends
  {
    if from >= L then None
    else if Iterate(h, r, target, from) in ends then Some(from)
    else FirstMatch(h, r, ends, target, L, from + 1)
  }

  /** The first of the positions `from .. n - 1` on the walk from `x0` whose
   *  next value equals `want`: where the replay stops. */
  function FirstHit(h: Digest, r: Bytes, x0: Bytes, n: nat, want: Bytes, from: nat): (o: Option<nat>)
    decreases n - from
    ensures o.Some? ==>
      from <= o.value < n && Step(h, r, Iterate(h, r, x0, o.value)) == want &&
      forall m :: from <= m < o.value ==> Step(h, r, Iterate(h, r, x0, m)) != want
    ensures o.None? ==> forall m :: from <= m < n ==> Step(h, r, Iterate(h, r, x0, m)) != want
  {
    if from >= n then None
    else if Step(h, r, Iterate(h, r, x0, from)) == want then Some(from)
    else FirstHit(h, r, x0, n, want, from + 1)
  }

  /** The replay of a matched chain: walking from `x0`, the first of the
   *  positions `from .. n - 1` whose next value equals `want` gives the
   *  salted value `R(r, x)` at that position. */
  function Replay(h: Digest, r: Bytes, x0: Bytes, n: nat, want: Bytes, from: nat): (o: Option<Bytes>)
    ensures o.Some? ==> TruncatedHash(h, o.value, Some(HASH_OUTPUT_SIZE)) == want
    ensures o.Some? ==>
      exists m :: from <= m < n && o.value == Reduce(r, Iterate(h, r, x0, m)) &&
                  Step(h, r, Iterate(h, r, x0, m)) == want &&
                  forall m' :: from <= m' < m ==> Step(h, r, Iterate(h, r, x0, m')) != want
    ensures o.None? ==> forall m :: from <= m < n ==> Step(h, r, Iterate(h, r, x0, m)) != want
  {
    match FirstHit(h, r, x0, n, want, from)
    case None => None
    case Some(m) => Some(Reduce(r, Iterate(h, r, x0, m)))
  }

  /** Coverage: when the target lies on a stored chain, `L - j` steps after
   *  its start, then probe `j` is that chain's end, so some probe at or
   *  before `j` matches and the search does not end empty-handed for lack
   *  of a match. */
  lemma ChainTargetIsMatched(h: Digest, L: nat, t: Table, target: Bytes, i: nat, j: nat)
    requires i < |t.chains| && j < L
    requires t.chains[i].end == Iterate(h, t.salt, t.chains[i].start, L)
    requires target == Iterate(h, t.salt, t.chains[i].start, L - j)
    ensures FirstMatch(h, t.salt, Ends(t.chains), target, L, 0).Some?
    ensures FirstMatch(h, t.salt, Ends(t.chains), target, L, 0).value <= j
  {
    IterateAdd(h, t.salt, t.chains[i].start, L - j, j);
    assert t.chains[i] in t.chains;
    assert Iterate(h, t.salt, target, j) in Ends(t.chains);
  }

  /** The `while low <= high` loop: a binary search of the sorted ends for
   *  `y`. `probes` counts the halvings before a match (the source's `c += 1`),
   *  never more than `|tab|.bit_length()`. */
  method BinarySearch(tab: seq<Pair>, y: Bytes) returns (found: Option<nat>, probes: nat)
    requires SortedByEnd(tab)
    ensures found.Some? ==> found.value < |tab| && tab[found.value].end == y
    ensures found.None? ==> y !in Ends(tab)
    ensures probes <= BitLength(|tab|)
  {
    probes := 0;
    var low, high := 0, |tab| - 1;
    while low <= high
      invariant 0 <= low <= high + 1 <= |tab|
      invariant forall k :: 0 <= k < low ==> Less(tab[k].end, y)
      invariant forall k :: high < k < |tab| ==> Less(y, tab[k].end)
      invariant probes + BitLength(high - low + 1) <= BitLength(|tab|)
    {
      var mid := (low + high) / 2;
      ghost var size := high - low + 1;
      if Less(tab[mid].end, y) {
        forall k | 0 <= k <= mid ensures Less(tab[k].end, y) {
          if k < mid { NotLessThenLess(tab[k].end, tab[mid].end, y); }
        }
        low := mid + 1;
      } else if Less(y, tab[mid].end) {
        forall k | mid <= k < |tab| ensures Less(y, tab[k].end) {
          if k > mid { LessThenNotLess(y, tab[mid].end, tab[k].end); }
        }
        high := mid - 1;
      } else {
        LessTrichotomous(tab[mid].end, y);
        return Some(mid), probes;
      }
      BitLengthMonotone(high - low + 1, size / 2);
      probes := probes + 1;
    }
    forall p | p in tab ensures p.end != y {
      var k :| 0 <= k < |tab| && tab[k] == p;
      LessIrreflexive(y);
    }
    found := None;
  }

  /** The `for m in range(L - j)` loop: replays a chain from `x0` for at most
   *  `n` steps and stops at the first step that reaches `want`. */
  method ReplayChain(h: Digest, r: Bytes, x0: Bytes, n: nat, want: Bytes) returns (result: Option<Bytes>)
    ensures result == Replay(h, r, x0, n, want, 0)
  {
    var x := x0;
    for m := 0 to n
      invariant x == Iterate(h, r, x0, m)
      invariant FirstHit(h, r, x0, n, want, 0) == FirstHit(h, r, x0, n, want, m)
    {
      if Step(h, r, x) == want {
        return Some(Reduce(r, x));
      }
      x := Step(h, r, x);
    }
    result := None;
  }

  /** What a search of table `t` may return: nothing when no probe is a
   *  stored end; otherwise the replay, for at most `L - j` steps, of a chain
   *  whose end is the first matching probe `j`, looking for the target
   *  (`againstTarget`) or for that probe. Which chain, among several with
   *  the same end, is the one the binary search happens to land on. */
  ghost predicate SearchOutcome(h: Digest, L: nat, t: Table, target: Bytes, againstTarget: bool, result: Option<Bytes>)
  {
    var first := FirstMatch(h, t.salt, Ends(t.chains), target, L, 0);
    && (first.None? ==> result.None?)
    && (first.Some? ==> MatchedChain(h, L, t, target, againstTarget, first.value, result))
  }

  /** Some chain ending in probe `j` replays, for `L - j` steps, to `result`. */
  ghost predicate MatchedChain(h: Digest, L: nat, t: Table, target: Bytes, againstTarget: bool, j: nat, result: Option<Bytes>)
    requires j <= L
  {
    exists i :: 0 <= i < |t.chains| && t.chains[i].end == Iterate(h, t.salt, target, j) &&
                result == Replay(h, t.salt, t.chains[i].start, L - j,
                                 if againstTarget then target else Iterate(h, t.salt, target, j), 0)
  }

  /** `a * k` grows with `a`. */
  lemma {:induction false} MulMonotone(a: nat, b: nat, k: nat)
    requires a <= b
    ensures a * k <= b * k
    decreases k
  {
    if k > 0 {
      MulMonotone(a, b, k - 1);
      assert a * k == a * (k - 1) + a;
      assert b * k == b * (k - 1) + b;
    }
  }

  /** One more binary search keeps the counter within `bits` per position. */
  lemma CostStep(c: nat, probes: nat, j: nat, L: nat, bits: nat)
    requires c <= j * bits && probes <= bits && j < L
    ensures c + probes <= (j + 1) * bits <= L * bits
  {
    assert (j + 1) * bits == j * bits + bits;
    MulMonotone(j + 1, L, bits);
  }

  /** A match at the first matching position `j` yields the replay outcome. */
  lemma MatchedOutcome(h: Digest, L: nat, t: Table, target: Bytes, againstTarget: bool, j: nat, i: nat, result: Option<Bytes>)
    requires FirstMatch(h, t.salt, Ends(t.chains), target, L, 0) == Some(j)
    requires i < |t.chains| && t.chains[i].end == Iterate(h, t.salt, target, j)
    requires result == Replay(h, t.salt, t.chains[i].start, L - j,
                              if againstTarget then target else Iterate(h, t.salt, target, j), 0)
    ensures SearchOutcome(h, L, t, target, againstTarget, result)
  {
    assert MatchedChain(h, L, t, target, againstTarget, j, result);
  }

  /** The search of one table. With `againstTarget` false this is
   *  `_find_preimage` as written: the replay compares each step with the
   *  current probe `y`. With `againstTarget` true the replay compares with
   *  the target itself, which is what a preimage search needs. */
  method ScanTable(h: Digest, L: nat, t: Table, target: Bytes, againstTarget: bool) returns (c: nat, result: Option<Bytes>)
    requires SortedByEnd(t.chains)
    ensures SearchOutcome(h, L, t, target, againstTarget, result)
    ensures c <= L * BitLength(|t.chains|)
  {
    c := 0;
    var y := target;
    var r, tab := t.salt, t.chains;
    ghost var ends := Ends(tab);
    ghost var bits := BitLength(|tab|);
    for j := 0 to L
      invariant y == Iterate(h, r, target, j)
      invariant FirstMatch(h, r, ends, target, L, 0) == FirstMatch(h, r, ends, target, L, j)
      invariant c <= j * bits
    {
      var found, probes := BinarySearch(tab, y);
      CostStep(c, probes, j, L, bits);
      c := c + probes;
      if found.Some? {
        var mid := found.value;
        assert tab[mid] in tab;
        var want := if againstTarget then target else y;
        result := ReplayChain(h, r, tab[mid].start, L - j, want);
        MatchedOutcome(h, L, t, target, againstTarget, j, mid, result);
        return;
      }
      y := Step(h, r, y);
    }
    result := None;
  }

  /** A replay of a chain ending in probe `j`, compared against that probe,
   *  returns `R(r, x)` for a value `x` on that chain, and the value
   *  truncates to the probe. */
  lemma MatchedChainResult(h: Digest, L: nat, t: Table, target: Bytes, j: nat, result: Option<Bytes>)
    requires j < L && MatchedChain(h, L, t, target, false, j, result) && result.Some?
    ensures exists i, m :: 0 <= i < |t.chains| && 0 <= m < L - j &&
                           t.chains[i].end == Iterate(h, t.salt, target, j) &&
                           result.value == Reduce(t.salt, Iterate(h, t.salt, t.chains[i].start, m))
    ensures TruncatedHash(h, result.value, Some(HASH_OUTPUT_SIZE)) == Iterate(h, t.salt, target, j)
  {
    var y := Iterate(h, t.salt, target, j);
    var i :| 0 <= i < |t.chains| && t.chains[i].end == y &&
      result == Replay(h, t.salt, t.chains[i].start, L - j, y, 0);
    var m :| 0 <= m < L - j &&
      result.value == Reduce(t.salt, Iterate(h, t.salt, t.chains[i].start, m)) &&
      Step(h, t.salt, Iterate(h, t.salt, t.chains[i].start, m)) == y;
  }

  /** What a result of the search as written hashes to: the probe that
   *  matched, which is the target only when the match is at position 0. */
  lemma AsWrittenResult(h: Digest, L: nat, t: Table, target: Bytes, result: Option<Bytes>)
    requires SearchOutcome(h, L, t, target, false, result) && result.Some?
    ensures exists j :: 0 <= j < L &&
                        TruncatedHash(h, result.value, Some(HASH_OUTPUT_SIZE)) == Iterate(h, t.salt, target, j) &&
                        exists i, m :: 0 <= i < |t.chains| && 0 <= m < L - j &&
                                       t.chains[i].end == Iterate(h, t.salt, target, j) &&
                                       result.value == Reduce(t.salt, Iterate(h, t.salt, t.chains[i].start, m))
    ensures FirstMatch(h, t.salt, Ends(t.chains), target, L, 0) == Some(0) ==>
      TruncatedHash(h, result.value, Some(HASH_OUTPUT_SIZE)) == target
  {
    var j := FirstMatch(h, t.salt, Ends(t.chains), target, L, 0).value;
    MatchedChainResult(h, L, t, target, j, result);
    if j == 0 {
      assert Iterate(h, t.salt, target, j) == target;
    }
  }

  /** `_find_preimage` as written. A returned value is `R(r, x)` for a value
   *  `x` replayed from a stored start, and it truncates to the probe that
   *  matched, which is the target only when the match is at position 0. */
  method FindPreimage(h: Digest, L: nat, t: Table, target: Bytes) returns (c: nat, result: Option<Bytes>)
    requires SortedByEnd(t.chains)
    ensures SearchOutcome(h, L, t, target, false, result)
    ensures result.Some? ==>
      exists j :: 0 <= j < L &&
                  TruncatedHash(h, result.value, Some(HASH_OUTPUT_SIZE)) == Iterate(h, t.salt, target, j) &&
                  exists i, m :: 0 <= i < |t.chains| && 0 <= m < L - j &&
                                 t.chains[i].end == Iterate(h, t.salt, target, j) &&
                                 result.value == Reduce(t.salt, Iterate(h, t.salt, t.chains[i].start, m))
    ensures result.Some? && FirstMatch(h, t.salt, Ends(t.chains), target, L, 0) == Some(0) ==>
      TruncatedHash(h, result.value, Some(HASH_OUTPUT_SIZE)) == target
    ensures c <= L * BitLength(|t.chains|)
  {
    c, result := ScanTable(h, L, t, target, false);
    if result.Some? {
      AsWrittenResult(h, L, t, target, result);
    }
  }

  /** The search with the replay compared against the target: every value it
   *  returns is a preimage of the target under the truncated salted hash. */
  method FindPreimageIntended(h: Digest, L: nat, t: Table, target: Bytes) returns (c: nat, result: Option<Bytes>)
    requires SortedByEnd(t.chains)
    ensures SearchOutcome(h, L, t, target, true, result)
    ensures result.Some? ==> TruncatedHash(h, result.value, Some(HASH_OUTPUT_SIZE)) == target
    ensures c <= L * BitLength(|t.chains|)
  {
    c, result := ScanTable(h, L, t, target, true);
    if result.Some? {
      var j := FirstMatch(h, t.salt, Ends(t.chains), target, L, 0).value;
      assert MatchedChain(h, L, t, target, true, j, result);
      var i :| 0 <= i < |t.chains| && t.chains[i].end == Iterate(h, t.salt, target, j) &&
        result == Replay(h, t.salt, t.chains[i].start, L - j, target, 0);
    }
  }
}
