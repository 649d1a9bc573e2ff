/** lab1 `preimage_attack` and `coll_attack`: keep perturbing the message
 *  until a candidate other than the original shares its 16-bit truncated
 *  hash, or until two distinct candidates share a 32-bit truncated hash.
 *  The random stream `rand` replaces `urandom`; the source's `while True`
 *  loops run until success, and the model stops with `OutOfEntropy` when the
 *  stream it was given is used up. */
module BruteForce {
  import opened PyBytes
  import opened Ripemd160
  import opened Wrappers
  import opened HexDigest
  import opened Perturb

  const PREIMAGE_ATTACK_CONSTRAINT: int := 16
  const COLL_ATTACK_CONSTRAINT: int := 32

  /** `(iter_count, m)` returned by `preimage_attack`. */
  datatype Preimage = Preimage(iterations: nat, msg: Bytes)

  /** `(iter_count, m1, m2)` returned by `coll_attack`. */
  datatype Collision = Collision(iterations: nat, first: Bytes, second: Bytes)

  /** The `while m in used_candidates` / `while m in hashes.values()` loop:
   *  perturb the candidate, drawing from `rand` at `pos`, until it is new.
   *  With a valid selector and a message `_second_v` can index, only the
   *  random stream can run out. */
  method PerturbUntilNew(variant: int, msg: Bytes, m: Bytes, used: set<Bytes>, rand: Bytes, pos: nat)
    returns (r: Result<Bytes, Error>, next: nat)
    requires variant == 0 || variant == 1
    requires variant == 1 ==> msg != []
    requires Reachable(variant, msg, m) && pos <= |rand|
    ensures pos <= next <= |rand|
    ensures r.Err? ==> r.error == OutOfEntropy
    ensures r.Ok? ==> r.value !in used && Reachable(variant, msg, r.value)
    ensures r.Ok? ==> (r.value == m <==> next == pos)
    ensures m !in used ==> r == Ok(m) && next == pos
    ensures r.Err? ==> |rand| - next < (if variant == 0 then 33 else 2)
  {
    var cand := m;
    next := pos;
    while cand in used
      invariant pos <= next <= |rand|
      invariant Reachable(variant, msg, cand)
      invariant next == pos ==> cand == m
      invariant next != pos ==> m in used
      decreases |rand| - next
    {
      var step := Modification(variant, cand, rand[next..]);
      if step.Err? {
        return Err(step.error), next;
      }
      ModificationStaysReachable(variant, msg, cand, rand[next..]);
      cand := step.value.msg;
      next := next + step.value.used;
    }
    r := Ok(cand);
  }

  /** The `used_candidates` set of `preimage_attack` around the current
   *  candidate `m`: every candidate is reachable from `msg`, and every one
   *  other than `m` failed the test (it is `msg` or has a different hash). */
  ghost predicate TriedCandidates(h: Digest, variant: int, msg: Bytes, used: set<Bytes>, m: Bytes)
  {
    && m in used
    && (forall c :: c in used ==> Reachable(variant, msg, c))
    && (forall c :: c in used && c != m ==>
          c == msg || TruncatedHex(h, c, Some(PREIMAGE_ATTACK_CONSTRAINT)) != TruncatedHex(h, msg, Some(PREIMAGE_ATTACK_CONSTRAINT)))
  }

  /** Once the current candidate has failed the test, adding a new reachable
   *  candidate keeps the set in shape and grows it by one. */
  lemma TriedCandidatesAdd(h: Digest, variant: int, msg: Bytes, used: set<Bytes>, m: Bytes, m': Bytes)
    requires TriedCandidates(h, variant, msg, used, m)
    requires m == msg || TruncatedHex(h, m, Some(PREIMAGE_ATTACK_CONSTRAINT)) != TruncatedHex(h, msg, Some(PREIMAGE_ATTACK_CONSTRAINT))
    requires m' !in used && Reachable(variant, msg, m')
    ensures TriedCandidates(h, variant, msg, used + {m'}, m')
    ensures |used + {m'}| == |used| + 1
  {
  }

  /** `preimage_attack(msg, var)`. The ghost `tried` is the final
   *  `used_candidates` set: every candidate hashed, one per iteration plus
   *  the first. */
  method PreimageAttack(h: Digest, msg: Bytes, variant: int, rand: Bytes)
    returns (r: Result<Preimage, Error>, ghost tried: set<Bytes>)
    ensures r == Err(UnknownVariant) <==> variant != 0 && variant != 1
    ensures r == Err(EmptyMessage) <==> variant == 1 && msg == []
    ensures r.Ok? ==>
      && r.value.msg != msg
      && TruncatedHex(h, r.value.msg, Some(PREIMAGE_ATTACK_CONSTRAINT)) ==
         TruncatedHex(h, msg, Some(PREIMAGE_ATTACK_CONSTRAINT))
    ensures r.Ok? ==> Reachable(variant, msg, r.value.msg)
    ensures r.Ok? ==> r.value.msg in tried && |tried| == r.value.iterations + 1
    ensures r.Ok? && variant == 0 && r.value.iterations >= 1 ==> msg in tried
    ensures r.Ok? ==> forall c :: c in tried && c != r.value.msg ==>
      c == msg || TruncatedHex(h, c, Some(PREIMAGE_ATTACK_CONSTRAINT)) != TruncatedHex(h, msg, Some(PREIMAGE_ATTACK_CONSTRAINT))
    ensures forall c :: c in tried ==> Reachable(variant, msg, c)
  {
    tried := {};
    var targetHash := TruncatedHex(h, msg, Some(PREIMAGE_ATTACK_CONSTRAINT));
    var iterCount := 0;
    var first := Modification(variant, msg, rand);
    if first.Err? {
      return Err(first.error), tried;
    }
    ModificationStaysReachable(variant, msg, msg, rand);
    var m := first.value.msg;
    var pos := first.value.used;
    var hm := TruncatedHex(h, m, Some(PREIMAGE_ATTACK_CONSTRAINT));
    var usedCandidates := {m};
    while true
      invariant variant == 0 || variant == 1
      invariant pos <= |rand|
      invariant TriedCandidates(h, variant, msg, usedCandidates, m)
      invariant hm == TruncatedHex(h, m, Some(PREIMAGE_ATTACK_CONSTRAINT))
      invariant |usedCandidates| == iterCount + 1
      invariant variant == 0 && iterCount >= 1 ==> msg in usedCandidates
      invariant variant == 1 ==> msg != []
      decreases |rand| - pos, if msg in usedCandidates then 0 else 1
    {
      if m != msg && hm == targetHash {
        return Ok(Preimage(iterCount, m)), usedCandidates;
      }
      ghost var failed := m;
      if variant == 0 {
        m := msg;
      }
      var novel;
      novel, pos := PerturbUntilNew(variant, msg, m, usedCandidates, rand, pos);
      if novel.Err? {
        return Err(novel.error), usedCandidates;
      }
      TriedCandidatesAdd(h, variant, msg, usedCandidates, failed, novel.value);
      m := novel.value;
      hm := TruncatedHex(h, m, Some(PREIMAGE_ATTACK_CONSTRAINT));
      usedCandidates := usedCandidates + {m};
      iterCount := iterCount + 1;
    }
  }

  /** The `hashes` dictionary of `coll_attack`: each key is the 32-bit
   *  truncated hash of its message, no message is stored under two keys, and
   *  every message is reachable from `msg` by the chosen perturbation. */
  ghost predicate HashIndex(h: Digest, variant: int, msg: Bytes, hashes: map<string, Bytes>)
  {
    && (forall k :: k in hashes ==> TruncatedHex(h, hashes[k], Some(COLL_ATTACK_CONSTRAINT)) == k)
    && (forall k, k' :: k in hashes && k' in hashes && k != k' ==> hashes[k] != hashes[k'])
    && (forall k :: k in hashes ==> Reachable(variant, msg, hashes[k]))
  }

  /** Storing a value under a new key adds exactly that value to the
   *  dictionary's values. */
  lemma ValuesAfterInsert(hashes: map<string, Bytes>, k: string, v: Bytes)
    requires k !in hashes
    ensures |hashes[k := v]| == |hashes| + 1
    ensures hashes[k := v].Values == hashes.Values + {v}
  {
    var hs := hashes[k := v];
    forall w | w in hs.Values ensures w in hashes.Values + {v} {
      var k' :| k' in hs && hs[k'] == w;
      if k' != k { assert hashes[k'] == w; }
    }
    forall w | w in hashes.Values ensures w in hs.Values {
      var k' :| k' in hashes && hashes[k'] == w;
      assert hs[k'] == w;
    }
    assert hs[k] == v;
  }

  /** `hashes[h] = m` for a new hash and a new message keeps the dictionary
   *  an index. */
  lemma HashIndexInsert(h: Digest, variant: int, msg: Bytes, hashes: map<string, Bytes>, k: string, v: Bytes)
    requires HashIndex(h, variant, msg, hashes)
    requires k !in hashes && v !in hashes.Values
    requires TruncatedHex(h, v, Some(COLL_ATTACK_CONSTRAINT)) == k && Reachable(variant, msg, v)
    ensures HashIndex(h, variant, msg, hashes[k := v])
  {
    var hs := hashes[k := v];
    forall k1, k2 | k1 in hs && k2 in hs && k1 != k2 ensures hs[k1] != hs[k2] {
      if k1 == k {
        assert hashes[k2] in hashes.Values;
      } else if k2 == k {
        assert hashes[k1] in hashes.Values;
      }
    }
  }

  /** `coll_attack(msg, var)`. The ghost `seen` is the final `hashes`
   *  dictionary, an index of every candidate hashed, with one entry per
   *  iteration. */
  method CollisionAttack(h: Digest, msg: Bytes, variant: int, rand: Bytes)
    returns (r: Result<Collision, Error>, ghost seen: map<string, Bytes>)
    ensures r == Err(UnknownVariant) <==> variant != 0 && variant != 1
    ensures r == Err(EmptyMessage) <==> variant == 1 && msg == []
    ensures r.Ok? ==>
      && r.value.first != r.value.second
      && TruncatedHex(h, r.value.first, Some(COLL_ATTACK_CONSTRAINT)) ==
         TruncatedHex(h, r.value.second, Some(COLL_ATTACK_CONSTRAINT))
    ensures r.Ok? ==> Reachable(variant, msg, r.value.first) && Reachable(variant, msg, r.value.second)
    ensures r.Ok? ==> r.value.first in seen.Values && r.value.second !in seen.Values
    ensures r.Ok? ==> |seen| == r.value.iterations
    ensures r.Ok? && variant == 0 ==> msg in seen.Values || r.value.second == msg
    ensures HashIndex(h, variant, msg, seen)
  {
    seen := map[];
    var iterCount := 0;
    var initM := msg;
    var first := Modification(variant, msg, rand);
    if first.Err? {
      return Err(first.error), seen;
    }
    ModificationStaysReachable(variant, msg, msg, rand);
    var m := first.value.msg;
    var pos := first.value.used;
    var hm := TruncatedHex(h, m, Some(COLL_ATTACK_CONSTRAINT));
    var hashes: map<string, Bytes> := map[];
    while true
      invariant variant == 0 || variant == 1
      invariant variant == 1 ==> msg != []
      invariant pos <= |rand|
      invariant hm == TruncatedHex(h, m, Some(COLL_ATTACK_CONSTRAINT))
      invariant hm !in hashes && m !in hashes.Values
      invariant Reachable(variant, msg, m)
      invariant |hashes| == iterCount
      invariant variant == 0 && iterCount >= 1 ==> msg in hashes.Values || m == msg
      invariant variant == 0 && iterCount == 0 ==> m != msg
      invariant HashIndex(h, variant, msg, hashes)
      decreases |rand| - pos, if msg in hashes.Values then 0 else if m == msg then 1 else 2
    {
      HashIndexInsert(h, variant, msg, hashes, hm, m);
      ValuesAfterInsert(hashes, hm, m);
      hashes := hashes[hm := m];
      if variant == 0 {
        m := initM;
      }
      var novel;
      novel, pos := PerturbUntilNew(variant, msg, m, hashes.Values, rand, pos);
      if novel.Err? {
        return Err(novel.error), hashes;
      }
      m := novel.value;
      hm := TruncatedHex(h, m, Some(COLL_ATTACK_CONSTRAINT));
      iterCount := iterCount + 1;
      if hm in hashes && hashes[hm] != m {
        return Ok(Collision(iterCount, hashes[hm], m)), hashes;
      }
    }
  }
}
