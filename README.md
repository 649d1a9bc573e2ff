# RIPEMD-160 attack labs, modelled in Dafny

Two cryptanalysis exercises against RIPEMD-160 with its output truncated.

- **lab1** is a brute-force search. `ret_hash` gives the hexadecimal digest cut to its first `_trunc // 4` characters.
  - `ret_modification` perturbs a message in one of two ways:
    - `_first_v` appends the decimal form of a random number of 1 to 32 bytes;
    - `_second_v` overwrites one byte, chosen at random, with a random byte.
  - `preimage_attack` keeps perturbing until a candidate other than the original message shares its 16-bit truncated hash.
  - `coll_attack` keeps perturbing until two distinct candidates share a 32-bit truncated hash.
- **lab2** is a Hellman-style time/memory trade-off (a rainbow table without colours).
  - The reduction is `R(r, x) = r + x`, where `r` is a 14-byte salt drawn once per table.
  - One chain step is `x -> ret_hash(R(r, x), 16)`, the first 2 digest bytes.
  - `build_table(K, L)` grows `K` chains of `L` steps from random 2-byte starts and keeps the (start, end) pairs sorted by end.
  - `_find_preimage` handles a target. Its probe `y` starts at the target and advances one chain step per position `j`; at each position it looks `y` up among the sorted ends by binary search. On the first match it replays that chain from its start, for at most `L - j` steps.

The hash function is a parameter `h: Bytes -> Bytes`. Where a property needs real RIPEMD-160 output lengths, it assumes `Is160Bit(h)`: every digest is 20 bytes long.

Randomness is also supplied from outside:
- lab2 takes the values `random.getrandbits` would return as arguments.
- lab1 takes a finite stream of `urandom` bytes, consumed from the front.

The modules follow the source:

| module | what it holds |
|---|---|
| `PyBytes` | Python bytes: slicing, big-endian `int.from_bytes`/`to_bytes`, and the lexicographic order of `<` |
| `Ripemd160` | the digest type |
| `Chain` | lab2 `ret_hash`, `R`, and the chain walk |
| `EndOrder` | `sorted(..., key=end)` |
| `TableBuild` | `build_table` |
| `TableSearch` | `_find_preimage` |
| `SearchFinding` | a concrete table showing the defect described under Findings |
| `HexDigest` | lab1 `ret_hash` |
| `Perturb` | `_first_v`, `_second_v` and `ret_modification` |
| `BruteForce` | `preimage_attack` and `coll_attack` |

## Model

| member | source | states |
|---|---|---|
| PyBytes.FromToBytesBE | lab2/lab2.py:35 | reading back the big-endian `to_bytes(n, "big")` encoding of any value below 256^n with `int.from_bytes` gives the value |
| PyBytes.LessIrreflexive | lab2/lab2.py:57-59 | no bytes value is `<` itself |
| PyBytes.LessAsymmetric | lab2/lab2.py:57-59 | `a < b` and `b < a` never both hold |
| PyBytes.LessTransitive | lab2/lab2.py:57-59 | the bytes order `<` is transitive |
| PyBytes.LessTrichotomous | lab2/lab2.py:57-61 | two bytes values neither of which is `<` the other are equal, so the `else` branch of the binary search means an exact match |
| Chain.TruncatedHash | lab2/lab2.py:24-27 | the result is a prefix of the digest. It is the whole digest when `_trunc` is None or 0, and `_trunc // 8` bytes (capped at the digest length) when `_trunc` is positive. A negative `_trunc` drops bytes from the end, as Python slicing does |
| Chain.Reduce | lab2/lab2.py:30-31 | `R(r, x)` has length `|r| + |x|`, begins with the salt and ends with `x` |
| Chain.ReduceInjective | lab2/lab2.py:30-31 | under one salt, distinct chain values reduce to distinct messages |
| Chain.Step | lab2/lab2.py:42 | one chain step is the first `min(2, |digest|)` bytes of the digest of `R(r, x)`, so exactly 2 bytes for a 160-bit hash |
| Chain.IterateAdd | lab2/lab2.py:41-42 | walking `a` steps and then `b` more is walking `a + b` steps |
| Chain.MergeIsCollision | lab2/lab2.py:30-42 | where two chains first meet, the salted values they stepped from are two different messages with the same 16-bit truncated hash, so chains merge only through a collision |
| Chain.ChainsStayMerged | lab2/lab2.py:41-42 | two chains that reach the same value stay equal for every further step, which is why equal ends occur in a table |
| EndOrder.SortByEndSorted | lab2/lab2.py:46 | the sorted table is non-decreasing by end under the bytes order |
| EndOrder.SortByEndPermutation | lab2/lab2.py:46 | sorting keeps exactly the same pairs (same multiset, same length) |
| EndOrder.SortByEndStable | lab2/lab2.py:46 | sorting is stable: the pairs sharing any given end keep their generation order |
| TableBuild.BuildTable | lab2/lab2.py:34-46 | the salt is the 14-byte big-endian encoding of its draw, and there are `K` chains. Each start is the 2-byte encoding of its draw, and each end is that start after `L` steps. The table is sorted by end, is a permutation of the generated pairs, and keeps equal ends in generation order |
| TableSearch.BitLengthIsLog2 | lab2/lab2.py:54-71 | `n.bit_length()`, the bound on the probes of one binary search, lies between `log2 n` and `log2 n + 1` |
| TableSearch.FirstMatch | lab2/lab2.py:53-60 | the first position `j < L` whose probe (the target after `j` steps) is a stored end: every earlier probe is absent; `None` means no probe is a stored end |
| TableSearch.FirstHit | lab2/lab2.py:65-67 | the position where the replay stops: the first of the positions `from .. n - 1` whose next chain value equals the compared value, every earlier one differing; `None` means no position in range matches |
| TableSearch.Replay | lab2/lab2.py:64-69 | a replay result truncates to the value the replay compared against. It is `R(r, x)` for the chain value `x` at the FIRST position, below `n`, whose next step is that value (every earlier step differs), as the early `return` gives; `None` means no such step exists within `n` steps |
| TableSearch.ChainTargetIsMatched | lab2/lab2.py:53-60 | when the target lies on a stored chain `L - j` steps after its start, some probe at or before `j` matches a stored end |
| TableSearch.BinarySearch | lab2/lab2.py:54-71 | on a table sorted by end, a found index holds an end equal to `y`, and a miss means `y` is not among the ends. At most `bit_length(len(tab))` halvings are counted |
| TableSearch.ReplayChain | lab2/lab2.py:64-69 | the `for m in range(L - j)` loop returns exactly `Replay` of the matched chain |
| TableSearch.ScanTable | lab2/lab2.py:49-74 | the result is `None` when no probe matches. Otherwise it is the replay, for `L - j` steps, of a chain whose end is the first matching probe `j`. The counter `c` never exceeds `L · bit_length(K)` |
| TableSearch.AsWrittenResult | lab2/lab2.py:62-67 | a value returned by the search as written truncates to the `j`-th successor of the target for some matching position `j`, and it is `R(r, x)` for a value `x` on a chain ending there. It truncates to the target itself when the first match is at position 0 |
| TableSearch.FindPreimage | lab2/lab2.py:49-74 | `_find_preimage` as written. A returned value is `R(r, x)` for a value `x` on a stored chain, and it truncates to the matched probe (the target after `j` steps), not to the target. It truncates to the target itself when the first match is at position 0 |
| TableSearch.FindPreimageIntended | lab2/lab2.py:49-74 | the search with the replay compared against the target: every value it returns is a true preimage of the target under the truncated hash, with the same bound on `c` |
| SearchFinding.AsWrittenMissesStoredPreimage | lab2/lab2.py:66-67 | on the example table the first match is at position 1. The replay as written finds nothing, while the replay against the target returns `R(r, [0, 0])`, which hashes to the target |
| SearchFinding.MissedPreimageExample | lab2/lab2.py:34-74 | building the example table and running both searches: the search as written returns `None` and the corrected search returns a preimage of the target |
| HexDigest.Hex | lab1/lab1.py:18-19 | `hexdigest()` has two lowercase hexadecimal characters per digest byte |
| HexDigest.UnhexHex | lab1/lab1.py:18-19 | the hexadecimal form decodes back to the digest |
| HexDigest.HexInjective | lab1/lab1.py:18-19 | distinct digests have distinct hexadecimal forms |
| HexDigest.HexPrefix | lab1/lab1.py:18 | the first `2k` hexadecimal characters spell the first `k` digest bytes |
| HexDigest.TruncatedHex | lab1/lab1.py:16-19 | the result is a prefix of `hexdigest()`. It is all of it when `_trunc` is None or 0, `_trunc // 4` characters (capped) when positive, and a slice from the end when negative |
| HexDigest.TruncatedHexBytes | lab1/lab1.py:16-19 | truncating to `8k` bits gives the hexadecimal form of the first `k` digest bytes |
| HexDigest.SameTruncatedHex | lab1/lab1.py:16-19 | for a 160-bit hash, two messages share their `8k`-bit truncated hash exactly when their digests agree on the first `k` bytes |
| Perturb.Decimal | lab1/lab1.py:29 | `str(n).encode("ascii")` is a non-empty run of ASCII digits with no leading zero unless the result is the single digit `0` |
| Perturb.ParseDecimalOfDecimal | lab1/lab1.py:29 | reading the appended digits back gives the number |
| Perturb.FirstVariant | lab1/lab1.py:27-29 | `_first_v` strictly extends the message. The appended bytes are ASCII digits, with no leading zero unless they are the single digit `0`, and their value is the big-endian number of the `1 + count % 32` drawn bytes |
| Perturb.SecondVariant | lab1/lab1.py:32-33 | `_second_v` fails exactly on the empty message (division by zero). Otherwise it keeps the length, puts the new byte at `index % len(msg)` and leaves every other byte unchanged |
| Perturb.Modification | lab1/lab1.py:36-40 | the outcome depends on the selector. 0 is `_first_v`, using `2 + count % 32` random bytes. 1 is `_second_v`, using 2 bytes. Any other selector is a `KeyError`. Each error case holds exactly when its condition does |
| Perturb.ModificationStaysReachable | lab1/lab1.py:61-65 | perturbing a message reachable from the original keeps it reachable: a digit extension for `_first_v` (never the original itself), the same length for `_second_v` |
| BruteForce.PerturbUntilNew | lab1/lab1.py:64-65 | the inner loop shared by both attacks. A candidate not yet used comes back unchanged with nothing drawn; otherwise the candidate it settles on is not among those already used and is still reachable from the original message. It comes back unchanged exactly when no randomness was drawn. With a valid selector the only error is the stream running out: fewer bytes remain than one more perturbation can need (33 for `_first_v`, 2 for `_second_v`) |
| BruteForce.TriedCandidatesAdd | lab1/lab1.py:58-68 | after the current candidate fails the test, adding a new reachable candidate to `used_candidates` grows it by one and keeps every candidate other than the newest a failed one |
| BruteForce.PreimageAttack | lab1/lab1.py:43-74 | a returned message differs from the original and shares its 16-bit truncated hash. It was reached by the chosen perturbation and is the first candidate to pass the test: every other candidate tried is the original or has a different hash. One new candidate is tried per iteration, and under `_first_v` the reset to `msg` makes the original itself a tried candidate once an iteration has run. `KeyError` happens exactly for a selector other than 0 or 1, and the division by zero exactly for an empty message under `_second_v` |
| BruteForce.CollisionAttack | lab1/lab1.py:77-112 | `KeyError` happens exactly for a selector other than 0 or 1, and the division by zero exactly for an empty message under `_second_v`. The two returned messages are distinct, share their 32-bit truncated hash and were both reached by the chosen perturbation. The final dictionary is an index (`HashIndex`): every key is the hash of its message, no message is stored twice, and every message is reachable. It has one entry per iteration, it holds the first message and not the second, and under `_first_v` the reset to `msg` puts the original among its messages unless the original is itself the second message |
| BruteForce.HashIndexInsert | lab1/lab1.py:86 | storing a new message under its new hash keeps the dictionary an index |

## Left out

- `theor_calc` (lab2/lab2.py:12-21) computes a floating-point success estimate; floating point is not modelled.
- `find_preimages_parallel`, `attack_multithread` and the per-table thread pools are concurrency drivers around `_find_preimage`.
  - The model covers the search of one table.
  - Whichever thread finishes first decides the combined result; that choice is not modelled.
  - The counter `c` the driver reports is unbound when no table is given; that is not modelled either.
- Pickling tables to disk, reloading them and the dimension `assert`, the CSV export and the mean, variance and confidence-interval statistics are file I/O and numpy floating point. They are not part of this model.
- Console output is not modelled: `print`, the colour codes of `colorize_ret_hash`, and the `supress` flag, which only switches printing.
- The `main_*` drivers and the `__main__` blocks are not part of this model.
- RIPEMD-160 itself is not implemented; the hash is a parameter `h`.
- `random.getrandbits` and `os.urandom` are parameters.
  - In lab1 the stream is finite, so each attack can stop with `OutOfEntropy` where the source would draw again for ever.
- `TableBuild.BuildTable`: `K` and `L` are natural numbers. Python's `range` of a negative count is empty, which behaves like 0.
- `TableSearch.ScanTable`: it bounds the probe counter `c` by `L · bit_length(K)` rather than stating its exact value.
- `TableSearch.FindPreimage`: among several chains with the same end, the binary search returns whichever it lands on. The contract says only that it is one of them.
- `BruteForce.PreimageAttack`: the contract states what a returned result satisfies, not that the search eventually succeeds. The source loops until it does.
- `BruteForce.CollisionAttack`: the contract states what a returned result satisfies, not that the search eventually succeeds. The source loops until it does.
- `_find_preimage` does not in general return a preimage of the target: a value it returns hashes to the probe that matched, which is the target only for a match at position 0. The model follows the code; see Findings.
- Truncation widths are not validated. The code slices with whatever `_trunc` it is given, and the model follows the code.

## Findings

| source | as written | input that shows it | evidently intended | confidence | as-written member | corrected member |
|---|---|---|---|---|---|---|
| lab2/lab2.py:66 | the replay compares `ret_hash(R(r, x), 16)` with the current probe `y`, not with `target`. For a match at position `j > 0`, a returned value hashes to the target's `j`-th successor, and a preimage lying on the stored chain is missed | a digest that maps `R(r, [a, b])` to `[a, b + 1]` padded to 20 bytes; salt draw 0; one chain from start `[0, 0]` with `L = 2`, so its end is `[0, 2]`; target `[0, 1]`. The search as written returns `None`, although `R(r, [0, 0])` hashes to `[0, 1]` | compare each replayed step with `target`, so that any returned `R(r, x)` is a preimage of the target | high, not executed | SearchFinding.AsWrittenMissesStoredPreimage | TableSearch.FindPreimageIntended |
