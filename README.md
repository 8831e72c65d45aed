# fast longest_match, modelled in Dafny

This project models the fast `longest_match()` of fast_zlib, which is the
match finder of deflate's LZ77 stage. Given the current position `strstart`
and a first candidate `cur_match` taken from a hash head, it walks the
backward hash chain `prev[]` to find a long earlier occurrence of the bytes
at `window[strstart..]`. It stores the start of that occurrence in
`s->match_start` and returns its length, clamped to `lookahead`. The model
covers the byte-compare build (the `#else` branch of `UNALIGNED_OK`) and
the macros `DO_LOOP`, `NEXT_CHAIN`, `UPDATE_MATCH_BASE2` and
`UPDATE_SCAN_END`.

Layout:

- `match_steps.dfy`, module `MatchSteps`. This holds the parts that work on
  bytes and chain links:
  - the constants;
  - the masked chain lookup and the distance limit;
  - the chain budget;
  - a reference definition of the common-prefix length (`MatchLength`);
  - the boundary-byte pre-filter and the byte-by-byte extension;
  - the two loops that move the search to another chain: re-rooting before
    the walk, and re-anchoring after a new best match.
- `longest_match.dfy`, module `LongestMatch`. This holds the walk itself:
  - `Host` is a value holding the `deflate_state` fields the search reads.
  - `Walk` holds the locals of the `do … while` loop.
  - `Begin` is the set-up, lines 24-129.
  - `Visit` handles one candidate, lines 208-327. It is split into
    `Penalize` (the distance penalty), `Record` (a new best match and
    re-anchoring), `JudgePassing` (the two together) and `Judge` (the
    pre-filter and measurement first).
  - `Search` is the whole loop with the return clamp. `Examine` is one
    turn of its loop, and `SearchOk` is the loop invariant over the
    candidates examined so far.
  - `class DeflateState` holds the state fields as arrays.
    `DeflateState.LongestMatch` writes only `match_start`.

Each method that changes state, or that loops, is a Dafny method. Its
contract ties the result to `MatchLength`, `Link`, `ChainBudget` and the
other specification functions. The three checks of the `PARANOID_CHECK`
block (length at most `MAX_MATCH`, `match_start > limit_base`, equal bytes)
are proved as postconditions.

Four details of match.h that the model keeps exactly:

- **Re-rooting (match.h:114-123).** The hash for step `i` is the rolling
  hash after `scan[1..i]`; for zlib's `UPDATE_HASH` that is the hash of the
  three bytes at `scan + i - 2`. Among the heads that are not newer than the
  current candidate, the walk moves to the one farthest back. On ties the
  largest `i` wins.
- **Re-anchoring (match.h:299-310).** The walk moves to the smallest link
  among the sub-positions of the new match, so the new candidate is older
  than the match.
- **`limit_base` (match.h:32-33).** It is `strstart - MAX_DIST - 1`, or
  `NIL` near the start of the window. A candidate at distance exactly
  `MAX_DIST` is accepted.
- **The chain budget (match.h:93, 133, 327).** `chain_length` is unsigned
  and is decremented before it is tested. A budget of 0 arises when
  `max_chain_length < 4` and `prev_length >= good_match`. It wraps around
  to 2^32 - 1 and does not stop the walk. `HopsAllowed` counts the
  candidates a counter value still allows.

## Model

| member | source | states |
|---|---|---|
| MatchSteps.Slot | Sources/match.h:132 | `p & w_mask` with a power-of-two window size always indexes inside `prev[]` |
| MatchSteps.Link | Sources/match.h:132 | `NEXT_CHAIN`'s `prev[cur_match & wmask]` is always one of the entries of `prev[]` |
| MatchSteps.LimitBase | Sources/match.h:32-33 | `limit_base` never exceeds `strstart` |
| MatchSteps.WithinLimit | Sources/match.h:32-36 | a position lies above `limit_base` exactly when its distance from `strstart` is at most `MAX_DIST`; a candidate at the limit is rejected |
| MatchSteps.ChainBudget | Sources/match.h:92-94 | the budget is `max_chain_length`, or a quarter of it (rounded down) when `prev_length >= good_match` |
| MatchSteps.DecU32 | Sources/match.h:327 | `--chain_length` on an unsigned 32-bit counter stays below 2^32 and counts down, except that 0 wraps around to 2^32 - 1 |
| MatchSteps.DecU32Inverse | Sources/match.h:327 | the decrement is undone by an increment modulo 2^32 |
| MatchSteps.BudgetStep | Sources/match.h:131-133 | `HopsAllowed`, the number of candidates a counter value allows (2^32 for a counter of 0), drops by exactly one per decrement that does not end the walk |
| MatchSteps.MatchLength | Sources/match.h:247-263 | the common-prefix length never runs past `strend` |
| MatchSteps.MatchLengthSpec | Sources/match.h:253-262 | the first `MatchLength` bytes at the two positions are equal, and the next byte differs unless `strend` was reached |
| MatchSteps.MatchLengthUnique | Sources/match.h:253-262 | those two facts determine the length: any `r` meeting them is `MatchLength` |
| MatchSteps.MatchLengthAtLeast | Sources/match.h:342 | the common prefix is at least `k` long exactly when the first `k` bytes agree |
| MatchSteps.CommonPrefix | Sources/match.h:342 | the bytes agree over the whole common prefix and over any shorter length, such as the clamped one |
| MatchSteps.ScanEndsMatch | Sources/match.h:76-79 | `UPDATE_SCAN_END`'s cached bytes `scan[best_len-1]` and `scan[best_len]` equal the candidate's bytes at the same offsets whenever its common prefix with `scan` is longer than `best_len` |
| MatchSteps.PassesPrefilter | Sources/match.h:208-246 | a candidate that passes has a common prefix of at least 3 bytes with `scan`; every candidate whose common prefix exceeds `Max(best_len, 2)` passes, so the filter never loses an improvement |
| MatchSteps.PrefilterFacts | Sources/match.h:208-246 | the same two facts for the boundary comparison written on bytes (the last two of `best_len + 1` and the first three): passing means a common prefix of at least 3, and a common prefix beyond `Max(best_len, 2)` passes |
| MatchSteps.ExtendMatch | Sources/match.h:247-263 | the extension, which tests `scan < strend` only every eighth byte, returns exactly `MatchLength(…, strstart + MAX_MATCH)`, and that is between `MIN_MATCH` and `MAX_MATCH` |
| MatchSteps.MeasureCandidate | Sources/match.h:208-263 | the candidate passes exactly when `PassesPrefilter` holds, and then it is measured at its exact common-prefix length, between 3 and 258 |
| MatchSteps.UpdateHash | Sources/match.h:114-117 | `UPDATE_HASH` masks the hash into the `head[]` table |
| MatchSteps.HashThrough | Sources/match.h:114-117 | the rolling hash after `scan[1..i]` is always a valid `head[]` index |
| MatchSteps.ReRoot | Sources/match.h:109-123 | the chosen chain position is the smallest `head[]` entry over `i = 3..best_len` that is not newer than `cur_match`; it is the deepest `i` on ties; with offset 0 every head is newer than `cur_match` |
| MatchSteps.ReAnchor | Sources/match.h:299-310 | the search aborts exactly when some sub-position's link is at or below `limit_base`; otherwise the new position is the smallest link, the first on ties, with its offset |
| LongestMatch.Host.MaxDist | Sources/match.h:32-33 | `MAX_DIST` is positive and smaller than the window size, so every position within it is a valid `prev[]` distance |
| LongestMatch.Host.Limit | Sources/match.h:32-33 | `limit_base` is `strstart - MAX_DIST - 1`, or `NIL` while `strstart <= MAX_DIST`, and never exceeds `strstart` |
| LongestMatch.Reanchored | Sources/match.h:299-312 | since links point backwards, the re-anchored candidate is strictly older than the recorded match |
| LongestMatch.Penalize | Sources/match.h:266-278 | the penalty fires exactly when `cur_match <= threshold_pos`; it disarms itself and raises `best_len` to at least `prev_length + 1`; `real_len` and everything else are unchanged |
| LongestMatch.Record | Sources/match.h:280-317 | a candidate is recorded exactly when it beats `best_len`, and then `match_start`, `best_len` and `real_len` take its start and length; reaching `nice_match` ends the walk; re-anchoring happens exactly when `len > MIN_MATCH`, `cur_match + len < strstart` and not `offs0_mode`; it ends the walk exactly when a sub-position's link is at or below `limit_base`, and otherwise moves to the smallest link with its offset, strictly older than the match; without re-anchoring the walk goes on from the same candidate |
| LongestMatch.Judge | Sources/match.h:208-317 | the candidate passes exactly when the boundary comparison holds; the penalty fires exactly when it passes at or below `threshold_pos`; it is recorded exactly when it passes and its common prefix beats the (penalised) `best_len`, at its start and exact length; its common prefix is afterwards at most `Max(best_len, 2)`; `best_len` never decreases; after the penalty a new match beats `prev_length` by two; when re-anchoring is tried, when it ends the walk and where it moves it |
| LongestMatch.JudgePassing | Sources/match.h:266-317 | the same facts for a candidate known to pass, with its common prefix `l` already measured |
| LongestMatch.Visit | Sources/match.h:208-327 | one candidate keeps the walk invariant and is judged as in `Judge`; the next candidate is `prev[cur_match & wmask]` unless re-anchoring moved the walk; it is strictly older and above `limit`; one step of the budget is spent, with unsigned wrap-around; the walk goes on exactly when it was not ended by `nice_match` or a failed re-anchoring, the next candidate is above `limit`, and the decremented counter is not 0; no candidate's common prefix exceeds `Max(best_len, 2)` afterwards |
| LongestMatch.Begin | Sources/match.h:24-129 | the initial budget, the clamped `nice_match`, `threshold_pos` armed only for `prev_length > MIN_MATCH`, `offs0_mode` exactly when `max_chain_length < 64`; with a carried match longer than `MIN_MATCH` the walk starts on the chain chosen by re-rooting (`RootChoice`), otherwise at `cur_match` with offset 0; the walk starts exactly when its first candidate is above `limit` |
| LongestMatch.Search | Sources/match.h:24-361 | the returned length is `real_len` clamped to `lookahead`; with no longer match, `real_len` is `prev_length`; otherwise it is the exact common-prefix length of a start above `limit_base` and below `strstart`, longer than `prev_length`, between `MIN_MATCH` and `MAX_MATCH`; the candidates examined strictly decrease, stay above the limit and number at most the budget (a quarter of `max_chain_length` after a good match); no examined candidate has a common prefix longer than `Max(best_len, 2)`, and the final `best_len` is `real_len` unless the penalty raised it; a `nice_match` hit is the last candidate; a match recorded after the penalty beats `prev_length` by two; the walk starts on the chain chosen by re-rooting (`RootChoice`) when the carried match is longer than `MIN_MATCH`, and at `cur_match` otherwise, and examines that candidate first unless it is at or below `limit`; so without such a carried match, a match at `cur_match` longer than `Max(prev_length, 2)` is always found |
| LongestMatch.Examine | Sources/match.h:131-327 | one turn of the loop keeps the invariant over the candidates examined so far and appends the current candidate to them |
| LongestMatch.RecordedMatch | Sources/match.h:330-357 | the `PARANOID_CHECK` checks: the distance is between 1 and `MAX_DIST`, and the bytes at `match_start` equal those at `strstart` for the full and for the clamped length |
| LongestMatch.Find | Sources/match.h:330-361 | the caller's view: the length is at most `lookahead`; with no match it is `prev_length` clamped; a match lies within `MAX_DIST`, is longer than `prev_length`, and its bytes equal those at `strstart` over the returned length; without a carried match longer than `MIN_MATCH`, a common prefix at `cur_match` longer than `Max(prev_length, 2)` is always found, and what is found is at least as long; with one, the walk starts where re-rooting puts it (`RootChoice`), and a first candidate there above `limit` whose common prefix beats `prev_length + 1` is always found |
| LongestMatch.DeflateState.LongestMatch | Sources/match.h:3-361 | only `match_start` changes, and only when a strictly longer match is found; in that case `match_start` lies within `MAX_DIST` and the returned length's bytes match; otherwise the result is `prev_length` clamped to `lookahead`; without a carried match longer than `MIN_MATCH`, a common prefix at `cur_match` longer than `Max(prev_length, 2)` is always found, and what is found is at least as long; with one, the walk starts where re-rooting puts it (`RootChoice`), and a first candidate there above `limit` whose common prefix beats `prev_length + 1` is always found |

## Left out

- The `UNALIGNED_OK` / `SYS16BIT` word-at-a-time comparisons (match.h:56-69 and 139-204) are not modelled. They rely on unaligned pointer reads and compute the same lengths.
- `DO_LOOP` unrolling is a performance device. `DO_LOOP` and `NEXT_CHAIN` are modelled as one candidate per `Visit`, followed by the same `<= limit` and `--chain_length` tests.
- PassesPrefilter: the source skips one of the first three bytes when `best_len <= 3` and relies on the hash for it. The model compares that byte too. This is the same behaviour whenever chain entries share the hashed three-byte prefix.
- The `PARANOID_CHECK` `printf` messages and the `match.dmp` dump are I/O and are left out. Only the three checks are kept, as postconditions.
- `UPDATE_HASH`'s shift and exclusive-or belong to zlib's `deflate.c`, which is not part of this model. They are the parameter `mix`; only the masking by `hash_mask` is modelled.
- `MAX_DIST` is taken as `w_size - MIN_LOOKAHEAD`. The rest of the `deflate_state` layout, `INSERT_STRING`, and the callers in `deflate.c` are not part of this model.
- The host's guarantees are preconditions:
  - `strstart + MIN_LOOKAHEAD` lies within the window (match.h:99);
  - `prev_length <= MAX_MATCH`;
  - the first candidate is above `limit_base` and before `strstart`;
  - every chain link of a position in that range points strictly backwards (`ChainsDecrease`).
- `p & w_mask` and `h & hash_mask` are modelled as remainders modulo a power-of-two table size.
- Positions are unbounded naturals. Only `chain_length`'s 32-bit wrap-around is modelled, because it changes behaviour.
- `nice_match` is modelled as a natural. A negative `nice_match` is not modelled.
- The arrays are read through a snapshot (`DeflateState.Snapshot`), because the search changes none of them. Aliasing between `window`, `prev` and `head` is therefore not modelled.
- Search: it does not claim to return the longest match on the chain or in the window, and the source does not promise this. The budget, `nice_match` and the jumps of re-rooting and re-anchoring can skip longer matches. What is proved is that nothing examined is longer than the final `best_len`, and that the recorded match has its exact length.
- Search: the order from one examined candidate to the next (along `prev[]`, or re-anchored) is stated for each step by Visit. Search's own contract keeps only that the candidates strictly decrease.
- MeasureCandidate: it gives no length for a candidate that fails the pre-filter, because the source measures none. PassesPrefilter proves that such a candidate cannot beat `Max(best_len, 2)`.
- Visit: once the walk ends, the model refreshes the cached scan-end bytes. These values are dead in the source, so the refresh only keeps the walk invariant.
- The test driver (`Test/test.cpp`) and the build stubs (`Test/deflate_stub*.c`) are benchmarking I/O and build glue, with no logic of the match finder.
