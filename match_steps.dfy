/** The pieces of the fast longest_match() that work on bytes and chain
    links: the constants it is built for, the masked chain lookup, the search
    limit and effort budget, the boundary-byte pre-filter, the byte-by-byte
    extension of a candidate, and the two loops that move the search onto a
    different hash chain (re-rooting before the walk, re-anchoring after a
    new best match).

    Positions are window indices (deflate's IPos); the window is read-only
    during a search, so these members take it as a sequence of bytes. */
module MatchSteps {

  const MIN_MATCH: nat := 3
  const MAX_MATCH: nat := 258
  /** Bytes the host keeps readable past strstart: MAX_MATCH + MIN_MATCH + 1. */
  const MIN_LOOKAHEAD: nat := MAX_MATCH + MIN_MATCH + 1
  /** The empty chain link; position 0 is never offered as a match. */
  const NIL: nat := 0
  /** Positions and chain_length are unsigned 32-bit values. */
  const U32_LIMIT: nat := 0x1_0000_0000

  function Min(a: int, b: int): int { if a <= b then a else b }

  function Max(a: int, b: int): int { if a <= b then b else a }

  predicate PowerOfTwo(n: nat)
    decreases n
  {
    n == 1 || (n >= 2 && n % 2 == 0 && PowerOfTwo(n / 2))
  }

  /** `p & w_mask`: the slot of position p in the chain table prev[]. The
      window size w_mask + 1 is a power of two, so masking is taking the
      remainder. */
  function Slot(p: nat, wMask: nat): (r: nat)
    ensures r <= wMask
  {
    p % (wMask + 1)
  }

  /** `prev[p & w_mask]`: the next older position on p's hash chain. */
  function Link(prev: seq<nat>, wMask: nat, p: nat): (r: nat)
    requires |prev| == wMask + 1
    ensures r in prev
  {
    prev[Slot(p, wMask)]
  }

  /** `limit_base`: chain positions at or below it are farther back than
      maxDist (MAX_DIST) and end the search. */
  function LimitBase(strstart: nat, maxDist: nat): (r: nat)
    ensures r <= strstart
  {
    if strstart > maxDist then strstart - maxDist - 1 else NIL
  }

  /** A candidate is accepted by the limit exactly when its distance is at
      most maxDist: a candidate at the limit itself (distance maxDist + 1)
      is rejected. */
  lemma WithinLimit(strstart: nat, maxDist: nat, p: nat)
    requires 0 < p <= strstart
    ensures LimitBase(strstart, maxDist) < p <==> strstart - p <= maxDist
  {
  }

  /** The initial `chain_length`: max_chain_length, cut to a quarter when the
      carried match is already good. */
  function ChainBudget(maxChain: nat, prevLength: nat, goodMatch: nat): (r: nat)
    ensures r <= maxChain
    ensures prevLength >= goodMatch ==> 4 * r <= maxChain < 4 * r + 4
    ensures prevLength < goodMatch ==> r == maxChain
  {
    if prevLength >= goodMatch then maxChain / 4 else maxChain
  }

  /** `--chain_length` on an unsigned 32-bit counter. */
  function DecU32(x: nat): (r: nat)
    requires x < U32_LIMIT
    ensures r < U32_LIMIT
    // it counts down, and wraps around at 0
    ensures x != 0 ==> r < x
    ensures x == 0 ==> r == U32_LIMIT - 1
  {
    if x == 0 then U32_LIMIT - 1 else x - 1
  }

  /** `--chain_length` undoes an unsigned 32-bit increment. */
  lemma DecU32Inverse(x: nat)
    requires x < U32_LIMIT
    ensures (DecU32(x) + 1) % U32_LIMIT == x
  {
  }

  /** How many candidates a counter value still allows: the counter is
      decremented before it is tested, so a counter of 0 wraps around and
      allows 2^32 candidates rather than none. */
  function HopsAllowed(chainLength: nat): (r: nat)
  {
    if chainLength == 0 then U32_LIMIT else chainLength
  }

  /** One `--chain_length` spends exactly one allowed candidate, unless it
      reaches 0 and ends the walk. */
  lemma BudgetStep(chainLength: nat)
    requires chainLength < U32_LIMIT && DecU32(chainLength) != 0
    ensures HopsAllowed(DecU32(chainLength)) + 1 == HopsAllowed(chainLength)
  {
  }

  /** Reference definition: the length of the common prefix of the strings at
      s and m, compared no further than strend (the first byte that is not
      looked at, as in the source's `strend`). */
  function MatchLength(w: seq<bv8>, s: nat, m: nat, strend: nat): (r: nat)
    requires s <= strend <= |w| && m + (strend - s) <= |w|
    ensures s + r <= strend
    decreases strend - s
  {
    if s == strend || w[s] != w[m] then 0
    else 1 + MatchLength(w, s + 1, m + 1, strend)
  }

  /** What MatchLength is: the strings agree on its first r bytes and, unless
      strend was reached, differ at the next one. */
  lemma {:induction false} MatchLengthSpec(w: seq<bv8>, s: nat, m: nat, strend: nat)
    requires s <= strend <= |w| && m + (strend - s) <= |w|
    ensures var r := MatchLength(w, s, m, strend);
      && w[s..s + r] == w[m..m + r]
      && (s + r < strend ==> w[s + r] != w[m + r])
    decreases strend - s
  {
    if s < strend && w[s] == w[m] {
      MatchLengthSpec(w, s + 1, m + 1, strend);
      var r := MatchLength(w, s + 1, m + 1, strend);
      assert MatchLength(w, s, m, strend) == 1 + r;
      var a, b := w[s + 1..s + 1 + r], w[m + 1..m + 1 + r];
      calc {
        w[s..s + 1 + r];
        [w[s]] + a;
        [w[m]] + b;
        w[m..m + 1 + r];
      }
    } else {
      assert MatchLength(w, s, m, strend) == 0;
    }
  }

  /** The two facts MatchLength promises determine it. */
  lemma {:induction false} MatchLengthUnique(w: seq<bv8>, s: nat, m: nat, strend: nat, r: nat)
    requires s <= strend <= |w| && m + (strend - s) <= |w| && s + r <= strend
    requires w[s..s + r] == w[m..m + r]
    requires s + r < strend ==> w[s + r] != w[m + r]
    ensures MatchLength(w, s, m, strend) == r
    decreases strend - s
  {
    if r == 0 {
    } else {
      assert w[s] == w[s..s + r][0] == w[m..m + r][0] == w[m];
      assert w[s + 1..s + 1 + (r - 1)] == w[s..s + r][1..];
      assert w[m + 1..m + 1 + (r - 1)] == w[m..m + r][1..];
      MatchLengthUnique(w, s + 1, m + 1, strend, r - 1);
    }
  }

  /** The common prefix is at least k long exactly when the first k bytes
      agree. */
  lemma MatchLengthAtLeast(w: seq<bv8>, s: nat, m: nat, strend: nat, k: nat)
    requires s <= strend <= |w| && m + (strend - s) <= |w| && s + k <= strend
    ensures MatchLength(w, s, m, strend) >= k <==> w[s..s + k] == w[m..m + k]
  {
    MatchLengthSpec(w, s, m, strend);
    var r := MatchLength(w, s, m, strend);
    if r >= k {
      var a, b, a', b' := w[s..s + k], w[m..m + k], w[s..s + r], w[m..m + r];
      forall i | 0 <= i < k
        ensures a[i] == b[i]
      {
        assert a[i] == a'[i] && b[i] == b'[i];
      }
    } else {
      // the first difference, at r, lies inside the k bytes
      assert w[s..s + k][r] == w[s + r] != w[m + r] == w[m..m + k][r];
    }
  }

  /** A common prefix of length r = MatchLength(...) and every shorter
      prefix of it are equal byte strings. */
  lemma CommonPrefix(w: seq<bv8>, s: nat, m: nat, strend: nat, r: nat, k: nat)
    requires s <= strend <= |w| && m + (strend - s) <= |w|
    requires r == MatchLength(w, s, m, strend) && k <= r
    ensures w[s..s + r] == w[m..m + r]
    ensures w[s..s + k] == w[m..m + k]
  {
    MatchLengthSpec(w, s, m, strend);
    MatchLengthAtLeast(w, s, m, strend, k);
  }

  /** UPDATE_SCAN_END: the scan bytes at bestLen - 1 and bestLen. */
  function ScanEnds(w: seq<bv8>, s: nat, bestLen: nat): (bv8, bv8)
    requires 0 < s && s + bestLen < |w|
  {
    (w[s + bestLen - 1], w[s + bestLen])
  }

  /** Why the cached bytes may stand for scan's: a candidate whose common
      prefix with scan is longer than bestLen repeats both of them. */
  lemma ScanEndsMatch(w: seq<bv8>, s: nat, m: nat, bestLen: nat)
    requires m < s && s + MIN_LOOKAHEAD <= |w| && 1 <= bestLen
    requires MatchLength(w, s, m, s + MAX_MATCH) > bestLen
    ensures ScanEnds(w, s, bestLen) == (w[m + bestLen - 1], w[m + bestLen])
  {
    MatchLengthAtLeast(w, s, m, s + MAX_MATCH, bestLen + 1);
    var a, b := w[s..s + bestLen + 1], w[m..m + bestLen + 1];
    assert a[bestLen - 1] == b[bestLen - 1] && a[bestLen] == b[bestLen];
  }

  /** The cheap rejection test of the byte-compare build (the DO_LOOP bodies
      chosen by best_len). The candidate string starts at matchBase + curMatch;
      matchBase2 = matchBase + bestLen (UPDATE_MATCH_BASE2) and scanEnd1,
      scanEnd are the scan bytes at bestLen - 1 and bestLen (UPDATE_SCAN_END).
      The source leaves out one of the first three bytes in the two short
      cases on the ground that the hash guarantees it; here it is compared.
      It passes every candidate that would beat bestLen, and only candidates
      whose first three bytes match. */
  predicate PassesPrefilter(w: seq<bv8>, s: nat, bestLen: nat, matchBase: int, matchBase2: int,
                            curMatch: nat, scanEnd: bv8, scanEnd1: bv8)
    requires 0 <= matchBase + curMatch < s && s + MIN_LOOKAHEAD <= |w| && bestLen <= MAX_MATCH + 1
    requires matchBase2 == matchBase + bestLen
    requires 1 <= bestLen ==> scanEnd1 == w[s + bestLen - 1]
    requires scanEnd == w[s + bestLen]
    ensures PassesPrefilter(w, s, bestLen, matchBase, matchBase2, curMatch, scanEnd, scanEnd1) ==>
      MatchLength(w, s, matchBase + curMatch, s + MAX_MATCH) >= MIN_MATCH
    ensures MatchLength(w, s, matchBase + curMatch, s + MAX_MATCH) > Max(bestLen, MIN_MATCH - 1) ==>
      PassesPrefilter(w, s, bestLen, matchBase, matchBase2, curMatch, scanEnd, scanEnd1)
  {
    var c := matchBase + curMatch;
    var passes :=
      if bestLen >= 4 then
        // compare the 2 last and the 3 first bytes
        w[matchBase2 + curMatch] == scanEnd && w[matchBase2 + curMatch - 1] == scanEnd1 &&
        w[c] == w[s] && w[c + 1] == w[s + 1] && w[c + 2] == w[s + 2]
      else if bestLen == 3 then
        // first, last and one middle byte of four; the other middle byte is compared too
        w[c + 3] == scanEnd && w[c + 2] == scanEnd1 && w[c] == w[s] && w[c + 1] == w[s + 1]
      else
        // two of the three bytes; the third is compared too
        w[c + 1] == w[s + 1] && w[c] == w[s] && w[c + 2] == w[s + 2];
    PrefilterFacts(w, s, c, bestLen, passes);
    passes
  }

  /** What the boundary comparison establishes and why it loses no improvement. */
  lemma PrefilterFacts(w: seq<bv8>, s: nat, c: nat, bestLen: nat, passes: bool)
    requires c < s && s + MIN_LOOKAHEAD <= |w| && bestLen <= MAX_MATCH + 1
    requires passes == (if bestLen >= 3 then
                          w[c + bestLen] == w[s + bestLen] && w[c + bestLen - 1] == w[s + bestLen - 1] &&
                          w[c] == w[s] && w[c + 1] == w[s + 1] && w[c + 2] == w[s + 2]
                        else
                          w[c] == w[s] && w[c + 1] == w[s + 1] && w[c + 2] == w[s + 2])
    ensures passes ==> MatchLength(w, s, c, s + MAX_MATCH) >= MIN_MATCH
    ensures MatchLength(w, s, c, s + MAX_MATCH) > Max(bestLen, MIN_MATCH - 1) ==> passes
  {
    FirstThree(w, s, c);
    MatchLengthAtLeast(w, s, c, s + MAX_MATCH, MIN_MATCH);
    var k := Max(bestLen, MIN_MATCH - 1) + 1;
    if MatchLength(w, s, c, s + MAX_MATCH) >= k {
      MatchLengthAtLeast(w, s, c, s + MAX_MATCH, k);
      RunEnds(w, s, c, k);
    }
  }

  /** Three equal bytes make equal three-byte strings. */
  lemma FirstThree(w: seq<bv8>, s: nat, c: nat)
    requires c < s && s + MIN_MATCH <= |w|
    ensures w[c] == w[s] && w[c + 1] == w[s + 1] && w[c + 2] == w[s + 2] ==>
      w[c..c + MIN_MATCH] == w[s..s + MIN_MATCH]
  {
    assert w[c..c + MIN_MATCH] == [w[c], w[c + 1], w[c + 2]];
    assert w[s..s + MIN_MATCH] == [w[s], w[s + 1], w[s + 2]];
  }

  /** Equal runs of k >= 3 bytes agree in their first three and last two bytes. */
  lemma RunEnds(w: seq<bv8>, s: nat, c: nat, k: nat)
    requires c < s && MIN_MATCH <= k && s + k <= |w|
    requires w[s..s + k] == w[c..c + k]
    ensures w[c] == w[s] && w[c + 1] == w[s + 1] && w[c + 2] == w[s + 2]
    ensures w[c + k - 1] == w[s + k - 1] && w[c + k - 2] == w[s + k - 2]
  {
    var a, b := w[s..s + k], w[c..c + k];
    assert a[0] == w[s] && a[1] == w[s + 1] && a[2] == w[s + 2] && a[k - 1] == w[s + k - 1] && a[k - 2] == w[s + k - 2];
    assert b[0] == w[c] && b[1] == w[c + 1] && b[2] == w[c + 2] && b[k - 1] == w[c + k - 1] && b[k - 2] == w[c + k - 2];
  }

  /** The byte-by-byte extension (match.h:247-263): scan and match start two
      bytes in and are advanced together; `scan < strend` is only tested after
      every eighth comparison, the last test falling on offset MAX_MATCH. The
      first three bytes must already be known equal. */
  method ExtendMatch(w: seq<bv8>, s: nat, m: nat) returns (len: nat)
    requires m < s && s + MIN_LOOKAHEAD <= |w|
    requires w[m..m + MIN_MATCH] == w[s..s + MIN_MATCH]
    ensures MIN_MATCH <= len <= MAX_MATCH
    ensures len == MatchLength(w, s, m, s + MAX_MATCH)
  {
    var k := 2;  // scan == s + k, match == m + k
    while true
      invariant 2 <= k < MAX_MATCH
      invariant w[s..s + k + 1] == w[m..m + k + 1]
      decreases MAX_MATCH - k
    {
      k := k + 1;
      if w[s + k] != w[m + k] {
        MatchLengthUnique(w, s, m, s + MAX_MATCH, k);
        break;
      }
      assert w[s..s + k + 1] == w[s..s + k] + [w[s + k]];
      assert w[m..m + k + 1] == w[m..m + k] + [w[m + k]];
      if (k - 2) % 8 == 0 && s + k >= s + MAX_MATCH {
        assert w[s..s + k] == w[s..s + k + 1][..k];
        assert w[m..m + k] == w[m..m + k + 1][..k];
        MatchLengthUnique(w, s, m, s + MAX_MATCH, k);
        break;
      }
    }
    // len = MAX_MATCH - (strend - scan)
    len := k;
  }

  /** One candidate of the chain walk (match.h:208-263): the boundary
      comparison, then the extension when it passes. A candidate failing the
      comparison cannot beat the best length (PassesPrefilter's promise). */
  method MeasureCandidate(w: seq<bv8>, s: nat, bestLen: nat, matchBase: int, matchBase2: int,
                          curMatch: nat, scanEnd: bv8, scanEnd1: bv8)
    returns (passes: bool, len: nat)
    requires 0 <= matchBase + curMatch < s && s + MIN_LOOKAHEAD <= |w| && bestLen <= MAX_MATCH + 1
    requires matchBase2 == matchBase + bestLen
    requires 1 <= bestLen ==> scanEnd1 == w[s + bestLen - 1]
    requires scanEnd == w[s + bestLen]
    ensures passes == PassesPrefilter(w, s, bestLen, matchBase, matchBase2, curMatch, scanEnd, scanEnd1)
    ensures passes ==> MIN_MATCH <= len <= MAX_MATCH
    ensures passes ==> len == MatchLength(w, s, matchBase + curMatch, s + MAX_MATCH)
  {
    passes := PassesPrefilter(w, s, bestLen, matchBase, matchBase2, curMatch, scanEnd, scanEnd1);
    len := 0;
    if passes {
      len := ExtendMatch(w, s, matchBase + curMatch);
    }
  }

  /** UPDATE_HASH: `h = ((h << hash_shift) ^ c) & hash_mask`. The shift and
      exclusive-or are the host's mixing step, given as mix; the mask keeps
      the result within the hashMask + 1 buckets of head[] (a power of two, so
      masking is taking the remainder). */
  function UpdateHash(mix: (nat, bv8) -> nat, hashMask: nat, h: nat, c: bv8): (r: nat)
    ensures r <= hashMask
  {
    mix(h, c) % (hashMask + 1)
  }

  /** The rolling hash after UPDATE_HASH has taken in scan[1..i], starting
      from 0. */
  function HashThrough(w: seq<bv8>, s: nat, i: nat, mix: (nat, bv8) -> nat, hashMask: nat): (h: nat)
    requires s + i < |w|
    ensures h <= hashMask
  {
    if i == 0 then 0 else UpdateHash(mix, hashMask, HashThrough(w, s, i - 1, mix, hashMask), w[s + i])
  }

  /** head[hash] for the rolling hash after scan[1..i] (for zlib's
      UPDATE_HASH, the hash of the three bytes at scan + i - 2): the newest
      position on the chain of that hash. */
  function RootAt(w: seq<bv8>, s: nat, i: nat, head: seq<nat>, mix: (nat, bv8) -> nat, hashMask: nat): nat
    requires s + i < |w| && |head| == hashMask + 1
  {
    head[HashThrough(w, s, i, mix, hashMask)]
  }

  /** The choice re-rooting makes: cm is the smallest of curMatch and the
      chain heads RootAt(i), i = 3 .. bestLen, that are not newer than
      curMatch; offset = i - 2 for the deepest i attaining it, or 0 when every
      head is newer than curMatch. */
  predicate RootChoice(w: seq<bv8>, s: nat, bestLen: nat, curMatch: nat, head: seq<nat>,
                       mix: (nat, bv8) -> nat, hashMask: nat, cm: nat, offset: nat)
    requires s + MIN_LOOKAHEAD <= |w| && bestLen <= MAX_MATCH && |head| == hashMask + 1
  {
    && cm <= curMatch
    && (forall i :: MIN_MATCH <= i <= bestLen ==> cm <= RootAt(w, s, i, head, mix, hashMask))
    && (offset == 0 ==>
          cm == curMatch && forall i :: MIN_MATCH <= i <= bestLen ==> curMatch < RootAt(w, s, i, head, mix, hashMask))
    && (offset != 0 ==>
          && MIN_MATCH <= offset + 2 <= bestLen
          && RootAt(w, s, offset + 2, head, mix, hashMask) == cm
          && forall i :: offset + 2 < i <= bestLen ==> cm < RootAt(w, s, i, head, mix, hashMask))
  }

  /** Re-rooting (match.h:109-123): for i = 3 .. bestLen look up the chain
      head of the string at scan + i - 2 and keep the farthest-back one that is
      not newer than the current candidate, preferring the deepest i on ties.
      The search then follows that chain with offset = i - 2. */
  method ReRoot(w: seq<bv8>, s: nat, bestLen: nat, curMatch: nat, head: seq<nat>,
                mix: (nat, bv8) -> nat, hashMask: nat)
    returns (cm: nat, offset: nat)
    requires s + MIN_LOOKAHEAD <= |w| && bestLen <= MAX_MATCH
    requires |head| == hashMask + 1
    ensures RootChoice(w, s, bestLen, curMatch, head, mix, hashMask, cm, offset)
  {
    var hash: nat := 0;
    hash := UpdateHash(mix, hashMask, hash, w[s + 1]);
    hash := UpdateHash(mix, hashMask, hash, w[s + 2]);
    assert hash == HashThrough(w, s, 2, mix, hashMask) by {
      assert HashThrough(w, s, 1, mix, hashMask) == UpdateHash(mix, hashMask, 0, w[s + 1]);
    }
    cm, offset := curMatch, 0;
    var i := 3;
    while i <= bestLen
      invariant 3 <= i <= Max(bestLen + 1, 3)
      invariant hash == HashThrough(w, s, i - 1, mix, hashMask)
      invariant cm <= curMatch
      invariant forall j :: MIN_MATCH <= j < i ==> cm <= RootAt(w, s, j, head, mix, hashMask)
      invariant offset == 0 ==>
        cm == curMatch && forall j :: MIN_MATCH <= j < i ==> curMatch < RootAt(w, s, j, head, mix, hashMask)
      invariant offset != 0 ==>
        && MIN_MATCH <= offset + 2 < i
        && RootAt(w, s, offset + 2, head, mix, hashMask) == cm
        && forall j :: offset + 2 < j < i ==> cm < RootAt(w, s, j, head, mix, hashMask)
    {
      hash := UpdateHash(mix, hashMask, hash, w[s + i]);
      assert hash == HashThrough(w, s, i, mix, hashMask);
      var pos := head[hash];
      assert pos == RootAt(w, s, i, head, mix, hashMask);
      if pos <= cm {
        offset := i - 2;
        cm := pos;
      }
      i := i + 1;
    }
  }

  /** Re-anchoring gives up when the link of some sub-position anchor + i,
      0 <= i <= len - MIN_MATCH, is at or below limitBase. */
  predicate Aborts(prev: seq<nat>, wMask: nat, anchor: nat, len: nat, limitBase: nat)
    requires |prev| == wMask + 1
  {
    exists p :: anchor <= p && p + MIN_MATCH <= anchor + len && Link(prev, wMask, p) <= limitBase
  }

  /** The choice re-anchoring makes: nextPos is the smallest of anchor and
      the links of the sub-positions anchor + i, 0 <= i <= len - MIN_MATCH,
      and offset is the first i whose link attains it (0 if none is below
      anchor). */
  predicate AnchorChoice(prev: seq<nat>, wMask: nat, anchor: nat, len: nat, limitBase: nat,
                         nextPos: nat, offset: nat)
    requires |prev| == wMask + 1
  {
    && offset + MIN_MATCH <= len
    && limitBase < nextPos <= anchor
    && (forall p :: anchor <= p && p + MIN_MATCH <= anchor + len ==> nextPos <= Link(prev, wMask, p))
    && (nextPos < anchor ==> nextPos == Link(prev, wMask, anchor + offset))
    && (nextPos == anchor ==> offset == 0)
    && (forall p :: anchor <= p < anchor + offset ==> nextPos < Link(prev, wMask, p))
  }

  /** Re-anchoring (match.h:299-310): after a new best match of length len at
      anchor, look at the chain link of every sub-position anchor + i,
      0 <= i <= len - MIN_MATCH, and pick the smallest link (the first one on
      ties) with offset i. A link at or below limitBase aborts the search. */
  method ReAnchor(prev: seq<nat>, wMask: nat, anchor: nat, len: nat, limitBase: nat)
    returns (abort: bool, nextPos: nat, offset: nat)
    requires |prev| == wMask + 1
    requires MIN_MATCH < len && limitBase < anchor
    ensures abort <==> Aborts(prev, wMask, anchor, len, limitBase)
    ensures !abort ==> AnchorChoice(prev, wMask, anchor, len, limitBase, nextPos, offset)
  {
    nextPos, offset := anchor, 0;
    var i := 0;
    while i <= len - MIN_MATCH
      invariant 0 <= i <= len - MIN_MATCH + 1
      invariant offset <= i && offset <= len - MIN_MATCH
      invariant limitBase < nextPos <= anchor
      invariant forall p :: anchor <= p < anchor + i ==> nextPos <= Link(prev, wMask, p)
      invariant nextPos < anchor ==> nextPos == Link(prev, wMask, anchor + offset)
      invariant nextPos == anchor ==> offset == 0
      invariant forall p :: anchor <= p < anchor + offset ==> nextPos < Link(prev, wMask, p)
    {
      var pos := Link(prev, wMask, anchor + i);
      if pos < nextPos {
        if pos <= limitBase {
          abort := true;
          return;
        }
        nextPos := pos;
        offset := i;
      }
      i := i + 1;
    }
    abort := false;
  }
}
