/** The fast longest_match() of deflate (Sources/match.h), byte-compare build.
    The search reads a handful of deflate_state fields and writes only
    match_start: Search runs on a snapshot of those fields (a Host value),
    and DeflateState.LongestMatch is the entry point that takes the snapshot
    and stores match_start back. */
module LongestMatch {
  import opened MatchSteps

  /** The deflate_state fields longest_match reads, as they stand during one
      search (the search changes none of them). */
  datatype Host = Host(
    window: seq<bv8>,     // sliding window
    strstart: nat,        // start of the string to be matched
    lookahead: nat,       // number of valid bytes ahead of strstart
    prevLength: nat,      // length of the best match at the previous position
    prevMatch: nat,       // start of that match
    maxChainLength: nat,  // max_chain_length
    goodMatch: nat,       // good_match: cut the chain budget at this length
    niceMatch: nat,       // nice_match: stop searching at this length
    wMask: nat,           // w_mask = w_size - 1
    prev: seq<nat>,       // prev[p & w_mask]: older position on p's hash chain
    hashMask: nat,        // hash_mask = hash_size - 1
    head: seq<nat>)       // head[h]: newest position whose hash is h
  {
    /** The host's layout: w_size is a power of two larger than
        MIN_LOOKAHEAD, prev has w_size slots, head has hash_size slots (a
        power of two), strstart leaves MIN_LOOKAHEAD bytes of window
        (match.h:99), a carried length is a match length, and the unsigned
        counters fit in 32 bits. */
    predicate Valid()
    {
      && PowerOfTwo(wMask + 1) && MIN_LOOKAHEAD < wMask + 1
      && |prev| == wMask + 1
      && PowerOfTwo(hashMask + 1) && |head| == hashMask + 1
      && strstart + MIN_LOOKAHEAD <= |window|
      && prevLength <= MAX_MATCH
      && maxChainLength < U32_LIMIT
    }

    /** MAX_DIST(s): the largest distance a match may have. */
    function MaxDist(): (r: nat)
      requires Valid()
      ensures 0 < r < wMask + 1
    {
      wMask + 1 - MIN_LOOKAHEAD
    }

    /** limit_base: candidates at or below it are too far back. */
    function Limit(): (r: nat)
      requires Valid()
      ensures r <= strstart
      // limit_base is MAX_DIST + 1 behind strstart, or NIL near the start of the window
      ensures strstart > MaxDist() ==> r == strstart - MaxDist() - 1
      ensures strstart <= MaxDist() ==> r == NIL
    {
      LimitBase(strstart, MaxDist())
    }

    /** The host invariant on the chains: within the allowed distance every
        link points strictly backwards. */
    ghost predicate ChainsDecrease()
      requires Valid()
    {
      forall p :: Limit() < p < strstart ==> Link(prev, wMask, p) < p
    }

    /** The largest number of candidates one search may examine. */
    function HopBudget(): nat
    {
      HopsAllowed(ChainBudget(maxChainLength, prevLength, goodMatch))
    }
  }

  /** The local state of the chain walk (the do-while loop of match.h:206-327):
      the candidate cur_match seen with offset, limit = limit_base + offset,
      match_base and match_base2 as offsets into the window, best_len and
      real_len, the cached scan bytes, threshold_pos, chain_length, whether
      match_start has been set and to what, and whether the walk goes on. */
  datatype Walk = Walk(
    curMatch: nat, offset: nat, limit: nat, matchBase: int, matchBase2: int,
    bestLen: nat, realLength: nat, scanEnd: bv8, scanEnd1: bv8,
    thresholdPos: nat, chainLength: nat, found: bool, start: nat, searching: bool)

  /** What holds of the walk state between candidates. */
  predicate WalkOk(h: Host, st: Walk)
    requires h.Valid()
  {
    && st.limit == h.Limit() + st.offset && st.matchBase + st.offset == 0
    && st.matchBase2 == st.matchBase + st.bestLen
    && (st.searching ==> st.limit < st.curMatch < h.strstart)
    && h.prevLength <= st.realLength <= st.bestLen <= MAX_MATCH + 1
    && 0 < h.strstart && (st.scanEnd1, st.scanEnd) == ScanEnds(h.window, h.strstart, st.bestLen)
    && st.chainLength < U32_LIMIT
    && (st.thresholdPos == 0 || (st.thresholdPos == h.prevMatch && h.prevLength > MIN_MATCH))
    && (!st.found ==> st.realLength == h.prevLength)
    && (st.found ==>
          && h.Limit() < st.start < h.strstart
          && h.prevLength < st.realLength && MIN_MATCH <= st.realLength <= MAX_MATCH
          && st.realLength == MatchLength(h.window, h.strstart, st.start, h.strstart + MAX_MATCH))
  }

  /** The boundary-byte comparison of the byte-compare build, applied to the
      walk's current candidate. */
  predicate Passes(h: Host, st: Walk)
    requires h.Valid() && WalkOk(h, st) && st.searching
  {
    PassesPrefilter(h.window, h.strstart, st.bestLen, st.matchBase, st.matchBase2, st.curMatch,
                    st.scanEnd, st.scanEnd1)
  }

  /** best_len once the distance penalty has been applied, if it fired. */
  function Penalized(h: Host, st: Walk, fired: bool): nat
  {
    if fired then Max(st.bestLen, h.prevLength + 1) else st.bestLen
  }

  /** The distance penalty (match.h:265-278): a candidate at or below
      threshold_pos (older than prev_match) disarms the penalty and must then
      beat prev_length + 1, so best_len is raised to it if below. */
  method Penalize(h: Host, st: Walk) returns (pen: Walk, fired: bool)
    requires h.Valid() && WalkOk(h, st) && st.searching
    ensures WalkOk(h, pen)
    ensures fired <==> st.curMatch <= st.thresholdPos
    ensures fired ==> st.thresholdPos != 0 && pen.thresholdPos == 0 && pen.bestLen == Max(st.bestLen, h.prevLength + 1)
    ensures !fired ==> pen == st
    // only the penalty's own variables change
    ensures pen == st.(thresholdPos := pen.thresholdPos, bestLen := pen.bestLen, matchBase2 := pen.matchBase2,
                       scanEnd := pen.scanEnd, scanEnd1 := pen.scanEnd1)
  {
    pen, fired := st, false;
    if st.curMatch <= st.thresholdPos {
      fired := true;
      pen := pen.(thresholdPos := 0);
      if st.bestLen < h.prevLength + 1 {
        var bestLen := h.prevLength + 1;
        var ends := ScanEnds(h.window, h.strstart, bestLen);                       // UPDATE_SCAN_END
        pen := pen.(bestLen := bestLen, matchBase2 := st.matchBase + bestLen,      // UPDATE_MATCH_BASE2
                    scanEnd1 := ends.0, scanEnd := ends.1);
      }
    }
  }

  /** Recording a candidate of length l (match.h:280-317): a candidate longer
      than best_len becomes the match; reaching nice_match ends the walk;
      otherwise, when the match is longer than MIN_MATCH, ends before
      strstart and offs0_mode is off, the walk re-anchors on the
      sub-position whose chain reaches farthest back (or ends when one of
      them leaves the window). follow tells that the walk goes on along the
      current chain. */
  method Record(h: Host, st: Walk, l: nat, nice: nat, offs0Mode: bool)
    returns (mid: Walk, follow: bool, recorded: bool)
    requires h.Valid() && h.ChainsDecrease() && WalkOk(h, st) && st.searching
    requires MIN_MATCH <= l <= MAX_MATCH
    requires l == MatchLength(h.window, h.strstart, st.curMatch - st.offset, h.strstart + MAX_MATCH)
    requires st.found ==> st.realLength < nice
    ensures recorded <==> l > st.bestLen
    ensures !recorded ==> mid == st && follow
    ensures recorded ==>
      && mid.found && mid.start == st.curMatch - st.offset && mid.realLength == l == mid.bestLen
      && mid.thresholdPos == st.thresholdPos && mid.chainLength == st.chainLength
      && mid.limit == h.Limit() + mid.offset && mid.matchBase + mid.offset == 0
      && mid.matchBase2 == mid.matchBase + mid.bestLen
      && (mid.searching ==> (mid.scanEnd1, mid.scanEnd) == ScanEnds(h.window, h.strstart, mid.bestLen))
    // the walk goes on from the same candidate, or from one strictly older, or it ends
    ensures follow ==> mid.searching && mid.curMatch == st.curMatch && mid.offset == st.offset
    ensures !follow && mid.searching ==>
      mid.curMatch < h.strstart && mid.curMatch - mid.offset < st.curMatch - st.offset
    ensures recorded && l >= nice ==> !mid.searching
    // re-anchoring is tried only for a match longer than MIN_MATCH that ends before strstart,
    // outside offs0_mode, and it ends the search when a sub-position's link leaves the window
    ensures !follow <==> recorded && (l >= nice || (MIN_MATCH < l && st.curMatch + l < h.strstart && !offs0Mode))
    ensures !follow && l < nice ==> (mid.searching <==> !Aborts(h.prev, h.wMask, st.curMatch - st.offset, l, h.Limit()))
    // a successful re-anchoring moves to the smallest sub-position link, with its offset
    ensures !follow && mid.searching ==>
      AnchorChoice(h.prev, h.wMask, st.curMatch - st.offset, l, h.Limit(), mid.curMatch, mid.offset)
  {
    mid, follow, recorded := st, true, false;
    if l > st.bestLen {
      var candidate := st.curMatch - st.offset;
      recorded := true;
      mid := mid.(found := true, start := candidate, realLength := l, bestLen := l);
      if l >= nice {
        mid, follow := mid.(searching := false), false;
      } else {
        var ends := ScanEnds(h.window, h.strstart, l);                            // UPDATE_SCAN_END
        mid := mid.(scanEnd1 := ends.0, scanEnd := ends.1);
        if l > MIN_MATCH && st.curMatch + l < h.strstart && !offs0Mode {
          // re-anchor on the sub-position whose chain reaches farthest back
          var abort, nextPos, nextOffset := ReAnchor(h.prev, h.wMask, candidate, l, h.Limit());
          follow := false;
          if abort {
            mid := mid.(searching := false);
          } else {
            Reanchored(h, candidate, l, nextPos, nextOffset);
            mid := mid.(curMatch := nextPos, offset := nextOffset, limit := h.Limit() + nextOffset,
                        matchBase := -(nextOffset as int));
          }
        }
      }
      mid := mid.(matchBase2 := mid.matchBase + l);                                // UPDATE_MATCH_BASE2
    }
  }

  /** A candidate that passed the boundary comparison, measured at its
      common-prefix length l (match.h:265-317): apply the distance penalty,
      then record it if it is longer. */
  method JudgePassing(h: Host, st: Walk, l: nat, nice: nat, offs0Mode: bool)
    returns (mid: Walk, follow: bool, fired: bool, recorded: bool)
    requires h.Valid() && h.ChainsDecrease() && WalkOk(h, st) && st.searching
    requires st.found ==> st.realLength < nice
    requires MIN_MATCH <= l <= MAX_MATCH
    requires l == MatchLength(h.window, h.strstart, st.curMatch - st.offset, h.strstart + MAX_MATCH)
    ensures mid.limit == h.Limit() + mid.offset && mid.matchBase + mid.offset == 0
    ensures mid.matchBase2 == mid.matchBase + mid.bestLen
    ensures h.prevLength <= mid.realLength <= mid.bestLen <= MAX_MATCH + 1
    ensures mid.searching ==> (mid.scanEnd1, mid.scanEnd) == ScanEnds(h.window, h.strstart, mid.bestLen)
    ensures mid.chainLength == st.chainLength
    ensures mid.thresholdPos == 0 || mid.thresholdPos == st.thresholdPos
    ensures !mid.found ==> mid.realLength == h.prevLength
    ensures mid.found ==>
      && h.Limit() < mid.start < h.strstart
      && h.prevLength < mid.realLength <= MAX_MATCH
      && mid.realLength == MatchLength(h.window, h.strstart, mid.start, h.strstart + MAX_MATCH)
    ensures follow ==> mid.searching && mid.curMatch == st.curMatch && mid.offset == st.offset
    ensures !follow && mid.searching ==>
      mid.curMatch < h.strstart && mid.curMatch - mid.offset < st.curMatch - st.offset
    ensures recorded ==>
      && mid.found && mid.start == st.curMatch - st.offset && mid.realLength > st.bestLen
    ensures !recorded ==> mid.found == st.found && mid.start == st.start && mid.realLength == st.realLength
    ensures mid.found && mid.realLength >= nice ==> recorded && !mid.searching
    ensures fired ==> st.thresholdPos != 0 && mid.thresholdPos == 0 && mid.bestLen > h.prevLength
    ensures !fired ==> mid.thresholdPos == st.thresholdPos
    ensures mid.bestLen >= st.bestLen
    ensures recorded && (fired || st.bestLen > h.prevLength) ==> mid.realLength >= h.prevLength + 2
    // the penalty fires for a candidate passing the comparison at or below threshold_pos, and
    // the candidate is recorded exactly when it passes and its common prefix beats best_len
    ensures fired <==> st.curMatch <= st.thresholdPos
    ensures recorded <==> l > Penalized(h, st, fired)
    ensures !recorded ==> mid.bestLen == Penalized(h, st, fired)
    ensures recorded ==> mid.bestLen == mid.realLength
    // so no examined candidate is longer than the best length afterwards
    ensures l <= Max(mid.bestLen, MIN_MATCH - 1)
    // re-anchoring: when it is tried, when it ends the walk, and where it moves the walk
    ensures !follow <==>
      recorded && (mid.realLength >= nice || (MIN_MATCH < mid.realLength && st.curMatch + mid.realLength < h.strstart && !offs0Mode))
    ensures !follow && mid.realLength < nice ==>
      (mid.searching <==> !Aborts(h.prev, h.wMask, st.curMatch - st.offset, mid.realLength, h.Limit()))
    ensures !follow && mid.searching ==>
      AnchorChoice(h.prev, h.wMask, st.curMatch - st.offset, mid.realLength, h.Limit(), mid.curMatch, mid.offset)
  {
    var pen;
    pen, fired := Penalize(h, st);
    mid, follow, recorded := Record(h, pen, l, nice, offs0Mode);
  }

  /** The part of one candidate's visit that judges it (match.h:208-317):
      measure the candidate at curMatch - offset, apply the distance penalty
      and record a longer match. */
  method Judge(h: Host, st: Walk, nice: nat, offs0Mode: bool)
    returns (mid: Walk, follow: bool, fired: bool, recorded: bool, passes: bool, ghost cl: nat)
    requires h.Valid() && h.ChainsDecrease() && WalkOk(h, st) && st.searching
    requires st.found ==> st.realLength < nice
    ensures mid.limit == h.Limit() + mid.offset && mid.matchBase + mid.offset == 0
    ensures mid.matchBase2 == mid.matchBase + mid.bestLen
    ensures h.prevLength <= mid.realLength <= mid.bestLen <= MAX_MATCH + 1
    ensures mid.searching ==> (mid.scanEnd1, mid.scanEnd) == ScanEnds(h.window, h.strstart, mid.bestLen)
    ensures mid.chainLength == st.chainLength
    ensures mid.thresholdPos == 0 || mid.thresholdPos == st.thresholdPos
    ensures !mid.found ==> mid.realLength == h.prevLength
    ensures mid.found ==>
      && h.Limit() < mid.start < h.strstart
      && h.prevLength < mid.realLength <= MAX_MATCH
      && mid.realLength == MatchLength(h.window, h.strstart, mid.start, h.strstart + MAX_MATCH)
    ensures follow ==> mid.searching && mid.curMatch == st.curMatch && mid.offset == st.offset
    ensures !follow && mid.searching ==>
      mid.curMatch < h.strstart && mid.curMatch - mid.offset < st.curMatch - st.offset
    ensures recorded ==>
      && mid.found && mid.start == st.curMatch - st.offset && mid.realLength > st.bestLen
    ensures !recorded ==> mid.found == st.found && mid.start == st.start && mid.realLength == st.realLength
    ensures mid.found && mid.realLength >= nice ==> recorded && !mid.searching
    ensures fired ==> st.thresholdPos != 0 && mid.thresholdPos == 0 && mid.bestLen > h.prevLength
    ensures !fired ==> mid.thresholdPos == st.thresholdPos
    ensures mid.bestLen >= st.bestLen
    ensures recorded && (fired || st.bestLen > h.prevLength) ==> mid.realLength >= h.prevLength + 2
    // passes is the boundary comparison and cl the candidate's common-prefix length
    ensures passes == Passes(h, st)
    ensures cl == MatchLength(h.window, h.strstart, st.curMatch - st.offset, h.strstart + MAX_MATCH)
    // the penalty fires for a candidate passing the comparison at or below threshold_pos, and
    // the candidate is recorded exactly when it passes and its common prefix beats best_len
    ensures fired <==> passes && st.curMatch <= st.thresholdPos
    ensures recorded <==> passes && cl > Penalized(h, st, fired)
    ensures !recorded ==> mid.bestLen == Penalized(h, st, fired)
    ensures recorded ==> mid.bestLen == mid.realLength
    // so no examined candidate is longer than the best length afterwards
    ensures cl <= Max(mid.bestLen, MIN_MATCH - 1)
    // re-anchoring: when it is tried, when it ends the walk, and where it moves the walk
    ensures !follow <==>
      recorded && (mid.realLength >= nice || (MIN_MATCH < mid.realLength && st.curMatch + mid.realLength < h.strstart && !offs0Mode))
    ensures !follow && mid.realLength < nice ==>
      (mid.searching <==> !Aborts(h.prev, h.wMask, st.curMatch - st.offset, mid.realLength, h.Limit()))
    ensures !follow && mid.searching ==>
      AnchorChoice(h.prev, h.wMask, st.curMatch - st.offset, mid.realLength, h.Limit(), mid.curMatch, mid.offset)
  {
    var l;
    passes, l := MeasureCandidate(h.window, h.strstart, st.bestLen, st.matchBase, st.matchBase2,
                                  st.curMatch, st.scanEnd, st.scanEnd1);
    cl := MatchLength(h.window, h.strstart, st.curMatch - st.offset, h.strstart + MAX_MATCH);
    if passes {
      mid, follow, fired, recorded := JudgePassing(h, st, l, nice, offs0Mode);
    } else {
      mid, follow, fired, recorded := st, true, false, false;
    }
  }

  /** One candidate of the walk (match.h:208-327): judge it, then follow the
      chain unless the walk ended or was re-anchored, and go on while the
      candidate lies above limit and chain_length, decremented, is not 0.
      passes tells that the candidate passed the boundary comparison, fired
      that the distance penalty was applied here, recorded that the candidate
      became the match; cl is its common-prefix length and follow tells that
      the walk moved along the chain rather than being ended or re-anchored. */
  method Visit(h: Host, st: Walk, nice: nat, offs0Mode: bool)
    returns (next: Walk, passes: bool, fired: bool, recorded: bool, follow: bool, ghost cl: nat)
    requires h.Valid() && h.ChainsDecrease() && WalkOk(h, st) && st.searching
    requires st.found ==> st.realLength < nice
    ensures WalkOk(h, next)
    // the walk moves strictly backwards and stays above the limit
    ensures next.searching ==> h.Limit() < next.curMatch - next.offset < st.curMatch - st.offset
    // one step of the chain budget is spent, the counter wrapping as an unsigned
    ensures next.searching ==> next.chainLength == DecU32(st.chainLength)
    ensures next.searching ==> HopsAllowed(next.chainLength) + 1 == HopsAllowed(st.chainLength)
    ensures recorded ==>
      && next.found && next.start == st.curMatch - st.offset && next.realLength > st.bestLen
    ensures !recorded ==> next.found == st.found && next.start == st.start && next.realLength == st.realLength
    // a match of nice bytes ends the walk
    ensures next.found && next.realLength >= nice ==> recorded && !next.searching
    // the penalty fires at most once, and once it has, a new match beats prev_length by two
    ensures fired ==> st.thresholdPos != 0 && next.thresholdPos == 0 && next.bestLen > h.prevLength
    ensures !fired ==> next.thresholdPos == st.thresholdPos
    ensures next.bestLen >= st.bestLen
    ensures recorded && (fired || st.bestLen > h.prevLength) ==> next.realLength >= h.prevLength + 2
    // the judgement: the boundary comparison, the penalty, and a longer common prefix
    ensures passes == Passes(h, st)
    ensures cl == MatchLength(h.window, h.strstart, st.curMatch - st.offset, h.strstart + MAX_MATCH)
    ensures fired <==> passes && st.curMatch <= st.thresholdPos
    ensures recorded <==> passes && cl > Penalized(h, st, fired)
    ensures !recorded ==> next.bestLen == Penalized(h, st, fired)
    ensures recorded ==> next.bestLen == next.realLength
    ensures cl <= Max(next.bestLen, MIN_MATCH - 1)
    // where the walk goes: along the chain, or re-anchored
    ensures follow ==> next.curMatch == Link(h.prev, h.wMask, st.curMatch) && next.offset == st.offset
    ensures !follow <==>
      recorded && (next.realLength >= nice || (MIN_MATCH < next.realLength && st.curMatch + next.realLength < h.strstart && !offs0Mode))
    ensures !follow && next.realLength < nice && !Aborts(h.prev, h.wMask, st.curMatch - st.offset, next.realLength, h.Limit()) ==>
      AnchorChoice(h.prev, h.wMask, st.curMatch - st.offset, next.realLength, h.Limit(), next.curMatch, next.offset)
    // and when it stops: nice_match reached, a re-anchoring leaving the window, the next
    // candidate at or below limit, or the budget spent
    ensures next.searching <==>
      && (follow || (next.realLength < nice && !Aborts(h.prev, h.wMask, st.curMatch - st.offset, next.realLength, h.Limit())))
      && next.curMatch > next.limit && DecU32(st.chainLength) != 0
  {
    var mid;
    mid, follow, fired, recorded, passes, cl := Judge(h, st, nice, offs0Mode);
    var curMatch, chainLength, searching := mid.curMatch, mid.chainLength, mid.searching;
    if follow {
      // follow hash chain: cur_match = prev[cur_match & wmask]
      curMatch := Link(h.prev, h.wMask, curMatch);
    }
    if searching {
      if curMatch <= mid.limit {
        searching := false;
      } else {
        chainLength := DecU32(chainLength);
        searching := chainLength != 0;
        if searching {
          BudgetStep(mid.chainLength);
        }
      }
    }
    var scanEnd1, scanEnd := mid.scanEnd1, mid.scanEnd;
    if !searching {
      // the cached scan bytes are dead once the walk ends; keep them in step with bestLen
      scanEnd1, scanEnd := ScanEnds(h.window, h.strstart, mid.bestLen).0, ScanEnds(h.window, h.strstart, mid.bestLen).1;
    }
    next := mid.(curMatch := curMatch, chainLength := chainLength, searching := searching,
                 scanEnd := scanEnd, scanEnd1 := scanEnd1);
  }

  /** The set-up of longest_match (match.h:24-129): the chain budget (a
      quarter of it once the carried match is good), nice_match clamped to the
      lookahead, limit_base, the distance-penalty threshold, offs0_mode, and
      re-rooting onto the farthest-back chain when a match longer than
      MIN_MATCH is carried. */
  method Begin(h: Host, chainHead: nat, mix: (nat, bv8) -> nat) returns (st: Walk, nice: nat, offs0Mode: bool)
    requires h.Valid()
    requires h.Limit() < chainHead < h.strstart
    ensures WalkOk(h, st)
    ensures !st.found && st.bestLen == h.prevLength
    ensures nice == Min(h.niceMatch, h.lookahead)
    ensures offs0Mode <==> h.maxChainLength < 64
    ensures st.chainLength == ChainBudget(h.maxChainLength, h.prevLength, h.goodMatch)
    ensures st.thresholdPos == (if h.prevLength > MIN_MATCH then h.prevMatch else 0)
    // the walk starts at chainHead itself, or on a chain re-rooted at offset >= 1 no newer than it
    ensures st.searching ==> st.curMatch - st.offset <= chainHead
    ensures h.prevLength <= MIN_MATCH ==> st.searching && st.curMatch == chainHead && st.offset == 0
    ensures st.offset <= Max(h.prevLength, MIN_MATCH) - 2
    // a carried match longer than MIN_MATCH re-roots the walk on the farthest-back chain
    ensures h.prevLength > MIN_MATCH ==>
      RootChoice(h.window, h.strstart, h.prevLength, chainHead, h.head, mix, h.hashMask, st.curMatch, st.offset)
    // and the walk starts only when its first candidate lies above limit
    ensures st.searching <==> st.curMatch > st.limit
  {
    var w, s := h.window, h.strstart;
    var chainLength: nat := h.maxChainLength;
    var bestLen: nat := h.prevLength;
    nice := h.niceMatch;
    var offset: nat := 0;
    var limitBase: nat := h.Limit();
    var limit: nat := limitBase;
    var matchBase: int := 0;  // match_base - window
    var thresholdPos: nat := if bestLen > MIN_MATCH then h.prevMatch else 0;
    offs0Mode := chainLength < 64;
    var matchBase2 := matchBase + bestLen;                                          // UPDATE_MATCH_BASE2
    var scanEnd1, scanEnd := ScanEnds(w, s, bestLen).0, ScanEnds(w, s, bestLen).1;  // UPDATE_SCAN_END

    if h.prevLength >= h.goodMatch {
      chainLength := chainLength / 4;
    }
    if nice > h.lookahead {
      nice := h.lookahead;
    }

    var curMatch: nat := chainHead;
    var searching := true;
    if bestLen > MIN_MATCH {
      curMatch, offset := ReRoot(w, s, bestLen, chainHead, h.head, mix, h.hashMask);
      limit := limitBase + offset;
      matchBase := matchBase - offset;
      matchBase2 := matchBase2 - offset;
      searching := curMatch > limit;
    }
    st := Walk(curMatch, offset, limit, matchBase, matchBase2, bestLen, bestLen, scanEnd, scanEnd1,
               thresholdPos, chainLength, false, 0, searching);
  }

  /** What Search knows between candidates about the walk so far: examined
      lists the candidates in order, foundAt is the index of the recorded
      match and penaltyAt the index where the distance penalty fired (-1 if
      never). The candidates lie within the limit, strictly decrease and
      spend the chain budget one each; none is longer than best_len. */
  ghost predicate SearchOk(h: Host, chainHead: nat, nice: nat, st: Walk,
                           examined: seq<nat>, foundAt: nat, penaltyAt: int)
    requires h.Valid()
  {
    && (st.searching ==> st.curMatch - st.offset <= chainHead)
    && |examined| <= h.HopBudget()
    && (st.searching ==> HopsAllowed(st.chainLength) + |examined| == h.HopBudget())
    && (forall k :: 0 <= k < |examined| ==> h.Limit() < examined[k] <= chainHead < h.strstart)
    && (st.searching ==> forall k :: 0 <= k < |examined| ==> st.curMatch - st.offset < examined[k])
    && (forall j, k :: 0 <= j < k < |examined| ==> examined[k] < examined[j])
    && (st.thresholdPos != 0 ==> penaltyAt == -1)
    && (penaltyAt == -1 || (h.prevLength > MIN_MATCH && 0 <= penaltyAt < |examined| && st.bestLen > h.prevLength))
    && (st.found ==> foundAt < |examined| && examined[foundAt] == st.start)
    && (st.found && st.realLength >= nice ==> !st.searching && foundAt == |examined| - 1)
    && (st.found && 0 <= penaltyAt <= foundAt ==> st.realLength >= h.prevLength + 2)
    && (forall k :: 0 <= k < |examined| ==>
          MatchLength(h.window, h.strstart, examined[k], h.strstart + MAX_MATCH) <= Max(st.bestLen, MIN_MATCH - 1))
    && (st.bestLen == st.realLength || (!st.found && penaltyAt >= 0 && st.bestLen == h.prevLength + 1))
    && (h.prevLength <= MIN_MATCH ==>
          || (|examined| == 0 && st.searching && st.curMatch == chainHead && st.offset == 0)
          || (|examined| > 0 && examined[0] == chainHead))
  }

  /** One turn of Search's loop: visit the current candidate and record it
      as examined (and where it fired the penalty or became the match). */
  method Examine(h: Host, chainHead: nat, nice: nat, offs0Mode: bool, st: Walk,
                 ghost examined: seq<nat>, ghost foundAt: nat, ghost penaltyAt: int)
    returns (next: Walk, ghost examined': seq<nat>, ghost foundAt': nat, ghost penaltyAt': int)
    requires h.Valid() && h.ChainsDecrease() && h.Limit() < chainHead < h.strstart
    requires WalkOk(h, st) && st.searching && SearchOk(h, chainHead, nice, st, examined, foundAt, penaltyAt)
    ensures WalkOk(h, next) && SearchOk(h, chainHead, nice, next, examined', foundAt', penaltyAt')
    ensures examined' == examined + [st.curMatch - st.offset]
  {
    var passes, fired, recorded, follow; ghost var cl;
    next, passes, fired, recorded, follow, cl := Visit(h, st, nice, offs0Mode);
    ExamineOne(h, chainHead, examined, st.curMatch - st.offset, cl, st.bestLen, next.bestLen);
    examined', foundAt', penaltyAt' := examined + [st.curMatch - st.offset], foundAt, penaltyAt;
    if fired {
      penaltyAt' := |examined|;
    }
    if recorded {
      foundAt' := |examined|;
    }
  }

  /** The search of longest_match (match.h:3-362) on the snapshot h.
      chainHead is cur_match, the head of the hash chain of the string at
      strstart; the caller has checked that it lies within MAX_DIST and before
      strstart. mix is the shift-and-xor of UPDATE_HASH, before the mask.
      found tells whether match_start is to be set (to start); len is the
      returned length.

      The ghost results describe the search: realLen is the source's
      real_len and bestLen its final best_len, examined the start of every
      candidate examined in order, foundAt the index of the recorded one and
      penaltyAt the index where the distance penalty fired (-1 if never);
      first and firstOffset are where the walk starts, after re-rooting. */
  method Search(h: Host, chainHead: nat, mix: (nat, bv8) -> nat)
    returns (len: nat, found: bool, start: nat, ghost realLen: nat, ghost bestLen: nat,
             ghost examined: seq<nat>, ghost foundAt: nat, ghost penaltyAt: int,
             ghost first: nat, ghost firstOffset: nat)
    requires h.Valid() && h.ChainsDecrease()
    requires h.Limit() < chainHead < h.strstart
    // the result never exceeds the lookahead
    ensures len == Min(realLen, h.lookahead) && len <= h.lookahead
    // with no longer match, the carried length comes back
    ensures !found ==> realLen == h.prevLength
    // a recorded match: within MAX_DIST, before strstart, longer than the carried one,
    // at most MAX_MATCH, and as long as the common prefix of the strings at strstart and
    // start (RecordedMatch draws the PARANOID_CHECK checks from this)
    ensures found ==>
      && h.Limit() < start < h.strstart
      && h.prevLength < realLen && MIN_MATCH <= realLen <= MAX_MATCH
      && realLen == MatchLength(h.window, h.strstart, start, h.strstart + MAX_MATCH)
    // the walk: bounded by the chain budget, strictly backwards, within the limit
    ensures |examined| <= h.HopBudget()
    ensures h.prevLength < h.goodMatch && h.maxChainLength != 0 ==> |examined| <= h.maxChainLength
    ensures h.prevLength >= h.goodMatch && h.maxChainLength >= 4 ==> 4 * |examined| <= h.maxChainLength
    ensures forall k :: 0 <= k < |examined| ==> h.Limit() < examined[k] <= chainHead
    ensures forall j, k :: 0 <= j < k < |examined| ==> examined[k] < examined[j]
    ensures found ==> foundAt < |examined| && examined[foundAt] == start
    // a match of nice_match bytes (clamped to the lookahead) ends the search at once
    ensures found && realLen >= Min(h.niceMatch, h.lookahead) ==> foundAt == |examined| - 1
    // the distance penalty is armed only by a carried match longer than MIN_MATCH, and a
    // match recorded from then on must beat prev_length by two
    ensures penaltyAt >= 0 ==> h.prevLength > MIN_MATCH && penaltyAt < |examined|
    ensures found && 0 <= penaltyAt <= foundAt ==> realLen >= h.prevLength + 2
    // no examined candidate is longer than the final best_len, which is real_len unless the
    // penalty raised it to prev_length + 1 and nothing beat that
    ensures forall k :: 0 <= k < |examined| ==>
      MatchLength(h.window, h.strstart, examined[k], h.strstart + MAX_MATCH) <= Max(bestLen, MIN_MATCH - 1)
    ensures bestLen == realLen || (!found && penaltyAt >= 0 && bestLen == h.prevLength + 1)
    // without a carried match longer than MIN_MATCH the walk starts at chainHead itself, so a
    // first candidate longer than the carried match is always found
    ensures h.prevLength <= MIN_MATCH ==> |examined| > 0 && examined[0] == chainHead
    ensures h.prevLength <= MIN_MATCH ==>
      MatchLength(h.window, h.strstart, chainHead, h.strstart + MAX_MATCH) > Max(h.prevLength, MIN_MATCH - 1) ==> found
    // with a carried match longer than MIN_MATCH the walk starts where re-rooting put it; it
    // examines at least that candidate unless it is at or below limit
    ensures h.prevLength > MIN_MATCH ==>
      RootChoice(h.window, h.strstart, h.prevLength, chainHead, h.head, mix, h.hashMask, first, firstOffset)
    ensures h.prevLength <= MIN_MATCH ==> first == chainHead && firstOffset == 0
    ensures |examined| > 0 <==> first > h.Limit() + firstOffset
    ensures |examined| > 0 ==> examined[0] + firstOffset == first
  {
    var st, nice, offs0Mode := Begin(h, chainHead, mix);
    examined, foundAt, penaltyAt := [], 0, -1;
    first, firstOffset := st.curMatch, st.offset;
    while st.searching
      invariant WalkOk(h, st)
      invariant SearchOk(h, chainHead, nice, st, examined, foundAt, penaltyAt)
      invariant |examined| == 0 ==>
        st.curMatch == first && st.offset == firstOffset && (st.searching <==> first > h.Limit() + firstOffset)
      invariant |examined| > 0 ==> examined[0] + firstOffset == first
      decreases h.HopBudget() - |examined|
    {
      st, examined, foundAt, penaltyAt := Examine(h, chainHead, nice, offs0Mode, st, examined, foundAt, penaltyAt);
    }
    found, start, realLen, bestLen := st.found, st.start, st.realLength, st.bestLen;
    len := Min(st.realLength, h.lookahead);
  }

  /** The facts Search keeps about the candidates examined so far, extended
      by one more candidate c, older than all of them and no longer than the
      new best length b1 (best_len only grows, from b0 to b1). */
  lemma ExamineOne(h: Host, chainHead: nat, examined: seq<nat>, c: nat, cl: nat, b0: nat, b1: nat)
    requires h.Valid() && h.Limit() < c <= chainHead < h.strstart && b0 <= b1
    requires forall k :: 0 <= k < |examined| ==> h.Limit() < examined[k] <= chainHead
    requires forall k :: 0 <= k < |examined| ==> c < examined[k]
    requires forall j, k :: 0 <= j < k < |examined| ==> examined[k] < examined[j]
    requires forall k :: 0 <= k < |examined| ==>
      MatchLength(h.window, h.strstart, examined[k], h.strstart + MAX_MATCH) <= Max(b0, MIN_MATCH - 1)
    requires cl == MatchLength(h.window, h.strstart, c, h.strstart + MAX_MATCH) && cl <= Max(b1, MIN_MATCH - 1)
    ensures forall k :: 0 <= k < |examined + [c]| ==> h.Limit() < (examined + [c])[k] <= chainHead
    ensures forall k :: 0 <= k < |examined + [c]| ==> c <= (examined + [c])[k]
    ensures forall j, k :: 0 <= j < k < |examined + [c]| ==> (examined + [c])[k] < (examined + [c])[j]
    ensures forall k :: 0 <= k < |examined + [c]| ==>
      MatchLength(h.window, h.strstart, (examined + [c])[k], h.strstart + MAX_MATCH) <= Max(b1, MIN_MATCH - 1)
  {
  }

  /** The outcome of the search as the caller sees it: the returned length,
      and whether and where a longer match was found, with the PARANOID_CHECK
      facts about it. The ghost first and firstOffset are where the walk
      starts, after re-rooting. */
  method Find(h: Host, chainHead: nat, mix: (nat, bv8) -> nat)
    returns (len: nat, found: bool, start: nat, ghost first: nat, ghost firstOffset: nat)
    requires h.Valid() && h.ChainsDecrease()
    requires h.Limit() < chainHead < h.strstart
    ensures len <= h.lookahead
    ensures !found ==> len == Min(h.prevLength, h.lookahead)
    ensures found ==>
      && h.Limit() < start < h.strstart
      && 0 < h.strstart - start <= h.MaxDist()
      && h.prevLength < MatchLength(h.window, h.strstart, start, h.strstart + MAX_MATCH)
      && len == Min(MatchLength(h.window, h.strstart, start, h.strstart + MAX_MATCH), h.lookahead)
      && h.window[h.strstart..h.strstart + len] == h.window[start..start + len]
    // without a carried match the first candidate is always examined, so a
    // match there is found, and whatever is found is at least as long
    ensures h.prevLength <= MIN_MATCH ==>
      MatchLength(h.window, h.strstart, chainHead, h.strstart + MAX_MATCH) > Max(h.prevLength, MIN_MATCH - 1) ==> found
    ensures h.prevLength <= MIN_MATCH && found ==>
      MatchLength(h.window, h.strstart, chainHead, h.strstart + MAX_MATCH)
        <= MatchLength(h.window, h.strstart, start, h.strstart + MAX_MATCH)
    // with a carried match longer than MIN_MATCH the walk starts on the re-rooted chain, and
    // a first candidate there (if above the limit) that beats prev_length + 1 is found, even
    // when the distance penalty fires on it
    ensures h.prevLength > MIN_MATCH ==>
      RootChoice(h.window, h.strstart, h.prevLength, chainHead, h.head, mix, h.hashMask, first, firstOffset)
    ensures h.prevLength > MIN_MATCH && first > h.Limit() + firstOffset ==>
      && first - firstOffset < h.strstart
      && (MatchLength(h.window, h.strstart, first - firstOffset, h.strstart + MAX_MATCH) > h.prevLength + 1 ==> found)
  {
    ghost var realLen, bestLen, examined, foundAt, penaltyAt;
    len, found, start, realLen, bestLen, examined, foundAt, penaltyAt, first, firstOffset := Search(h, chainHead, mix);
    if found {
      RecordedMatch(h, start, realLen, len);
    }
  }

  /** What the PARANOID_CHECK block (match.h:330-357) checks of a recorded
      match: it lies within MAX_DIST, and the bytes at match_start repeat those
      at strstart for the whole length and for the clamped length. */
  lemma RecordedMatch(h: Host, start: nat, realLen: nat, len: nat)
    requires h.Valid() && h.Limit() < start < h.strstart
    requires realLen == MatchLength(h.window, h.strstart, start, h.strstart + MAX_MATCH)
    requires len <= realLen
    ensures 0 < h.strstart - start <= h.MaxDist()
    ensures h.window[h.strstart..h.strstart + realLen] == h.window[start..start + realLen]
    ensures h.window[h.strstart..h.strstart + len] == h.window[start..start + len]
  {
    CommonPrefix(h.window, h.strstart, start, h.strstart + MAX_MATCH, realLen, len);
    WithinLimit(h.strstart, h.MaxDist(), start);
  }

  /** After re-anchoring, the new candidate starts strictly before the
      anchor, because every link points backwards. */
  lemma Reanchored(h: Host, anchor: nat, l: nat, nextPos: nat, offset: nat)
    requires h.Valid() && h.ChainsDecrease()
    requires h.Limit() < anchor && anchor + l < h.strstart && MIN_MATCH < l
    requires offset <= l - MIN_MATCH && nextPos <= Link(h.prev, h.wMask, anchor)
    requires nextPos < anchor ==> nextPos == Link(h.prev, h.wMask, anchor + offset)
    ensures nextPos < anchor && nextPos < anchor + offset
  {
  }

  /** The part of deflate_state that longest_match uses. */
  class DeflateState {
    var window: array<bv8>
    var strstart: nat
    var lookahead: nat
    var prevLength: nat
    var prevMatch: nat
    var maxChainLength: nat
    var goodMatch: nat
    var niceMatch: nat
    var wMask: nat
    var prev: array<nat>
    var hashMask: nat
    var head: array<nat>
    var matchStart: nat         // match_start: the only field the search writes

    /** The fields the search reads, as a value. */
    function Snapshot(): Host
      reads this, window, prev, head
    {
      Host(window[..], strstart, lookahead, prevLength, prevMatch, maxChainLength, goodMatch,
           niceMatch, wMask, prev[..], hashMask, head[..])
    }

    /** longest_match(s, cur_match): search the chain from chainHead, store
        the start of a longer match in match_start and return its length,
        clamped to the lookahead. */
    method LongestMatch(chainHead: nat, mix: (nat, bv8) -> nat)
      returns (len: nat, ghost found: bool, ghost first: nat, ghost firstOffset: nat)
      requires Snapshot().Valid() && Snapshot().ChainsDecrease()
      requires Snapshot().Limit() < chainHead < strstart
      modifies this`matchStart
      ensures len <= lookahead
      ensures !found ==> matchStart == old(matchStart) && len == Min(prevLength, lookahead)
      ensures found ==>
        && Snapshot().Limit() < matchStart < strstart
        && 0 < strstart - matchStart <= Snapshot().MaxDist()
        && prevLength < MatchLength(window[..], strstart, matchStart, strstart + MAX_MATCH)
        && len == Min(MatchLength(window[..], strstart, matchStart, strstart + MAX_MATCH), lookahead)
        && window[strstart..strstart + len] == window[matchStart..matchStart + len]
      ensures prevLength <= MIN_MATCH ==>
        MatchLength(window[..], strstart, chainHead, strstart + MAX_MATCH) > Max(prevLength, MIN_MATCH - 1) ==> found
      ensures prevLength <= MIN_MATCH && found ==>
        MatchLength(window[..], strstart, chainHead, strstart + MAX_MATCH)
          <= MatchLength(window[..], strstart, matchStart, strstart + MAX_MATCH)
      ensures prevLength > MIN_MATCH ==>
        RootChoice(window[..], strstart, prevLength, chainHead, head[..], mix, hashMask, first, firstOffset)
      ensures prevLength > MIN_MATCH && first > Snapshot().Limit() + firstOffset ==>
        && first - firstOffset < strstart
        && (MatchLength(window[..], strstart, first - firstOffset, strstart + MAX_MATCH) > prevLength + 1 ==> found)
    {
      var h := Snapshot();
      var stored, start;
      len, stored, start, first, firstOffset := Find(h, chainHead, mix);
      if stored {
        matchStart := start;
      }
      found := stored;
      assert window[..] == h.window;
    }
  }
}
