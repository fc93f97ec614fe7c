/** The blank selector: which word positions to hide in one round.
    Candidates are word tokens long enough to type; they split into words
    not yet known and words already known; integer quotas fix how many of
    each to take; two greedy walks over shuffled pools take a candidate only
    when neither of its neighbours in the sequence of all words is taken. */
module BlankSelection {
  import opened Types
  import opened Collections

  /** The positions of the tokens that satisfy `keep`, in token order
      (`tokens.filter(keep).map(t => t.originalIndex)`). */
  function PositionsWhere(tokens: seq<Token>, keep: Token -> bool): (ps: seq<int>)
    ensures |ps| <= |tokens|
    ensures forall k :: 0 <= k < |tokens| && keep(tokens[k]) ==> tokens[k].originalIndex in ps
    ensures forall p :: p in ps ==>
      exists k :: 0 <= k < |tokens| && keep(tokens[k]) && tokens[k].originalIndex == p
  {
    if |tokens| == 0 then []
    else
      var rest := PositionsWhere(tokens[1..], keep);
      assert forall p :: p in rest ==>
        exists k :: 1 <= k < |tokens| && keep(tokens[k]) && tokens[k].originalIndex == p by {
        forall p | p in rest
          ensures exists k :: 1 <= k < |tokens| && keep(tokens[k]) && tokens[k].originalIndex == p
        {
          var k :| 0 <= k < |tokens[1..]| && keep(tokens[1..][k]) && tokens[1..][k].originalIndex == p;
          assert tokens[k + 1] == tokens[1..][k];
        }
      }
      assert forall k :: 1 <= k < |tokens| && keep(tokens[k]) ==> tokens[k].originalIndex in rest by {
        forall k | 1 <= k < |tokens| && keep(tokens[k]) ensures tokens[k].originalIndex in rest {
          assert tokens[k] == tokens[1..][k - 1];
        }
      }
      (if keep(tokens[0]) then [tokens[0].originalIndex] else []) + rest
  }

  /** On consecutively numbered tokens a position is selected exactly
      when it is in range and its token passes. */
  lemma {:induction false} PositionsOfIndexed(tokens: seq<Token>, keep: Token -> bool, b: int)
    requires IndexedFrom(tokens, b)
    ensures forall p :: p in PositionsWhere(tokens, keep) ==> b <= p < b + |tokens|
    ensures forall i :: 0 <= i < |tokens| ==> (b + i in PositionsWhere(tokens, keep) <==> keep(tokens[i]))
  {
    var ps := PositionsWhere(tokens, keep);
    forall p | p in ps ensures b <= p < b + |tokens| {
      var k :| 0 <= k < |tokens| && keep(tokens[k]) && tokens[k].originalIndex == p;
    }
    forall i | 0 <= i < |tokens| && b + i in ps ensures keep(tokens[i]) {
      var k :| 0 <= k < |tokens| && keep(tokens[k]) && tokens[k].originalIndex == b + i;
      assert k == i;
    }
  }

  /** On consecutively numbered tokens the selected positions are strictly ascending. */
  lemma {:induction false} PositionsAscending(tokens: seq<Token>, keep: Token -> bool, b: int)
    requires IndexedFrom(tokens, b)
    ensures StrictlyAscending(PositionsWhere(tokens, keep))
    decreases |tokens|
  {
    if |tokens| > 0 {
      var tail := tokens[1..];
      assert IndexedFrom(tail, b + 1) by {
        forall i | 0 <= i < |tail| ensures tail[i].originalIndex == b + 1 + i {
          assert tail[i] == tokens[i + 1];
        }
      }
      PositionsAscending(tail, keep, b + 1);
      PositionsOfIndexed(tail, keep, b + 1);
      var rest := PositionsWhere(tail, keep);
      if keep(tokens[0]) {
        StrictlyAscendingCons(b, rest);
      }
    }
  }

  predicate IsWordToken(t: Token) {
    t.isWord
  }

  predicate IsCandidate(t: Token, minWordLen: int) {
    t.isWord && |t.text| >= minWordLen
  }

  /** `allWordIndices`: the positions of all word tokens, short ones included. */
  function WordIndices(tokens: seq<Token>): seq<int> {
    PositionsWhere(tokens, IsWordToken)
  }

  /** `validCandidates`: the positions of word tokens at least `minWordLen` long. */
  function Candidates(tokens: seq<Token>, minWordLen: int): seq<int> {
    PositionsWhere(tokens, (t: Token) => IsCandidate(t, minWordLen))
  }

  /** `unguessedIndices`: candidates not yet known. */
  function Unguessed(tokens: seq<Token>, known: set<int>, minWordLen: int): seq<int> {
    Filter(Candidates(tokens, minWordLen), (p: int) => p !in known)
  }

  /** `guessedIndices`: candidates already known. */
  function Guessed(tokens: seq<Token>, known: set<int>, minWordLen: int): seq<int> {
    Filter(Candidates(tokens, minWordLen), (p: int) => p in known)
  }

  /** Every candidate is a word position. */
  lemma CandidatesAreWords(tokens: seq<Token>, minWordLen: int)
    ensures forall p :: p in Candidates(tokens, minWordLen) ==> p in WordIndices(tokens)
  {
    forall p | p in Candidates(tokens, minWordLen) ensures p in WordIndices(tokens) {
      var k :| 0 <= k < |tokens| && IsCandidate(tokens[k], minWordLen) && tokens[k].originalIndex == p;
      assert IsWordToken(tokens[k]);
    }
  }

  /** The candidates split into the unknown and the known ones, each exactly once. */
  lemma PoolsPartitionCandidates(tokens: seq<Token>, known: set<int>, minWordLen: int)
    ensures multiset(Unguessed(tokens, known, minWordLen)) + multiset(Guessed(tokens, known, minWordLen))
         == multiset(Candidates(tokens, minWordLen))
    ensures |Unguessed(tokens, known, minWordLen)| + |Guessed(tokens, known, minWordLen)|
         == |Candidates(tokens, minWordLen)|
  {
    FilterSplit(Candidates(tokens, minWordLen), (p: int) => p !in known, (p: int) => p in known);
  }

  /** `Math.ceil(0.2 * k)` for an integer `k`, as the least multiple count
      of five that covers `k`. */
  function CeilFifth(k: int): (c: int)
    ensures 5 * c - 5 < k <= 5 * c
  {
    (k + 4) / 5
  }

  /** How many new and how many review words a round asks for. */
  datatype Quota = Quota(nNew: int, nOld: int)

  /** The quota computation: `n` is the requested blank count, `unguessed`
      and `guessed` the pool sizes. Review words get a fifth of the round
      (rounded up) when there are enough of them; new words get the rest;
      a shortfall of new words is made up from review words. */
  function Quotas(n: int, unguessed: nat, guessed: nat): (q: Quota)
    ensures q.nNew + q.nOld == Min(n, unguessed + guessed)
    ensures q.nNew <= unguessed && q.nOld <= guessed
    ensures n >= 0 ==> 0 <= q.nNew && 0 <= q.nOld
    ensures q.nNew < unguessed ==> q.nOld == Min(CeilFifth(Min(n, unguessed + guessed)), guessed)
    ensures q.nOld >= Min(CeilFifth(Min(n, unguessed + guessed)), guessed)
  {
    var nTotal := Min(n, unguessed + guessed);
    var nOld := Min(CeilFifth(nTotal), guessed);
    var nNew := nTotal - nOld;
    var nNew := Min(nNew, unguessed);
    var nOld := Min(nTotal - nNew, guessed);
    Quota(nNew, nOld)
  }

  /** The quota contract fixes the quotas: any split of `min(n, pools)`
      that fits the pools, gives review words at least their rounded fifth
      (or all of them), and gives them exactly that whenever new words are
      left over, is the one `Quotas` computes. */
  lemma QuotasUnique(n: int, unguessed: nat, guessed: nat, q: Quota)
    requires n >= 0
    requires q.nNew + q.nOld == Min(n, unguessed + guessed)
    requires 0 <= q.nNew <= unguessed && 0 <= q.nOld <= guessed
    requires q.nOld >= Min(CeilFifth(Min(n, unguessed + guessed)), guessed)
    requires q.nNew < unguessed ==> q.nOld == Min(CeilFifth(Min(n, unguessed + guessed)), guessed)
    ensures q == Quotas(n, unguessed, guessed)
  {
  }

  /** The word-sequence neighbours of the word at index `i`: the previous
      and the next word, where they exist. */
  function NeighboursAt(ws: seq<int>, i: nat): (ns: seq<int>)
    requires i < |ws|
    ensures forall m :: m in ns <==> (i > 0 && m == ws[i - 1]) || (i + 1 < |ws| && m == ws[i + 1])
  {
    (if i > 0 then [ws[i - 1]] else []) + (if i < |ws| - 1 then [ws[i + 1]] else [])
  }

  /** The adjacency map after its first `k` entries are set; like a
      JavaScript `Map`, a later `set` of the same key wins. */
  function AdjacencyUpTo(ws: seq<int>, k: nat): (adj: map<int, seq<int>>)
    requires k <= |ws|
    ensures forall p :: p in adj <==> p in ws[..k]
  {
    if k == 0 then map[]
    else
      assert ws[..k] == ws[..k - 1] + [ws[k - 1]];
      AdjacencyUpTo(ws, k - 1)[ws[k - 1] := NeighboursAt(ws, k - 1)]
  }

  /** `adjacencyMap`: for every word position, its word-sequence neighbours. */
  function Adjacency(ws: seq<int>): map<int, seq<int>> {
    AdjacencyUpTo(ws, |ws|)
  }

  /** When no position repeats, the map gives every word exactly its own neighbours. */
  lemma {:induction false} AdjacencyUpToLookup(ws: seq<int>, k: nat)
    requires k <= |ws|
    requires Distinct(ws)
    ensures forall i :: 0 <= i < k ==>
      ws[i] in AdjacencyUpTo(ws, k) && AdjacencyUpTo(ws, k)[ws[i]] == NeighboursAt(ws, i)
    decreases k
  {
    if k > 0 {
      AdjacencyUpToLookup(ws, k - 1);
      var m := AdjacencyUpTo(ws, k - 1);
      assert AdjacencyUpTo(ws, k) == m[ws[k - 1] := NeighboursAt(ws, k - 1)];
      forall i | 0 <= i < k - 1
        ensures ws[i] in AdjacencyUpTo(ws, k) && AdjacencyUpTo(ws, k)[ws[i]] == NeighboursAt(ws, i)
      {
        assert ws[i] != ws[k - 1];
      }
    }
  }

  /** The lookup property for the whole word sequence. */
  lemma AdjacencyLookup(ws: seq<int>)
    requires Distinct(ws)
    ensures forall i :: 0 <= i < |ws| ==>
      ws[i] in Adjacency(ws) && Adjacency(ws)[ws[i]] == NeighboursAt(ws, i)
  {
    AdjacencyUpToLookup(ws, |ws|);
  }

  /** The lookup property at one index. */
  lemma AdjacencyAt(ws: seq<int>, i: nat)
    requires Distinct(ws) && i < |ws|
    ensures ws[i] in Adjacency(ws) && Adjacency(ws)[ws[i]] == NeighboursAt(ws, i)
  {
    AdjacencyLookup(ws);
  }

  /** `isSafe`: a position may be taken when it has no recorded neighbour
      already taken. */
  function IsSafe(adj: map<int, seq<int>>, idx: int, selected: seq<int>): (b: bool)
    ensures idx !in adj || |selected| == 0 ==> b
    ensures !b ==> idx in adj && exists m :: m in selected && m in adj[idx]
    ensures b && idx in adj ==> forall m :: m in selected ==> m !in adj[idx]
  {
    idx !in adj || forall m :: m in adj[idx] ==> m !in selected
  }

  /** On a word sequence without repeats, a position may be taken exactly
      when neither the word before it nor the word after it is taken. */
  lemma IsSafeAt(ws: seq<int>, i: nat, sel: seq<int>)
    requires Distinct(ws) && i < |ws|
    ensures IsSafe(Adjacency(ws), ws[i], sel) <==>
      !(i > 0 && ws[i - 1] in sel) && !(i + 1 < |ws| && ws[i + 1] in sel)
  {
    AdjacencyAt(ws, i);
  }

  /** A position that is not a word has no neighbours and may always be taken. */
  lemma IsSafeOffWords(ws: seq<int>, idx: int, sel: seq<int>)
    requires idx !in ws
    ensures IsSafe(Adjacency(ws), idx, sel)
  {
  }

  /** One greedy walk: while fewer than `target` positions are taken and
      the pool is not empty, pop the pool's last element and take it when
      it is safe. */
  function Fill(adj: map<int, seq<int>>, pool: seq<int>, target: int, selected: seq<int>): (r: seq<int>)
    ensures |selected| <= |r| && r[..|selected|] == selected
    ensures |r| <= if |selected| < target then target else |selected|
    ensures |r| <= |selected| + |pool|
    decreases |pool|
  {
    if |selected| >= target || |pool| == 0 then
      selected
    else
      var idx := pool[|pool| - 1];
      var rest := pool[..|pool| - 1];
      assert pool == rest + [idx];
      if IsSafe(adj, idx, selected) then
        Fill(adj, rest, target, selected + [idx])
      else
        Fill(adj, rest, target, selected)
  }

  /** A walk only adds pool elements, each at most as often as the pool
      holds it. */
  lemma {:induction false} FillTakesFromPool(adj: map<int, seq<int>>, pool: seq<int>, target: int, selected: seq<int>)
    ensures multiset(Fill(adj, pool, target, selected)[|selected|..]) <= multiset(pool)
    decreases |pool|
  {
    if |selected| < target && |pool| > 0 {
      var idx := pool[|pool| - 1];
      var rest := pool[..|pool| - 1];
      assert multiset(pool) == multiset(rest) + multiset{idx} by {
        assert pool == rest + [idx];
      }
      if IsSafe(adj, idx, selected) {
        var r := Fill(adj, rest, target, selected + [idx]);
        assert Fill(adj, pool, target, selected) == r;
        FillTakesFromPool(adj, rest, target, selected + [idx]);
        assert r[..|selected| + 1] == selected + [idx];
        assert r[|selected|] == idx;
        assert r[|selected|..] == [idx] + r[|selected| + 1..];
      } else {
        assert Fill(adj, pool, target, selected) == Fill(adj, rest, target, selected);
        FillTakesFromPool(adj, rest, target, selected);
      }
    }
  }

  /** A position refused against some taken positions stays refused once
      more are taken. */
  lemma UnsafeStaysUnsafe(adj: map<int, seq<int>>, idx: int, sel: seq<int>, more: seq<int>)
    requires forall x :: x in sel ==> x in more
    requires !IsSafe(adj, idx, sel)
    ensures !IsSafe(adj, idx, more)
  {
    var m :| m in adj[idx] && m in sel;
    assert m in more;
  }

  /** The walk is greedy: when it stops short of its target, every pool
      element was either taken or has a neighbour that was taken. */
  lemma {:induction false} FillMaximal(adj: map<int, seq<int>>, pool: seq<int>, target: int, sel: seq<int>)
    ensures var r := Fill(adj, pool, target, sel);
      |r| < target ==> forall x :: x in pool ==> x in r || !IsSafe(adj, x, r)
    decreases |pool|
  {
    var r := Fill(adj, pool, target, sel);
    if |sel| < target && |pool| > 0 {
      var idx := pool[|pool| - 1];
      var rest := pool[..|pool| - 1];
      assert pool == rest + [idx];
      if IsSafe(adj, idx, sel) {
        var sel' := sel + [idx];
        assert r == Fill(adj, rest, target, sel');
        FillMaximal(adj, rest, target, sel');
        assert idx in r by {
          assert r[..|sel'|] == sel';
          assert r[|sel|] == sel'[|sel|] == idx;
        }
      } else {
        assert r == Fill(adj, rest, target, sel);
        FillMaximal(adj, rest, target, sel);
        assert forall x :: x in sel ==> x in r by {
          assert r[..|sel|] == sel;
        }
        UnsafeStaysUnsafe(adj, idx, sel, r);
      }
    }
  }

  /** No two consecutive entries of the word sequence `ws` are both in `sel`. */
  ghost predicate NoTwoAdjacent(ws: seq<int>, sel: seq<int>) {
    forall i :: 0 <= i < |ws| - 1 ==> !(ws[i] in sel && ws[i + 1] in sel)
  }

  /** Taking a safe position keeps the taken set free of neighbours. */
  lemma AddSafeKeepsApart(ws: seq<int>, sel: seq<int>, idx: int)
    requires Distinct(ws)
    requires NoTwoAdjacent(ws, sel)
    requires IsSafe(Adjacency(ws), idx, sel)
    ensures NoTwoAdjacent(ws, sel + [idx])
  {
    var sel' := sel + [idx];
    forall i | 0 <= i < |ws| - 1 ensures !(ws[i] in sel' && ws[i + 1] in sel') {
      var j := i + 1;
      if ws[i] == idx {
        AdjacencyAt(ws, i);
        assert ws[j] in NeighboursAt(ws, i);
        assert ws[j] !in sel && ws[j] != idx;
      } else if ws[j] == idx {
        AdjacencyAt(ws, j);
        assert ws[i] in NeighboursAt(ws, j);
        assert ws[i] !in sel && ws[i] != idx;
      } else {
        assert (ws[i] in sel' <==> ws[i] in sel) && (ws[j] in sel' <==> ws[j] in sel);
      }
    }
  }

  /** A greedy walk never takes two neighbouring words. */
  lemma {:induction false} FillKeepsApart(ws: seq<int>, pool: seq<int>, target: int, sel: seq<int>)
    requires Distinct(ws)
    requires NoTwoAdjacent(ws, sel)
    ensures NoTwoAdjacent(ws, Fill(Adjacency(ws), pool, target, sel))
    decreases |pool|
  {
    if |sel| < target && |pool| > 0 {
      var idx := pool[|pool| - 1];
      if IsSafe(Adjacency(ws), idx, sel) {
        AddSafeKeepsApart(ws, sel, idx);
        FillKeepsApart(ws, pool[..|pool| - 1], target, sel + [idx]);
      } else {
        FillKeepsApart(ws, pool[..|pool| - 1], target, sel);
      }
    }
  }

  /** No neighbour of a pool element lies in the pool or among the taken positions. */
  ghost predicate Isolated(adj: map<int, seq<int>>, pool: seq<int>, sel: seq<int>) {
    forall x, m :: x in pool && x in adj && m in adj[x] ==> m !in pool && m !in sel
  }

  /** When every pool element is isolated, the walk takes every element it
      pops, so it stops only at the target or when the pool runs out. */
  lemma {:induction false} FillTakesAll(adj: map<int, seq<int>>, pool: seq<int>, target: int, sel: seq<int>)
    requires Isolated(adj, pool, sel)
    ensures |Fill(adj, pool, target, sel)|
         == if |sel| >= target then |sel| else Min(target, |sel| + |pool|)
    decreases |pool|
  {
    if |sel| < target && |pool| > 0 {
      var idx := pool[|pool| - 1];
      var rest := pool[..|pool| - 1];
      assert idx in pool;
      assert IsSafe(adj, idx, sel);
      assert Isolated(adj, rest, sel + [idx]) by {
        forall x, m | x in rest && x in adj && m in adj[x] ensures m !in rest && m !in sel + [idx] {
          assert x in pool;
          assert m !in pool;
        }
      }
      FillTakesAll(adj, rest, target, sel + [idx]);
    }
  }

  /** The new and review quotas of a round. */
  function RoundQuota(tokens: seq<Token>, known: set<int>, n: int, minWordLen: int): Quota {
    Quotas(n, |Unguessed(tokens, known, minWordLen)|, |Guessed(tokens, known, minWordLen)|)
  }

  /** Both walks: the first over the new pool up to the new-word quota,
      the second over the review pool, continuing from the first, up to
      the sum of both quotas. */
  function Walk(adj: map<int, seq<int>>, newPool: seq<int>, oldPool: seq<int>, q: Quota): (all: seq<int>)
    ensures 0 <= q.nNew && 0 <= q.nOld ==> |all| <= q.nNew + q.nOld
    ensures |all| <= |newPool| + |oldPool|
  {
    Fill(adj, oldPool, q.nNew + q.nOld, Fill(adj, newPool, q.nNew, []))
  }

  /** What the walks take: the first walk's picks come from the new pool,
      the rest from the review pool, and no more than the quotas allow. */
  lemma WalkFromPools(adj: map<int, seq<int>>, newPool: seq<int>, oldPool: seq<int>, q: Quota)
    ensures var first := Fill(adj, newPool, q.nNew, []);
      var all := Walk(adj, newPool, oldPool, q);
      && all == first + all[|first|..]
      && multiset(first) <= multiset(newPool)
      && multiset(all[|first|..]) <= multiset(oldPool)
      && |first| <= (if q.nNew < 0 then 0 else q.nNew)
      && |all| <= (if q.nNew + q.nOld < |first| then |first| else q.nNew + q.nOld)
  {
    var first := Fill(adj, newPool, q.nNew, []);
    assert first == first[0..];
    FillTakesFromPool(adj, newPool, q.nNew, []);
    FillTakesFromPool(adj, oldPool, q.nNew + q.nOld, first);
  }

  /** Position `p` belongs to a word token at least `minWordLen` long. */
  predicate IsLongWordAt(tokens: seq<Token>, minWordLen: int, p: int) {
    exists k :: 0 <= k < |tokens| && IsCandidate(tokens[k], minWordLen) && tokens[k].originalIndex == p
  }

  /** A candidate position belongs to a word token at least `minWordLen` long. */
  lemma CandidateIsLongWord(tokens: seq<Token>, minWordLen: int, p: int)
    requires p in Candidates(tokens, minWordLen)
    ensures IsLongWordAt(tokens, minWordLen, p)
  {
    var k :| 0 <= k < |tokens| && IsCandidate(tokens[k], minWordLen) && tokens[k].originalIndex == p;
  }

  /** Everything the walks take is a candidate, at most as often as it
      occurs among the candidates, and no more than the round asks for. */
  lemma WalkWithinCandidates(tokens: seq<Token>, known: set<int>, n: int, minWordLen: int,
                             newPool: seq<int>, oldPool: seq<int>)
    requires multiset(newPool) == multiset(Unguessed(tokens, known, minWordLen))
    requires multiset(oldPool) == multiset(Guessed(tokens, known, minWordLen))
    ensures var all := Walk(Adjacency(WordIndices(tokens)), newPool, oldPool, RoundQuota(tokens, known, n, minWordLen));
      && multiset(all) <= multiset(Candidates(tokens, minWordLen))
      && |all| <= (if n < 0 then 0 else Min(n, |Candidates(tokens, minWordLen)|))
  {
    var adj := Adjacency(WordIndices(tokens));
    var q := RoundQuota(tokens, known, n, minWordLen);
    PoolsPartitionCandidates(tokens, known, minWordLen);
    WalkFromPools(adj, newPool, oldPool, q);
    var first := Fill(adj, newPool, q.nNew, []);
    var all := Walk(adj, newPool, oldPool, q);
    assert multiset(all) == multiset(first) + multiset(all[|first|..]);
  }

  /** `selectBlankIndices`: the positions to hide this round, ascending.
      `newPool` and `oldPool` are the shuffled copies of the unknown and
      known candidates; the walks pop from their ends. */
  function SelectBlankIndices(tokens: seq<Token>, known: set<int>, n: int, minWordLen: int,
                              newPool: seq<int>, oldPool: seq<int>): (r: seq<int>)
    requires multiset(newPool) == multiset(Unguessed(tokens, known, minWordLen))
    requires multiset(oldPool) == multiset(Guessed(tokens, known, minWordLen))
    ensures Ascending(r)
    ensures multiset(r) <= multiset(Candidates(tokens, minWordLen))
    ensures forall p :: p in r ==> IsLongWordAt(tokens, minWordLen, p)
    ensures |r| <= if n < 0 then 0 else Min(n, |Candidates(tokens, minWordLen)|)
  {
    var all := Walk(Adjacency(WordIndices(tokens)), newPool, oldPool, RoundQuota(tokens, known, n, minWordLen));
    WalkWithinCandidates(tokens, known, n, minWordLen, newPool, oldPool);
    var r := SortAscending(all);
    assert forall p :: p in r ==> IsLongWordAt(tokens, minWordLen, p) by {
      forall p | p in r ensures IsLongWordAt(tokens, minWordLen, p) {
        assert p in multiset(r);
        CandidateIsLongWord(tokens, minWordLen, p);
      }
    }
    r
  }

  /** The selection holds exactly what the walks took. */
  lemma SelectionIsSortedWalk(tokens: seq<Token>, known: set<int>, n: int, minWordLen: int,
                              newPool: seq<int>, oldPool: seq<int>)
    requires multiset(newPool) == multiset(Unguessed(tokens, known, minWordLen))
    requires multiset(oldPool) == multiset(Guessed(tokens, known, minWordLen))
    ensures multiset(SelectBlankIndices(tokens, known, n, minWordLen, newPool, oldPool))
         == multiset(Walk(Adjacency(WordIndices(tokens)), newPool, oldPool, RoundQuota(tokens, known, n, minWordLen)))
  {
  }

  /** On well-indexed tokens both the word positions and the candidates
      are strictly ascending, hence free of repeats. */
  lemma IndexedPositionsDistinct(tokens: seq<Token>, minWordLen: int)
    requires WellIndexed(tokens)
    ensures StrictlyAscending(WordIndices(tokens)) && Distinct(WordIndices(tokens))
    ensures StrictlyAscending(Candidates(tokens, minWordLen)) && Distinct(Candidates(tokens, minWordLen))
  {
    assert IndexedFrom(tokens, 0);
    PositionsAscending(tokens, IsWordToken, 0);
    PositionsAscending(tokens, (t: Token) => IsCandidate(t, minWordLen), 0);
  }

  /** On well-indexed tokens (what the tokenizer produces) the selection is
      strictly ascending: sorted, and no position is chosen twice. */
  lemma SelectionStrictlyAscending(tokens: seq<Token>, known: set<int>, n: int, minWordLen: int,
                                   newPool: seq<int>, oldPool: seq<int>)
    requires WellIndexed(tokens)
    requires multiset(newPool) == multiset(Unguessed(tokens, known, minWordLen))
    requires multiset(oldPool) == multiset(Guessed(tokens, known, minWordLen))
    ensures StrictlyAscending(SelectBlankIndices(tokens, known, n, minWordLen, newPool, oldPool))
  {
    var r := SelectBlankIndices(tokens, known, n, minWordLen, newPool, oldPool);
    IndexedPositionsDistinct(tokens, minWordLen);
    DistinctSub(r, Candidates(tokens, minWordLen));
    AscendingDistinctIsStrict(r);
  }

  /** Whether two word neighbours are both chosen depends only on which
      positions are chosen, not on their order. */
  lemma NoTwoAdjacentRearranged(ws: seq<int>, a: seq<int>, b: seq<int>)
    requires multiset(a) == multiset(b)
    requires NoTwoAdjacent(ws, a)
    ensures NoTwoAdjacent(ws, b)
  {
    forall x ensures x in a <==> x in b {
      assert x in a <==> x in multiset(a);
      assert x in b <==> x in multiset(b);
    }
  }

  /** The two walks, one after the other, never take two word neighbours. */
  lemma WalkKeepsApart(ws: seq<int>, newPool: seq<int>, oldPool: seq<int>, q: Quota)
    requires Distinct(ws)
    ensures NoTwoAdjacent(ws, Walk(Adjacency(ws), newPool, oldPool, q))
  {
    FillKeepsApart(ws, newPool, q.nNew, []);
    FillKeepsApart(ws, oldPool, q.nNew + q.nOld, Fill(Adjacency(ws), newPool, q.nNew, []));
  }

  /** No two chosen positions are neighbours in the sequence of all word
      tokens: a word between two candidates, however short, separates them,
      and a word joined to another only by punctuation or spaces is its
      neighbour. */
  lemma SelectionNeverAdjacent(tokens: seq<Token>, known: set<int>, n: int, minWordLen: int,
                               newPool: seq<int>, oldPool: seq<int>)
    requires WellIndexed(tokens)
    requires multiset(newPool) == multiset(Unguessed(tokens, known, minWordLen))
    requires multiset(oldPool) == multiset(Guessed(tokens, known, minWordLen))
    ensures NoTwoAdjacent(WordIndices(tokens), SelectBlankIndices(tokens, known, n, minWordLen, newPool, oldPool))
  {
    var ws := WordIndices(tokens);
    var q := RoundQuota(tokens, known, n, minWordLen);
    IndexedPositionsDistinct(tokens, minWordLen);
    WalkKeepsApart(ws, newPool, oldPool, q);
    SelectionIsSortedWalk(tokens, known, n, minWordLen, newPool, oldPool);
    NoTwoAdjacentRearranged(ws, Walk(Adjacency(ws), newPool, oldPool, q),
                            SelectBlankIndices(tokens, known, n, minWordLen, newPool, oldPool));
  }

  /** When no two candidates are word neighbours, every pool element is
      isolated from the pools and from anything already taken from them. */
  lemma CandidatesIsolated(tokens: seq<Token>, minWordLen: int, pool: seq<int>, sel: seq<int>)
    requires WellIndexed(tokens)
    requires NoTwoAdjacent(WordIndices(tokens), Candidates(tokens, minWordLen))
    requires forall x :: x in pool ==> x in Candidates(tokens, minWordLen)
    requires forall x :: x in sel ==> x in Candidates(tokens, minWordLen)
    ensures Isolated(Adjacency(WordIndices(tokens)), pool, sel)
  {
    IndexedPositionsDistinct(tokens, minWordLen);
    CandidatesAreWords(tokens, minWordLen);
    SeparatedAreIsolated(WordIndices(tokens), Candidates(tokens, minWordLen), pool, sel);
  }

  /** The same fact for any word sequence `ws` and any subset `cands` of it
      with no two members side by side. */
  lemma SeparatedAreIsolated(ws: seq<int>, cands: seq<int>, pool: seq<int>, sel: seq<int>)
    requires Distinct(ws)
    requires forall x :: x in cands ==> x in ws
    requires NoTwoAdjacent(ws, cands)
    requires forall x :: x in pool ==> x in cands
    requires forall x :: x in sel ==> x in cands
    ensures Isolated(Adjacency(ws), pool, sel)
  {
    var adj := Adjacency(ws);
    forall x, m | x in pool && x in adj && m in adj[x] ensures m !in pool && m !in sel {
      NeighbourNotCandidate(ws, cands, x, m);
    }
  }

  /** A word neighbour of a candidate is not a candidate. */
  lemma NeighbourNotCandidate(ws: seq<int>, cands: seq<int>, x: int, m: int)
    requires Distinct(ws)
    requires NoTwoAdjacent(ws, cands)
    requires x in cands && x in Adjacency(ws) && m in Adjacency(ws)[x]
    ensures m !in cands
  {
    assert x in ws[..|ws|];
    var i :| 0 <= i < |ws| && ws[i] == x;
    AdjacencyAt(ws, i);
    if i > 0 && m == ws[i - 1] {
      var j := i - 1;
      assert ws[j + 1] in cands;
    } else {
      assert i + 1 < |ws| && m == ws[i + 1];
      assert ws[i] in cands;
    }
  }

  /** When both pools hold only isolated candidates, the walks take exactly
      the sum of the quotas, provided the quotas fit the pools. */
  lemma WalkTakesQuota(adj: map<int, seq<int>>, newPool: seq<int>, oldPool: seq<int>, q: Quota)
    requires 0 <= q.nNew <= |newPool| && 0 <= q.nOld <= |oldPool|
    requires Isolated(adj, newPool, [])
    requires Isolated(adj, oldPool, Fill(adj, newPool, q.nNew, []))
    ensures |Walk(adj, newPool, oldPool, q)| == q.nNew + q.nOld
  {
    FillTakesAll(adj, newPool, q.nNew, []);
    FillTakesAll(adj, oldPool, q.nNew + q.nOld, Fill(adj, newPool, q.nNew, []));
  }

  /** When no two candidates are word neighbours the adjacency guard never
      refuses, and the round gets exactly `min(n, |candidates|)` blanks. */
  lemma SelectionFillsQuota(tokens: seq<Token>, known: set<int>, n: int, minWordLen: int,
                            newPool: seq<int>, oldPool: seq<int>)
    requires WellIndexed(tokens)
    requires n >= 0
    requires NoTwoAdjacent(WordIndices(tokens), Candidates(tokens, minWordLen))
    requires multiset(newPool) == multiset(Unguessed(tokens, known, minWordLen))
    requires multiset(oldPool) == multiset(Guessed(tokens, known, minWordLen))
    ensures |SelectBlankIndices(tokens, known, n, minWordLen, newPool, oldPool)|
         == Min(n, |Candidates(tokens, minWordLen)|)
  {
    var cands := Candidates(tokens, minWordLen);
    var adj := Adjacency(WordIndices(tokens));
    var q := RoundQuota(tokens, known, n, minWordLen);
    PoolsPartitionCandidates(tokens, known, minWordLen);
    assert |newPool| == |multiset(newPool)| == |Unguessed(tokens, known, minWordLen)|;
    assert |oldPool| == |multiset(oldPool)| == |Guessed(tokens, known, minWordLen)|;
    forall x | x in newPool ensures x in cands {
      assert x in multiset(newPool);
    }
    forall x | x in oldPool ensures x in cands {
      assert x in multiset(oldPool);
    }
    var first := Fill(adj, newPool, q.nNew, []);
    WalkFromPools(adj, newPool, oldPool, q);
    forall x | x in first ensures x in cands {
      assert x in multiset(first);
    }
    CandidatesIsolated(tokens, minWordLen, newPool, []);
    CandidatesIsolated(tokens, minWordLen, oldPool, first);
    WalkTakesQuota(adj, newPool, oldPool, q);
    SelectionIsSortedWalk(tokens, known, n, minWordLen, newPool, oldPool);
    var r := SelectBlankIndices(tokens, known, n, minWordLen, newPool, oldPool);
    assert |r| == |multiset(r)| == |multiset(Walk(adj, newPool, oldPool, q))|;
  }

  /** Both walks are greedy: a review walk that stops short leaves every
      review-pool element taken or next to a taken word, and so does a new
      walk that stops short for the new pool. */
  lemma WalkMaximal(adj: map<int, seq<int>>, newPool: seq<int>, oldPool: seq<int>, q: Quota)
    ensures var first := Fill(adj, newPool, q.nNew, []);
      var all := Walk(adj, newPool, oldPool, q);
      && (|all| < q.nNew + q.nOld ==> forall x :: x in oldPool ==> x in all || !IsSafe(adj, x, all))
      && (|first| < q.nNew ==> forall x :: x in newPool ==> x in all || !IsSafe(adj, x, all))
  {
    var first := Fill(adj, newPool, q.nNew, []);
    var all := Walk(adj, newPool, oldPool, q);
    FillMaximal(adj, oldPool, q.nNew + q.nOld, first);
    FillMaximal(adj, newPool, q.nNew, []);
    assert forall x :: x in first ==> x in all by {
      assert all[..|first|] == first;
    }
    forall x | |first| < q.nNew && x in newPool ensures x in all || !IsSafe(adj, x, all) {
      if x !in first {
        UnsafeStaysUnsafe(adj, x, first, all);
      }
    }
  }

  /** Whether a position may be taken depends only on which positions are
      taken, not on their order. */
  lemma IsSafeRearranged(adj: map<int, seq<int>>, idx: int, a: seq<int>, b: seq<int>)
    requires multiset(a) == multiset(b)
    ensures IsSafe(adj, idx, a) <==> IsSafe(adj, idx, b)
  {
    forall x ensures x in a <==> x in b {
      assert x in a <==> x in multiset(a);
      assert x in b <==> x in multiset(b);
    }
  }

  /** A greedy-stop fact about a walk survives sorting its picks. */
  lemma MaximalRearranged(adj: map<int, seq<int>>, pool: seq<int>, all: seq<int>, r: seq<int>)
    requires multiset(all) == multiset(r)
    requires forall x :: x in pool ==> x in all || !IsSafe(adj, x, all)
    ensures forall x :: x in pool ==> x in r || !IsSafe(adj, x, r)
  {
    forall x | x in pool ensures x in r || !IsSafe(adj, x, r) {
      assert x in all <==> x in multiset(all);
      assert x in r <==> x in multiset(r);
      IsSafeRearranged(adj, x, all, r);
    }
  }

  /** The unknown words in the selection are exactly the first walk's picks. */
  lemma NewWordsAreFirstWalk(tokens: seq<Token>, known: set<int>, n: int, minWordLen: int,
                             newPool: seq<int>, oldPool: seq<int>)
    requires multiset(newPool) == multiset(Unguessed(tokens, known, minWordLen))
    requires multiset(oldPool) == multiset(Guessed(tokens, known, minWordLen))
    ensures var r := SelectBlankIndices(tokens, known, n, minWordLen, newPool, oldPool);
      var q := RoundQuota(tokens, known, n, minWordLen);
      |Filter(r, (p: int) => p !in known)| == |Fill(Adjacency(WordIndices(tokens)), newPool, q.nNew, [])|
  {
    var notKnown := (p: int) => p !in known;
    var adj := Adjacency(WordIndices(tokens));
    var q := RoundQuota(tokens, known, n, minWordLen);
    var r := SelectBlankIndices(tokens, known, n, minWordLen, newPool, oldPool);
    var first := Fill(adj, newPool, q.nNew, []);
    var all := Walk(adj, newPool, oldPool, q);
    WalkFromPools(adj, newPool, oldPool, q);
    SelectionIsSortedWalk(tokens, known, n, minWordLen, newPool, oldPool);
    var rest := all[|first|..];
    FilterRearranged(all, r, notKnown);
    FilterConcat(first, rest, notKnown);
    forall x | x in first ensures notKnown(x) {
      assert x in multiset(first);
      assert x in Unguessed(tokens, known, minWordLen);
    }
    FilterKeepsAll(first, notKnown);
    forall x | x in rest ensures !notKnown(x) {
      assert x in multiset(rest);
      assert x in Guessed(tokens, known, minWordLen);
    }
    FilterDropsAll(rest, notKnown);
  }

  /** A round with fewer blanks than asked for is blocked, not unlucky:
      when the selection is short of `nNew + nOld`, every known candidate is
      chosen or has a chosen word neighbour; when it holds fewer than `nNew`
      unknown words, the same goes for every unknown candidate. */
  lemma ShortSelectionIsBlocked(tokens: seq<Token>, known: set<int>, n: int, minWordLen: int,
                                newPool: seq<int>, oldPool: seq<int>)
    requires multiset(newPool) == multiset(Unguessed(tokens, known, minWordLen))
    requires multiset(oldPool) == multiset(Guessed(tokens, known, minWordLen))
    ensures var r := SelectBlankIndices(tokens, known, n, minWordLen, newPool, oldPool);
      var adj := Adjacency(WordIndices(tokens));
      var q := RoundQuota(tokens, known, n, minWordLen);
      && (|r| < q.nNew + q.nOld ==>
            forall p :: p in Guessed(tokens, known, minWordLen) ==> p in r || !IsSafe(adj, p, r))
      && (|Filter(r, (p: int) => p !in known)| < q.nNew ==>
            forall p :: p in Unguessed(tokens, known, minWordLen) ==> p in r || !IsSafe(adj, p, r))
  {
    var adj := Adjacency(WordIndices(tokens));
    var q := RoundQuota(tokens, known, n, minWordLen);
    var r := SelectBlankIndices(tokens, known, n, minWordLen, newPool, oldPool);
    var first := Fill(adj, newPool, q.nNew, []);
    var all := Walk(adj, newPool, oldPool, q);
    WalkMaximal(adj, newPool, oldPool, q);
    SelectionIsSortedWalk(tokens, known, n, minWordLen, newPool, oldPool);
    NewWordsAreFirstWalk(tokens, known, n, minWordLen, newPool, oldPool);
    assert |r| == |all| by {
      assert |r| == |multiset(r)| == |multiset(all)| == |all|;
    }
    if |all| < q.nNew + q.nOld {
      MaximalRearranged(adj, oldPool, all, r);
      forall p | p in Guessed(tokens, known, minWordLen) ensures p in oldPool {
        assert p in multiset(oldPool);
      }
    }
    if |first| < q.nNew {
      MaximalRearranged(adj, newPool, all, r);
      forall p | p in Unguessed(tokens, known, minWordLen) ensures p in newPool {
        assert p in multiset(newPool);
      }
    }
  }

  /** The review walk never returns to the new pool, so a round can end
      short while a new word is still free: with words at positions 0, 2,
      4, 6, 8, position 2 known, and two blanks asked for, the quotas are
      one new and one review word; the new walk pops 0 first and takes it;
      the review walk refuses 2, the neighbour of 0; the round gets the one
      blank 0 although 8 has no taken neighbour. */
  lemma ReviewWalkLeavesFreeNewWord()
    ensures var ws := [0, 2, 4, 6, 8];
      var all := Walk(Adjacency(ws), [8, 6, 4, 0], [2], Quotas(2, 4, 1));
      && Quotas(2, 4, 1) == Quota(1, 1)
      && all == [0]
      && 8 !in all && IsSafe(Adjacency(ws), 8, all)
  {
    var adj := Adjacency([0, 2, 4, 6, 8]);
    assert Quotas(2, 4, 1) == Quota(1, 1);
    FiveWordNeighbours();
    var first := Fill(adj, [8, 6, 4, 0], 1, []);
    assert first == Fill(adj, [8, 6, 4], 1, [0]);
    assert first == [0];
    assert !IsSafe(adj, 2, [0]) by {
      assert 0 in adj[2];
    }
    assert Walk(adj, [8, 6, 4, 0], [2], Quota(1, 1)) == Fill(adj, [], 2, [0]);
  }

  /** The neighbours of three of the words at positions 0, 2, 4, 6, 8. */
  lemma FiveWordNeighbours()
    ensures var adj := Adjacency([0, 2, 4, 6, 8]);
      && 0 in adj && adj[0] == [2]
      && 2 in adj && adj[2] == [0, 4]
      && 8 in adj && adj[8] == [6]
  {
    var ws := [0, 2, 4, 6, 8];
    assert Distinct(ws);
    AdjacencyAt(ws, 0);
    AdjacencyAt(ws, 1);
    AdjacencyAt(ws, 4);
    assert NeighboursAt(ws, 0) == [2];
    assert NeighboursAt(ws, 1) == [0, 4];
    assert NeighboursAt(ws, 4) == [6];
  }

  /** `max(0, k)`. */
  function Max0(k: int): nat {
    if k < 0 then 0 else k
  }

  /** At most `nNew` of the chosen positions are words not yet known: the
      review walk only adds known words. */
  lemma NewWordsWithinQuota(tokens: seq<Token>, known: set<int>, n: int, minWordLen: int,
                            newPool: seq<int>, oldPool: seq<int>)
    requires multiset(newPool) == multiset(Unguessed(tokens, known, minWordLen))
    requires multiset(oldPool) == multiset(Guessed(tokens, known, minWordLen))
    ensures var r := SelectBlankIndices(tokens, known, n, minWordLen, newPool, oldPool);
      |Filter(r, (p: int) => p !in known)| <= Max0(RoundQuota(tokens, known, n, minWordLen).nNew)
  {
    var q := RoundQuota(tokens, known, n, minWordLen);
    WalkFromPools(Adjacency(WordIndices(tokens)), newPool, oldPool, q);
    NewWordsAreFirstWalk(tokens, known, n, minWordLen, newPool, oldPool);
  }
}
