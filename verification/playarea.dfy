/** One round of the game: starting it, typing into a blank, checking one
    blank (with or without a hint), checking every open blank at once, and
    the gating the page puts in front of these actions. */
module PlayArea {
  import opened Wrappers
  import opened Types
  import opened Chars
  import opened Collections
  import opened Tokenizer
  import opened BlankSelection

  /** No round hides more words than this. */
  const MaxBlanks: nat := 30

  /** Words shorter than this are never hidden (the selector's default). */
  const MinWordLen: nat := 2

  /** A round: the tokens as shown, how many blanks were answered
      correctly, and how many blanks the round started with. */
  datatype Round = Round(tokens: seq<GameToken>, solvedCount: int, totalBlanks: int)

  /** A new round together with the token positions reported as known,
      in the order they were reported. */
  datatype Outcome = Outcome(round: Round, reported: seq<int>)

  /** The token a game token was made from. */
  function Base(g: GameToken): Token {
    Token(g.id, g.text, g.isWord, g.originalIndex)
  }

  predicate IsBlank(g: GameToken) {
    g.isBlank
  }

  predicate IsHinted(g: GameToken) {
    g.state == Hint
  }

  /** No two tokens share an id. */
  predicate DistinctIds(ts: seq<GameToken>) {
    forall i, j :: 0 <= i < j < |ts| ==> ts[i].id != ts[j].id
  }

  /** Every game token sits at the position its `originalIndex` names. */
  predicate InPlace(ts: seq<GameToken>) {
    forall i :: 0 <= i < |ts| ==> ts[i].originalIndex == i
  }

  // ---------------------------------------------------------------------
  // Starting a round
  // ---------------------------------------------------------------------

  /** The number of word tokens, whatever their length. */
  function WordCount(raw: seq<Token>): nat {
    |Filter(raw, IsWordToken)|
  }

  /** How many blanks a round asks for: a fifth of the words, rounded up,
      but never more than `MaxBlanks`. */
  function NumBlanks(wordCount: nat): (k: nat)
    ensures k <= MaxBlanks
    ensures 5 * k >= wordCount || k == MaxBlanks
    ensures k > 0 ==> 5 * (k - 1) < wordCount
  {
    Min(MaxBlanks, CeilFifth(wordCount))
  }

  /** A token at the start of a round: hidden exactly when its position was
      selected; an empty input; `empty` when hidden, `correct` otherwise. */
  function Fresh(t: Token, blanks: seq<int>): GameToken {
    var hidden := t.originalIndex in blanks;
    GameToken(t.id, t.text, t.isWord, t.originalIndex, hidden, "", if hidden then Empty else Correct)
  }

  /** Every token in its start-of-round form. */
  function RoundTokens(raw: seq<Token>, blanks: seq<int>): (ts: seq<GameToken>)
    ensures |ts| == |raw|
    ensures forall i :: 0 <= i < |raw| ==> ts[i] == Fresh(raw[i], blanks)
    ensures forall i :: 0 <= i < |raw| ==> Base(ts[i]) == raw[i] && ts[i].userValue == ""
  {
    seq(|raw|, i requires 0 <= i < |raw| => Fresh(raw[i], blanks))
  }

  /** A round hiding exactly the tokens at the `blanks` positions. */
  function NewRound(raw: seq<Token>, blanks: seq<int>): (r: Round)
    requires WellIndexed(raw)
    requires DistinctTokenIds(raw)
    requires StrictlyAscending(blanks)
    requires forall p :: p in blanks ==> IsLongWordAt(raw, MinWordLen, p)
    ensures |r.tokens| == |raw|
    ensures forall i :: 0 <= i < |raw| ==> Base(r.tokens[i]) == raw[i] && r.tokens[i].userValue == ""
    ensures HidesExactly(r, blanks)
    ensures forall i :: 0 <= i < |raw| ==> r.tokens[i].state == if i in blanks then Empty else Correct
    ensures forall i :: 0 <= i < |r.tokens| && r.tokens[i].isBlank ==>
      r.tokens[i].isWord && |r.tokens[i].text| >= MinWordLen
    ensures r.solvedCount == 0 && r.totalBlanks == |blanks| == Count(r.tokens, IsBlank)
    ensures RoundInvariant(r)
  {
    StrictlyAscendingIsDistinct(blanks);
    SelectedAreLongWords(raw, blanks);
    FreshHidesLongWords(raw, blanks);
    FreshInvariant(raw, blanks);
    Round(RoundTokens(raw, blanks), 0, |blanks|)
  }

  /** What a round over `raw` looks like when it starts: the tokens of
      `raw` in order with empty inputs, hidden tokens `empty` and shown
      ones `correct`, only long words hidden, at most
      `NumBlanks(words)` of them, nothing solved yet, and the round
      invariant in force with every blank still hidden. */
  predicate StartsFresh(raw: seq<Token>, r: Round) {
    && |r.tokens| == |raw|
    && (forall i :: 0 <= i < |raw| ==> Base(r.tokens[i]) == raw[i] && r.tokens[i].userValue == "")
    && (forall i :: 0 <= i < |r.tokens| ==> r.tokens[i].state == if r.tokens[i].isBlank then Empty else Correct)
    && (forall i :: 0 <= i < |r.tokens| && r.tokens[i].isBlank ==>
          r.tokens[i].isWord && |r.tokens[i].text| >= MinWordLen)
    && r.solvedCount == 0 && r.totalBlanks == Count(r.tokens, IsBlank)
    && r.totalBlanks <= NumBlanks(WordCount(raw))
    && RoundInvariant(r)
  }

  /** The round hides exactly the token positions listed in `blanks`. */
  predicate HidesExactly(r: Round, blanks: seq<int>) {
    forall i :: 0 <= i < |r.tokens| ==> (r.tokens[i].isBlank <==> i in blanks)
  }

  /** A round over already tokenized text: ask the selector for
      `NumBlanks(words)` positions and hide exactly those. */
  function RoundOver(raw: seq<Token>, known: set<int>, newPool: seq<int>, oldPool: seq<int>): (r: Round)
    requires WellIndexed(raw)
    requires DistinctTokenIds(raw)
    requires multiset(newPool) == multiset(Unguessed(raw, known, MinWordLen))
    requires multiset(oldPool) == multiset(Guessed(raw, known, MinWordLen))
    ensures StartsFresh(raw, r)
    ensures HidesExactly(r, SelectBlankIndices(raw, known, NumBlanks(WordCount(raw)), MinWordLen, newPool, oldPool))
  {
    var n := NumBlanks(WordCount(raw));
    var blanks := SelectBlankIndices(raw, known, n, MinWordLen, newPool, oldPool);
    SelectionStrictlyAscending(raw, known, n, MinWordLen, newPool, oldPool);
    SelectedAreLongWords(raw, blanks);
    NewRoundStartsFresh(raw, blanks);
    NewRound(raw, blanks)
  }

  /** A round hiding at most `NumBlanks(words)` long-word positions starts
      fresh. */
  lemma NewRoundStartsFresh(raw: seq<Token>, blanks: seq<int>)
    requires WellIndexed(raw)
    requires DistinctTokenIds(raw)
    requires StrictlyAscending(blanks)
    requires forall p :: p in blanks ==> IsLongWordAt(raw, MinWordLen, p)
    requires |blanks| <= NumBlanks(WordCount(raw))
    ensures StartsFresh(raw, NewRound(raw, blanks))
  {
  }

  /** `startNewRound`: tokenize the text, ask the selector for
      `NumBlanks(words)` positions, and hide exactly those. The shuffled
      pools stand for the selector's randomness. */
  function StartNewRound(content: string, known: set<int>, newPool: seq<int>, oldPool: seq<int>): (r: Round)
    requires multiset(newPool) == multiset(Unguessed(Tokenize(content), known, MinWordLen))
    requires multiset(oldPool) == multiset(Guessed(Tokenize(content), known, MinWordLen))
    ensures StartsFresh(Tokenize(content), r)
    ensures HidesExactly(r, SelectBlankIndices(Tokenize(content), known, NumBlanks(WordCount(Tokenize(content))),
                                               MinWordLen, newPool, oldPool))
  {
    TokenIdsDistinct(content);
    RoundOver(Tokenize(content), known, newPool, oldPool)
  }

  /** Only long words are hidden when only long-word positions are
      selected. */
  lemma FreshHidesLongWords(raw: seq<Token>, blanks: seq<int>)
    requires WellIndexed(raw)
    requires forall p :: p in blanks ==> IsLongWordAt(raw, MinWordLen, p)
    ensures var tokens := RoundTokens(raw, blanks);
      forall i :: 0 <= i < |tokens| && tokens[i].isBlank ==>
        tokens[i].isWord && |tokens[i].text| >= MinWordLen
  {
    SelectedAreLongWords(raw, blanks);
  }

  /** Hiding a selection of positions of well-indexed tokens without
      repeats hides one token per selected position. */
  lemma FreshBlankCount(raw: seq<Token>, blanks: seq<int>)
    requires WellIndexed(raw)
    requires Distinct(blanks)
    requires forall p :: p in blanks ==> 0 <= p < |raw|
    ensures Count(RoundTokens(raw, blanks), IsBlank) == |blanks|
  {
    var tokens := RoundTokens(raw, blanks);
    var b := set p | p in blanks;
    var positions := seq(|raw|, i => i);
    CountAgree(tokens, positions, IsBlank, (p: int) => p in b);
    CountPositions(|raw|, b);
    assert (set p | 0 <= p < |raw| && p in b) == b;
    DistinctCardinality(blanks);
  }

  /** A fresh round over tokens with distinct ids satisfies the round
      invariant, with every selected position counted as a hidden blank. */
  lemma FreshInvariant(raw: seq<Token>, blanks: seq<int>)
    requires WellIndexed(raw)
    requires DistinctTokenIds(raw)
    requires Distinct(blanks)
    requires forall p :: p in blanks ==> 0 <= p < |raw|
    ensures Count(RoundTokens(raw, blanks), IsBlank) == |blanks|
    ensures RoundInvariant(Round(RoundTokens(raw, blanks), 0, |blanks|))
  {
    var tokens := RoundTokens(raw, blanks);
    FreshBlankCount(raw, blanks);
    CountNone(tokens, IsHinted);
  }

  /** On well-indexed tokens a long-word position is the index of a
      long word. */
  lemma SelectedAreLongWords(raw: seq<Token>, blanks: seq<int>)
    requires WellIndexed(raw)
    requires forall p :: p in blanks ==> IsLongWordAt(raw, MinWordLen, p)
    ensures forall p :: p in blanks ==> 0 <= p < |raw| && IsCandidate(raw[p], MinWordLen)
  {
    forall p | p in blanks ensures 0 <= p < |raw| && IsCandidate(raw[p], MinWordLen) {
      assert IsLongWordAt(raw, MinWordLen, p);
      var k :| 0 <= k < |raw| && IsCandidate(raw[k], MinWordLen) && raw[k].originalIndex == p;
      assert k == p;
    }
  }

  // ---------------------------------------------------------------------
  // Single-token updates
  // ---------------------------------------------------------------------

  /** `findIndex` by id: the first token carrying `id`, if any. */
  function FindIndex(ts: seq<GameToken>, id: string): (r: Option<nat>)
    ensures r.None? <==> forall i :: 0 <= i < |ts| ==> ts[i].id != id
    ensures r.Some? ==> r.value < |ts| && ts[r.value].id == id
    ensures r.Some? ==> forall i :: 0 <= i < r.value ==> ts[i].id != id
  {
    if |ts| == 0 then None
    else if ts[0].id == id then Some(0)
    else
      match FindIndex(ts[1..], id)
      case None => None
      case Some(k) => Some(k + 1)
  }

  /** One token after typing `value` into the input for `id`. */
  function Typed(t: GameToken, id: string, value: string): GameToken {
    if t.id != id then t
    else t.(userValue := value, state := if t.state == Error && value == "" then Empty else t.state)
  }

  /** `handleInputChange`: every token carrying `id` takes the typed value;
      clearing an input in the `error` state returns it to `empty`; nothing
      else changes. */
  function ChangeInput(ts: seq<GameToken>, id: string, value: string): (r: seq<GameToken>)
    ensures |r| == |ts|
    ensures forall i :: 0 <= i < |ts| && ts[i].id != id ==> r[i] == ts[i]
    ensures forall i :: 0 <= i < |ts| && ts[i].id == id ==>
      && r[i].userValue == value
      && r[i].(userValue := ts[i].userValue, state := ts[i].state) == ts[i]
      && (r[i].state != ts[i].state <==> ts[i].state == Error && value == "")
    ensures forall i :: 0 <= i < |ts| && r[i].state != ts[i].state ==> r[i].state == Empty
  {
    seq(|ts|, i requires 0 <= i < |ts| => Typed(ts[i], id, value))
  }

  /** The comparison `checkAnswer` makes: the trimmed, lower-cased input
      against the lower-cased (untrimmed) token text. */
  predicate Matches(input: string, target: string) {
    Lower(Trim(input)) == Lower(target)
  }

  /** `checkAnswer` once the token at index `k` has been found. With
      `forceHint`: fill in the text, mark it `hint`, unhide it and report
      its position. Otherwise a matching input marks it `correct`, unhides
      it, reports it and counts it as solved; a wrong input marks it
      `error` and changes nothing else. No other token changes. */
  function CheckAt(r: Round, k: nat, forceHint: bool): (o: Outcome)
    requires k < |r.tokens|
    ensures |o.round.tokens| == |r.tokens| && o.round.totalBlanks == r.totalBlanks
    ensures forall i :: 0 <= i < |r.tokens| && i != k ==> o.round.tokens[i] == r.tokens[i]
    ensures Base(o.round.tokens[k]) == Base(r.tokens[k])
    ensures forceHint ==>
      var t, t' := r.tokens[k], o.round.tokens[k];
      && t'.state == Hint && !t'.isBlank && t'.userValue == t.text
      && o.round.solvedCount == r.solvedCount && o.reported == [t.originalIndex]
    ensures !forceHint && Matches(r.tokens[k].userValue, r.tokens[k].text) ==>
      var t, t' := r.tokens[k], o.round.tokens[k];
      && t'.state == Correct && !t'.isBlank && t'.userValue == t.userValue
      && o.round.solvedCount == r.solvedCount + 1 && o.reported == [t.originalIndex]
    ensures !forceHint && !Matches(r.tokens[k].userValue, r.tokens[k].text) ==>
      && o.round.tokens[k] == r.tokens[k].(state := Error)
      && o.round.solvedCount == r.solvedCount && o.reported == []
  {
    var t := r.tokens[k];
    if forceHint then
      Outcome(r.(tokens := r.tokens[k := t.(userValue := t.text, state := Hint, isBlank := false)]),
              [t.originalIndex])
    else if Matches(t.userValue, t.text) then
      Outcome(Round(r.tokens[k := t.(state := Correct, isBlank := false)], r.solvedCount + 1, r.totalBlanks),
              [t.originalIndex])
    else
      Outcome(r.(tokens := r.tokens[k := t.(state := Error)]), [])
  }

  /** `checkAnswer`: an id no token carries changes nothing; otherwise the
      first token carrying it is checked. */
  function CheckAnswer(r: Round, id: string, forceHint: bool): (o: Outcome)
    ensures (forall i :: 0 <= i < |r.tokens| ==> r.tokens[i].id != id) ==> o == Outcome(r, [])
    ensures forall k {:trigger CheckAt(r, k, forceHint)} :: (0 <= k < |r.tokens| && r.tokens[k].id == id
      && (forall i :: 0 <= i < k ==> r.tokens[i].id != id)) ==> o == CheckAt(r, k, forceHint)
  {
    match FindIndex(r.tokens, id)
    case None => Outcome(r, [])
    case Some(k) => CheckAt(r, k, forceHint)
  }

  /** An input the page shows and leaves enabled: the token is a blank
      (inputs are drawn for blanks and hinted tokens) and is neither
      `correct` nor `hint` (those inputs are disabled and lose their hint
      button). These are also exactly the tokens `checkAll` visits. */
  predicate Open(t: GameToken) {
    t.isBlank && t.state != Correct && t.state != Hint
  }

  // ---------------------------------------------------------------------
  // Checking every open blank
  // ---------------------------------------------------------------------

  /** The ids `checkAll` visits, in page order. */
  function PendingIds(ts: seq<GameToken>): (ids: seq<string>)
    ensures |ids| <= |ts|
  {
    if |ts| == 0 then []
    else (if Open(ts[0]) then [ts[0].id] else []) + PendingIds(ts[1..])
  }

  /** Checking the given ids one after another, each on the round the
      previous check left behind. */
  function CheckIds(r: Round, ids: seq<string>): (o: Outcome)
    ensures |o.round.tokens| == |r.tokens| && o.round.totalBlanks == r.totalBlanks
    ensures |o.reported| <= |ids|
    decreases |ids|
  {
    if |ids| == 0 then Outcome(r, [])
    else
      var first := CheckAnswer(r, ids[0], false);
      var rest := CheckIds(first.round, ids[1..]);
      Outcome(rest.round, first.reported + rest.reported)
  }

  /** `checkAll`: check every open blank of the round as it was when the
      button was pressed. */
  function CheckAll(r: Round): (o: Outcome)
    ensures |o.round.tokens| == |r.tokens| && o.round.totalBlanks == r.totalBlanks
    ensures |o.reported| <= |r.tokens|
  {
    CheckIds(r, PendingIds(r.tokens))
  }

  /** What checking does to one open blank, independently of the fold:
      a matching input makes it `correct` and unhides it, a wrong one
      marks it `error`. */
  function Judge(t: GameToken): GameToken {
    if Matches(t.userValue, t.text) then t.(state := Correct, isBlank := false) else t.(state := Error)
  }

  /** An open blank whose input matches. */
  predicate Solvable(t: GameToken) {
    Open(t) && Matches(t.userValue, t.text)
  }

  /** `Judge` on open blanks, identity elsewhere. */
  function Settle(t: GameToken): GameToken {
    if Open(t) then Judge(t) else t
  }

  /** The tokens with the first `j` settled. */
  function SettledUpTo(ts: seq<GameToken>, j: nat): (r: seq<GameToken>)
    requires j <= |ts|
    ensures |r| == |ts|
  {
    seq(|ts|, i requires 0 <= i < |ts| => if i < j then Settle(ts[i]) else ts[i])
  }

  /** The positions of the tokens `keep` accepts, in page order. */
  function KeptPositions(ts: seq<GameToken>, keep: GameToken -> bool): (ps: seq<int>)
    ensures |ps| <= |ts|
  {
    if |ts| == 0 then []
    else (if keep(ts[0]) then [ts[0].originalIndex] else []) + KeptPositions(ts[1..], keep)
  }

  /** The positions of the solvable tokens, in page order. */
  function SolvedPositions(ts: seq<GameToken>): (ps: seq<int>)
    ensures |ps| <= |ts|
  {
    KeptPositions(ts, Solvable)
  }

  /** The fold over the pending ids of `ts[j..]`, started with the first
      `j` tokens already settled, settles the rest. */
  lemma {:induction false} CheckIdsSettles(ts: seq<GameToken>, j: nat, solved: int, total: int)
    requires DistinctIds(ts) && j <= |ts|
    ensures CheckIds(Round(SettledUpTo(ts, j), solved, total), PendingIds(ts[j..]))
         == Outcome(Round(SettledUpTo(ts, |ts|), solved + |SolvedPositions(ts[j..])|, total),
                    SolvedPositions(ts[j..]))
    decreases |ts| - j
  {
    if j == |ts| {
      assert ts[j..] == [];
    } else {
      var mine := if Solvable(ts[j]) then [ts[j].originalIndex] else [];
      var rest := ts[j + 1..];
      CheckNextPending(ts, j, solved, total);
      CheckIdsSettles(ts, j + 1, solved + |mine|, total);
      PendingAndSolvedStep(ts, j);
      assert |SolvedPositions(ts[j..])| == |mine| + |SolvedPositions(rest)|;
    }
  }

  /** One step of the fold: the pending ids of `ts[j..]`, with the first
      `j` tokens settled, are checked by settling `ts[j]` and going on
      with the pending ids of `ts[j + 1..]`. */
  lemma CheckNextPending(ts: seq<GameToken>, j: nat, solved: int, total: int)
    requires DistinctIds(ts) && j < |ts|
    ensures var mine := if Solvable(ts[j]) then [ts[j].originalIndex] else [];
      var after := CheckIds(Round(SettledUpTo(ts, j + 1), solved + |mine|, total), PendingIds(ts[j + 1..]));
      CheckIds(Round(SettledUpTo(ts, j), solved, total), PendingIds(ts[j..]))
        == Outcome(after.round, mine + after.reported)
  {
    if Open(ts[j]) {
      PendingAndSolvedStep(ts, j);
      CheckPendingThenRest(ts, j, solved, total, PendingIds(ts[j + 1..]));
    } else {
      SkipClosed(ts, j, solved, total);
      var after := CheckIds(Round(SettledUpTo(ts, j + 1), solved, total), PendingIds(ts[j + 1..]));
      assert [] + after.reported == after.reported;
    }
  }

  /** A token that is not an open blank is passed over. */
  lemma SkipClosed(ts: seq<GameToken>, j: nat, solved: int, total: int)
    requires j < |ts| && !Open(ts[j])
    ensures CheckIds(Round(SettledUpTo(ts, j), solved, total), PendingIds(ts[j..]))
         == CheckIds(Round(SettledUpTo(ts, j + 1), solved, total), PendingIds(ts[j + 1..]))
  {
    var cur, next := SettledUpTo(ts, j), SettledUpTo(ts, j + 1);
    assert cur == next by {
      forall i | 0 <= i < |ts| ensures cur[i] == next[i] {
      }
    }
    assert PendingIds(ts[j..]) == PendingIds(ts[j + 1..]) by {
      PendingAndSolvedStep(ts, j);
    }
  }

  /** Checking the next open blank first and then any further ids is
      settling that blank and going on from there. */
  lemma CheckPendingThenRest(ts: seq<GameToken>, j: nat, solved: int, total: int, ids: seq<string>)
    requires DistinctIds(ts) && j < |ts| && Open(ts[j])
    ensures var mine := if Solvable(ts[j]) then [ts[j].originalIndex] else [];
      var after := CheckIds(Round(SettledUpTo(ts, j + 1), solved + |mine|, total), ids);
      CheckIds(Round(SettledUpTo(ts, j), solved, total), [ts[j].id] + ids)
        == Outcome(after.round, mine + after.reported)
  {
    var r := Round(SettledUpTo(ts, j), solved, total);
    CheckPending(ts, j, solved, total);
    CheckIdsCons(r, ts[j].id, ids);
  }

  /** The pending ids and the solved positions of `ts[j..]` split into
      those of `ts[j]` and those of the rest. */
  lemma PendingAndSolvedStep(ts: seq<GameToken>, j: nat)
    requires j < |ts|
    ensures PendingIds(ts[j..]) == (if Open(ts[j]) then [ts[j].id] else []) + PendingIds(ts[j + 1..])
    ensures SolvedPositions(ts[j..]) == (if Solvable(ts[j]) then [ts[j].originalIndex] else []) + SolvedPositions(ts[j + 1..])
  {
    assert ts[j..][0] == ts[j] && ts[j..][1..] == ts[j + 1..];
  }

  /** Folding over a first id and the rest is checking the first id and
      folding over the rest from there. */
  lemma CheckIdsCons(r: Round, id: string, ids: seq<string>)
    ensures var first := CheckAnswer(r, id, false);
      var after := CheckIds(first.round, ids);
      CheckIds(r, [id] + ids) == Outcome(after.round, first.reported + after.reported)
  {
    assert ([id] + ids)[0] == id && ([id] + ids)[1..] == ids;
  }

  /** Checking the id of the next open blank, with the ones before it
      settled, settles it. */
  lemma CheckPending(ts: seq<GameToken>, j: nat, solved: int, total: int)
    requires DistinctIds(ts) && j < |ts| && Open(ts[j])
    ensures CheckAnswer(Round(SettledUpTo(ts, j), solved, total), ts[j].id, false)
         == Outcome(Round(SettledUpTo(ts, j + 1), solved + (if Solvable(ts[j]) then 1 else 0), total),
                    if Solvable(ts[j]) then [ts[j].originalIndex] else [])
  {
    var cur := SettledUpTo(ts, j);
    assert cur[j] == ts[j];
    forall i | 0 <= i < j ensures cur[i].id != cur[j].id {
      assert cur[i].id == ts[i].id;
    }
    CheckFindsFirst(Round(cur, solved, total), j, false);
    SettleNext(ts, j, solved, total);
  }

  /** Checking the id of a token no earlier token carries checks that token. */
  lemma CheckFindsFirst(r: Round, k: nat, forceHint: bool)
    requires k < |r.tokens|
    requires forall i :: 0 <= i < k ==> r.tokens[i].id != r.tokens[k].id
    ensures CheckAnswer(r, r.tokens[k].id, forceHint) == CheckAt(r, k, forceHint)
  {
  }

  /** Checking the next open blank, with the ones before it settled,
      settles it. */
  lemma SettleNext(ts: seq<GameToken>, j: nat, solved: int, total: int)
    requires j < |ts| && Open(ts[j])
    ensures CheckAt(Round(SettledUpTo(ts, j), solved, total), j, false)
         == Outcome(Round(SettledUpTo(ts, j + 1), solved + (if Solvable(ts[j]) then 1 else 0), total),
                    if Solvable(ts[j]) then [ts[j].originalIndex] else [])
  {
    var cur := SettledUpTo(ts, j);
    var next := SettledUpTo(ts, j + 1);
    assert cur[j] == ts[j];
    assert cur[j := Settle(ts[j])] == next by {
      forall i | 0 <= i < |ts| ensures cur[j := Settle(ts[j])][i] == next[i] {
      }
    }
  }

  /** `checkAll` settles every open blank and leaves every other token
      alone; it counts and reports, in page order, exactly the open blanks
      whose input matches. */
  lemma CheckAllSettles(r: Round)
    requires DistinctIds(r.tokens)
    ensures var o := CheckAll(r);
      && |o.round.tokens| == |r.tokens|
      && (forall i :: 0 <= i < |r.tokens| ==>
            o.round.tokens[i] == if Open(r.tokens[i]) then Judge(r.tokens[i]) else r.tokens[i])
      && o.reported == SolvedPositions(r.tokens)
      && o.round.solvedCount == r.solvedCount + |SolvedPositions(r.tokens)|
      && o.round.totalBlanks == r.totalBlanks
  {
    assert SettledUpTo(r.tokens, 0) == r.tokens;
    assert r.tokens[0..] == r.tokens;
    CheckIdsSettles(r.tokens, 0, r.solvedCount, r.totalBlanks);
  }

  /** The number of solved positions is the number of solvable tokens. */
  lemma {:induction false} SolvedPositionsCount(ts: seq<GameToken>)
    ensures |SolvedPositions(ts)| == Count(ts, Solvable)
  {
    if |ts| > 0 {
      assert ts == [ts[0]] + ts[1..];
      CountCons(ts[0], ts[1..], Solvable);
      SolvedPositionsCount(ts[1..]);
    }
  }

  // ---------------------------------------------------------------------
  // The round as driven by the page
  // ---------------------------------------------------------------------

  /** What the learner can do on the page. */
  datatype Event =
    | Edit(id: string, value: string)   // typing into an input
    | Blur(id: string)                  // leaving an input
    | AskHint(id: string)               // the hint button of an input
    | CheckAllPressed                   // the "Check" button

  /** The input for `id` is on the page and enabled. */
  predicate Accepts(ts: seq<GameToken>, id: string) {
    match FindIndex(ts, id)
    case None => false
    case Some(k) => Open(ts[k])
  }

  /** An event reaches only a token that carries its id and is still
      open; with distinct ids, every open token lets its events through. */
  lemma AcceptsOpen(ts: seq<GameToken>, id: string)
    ensures Accepts(ts, id) ==> exists k :: 0 <= k < |ts| && ts[k].id == id && Open(ts[k])
    ensures DistinctIds(ts) ==>
      (Accepts(ts, id) <==> exists k :: 0 <= k < |ts| && ts[k].id == id && Open(ts[k]))
  {
  }

  /** One event: input events reach only enabled inputs. */
  function Step(r: Round, e: Event): (o: Outcome)
    ensures |o.round.tokens| == |r.tokens| && o.round.totalBlanks == r.totalBlanks
  {
    match e
    case Edit(id, value) =>
      if Accepts(r.tokens, id) then Outcome(r.(tokens := ChangeInput(r.tokens, id, value)), []) else Outcome(r, [])
    case Blur(id) =>
      if Accepts(r.tokens, id) then CheckAnswer(r, id, false) else Outcome(r, [])
    case AskHint(id) =>
      if Accepts(r.tokens, id) then CheckAnswer(r, id, true) else Outcome(r, [])
    case CheckAllPressed =>
      CheckAll(r)
  }

  /** A sequence of events, collecting the reported positions. */
  function Run(r: Round, es: seq<Event>): Outcome
    decreases |es|
  {
    if |es| == 0 then Outcome(r, [])
    else
      var a := Step(r, es[0]);
      var b := Run(a.round, es[1..]);
      Outcome(b.round, a.reported + b.reported)
  }

  /** A hidden token is `empty` or `error`; a shown one is `correct` or
      `hint`. */
  predicate Consistent(t: GameToken) {
    if t.isBlank then t.state == Empty || t.state == Error else t.state == Correct || t.state == Hint
  }

  /** What holds throughout a round: ids stay distinct, every token stays
      at its position, every token is consistent, and each of the round's
      blanks is accounted for exactly once, as solved, as hinted, or as
      still hidden. */
  predicate RoundInvariant(r: Round) {
    && DistinctIds(r.tokens)
    && InPlace(r.tokens)
    && (forall i :: 0 <= i < |r.tokens| ==> Consistent(r.tokens[i]))
    && 0 <= r.solvedCount
    && r.solvedCount + Count(r.tokens, IsHinted) + Count(r.tokens, IsBlank) == r.totalBlanks
  }

  /** Checking one open blank keeps the invariant. */
  lemma CheckOneKeepsInvariant(r: Round, id: string, forceHint: bool)
    requires RoundInvariant(r) && Accepts(r.tokens, id)
    ensures RoundInvariant(CheckAnswer(r, id, forceHint).round)
  {
    var k := FindIndex(r.tokens, id).value;
    var o := CheckAt(r, k, forceHint);
    assert CheckAnswer(r, id, forceHint) == o;
    var ts, ts' := r.tokens, o.round.tokens;
    assert Open(ts[k]) && Consistent(ts'[k]);
    forall i | 0 <= i < |ts|
      ensures Base(ts'[i]) == Base(ts[i]) && Consistent(ts'[i])
    {
      if i != k {
        assert ts'[i] == ts[i];
      }
    }
    assert ts' == ts[k := ts'[k]];
    CountUpdate(ts, k, ts'[k], IsHinted);
    CountUpdate(ts, k, ts'[k], IsBlank);
  }

  /** `checkAll` keeps the invariant. */
  lemma CheckAllKeepsInvariant(r: Round)
    requires RoundInvariant(r)
    ensures RoundInvariant(CheckAll(r).round)
  {
    var o := CheckAll(r);
    var ts, ts' := r.tokens, o.round.tokens;
    CheckAllSettles(r);
    forall i | 0 <= i < |ts|
      ensures ts'[i] == Settle(ts[i])
      ensures Consistent(ts'[i]) && ts'[i].id == ts[i].id
      ensures IsBlank(ts[i]) <==> IsBlank(ts'[i]) || Solvable(ts[i])
      ensures !(IsBlank(ts'[i]) && Solvable(ts[i]))
      ensures IsHinted(ts[i]) <==> IsHinted(ts'[i])
    {
      SettleKeepsConsistent(ts[i]);
    }
    SolvedPositionsCount(ts);
    CountSplit(ts, ts', IsBlank, IsBlank, Solvable);
    CountAgree(ts, ts', IsHinted, IsHinted);
  }

  /** Settling a consistent token keeps it consistent, keeps its id and
      its hint, and unhides it exactly when it was solvable. */
  lemma SettleKeepsConsistent(t: GameToken)
    requires Consistent(t)
    ensures Consistent(Settle(t)) && Settle(t).id == t.id
    ensures IsBlank(t) <==> IsBlank(Settle(t)) || Solvable(t)
    ensures !(IsBlank(Settle(t)) && Solvable(t))
    ensures IsHinted(t) <==> IsHinted(Settle(t))
  {
  }

  /** Typing keeps the invariant, wherever it happens. */
  lemma EditKeepsInvariant(r: Round, id: string, value: string)
    requires RoundInvariant(r)
    ensures RoundInvariant(r.(tokens := ChangeInput(r.tokens, id, value)))
  {
    var ts, ts' := r.tokens, ChangeInput(r.tokens, id, value);
    forall i | 0 <= i < |ts|
      ensures Consistent(ts'[i]) && ts'[i].id == ts[i].id
      ensures IsBlank(ts[i]) <==> IsBlank(ts'[i])
      ensures IsHinted(ts[i]) <==> IsHinted(ts'[i])
    {
    }
    CountAgree(ts, ts', IsHinted, IsHinted);
    CountAgree(ts, ts', IsBlank, IsBlank);
  }

  /** Every event keeps the invariant. */
  lemma StepKeepsInvariant(r: Round, e: Event)
    requires RoundInvariant(r)
    ensures RoundInvariant(Step(r, e).round)
  {
    match e
    case Edit(id, value) =>
      EditKeepsInvariant(r, id, value);
    case Blur(id) =>
      if Accepts(r.tokens, id) {
        CheckOneKeepsInvariant(r, id, false);
      }
    case AskHint(id) =>
      if Accepts(r.tokens, id) {
        CheckOneKeepsInvariant(r, id, true);
      }
    case CheckAllPressed =>
      CheckAllKeepsInvariant(r);
  }

  /** Whatever the learner does, the invariant survives, so the solved
      count never exceeds the number of blanks the round started with. */
  lemma {:induction false} RunKeepsInvariant(r: Round, es: seq<Event>)
    requires RoundInvariant(r)
    ensures RoundInvariant(Run(r, es).round)
    ensures 0 <= Run(r, es).round.solvedCount <= Run(r, es).round.totalBlanks == r.totalBlanks
    decreases |es|
  {
    if |es| > 0 {
      StepKeepsInvariant(r, es[0]);
      RunKeepsInvariant(Step(r, es[0]).round, es[1..]);
    }
  }

  /** A token that is not open (already correct, hinted, or never hidden)
      is never changed again. */
  lemma StepKeepsClosed(r: Round, e: Event, i: nat)
    requires RoundInvariant(r) && i < |r.tokens| && !Open(r.tokens[i])
    ensures |Step(r, e).round.tokens| == |r.tokens|
    ensures Step(r, e).round.tokens[i] == r.tokens[i]
  {
    match e
    case Edit(id, value) =>
    case Blur(id) =>
    case AskHint(id) =>
    case CheckAllPressed =>
      CheckAllSettles(r);
  }

  /** Editing twice with the same value is editing once. */
  lemma ChangeInputIdempotent(ts: seq<GameToken>, id: string, value: string)
    ensures ChangeInput(ChangeInput(ts, id, value), id, value) == ChangeInput(ts, id, value)
  {
  }

  /** The token's own text, in any letter case and padded with any
      whitespace, is accepted: word tokens hold no whitespace, so trimming
      the input recovers the word. */
  lemma AnyCasingIsAccepted(tokens: seq<Token>, i: nat, pre: string, typed: string, suf: string)
    requires i < |tokens|
    requires forall k :: 0 <= k < |tokens| ==>
      IsRun(tokens[k].text) && (tokens[k].isWord <==> ClassOf(tokens[k].text[0]) == WordClass)
    requires tokens[i].isWord
    requires forall k :: 0 <= k < |pre| ==> IsSpace(pre[k])
    requires forall k :: 0 <= k < |suf| ==> IsSpace(suf[k])
    requires Lower(typed) == Lower(tokens[i].text)
    ensures Matches(pre + typed + suf, tokens[i].text)
  {
    var w := tokens[i].text;
    assert |typed| == |w|;
    assert !IsSpace(w[0]) && !IsSpace(w[|w| - 1]) by {
      WordAndSpaceDisjoint(w[0]);
      WordAndSpaceDisjoint(w[|w| - 1]);
    }
    assert !IsSpace(typed[0]) && !IsSpace(typed[|typed| - 1]) by {
      NoSpaceUnderLower(typed[0], w[0]);
      NoSpaceUnderLower(typed[|typed| - 1], w[|w| - 1]);
    }
    TrimPadded(pre, typed, suf);
  }

  /** Two characters that lower-case alike are both spaces or neither. */
  lemma NoSpaceUnderLower(a: char, b: char)
    requires LowerChar(a) == LowerChar(b) && !IsSpace(b)
    ensures !IsSpace(a)
  {
  }

  /** The answer test character by character: the trimmed input has the
      word's length and agrees with it at every position up to letter
      case. */
  lemma MatchesPointwise(input: string, target: string)
    ensures Matches(input, target) <==>
      && |Trim(input)| == |target|
      && forall i :: 0 <= i < |target| ==> LowerChar(Trim(input)[i]) == LowerChar(target[i])
  {
  }

  /** The comparison ignores letter case on both sides and surrounding
      whitespace in the input: lower-casing either side, or trimming the
      input first, never changes the verdict. */
  lemma MatchesNormalises(input: string, target: string)
    ensures Matches(input, target) <==> Matches(Lower(input), target)
    ensures Matches(input, target) <==> Matches(input, Lower(target))
    ensures Matches(input, target) <==> Matches(Trim(input), target)
  {
    TrimLower(input);
    LowerIdempotent(Trim(input));
    LowerIdempotent(target);
    TrimIdempotent(input);
  }

  // ---------------------------------------------------------------------
  // What a round reports as known
  // ---------------------------------------------------------------------

  /** On tokens numbered from `b`, the kept positions rise strictly and
      each names a token `keep` accepts. */
  lemma {:induction false} KeptPositionsFrom(ts: seq<GameToken>, b: int, keep: GameToken -> bool)
    requires forall i :: 0 <= i < |ts| ==> ts[i].originalIndex == b + i
    ensures StrictlyAscending(KeptPositions(ts, keep))
    ensures forall p :: p in KeptPositions(ts, keep) ==> b <= p < b + |ts| && keep(ts[p - b])
    decreases |ts|
  {
    if |ts| > 0 {
      var tail := ts[1..];
      NumberedTail(ts, b);
      KeptPositionsFrom(tail, b + 1, keep);
      var rest := KeptPositions(tail, keep);
      if keep(ts[0]) {
        assert KeptPositions(ts, keep) == [b] + rest;
        StrictlyAscendingCons(b, rest);
      } else {
        assert KeptPositions(ts, keep) == rest;
      }
      forall p | p in rest ensures keep(ts[p - b]) {
        assert ts[p - b] == tail[p - b - 1];
      }
    }
  }

  /** On tokens numbered from `b`, the solved positions are strictly
      ascending and each names a solvable token. */
  lemma SolvedPositionsFrom(ts: seq<GameToken>, b: int)
    requires forall i :: 0 <= i < |ts| ==> ts[i].originalIndex == b + i
    ensures StrictlyAscending(SolvedPositions(ts))
    ensures forall p :: p in SolvedPositions(ts) ==> b <= p < b + |ts| && Solvable(ts[p - b])
  {
    KeptPositionsFrom(ts, b, Solvable);
  }

  /** Dropping the first of the tokens numbered from `b` leaves tokens
      numbered from `b + 1`. */
  lemma NumberedTail(ts: seq<GameToken>, b: int)
    requires |ts| > 0
    requires forall i :: 0 <= i < |ts| ==> ts[i].originalIndex == b + i
    ensures forall i :: 0 <= i < |ts| - 1 ==> ts[1..][i].originalIndex == b + 1 + i
  {
    forall i | 0 <= i < |ts| - 1 ensures ts[1..][i].originalIndex == b + 1 + i {
      assert ts[1..][i] == ts[i + 1];
    }
  }

  /** What one step does to the round's tokens and what it reports, for
      the invariant's rounds. No token changes its text, id, word flag or
      position; a closed token never reopens; and the reported positions
      are distinct, each the position of a token that was open and that
      the step closed. */
  predicate ClosesWhatItReports(r: Round, o: Outcome) {
    && |o.round.tokens| == |r.tokens|
    && (forall i :: 0 <= i < |r.tokens| ==> Base(o.round.tokens[i]) == Base(r.tokens[i]))
    && (forall i :: 0 <= i < |r.tokens| && Open(o.round.tokens[i]) ==> Open(r.tokens[i]))
    && Distinct(o.reported)
    && (forall p :: p in o.reported ==> 0 <= p < |r.tokens| && Open(r.tokens[p]) && !Open(o.round.tokens[p]))
  }

  /** Judging an open blank keeps its text, id, word flag and position,
      and closes it exactly when its input matches. */
  lemma JudgeCloses(t: GameToken)
    requires Open(t)
    ensures Base(Judge(t)) == Base(t)
    ensures !Open(Judge(t)) <==> Matches(t.userValue, t.text)
  {
  }

  /** Checking one enabled input reports at most its own position, and
      only when the check closes it. */
  lemma CheckOneReports(r: Round, id: string, forceHint: bool)
    requires RoundInvariant(r) && Accepts(r.tokens, id)
    ensures ClosesWhatItReports(r, CheckAnswer(r, id, forceHint))
  {
    var k := FindIndex(r.tokens, id).value;
    var o := CheckAnswer(r, id, forceHint);
    assert o == CheckAt(r, k, forceHint);
    assert Open(r.tokens[k]) && r.tokens[k].originalIndex == k;
    forall i | 0 <= i < |r.tokens|
      ensures Base(o.round.tokens[i]) == Base(r.tokens[i])
      ensures Open(o.round.tokens[i]) ==> Open(r.tokens[i])
    {
      if i != k {
        assert o.round.tokens[i] == r.tokens[i];
      }
    }
    assert o.reported == [] || (o.reported == [k] && !Open(o.round.tokens[k]));
  }

  /** `checkAll` reports the open blanks it solves, each once. */
  lemma CheckAllReports(r: Round)
    requires RoundInvariant(r)
    ensures ClosesWhatItReports(r, CheckAll(r))
  {
    var o := CheckAll(r);
    CheckAllSettles(r);
    forall i | 0 <= i < |r.tokens|
      ensures Base(o.round.tokens[i]) == Base(r.tokens[i])
      ensures Open(o.round.tokens[i]) ==> Open(r.tokens[i])
    {
      if Open(r.tokens[i]) {
        JudgeCloses(r.tokens[i]);
      }
    }
    assert forall i :: 0 <= i < |r.tokens| ==> r.tokens[i].originalIndex == 0 + i;
    SolvedPositionsFrom(r.tokens, 0);
    StrictlyAscendingIsDistinct(o.reported);
    forall p | p in o.reported ensures 0 <= p < |r.tokens| && Open(r.tokens[p]) && !Open(o.round.tokens[p]) {
      assert Solvable(r.tokens[p - 0]);
      JudgeCloses(r.tokens[p]);
    }
  }

  /** Every event keeps tokens in place and reports only positions of
      open tokens it closes, each once. */
  lemma StepReportsOnlyOpen(r: Round, e: Event)
    requires RoundInvariant(r)
    ensures ClosesWhatItReports(r, Step(r, e))
  {
    match e
    case Edit(id, value) =>
    case Blur(id) =>
      if Accepts(r.tokens, id) {
        CheckOneReports(r, id, false);
      }
    case AskHint(id) =>
      if Accepts(r.tokens, id) {
        CheckOneReports(r, id, true);
      }
    case CheckAllPressed =>
      CheckAllReports(r);
  }

  /** Leaving a blank whose input matches reports its position; leaving it
      again reports nothing, since it is now `correct` and disabled. */
  lemma SecondBlurReportsNothing(r: Round, k: nat)
    requires RoundInvariant(r) && k < |r.tokens| && Open(r.tokens[k])
    requires Matches(r.tokens[k].userValue, r.tokens[k].text)
    ensures var first := Step(r, Blur(r.tokens[k].id));
      && first.reported == [k]
      && Step(first.round, Blur(r.tokens[k].id)).reported == []
  {
    var id := r.tokens[k].id;
    assert FindIndex(r.tokens, id) == Some(k) by {
      assert forall i :: 0 <= i < k ==> r.tokens[i].id != id;
    }
    var first := Step(r, Blur(id));
    assert first == CheckAt(r, k, false);
    assert first.round.tokens[k].id == id;
    assert FindIndex(first.round.tokens, id) == Some(k) by {
      assert forall i :: 0 <= i < k ==> first.round.tokens[i].id != id;
    }
    assert !Open(first.round.tokens[k]);
    assert Step(first.round, Blur(id)) == Outcome(first.round, []);
  }

  /** Over any sequence of events, tokens stay in place, closed tokens stay
      closed, and the reported positions are distinct, each the position
      of a token that was open at the start and is closed at the end. */
  lemma {:induction false} RunReports(r: Round, es: seq<Event>)
    requires RoundInvariant(r)
    ensures ClosesWhatItReports(r, Run(r, es))
    decreases |es|
  {
    if |es| > 0 {
      var a := Step(r, es[0]);
      var b := Run(a.round, es[1..]);
      StepReportsOnlyOpen(r, es[0]);
      StepKeepsInvariant(r, es[0]);
      RunReports(a.round, es[1..]);
      forall x | x in a.reported ensures x !in b.reported {
        assert !Open(a.round.tokens[x]);
      }
      DistinctConcat(a.reported, b.reported);
    }
  }

  /** Over any sequence of events in a new round, the positions reported
      as known are distinct and are all among those the selector chose:
      each blank is reported at most once. */
  lemma RoundReportsSelected(content: string, known: set<int>, newPool: seq<int>, oldPool: seq<int>, es: seq<Event>)
    requires multiset(newPool) == multiset(Unguessed(Tokenize(content), known, MinWordLen))
    requires multiset(oldPool) == multiset(Guessed(Tokenize(content), known, MinWordLen))
    ensures var reported := Run(StartNewRound(content, known, newPool, oldPool), es).reported;
      && Distinct(reported)
      && forall p :: p in reported ==>
           p in SelectBlankIndices(Tokenize(content), known, NumBlanks(WordCount(Tokenize(content))),
                                   MinWordLen, newPool, oldPool)
  {
    var r := StartNewRound(content, known, newPool, oldPool);
    var raw := Tokenize(content);
    var blanks := SelectBlankIndices(raw, known, NumBlanks(WordCount(raw)), MinWordLen, newPool, oldPool);
    assert StartsFresh(raw, r) && HidesExactly(r, blanks);
    ReportsHidden(r, blanks, es);
  }

  /** From a round hiding exactly `blanks`, the positions reported over
      any sequence of events are distinct and among `blanks`. */
  lemma ReportsHidden(r: Round, blanks: seq<int>, es: seq<Event>)
    requires RoundInvariant(r) && HidesExactly(r, blanks)
    ensures Distinct(Run(r, es).reported)
    ensures forall p :: p in Run(r, es).reported ==> p in blanks
  {
    var o := Run(r, es);
    RunReports(r, es);
    forall p | p in o.reported ensures p in blanks {
      assert r.tokens[p].isBlank;
    }
  }
}
