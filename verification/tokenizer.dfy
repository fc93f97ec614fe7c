/** The tokenizer: splits a text into maximal runs of word characters,
    of "other" characters and of whitespace, numbering every run. */
module Tokenizer {
  import opened Chars
  import opened Types

  /** Every character of `s` is of class `k`. */
  predicate AllOfClass(s: string, k: CharClass) {
    forall i :: 0 <= i < |s| ==> ClassOf(s[i]) == k
  }

  /** A non-empty string whose characters all share one class. */
  predicate IsRun(s: string) {
    |s| > 0 && AllOfClass(s, ClassOf(s[0]))
  }

  /** Neighbouring pieces are non-empty and start with characters of
      different classes. */
  ghost predicate ClassesAlternate(rs: seq<string>) {
    // `j` names the next index so the quantifier has a trigger without a matching loop
    forall i, j :: 0 <= i < j < |rs| && j == i + 1 ==>
      |rs[i]| > 0 && |rs[j]| > 0 && ClassOf(rs[i][0]) != ClassOf(rs[j][0])
  }

  /** The pieces of `rs` joined together. */
  function Concat(rs: seq<string>): string {
    if |rs| == 0 then "" else rs[0] + Concat(rs[1..])
  }

  /** The texts of the tokens, in order. */
  function Texts(tokens: seq<Token>): (ts: seq<string>)
    ensures |ts| == |tokens|
    ensures forall i :: 0 <= i < |tokens| ==> ts[i] == tokens[i].text
  {
    seq(|tokens|, i requires 0 <= i < |tokens| => tokens[i].text)
  }

  /** The end of the run of class `k` that starts at or before `i`: the
      first position at or after `i` whose character is not of class `k`. */
  function RunEnd(s: string, k: CharClass, i: nat): (j: nat)
    requires i <= |s|
    ensures i <= j <= |s|
    ensures forall m :: i <= m < j ==> ClassOf(s[m]) == k
    ensures j < |s| ==> ClassOf(s[j]) != k
    decreases |s| - i
  {
    if i < |s| && ClassOf(s[i]) == k then RunEnd(s, k, i + 1) else i
  }

  /** The maximal runs of `s`, left to right: what the global regular
      expression matches on successive `exec` calls. */
  function Runs(s: string): (rs: seq<string>)
    ensures Concat(rs) == s
    ensures |rs| == 0 <==> |s| == 0
    ensures |s| > 0 ==> |rs[0]| > 0 && rs[0][0] == s[0]
    decreases |s|
  {
    if |s| == 0 then []
    else
      var k := RunEnd(s, ClassOf(s[0]), 1);
      var rest := Runs(s[k..]);
      assert s == s[..k] + s[k..];
      [s[..k]] + rest
  }

  /** Every piece `Runs` produces is a run, and neighbouring runs differ
      in class: the runs are maximal. */
  lemma {:induction false} RunsMaximal(s: string)
    ensures var rs := Runs(s);
      && (forall i :: 0 <= i < |rs| ==> IsRun(rs[i]))
      && ClassesAlternate(rs)
    decreases |s|
  {
    if |s| > 0 {
      var k := RunEnd(s, ClassOf(s[0]), 1);
      var head, rest := s[..k], Runs(s[k..]);
      RunsMaximal(s[k..]);
      var rs := Runs(s);
      assert rs == [head] + rest;
      assert IsRun(head) by {
        forall m | 0 <= m < |head| ensures ClassOf(head[m]) == ClassOf(head[0]) {
          assert head[m] == s[m];
        }
      }
      forall i | 0 < i < |rs| ensures IsRun(rs[i]) {
        assert rs[i] == rest[i - 1];
      }
      forall i, j | 0 <= i < j < |rs| && j == i + 1
        ensures |rs[i]| > 0 && |rs[j]| > 0 && ClassOf(rs[i][0]) != ClassOf(rs[j][0])
      {
        if i == 0 {
          assert rs[j] == rest[0] && rest[0][0] == s[k];
        } else {
          assert rs[i] == rest[i - 1] && rs[j] == rest[j - 1];
        }
      }
    }
  }

  /** The rendering key of the token at position `i`: `tok-<i>`. */
  function TokenId(i: nat): string {
    "tok-" + NatToString(i)
  }

  /** `tokenizeText`: one token per maximal run, numbered by its position
      among all tokens, flagged as a word exactly when the run is made of
      word characters. */
  function Tokenize(text: string): (tokens: seq<Token>)
    ensures |tokens| == 0 <==> |text| == 0
    ensures Concat(Texts(tokens)) == text
    ensures forall i :: 0 <= i < |tokens| ==>
      && IsRun(tokens[i].text)
      && (tokens[i].isWord <==> ClassOf(tokens[i].text[0]) == WordClass)
      && tokens[i].originalIndex == i
      && tokens[i].id == TokenId(i)
    ensures ClassesAlternate(Texts(tokens))
    ensures WellIndexed(tokens)
  {
    var rs := Runs(text);
    RunsMaximal(text);
    var tokens := seq(|rs|, i requires 0 <= i < |rs| =>
      Token(TokenId(i), rs[i], ClassOf(rs[i][0]) == WordClass, i));
    assert Texts(tokens) == rs;
    tokens
  }

  /** Where `RunEnd` stops is determined by the classes alone. */
  lemma RunEndAt(s: string, k: CharClass, i: nat, j: nat)
    requires i <= j <= |s|
    requires forall m :: i <= m < j ==> ClassOf(s[m]) == k
    requires j < |s| ==> ClassOf(s[j]) != k
    ensures RunEnd(s, k, i) == j
  {
  }

  /** Joining a list with a head piece puts that piece first. */
  lemma ConcatCons(rs: seq<string>)
    requires |rs| > 0
    ensures Concat(rs) == rs[0] + Concat(rs[1..])
  {
  }

  /** The decomposition is unique: any list of runs that joins to `s` and
      never puts two runs of the same class side by side is `Runs(s)`. */
  lemma {:induction false} RunsUnique(s: string, rs: seq<string>)
    requires Concat(rs) == s
    requires forall i :: 0 <= i < |rs| ==> IsRun(rs[i])
    requires ClassesAlternate(rs)
    ensures rs == Runs(s)
    decreases |rs|
  {
    if |rs| > 0 {
      var head, tail := rs[0], rs[1..];
      var n := |head|;
      ConcatCons(rs);
      assert IsRun(head);
      assert s[..n] == head && s[n..] == Concat(tail);
      RunStartsUniform(s, head, Concat(tail));
      if n < |s| {
        assert IsRun(tail[0]) && tail[0] == rs[1];
        ConcatCons(tail);
        assert s[n] == tail[0][0];
      }
      RunEndAt(s, ClassOf(s[0]), 1, n);
      RunsTail(rs);
      RunsUnique(s[n..], tail);
      assert rs == [head] + tail;
    }
  }

  /** Dropping the first run keeps a list of alternating runs. */
  lemma RunsTail(rs: seq<string>)
    requires |rs| > 0
    requires forall i :: 0 <= i < |rs| ==> IsRun(rs[i])
    requires ClassesAlternate(rs)
    ensures forall i :: 0 <= i < |rs| - 1 ==> IsRun(rs[1..][i])
    ensures ClassesAlternate(rs[1..])
  {
    var tail := rs[1..];
    forall i | 0 <= i < |tail| ensures IsRun(tail[i]) {
      assert tail[i] == rs[i + 1];
    }
    forall i, j | 0 <= i < j < |tail| && j == i + 1
      ensures |tail[i]| > 0 && |tail[j]| > 0 && ClassOf(tail[i][0]) != ClassOf(tail[j][0])
    {
      assert tail[i] == rs[i + 1] && tail[j] == rs[j + 1];
    }
  }

  /** If `s` starts with the run `head`, every character of that prefix has
      the class of `s[0]`. */
  lemma RunStartsUniform(s: string, head: string, rest: string)
    requires s == head + rest
    requires IsRun(head)
    ensures forall m :: 1 <= m < |head| ==> ClassOf(s[m]) == ClassOf(s[0])
  {
    forall m | 1 <= m < |head| ensures ClassOf(s[m]) == ClassOf(s[0]) {
      assert s[m] == head[m] && s[0] == head[0];
    }
  }

  /** Distinct positions get distinct rendering keys. */
  lemma TokenIdInjective(i: nat, j: nat)
    requires TokenId(i) == TokenId(j)
    ensures i == j
  {
    assert NatToString(i) == TokenId(i)[4..];
    assert NatToString(j) == TokenId(j)[4..];
    NatToStringInjective(i, j);
  }

  /** No two tokens of a text share an id. */
  lemma TokenIdsDistinct(text: string)
    ensures DistinctTokenIds(Tokenize(text))
  {
    var tokens := Tokenize(text);
    forall i, j | 0 <= i < j < |tokens| ensures tokens[i].id != tokens[j].id {
      if tokens[i].id == tokens[j].id {
        TokenIdInjective(i, j);
      }
    }
  }
}
