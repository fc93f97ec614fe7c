/** The records shared by the tokenizer, the round and the app shell. */
module Types {
  import opened Wrappers

  /** A stored text. `lastPlayed` is optional. */
  datatype TextItem = TextItem(id: string, title: string, content: string, lastPlayed: Option<int>)

  /** Known token positions per text id. */
  type StoredProgress = map<string, seq<int>>

  /** One maximal run of the input: `id` is the rendering key, `isWord`
      says whether the run is word-forming, `originalIndex` is its position
      among all tokens. */
  datatype Token = Token(id: string, text: string, isWord: bool, originalIndex: int)

  /** The four states a token can be in during a round. */
  datatype TokenState = Empty | Correct | Error | Hint

  /** A token as the round shows it: whether it is currently a blank, what
      the learner typed into it, and its state. */
  datatype GameToken = GameToken(
    id: string,
    text: string,
    isWord: bool,
    originalIndex: int,
    isBlank: bool,
    userValue: string,
    state: TokenState)

  /** Tokens numbered consecutively from `b`. */
  predicate IndexedFrom(tokens: seq<Token>, b: int) {
    forall i :: 0 <= i < |tokens| ==> tokens[i].originalIndex == b + i
  }

  /** Every token sits at the position its `originalIndex` names. */
  predicate WellIndexed(tokens: seq<Token>) {
    IndexedFrom(tokens, 0)
  }

  /** No two tokens share an id. */
  predicate DistinctTokenIds(tokens: seq<Token>) {
    forall i, j :: 0 <= i < j < |tokens| ==> tokens[i].id != tokens[j].id
  }
}
