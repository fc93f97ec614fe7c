/** The app shell's bookkeeping: the stored texts, the map from text id to
    the token positions already known, and the check that throws away
    progress saved in the old word-based format. */
module App {
  import opened Wrappers
  import opened Types
  import opened Collections

  /** What the shell keeps: the texts, newest first, and the progress map. */
  datatype Library = Library(texts: seq<TextItem>, progress: StoredProgress)

  // ---------------------------------------------------------------------
  // Progress
  // ---------------------------------------------------------------------

  /** The progress list of `id`; a missing entry reads as the empty list. */
  function ListOf(progress: StoredProgress, id: string): seq<int> {
    if id in progress then progress[id] else []
  }

  /** The positions the round treats as known for text `id`. */
  function Known(progress: StoredProgress, id: string): set<int> {
    set x | x in ListOf(progress, id)
  }

  /** `handleUpdateProgress`: with no text selected nothing happens; a
      position already in the selected text's list leaves the map as it
      is; otherwise the position is appended to that list, created empty
      when missing. No other entry changes. */
  function UpdateProgress(progress: StoredProgress, selected: Option<TextItem>, tokenIndex: int): (p: StoredProgress)
    ensures selected.None? ==> p == progress
    ensures selected.Some? ==>
      var id := selected.value.id;
      && p.Keys == progress.Keys + {id}
      && (forall k :: k in progress && k != id ==> p[k] == progress[k])
      && (tokenIndex in ListOf(progress, id) ==> p == progress)
      && (tokenIndex !in ListOf(progress, id) ==> p[id] == ListOf(progress, id) + [tokenIndex])
  {
    match selected
    case None => progress
    case Some(item) =>
      var current := ListOf(progress, item.id);
      if tokenIndex in current then progress
      else progress[item.id := current + [tokenIndex]]
  }

  /** Reporting the same position twice is reporting it once. */
  lemma UpdateProgressIdempotent(progress: StoredProgress, selected: Option<TextItem>, tokenIndex: int)
    ensures var once := UpdateProgress(progress, selected, tokenIndex);
      UpdateProgress(once, selected, tokenIndex) == once
  {
  }

  /** After a report the known set is the old one plus the position. */
  lemma UpdateProgressKnown(progress: StoredProgress, item: TextItem, tokenIndex: int)
    ensures Known(UpdateProgress(progress, Some(item), tokenIndex), item.id) == Known(progress, item.id) + {tokenIndex}
  {
  }

  /** Progress lists never hold a position twice. */
  predicate ListsDistinct(progress: StoredProgress) {
    forall k :: k in progress ==> Distinct(progress[k])
  }

  /** A report keeps every list free of repeats. */
  lemma UpdateProgressKeepsDistinct(progress: StoredProgress, selected: Option<TextItem>, tokenIndex: int)
    requires ListsDistinct(progress)
    ensures ListsDistinct(UpdateProgress(progress, selected, tokenIndex))
  {
    if selected.Some? {
      var id := selected.value.id;
      var current := ListOf(progress, id);
      if tokenIndex !in current {
        var l := current + [tokenIndex];
        forall i, j | 0 <= i < j < |l| ensures l[i] != l[j] {
          if j == |current| {
            assert l[i] == current[i];
          }
        }
      }
    }
  }

  /** Reporting a sequence of positions, one after another, as a round
      does while it is played. */
  function ApplyReports(progress: StoredProgress, selected: Option<TextItem>, reported: seq<int>): StoredProgress
    decreases |reported|
  {
    if |reported| == 0 then progress
    else ApplyReports(UpdateProgress(progress, selected, reported[0]), selected, reported[1..])
  }

  /** The known set of the selected text grows by exactly the reported
      positions, and no other text's progress changes. */
  lemma {:induction false} ApplyReportsKnown(progress: StoredProgress, item: TextItem, reported: seq<int>)
    ensures var p := ApplyReports(progress, Some(item), reported);
      && Known(p, item.id) == Known(progress, item.id) + (set x | x in reported)
      && (forall k :: k in progress && k != item.id ==> k in p && p[k] == progress[k])
    decreases |reported|
  {
    if |reported| > 0 {
      var x, rest := reported[0], reported[1..];
      var next := UpdateProgress(progress, Some(item), x);
      assert ApplyReports(progress, Some(item), reported) == ApplyReports(next, Some(item), rest);
      UpdateProgressKnown(progress, item, x);
      ApplyReportsKnown(next, item, rest);
      assert (set y | y in reported) == {x} + (set y | y in rest) by {
        assert reported == [x] + rest;
      }
      forall k | k in progress && k != item.id ensures k in next && next[k] == progress[k] {
      }
    }
  }

  // ---------------------------------------------------------------------
  // Texts
  // ---------------------------------------------------------------------

  /** `handleAddText`: a new text, with no play time yet, goes in front of
      the list; the rest of the list and the progress stay as they were.
      The clock-based id is a parameter. */
  function AddText(lib: Library, id: string, title: string, content: string): (r: Library)
    ensures |r.texts| == |lib.texts| + 1
    ensures r.texts[0] == TextItem(id, title, content, None)
    ensures r.texts[1..] == lib.texts
    ensures r.progress == lib.progress
  {
    Library([TextItem(id, title, content, None)] + lib.texts, lib.progress)
  }

  /** Whether a text does not carry `id`. */
  function Other(id: string): TextItem -> bool {
    (t: TextItem) => t.id != id
  }

  /** `handleDeleteText`: every text carrying `id` goes, every other text
      stays (as often as before), and the progress entry for `id` goes
      while every other entry stays. */
  function DeleteText(lib: Library, id: string): (r: Library)
    ensures forall t :: t in r.texts <==> t in lib.texts && t.id != id
    ensures forall t: TextItem :: t.id != id ==> multiset(r.texts)[t] == multiset(lib.texts)[t]
    ensures r.progress.Keys == lib.progress.Keys - {id}
    ensures forall k :: k in r.progress ==> r.progress[k] == lib.progress[k]
  {
    Library(Filter(lib.texts, Other(id)), lib.progress - {id})
  }

  /** Deleting keeps the order of what is left: deleting from a joined
      list is joining the deleted halves. */
  lemma DeleteKeepsOrder(a: seq<TextItem>, b: seq<TextItem>, progress: StoredProgress, id: string)
    ensures DeleteText(Library(a + b, progress), id).texts
         == DeleteText(Library(a, progress), id).texts + DeleteText(Library(b, progress), id).texts
  {
    FilterConcat(a, b, Other(id));
  }

  /** Deleting twice is deleting once. */
  lemma DeleteTextIdempotent(lib: Library, id: string)
    ensures DeleteText(DeleteText(lib, id), id) == DeleteText(lib, id)
  {
    var once := DeleteText(lib, id);
    FilterKeepsAll(once.texts, Other(id));
  }

  /** Deleting a text just added under a fresh id restores the library. */
  lemma DeleteUndoesAdd(lib: Library, id: string, title: string, content: string)
    requires forall t :: t in lib.texts ==> t.id != id
    requires id !in lib.progress
    ensures DeleteText(AddText(lib, id, title, content), id) == lib
  {
    var added := AddText(lib, id, title, content);
    var r := DeleteText(added, id);
    assert r.texts == lib.texts by {
      FilterKeepsAll(lib.texts, Other(id));
      DropHead(added.texts[0], lib.texts, Other(id));
      assert added.texts == [added.texts[0]] + lib.texts;
    }
    assert r.progress == lib.progress by {
      assert lib.progress - {id} == lib.progress;
    }
  }

  /** Filtering out a head that is dropped leaves the filtered tail. */
  lemma DropHead(t: TextItem, s: seq<TextItem>, keep: TextItem -> bool)
    requires !keep(t)
    ensures Filter([t] + s, keep) == Filter(s, keep)
  {
    assert ([t] + s)[1..] == s;
  }

  // ---------------------------------------------------------------------
  // Loading saved progress
  // ---------------------------------------------------------------------

  /** A parsed JSON value. Object entries are listed in the order
      `Object.keys` reports them. */
  datatype Json =
    | JNull
    | JBool(b: bool)
    | JNum(n: int)
    | JString(s: string)
    | JArray(items: seq<Json>)
    | JObject(entries: seq<(string, Json)>)

  /** What loading does with the saved progress: reset it to `{}`, keep
      it as parsed, or fail (the load is abandoned and the progress stays
      at its initial `{}`). */
  datatype LoadDecision = Reset | Keep | Fail

  /** An array whose first element is a string. */
  predicate StartsWithString(v: Json) {
    v.JArray? && |v.items| > 0 && v.items[0].JString?
  }

  /** The old-format check on the first key. `Object.keys` of `null`
      throws; of an array it gives the indices; of a string its indices
      (whose values are one-character strings, never arrays); of a number
      or a boolean nothing. */
  function ProgressOnLoad(parsed: Json): (d: LoadDecision)
    ensures d == Fail <==> parsed == JNull
    ensures d == Reset ==> parsed.JObject? || parsed.JArray?
  {
    match parsed
    case JNull => Fail
    case JObject(entries) =>
      if |entries| > 0 && StartsWithString(entries[0].1) then Reset else Keep
    case JArray(items) =>
      if |items| > 0 && StartsWithString(items[0]) then Reset else Keep
    case _ => Keep
  }

  /** Only the first key is inspected. */
  lemma OnlyFirstKeyMatters(first: (string, Json), rest1: seq<(string, Json)>, rest2: seq<(string, Json)>)
    ensures ProgressOnLoad(JObject([first] + rest1)) == ProgressOnLoad(JObject([first] + rest2))
  {
  }

  /** The JSON form of progress in the current format, with the entries
      in any order. */
  function Encode(entries: seq<(string, seq<int>)>): (j: Json)
    ensures j.JObject? && |j.entries| == |entries|
    ensures forall i :: 0 <= i < |entries| ==> j.entries[i].0 == entries[i].0
  {
    JObject(seq(|entries|, i requires 0 <= i < |entries| =>
      (entries[i].0, JArray(seq(|entries[i].1|, k requires 0 <= k < |entries[i].1| => JNum(entries[i].1[k]))))))
  }

  /** The JSON form of progress in the old format, which listed words. */
  function EncodeLegacy(entries: seq<(string, seq<string>)>): (j: Json)
    ensures j.JObject? && |j.entries| == |entries|
    ensures forall i :: 0 <= i < |entries| ==> j.entries[i].0 == entries[i].0
  {
    JObject(seq(|entries|, i requires 0 <= i < |entries| =>
      (entries[i].0, JArray(seq(|entries[i].1|, k requires 0 <= k < |entries[i].1| => JString(entries[i].1[k]))))))
  }

  /** Progress saved in the current format is never thrown away. */
  lemma CurrentFormatKept(entries: seq<(string, seq<int>)>)
    ensures ProgressOnLoad(Encode(entries)) == Keep
  {
  }

  /** Progress saved in the old format is reset exactly when the first
      text's word list is non-empty; an object with no keys is kept. */
  lemma LegacyFormatReset(entries: seq<(string, seq<string>)>)
    ensures ProgressOnLoad(EncodeLegacy(entries)) == Reset <==> |entries| > 0 && |entries[0].1| > 0
  {
  }
}
