// The dictionary trainer (lekhika-trainer.cpp): the Devanagari word
// validator over grapheme clusters, the worker that learns every word of
// a text file, and the editor tab's paging and row editing. The Qt
// widgets, the log lines and the worker thread are not modelled; the
// grapheme clusters come from ICU's break iterator, a parameter here.

module Trainer {
  import opened Bytes
  import opened Tokens
  import Dictionary

  // ---------------------------------------------------------------------
  // The validator

  /** One grapheme cluster, as its code points. */
  type Cluster = seq<int>

  /** The Devanagari block, U+0900..U+097F. */
  predicate InBlock(c: int) { 0x0900 <= c <= 0x097F }

  /** An independent vowel (U+0904..U+0914) or a consonant (U+0915..U+0939). */
  predicate ClusterStart(c: int) { 0x0904 <= c <= 0x0914 || 0x0915 <= c <= 0x0939 }

  const Virama: int := 0x094D

  /** What `char32At(0)` gives for an empty cluster: the non-character U+FFFF. */
  const NoCodePoint: int := 0xFFFF

  /** A cluster the validator accepts: it starts with a vowel or a consonant, does not end with the virama, and stays in the block. */
  predicate ClusterOk(c: Cluster)
  {
    c != [] && ClusterStart(c[0]) && c[|c| - 1] != Virama && forall i :: 0 <= i < |c| ==> InBlock(c[i])
  }

  /** A non-empty word all of whose clusters are accepted. */
  predicate ValidWord(clusters: seq<Cluster>)
  {
    clusters != [] && forall k :: 0 <= k < |clusters| ==> ClusterOk(clusters[k])
  }

  /** `isValidDevanagariWord`, given the word's grapheme clusters. */
  method IsValidDevanagariWord(clusters: seq<Cluster>) returns (valid: bool)
    ensures valid <==> ValidWord(clusters)
  {
    if clusters == [] {
      return false;
    }
    var k := 0;
    while k < |clusters|
      invariant 0 <= k <= |clusters|
      invariant forall j :: 0 <= j < k ==> ClusterOk(clusters[j])
    {
      var cluster := clusters[k];
      var first := if cluster == [] then NoCodePoint else cluster[0];
      if !ClusterStart(first) {
        return false;
      }
      if cluster[|cluster| - 1] == Virama {
        return false;
      }
      var i := 0;
      while i < |cluster|
        invariant 0 <= i <= |cluster|
        invariant forall j :: 0 <= j < i ==> InBlock(cluster[j])
      {
        if !InBlock(cluster[i]) {
          return false;
        }
        i := i + 1;
      }
      k := k + 1;
    }
    return true;
  }

  /**
   * Two cluster sequences join into a valid word exactly when both are
   * valid. This is about clusters: joining two texts can regroup the
   * clusters at the seam.
   */
  lemma ValidWordConcat(a: seq<Cluster>, b: seq<Cluster>)
    requires a != [] && b != []
    ensures ValidWord(a + b) <==> ValidWord(a) && ValidWord(b)
  {
    if ValidWord(a + b) {
      forall k | 0 <= k < |a| ensures ClusterOk(a[k]) {
        assert (a + b)[k] == a[k];
      }
      forall k | 0 <= k < |b| ensures ClusterOk(b[k]) {
        assert (a + b)[|a| + k] == b[k];
      }
    }
    if ValidWord(a) && ValidWord(b) {
      forall k | 0 <= k < |a + b| ensures ClusterOk((a + b)[k]) {
        if k >= |a| {
          assert (a + b)[k] == b[k - |a|];
        } else {
          assert (a + b)[k] == a[k];
        }
      }
      assert ValidWord(a + b);
    }
  }

  /** The code points of a valid word: all in the block, the first a vowel or consonant, the last not the virama. */
  lemma {:induction false} ValidWordCodePoints(clusters: seq<Cluster>)
    requires ValidWord(clusters)
    ensures var cps := Flatten(clusters);
      cps != [] && ClusterStart(cps[0]) && cps[|cps| - 1] != Virama
      && forall i :: 0 <= i < |cps| ==> InBlock(cps[i])
  {
    var cps := Flatten(clusters);
    var rest := Flatten(clusters[1..]);
    assert cps == clusters[0] + rest;
    if clusters[1..] != [] {
      assert ValidWord(clusters[1..]) by {
        forall k | 0 <= k < |clusters[1..]| ensures ClusterOk(clusters[1..][k]) {
          assert clusters[1..][k] == clusters[k + 1];
        }
      }
      ValidWordCodePoints(clusters[1..]);
      assert cps[|cps| - 1] == rest[|rest| - 1];
    } else {
      assert rest == [];
      assert cps == clusters[0];
    }
    forall i | 0 <= i < |cps| ensures InBlock(cps[i]) {
      if i >= |clusters[0]| {
        assert cps[i] == rest[i - |clusters[0]|];
      }
    }
  }

  // ---------------------------------------------------------------------
  // The learning worker

  /** A byte that may be part of a word: an ASCII letter or digit, or any byte with the high bit set. */
  predicate WordByte(b: byte) { IsAlnum(b) || b >= 0x80 }

  /** The worker's counters: tokens seen, tokens new to the store, tokens already there. */
  datatype Tally = Tally(seen: nat, added: nat, skipped: nat)

  /**
   * One token through `flush`: counted as seen; a valid one is added to
   * the store and counted as skipped when its frequency was positive
   * before, as added otherwise (a store that is not open reports -1).
   */
  function Absorb(isOpen: bool, words: map<Bytes, int>, t: Tally, token: Bytes, valid: bool): (r: (map<Bytes, int>, Tally))
  {
    var counted := t.(seen := t.seen + 1);
    if !valid then (words, counted)
    else
      var frequency := if isOpen && token in words then words[token] else -1;
      (if isOpen then Dictionary.WithWordAdded(words, token) else words,
       if frequency > 0 then counted.(skipped := counted.skipped + 1) else counted.(added := counted.added + 1))
  }

  /** The store and the counters after the tokens, in order. */
  function Learned(isOpen: bool, words: map<Bytes, int>, tokens: seq<Bytes>, clustersOf: Bytes -> seq<Cluster>): (r: (map<Bytes, int>, Tally))
    decreases |tokens|
  {
    if tokens == [] then (words, Tally(0, 0, 0))
    else
      var before := Learned(isOpen, words, tokens[..|tokens| - 1], clustersOf);
      var last := tokens[|tokens| - 1];
      Absorb(isOpen, before.0, before.1, last, ValidWord(clustersOf(last)))
  }

  /** The valid tokens, in order. */
  function ValidTokens(tokens: seq<Bytes>, clustersOf: Bytes -> seq<Cluster>): (r: seq<Bytes>)
    decreases |tokens|
  {
    if tokens == [] then []
    else
      ValidTokens(tokens[..|tokens| - 1], clustersOf)
      + (if ValidWord(clustersOf(tokens[|tokens| - 1])) then [tokens[|tokens| - 1]] else [])
  }

  /** Every token is seen once; the valid ones are each either added or skipped. */
  lemma {:induction false} LearnedTally(isOpen: bool, words: map<Bytes, int>, tokens: seq<Bytes>, clustersOf: Bytes -> seq<Cluster>)
    decreases |tokens|
    ensures var t := Learned(isOpen, words, tokens, clustersOf).1;
      t.seen == |tokens| && t.added + t.skipped == |ValidTokens(tokens, clustersOf)| <= t.seen
      && (!isOpen ==> t.skipped == 0)
  {
    if tokens != [] {
      LearnedTally(isOpen, words, tokens[..|tokens| - 1], clustersOf);
    }
  }

  /**
   * With the store open, learning raises each word's frequency by the number
   * of its valid occurrences (from 0 for a new word) and touches nothing
   * else; with the store closed nothing changes.
   */
  lemma {:induction false} LearnedStore(isOpen: bool, words: map<Bytes, int>, tokens: seq<Bytes>, clustersOf: Bytes -> seq<Cluster>)
    decreases |tokens|
    ensures var s := Learned(isOpen, words, tokens, clustersOf).0;
      var valid := ValidTokens(tokens, clustersOf);
      (!isOpen ==> s == words)
      && (isOpen ==> forall w :: (w in s <==> w in words || Count(w, valid) > 0)
                             && (w in s ==> s[w] == (if w in words then words[w] else 0) + Count(w, valid)))
  {
    if tokens != [] {
      var front := tokens[..|tokens| - 1];
      LearnedStore(isOpen, words, front, clustersOf);
      var last := tokens[|tokens| - 1];
      var valid := ValidTokens(tokens, clustersOf);
      var validFront := ValidTokens(front, clustersOf);
      if ValidWord(clustersOf(last)) {
        assert valid[..|valid| - 1] == validFront;
      } else {
        assert valid == validFront;
      }
    }
  }

  /** `flush`: an empty token is ignored; any other goes through `Absorb`. */
  method Flush(token: Bytes, t: Tally, clustersOf: Bytes -> seq<Cluster>, dm: Dictionary.DictionaryManager) returns (r: Tally)
    modifies dm`words
    ensures token == [] ==> dm.words == old(dm.words) && r == t
    ensures token != [] ==> (dm.words, r) == Absorb(dm.isOpen, old(dm.words), t, token, ValidWord(clustersOf(token)))
  {
    if token == [] {
      return t;
    }
    r := t.(seen := t.seen + 1);
    var valid := IsValidDevanagariWord(clustersOf(token));
    if valid {
      var frequency := dm.GetWordFrequency(token);
      dm.AddWord(token);
      if frequency > 0 {
        r := r.(skipped := r.skipped + 1);
      } else {
        r := r.(added := r.added + 1);
      }
    }
  }

  /**
   * `learnWorker` on the file's bytes. The stop flag is seen before byte
   * `stopAt` (a value at or past the end means it never is); the token in
   * progress is still flushed. The tokens are the maximal runs of word
   * bytes of the part read.
   */
  method Learn(whole: Bytes, stopAt: nat, clustersOf: Bytes -> seq<Cluster>, dm: Dictionary.DictionaryManager) returns (tally: Tally)
    modifies dm`words
    ensures var read := whole[..if stopAt < |whole| then stopAt else |whole|];
      (dm.words, tally) == Learned(dm.isOpen, old(dm.words), Runs(read, WordByte), clustersOf)
  {
    var limit := if stopAt < |whole| then stopAt else |whole|;
    ghost var words0 := dm.words;
    var cur: Bytes := [];
    tally := Tally(0, 0, 0);
    ghost var tokens: seq<Bytes> := [];
    ghost var start := 0;
    var i := 0;
    while i < limit
      invariant 0 <= start <= i <= limit
      invariant cur == whole[start..i] && AllIn(cur, WordByte)
      invariant start == 0 || !WordByte(whole[start - 1])
      invariant tokens == Runs(whole[..start], WordByte)
      invariant (dm.words, tally) == Learned(dm.isOpen, words0, tokens, clustersOf)
    {
      start, cur, tally, tokens := LearnByte(whole, i, start, cur, tally, tokens, words0, clustersOf, dm);
      i := i + 1;
    }
    EndRun(whole, start, limit);
    tally := Flush(cur, tally, clustersOf, dm);
    if cur != [] {
      LearnedAppend(dm.isOpen, words0, tokens, cur, clustersOf);
    }
  }

  /**
   * One pass of `learnWorker`'s loop over byte `i`: a word byte extends the
   * token in progress, any other byte flushes it and starts a new one.
   */
  method LearnByte(whole: Bytes, i: nat, ghost start: nat, cur: Bytes, tally: Tally, ghost tokens: seq<Bytes>,
                   ghost words0: map<Bytes, int>, clustersOf: Bytes -> seq<Cluster>, dm: Dictionary.DictionaryManager)
    returns (ghost start': nat, cur': Bytes, tally': Tally, ghost tokens': seq<Bytes>)
    requires start <= i < |whole|
    requires cur == whole[start..i] && AllIn(cur, WordByte)
    requires start == 0 || !WordByte(whole[start - 1])
    requires tokens == Runs(whole[..start], WordByte)
    requires (dm.words, tally) == Learned(dm.isOpen, words0, tokens, clustersOf)
    modifies dm`words
    ensures start' <= i + 1
    ensures cur' == whole[start'..i + 1] && AllIn(cur', WordByte)
    ensures start' == 0 || !WordByte(whole[start' - 1])
    ensures tokens' == Runs(whole[..start'], WordByte)
    ensures (dm.words, tally') == Learned(dm.isOpen, words0, tokens', clustersOf)
  {
    var c := whole[i];
    if WordByte(c) {
      assert whole[start..i + 1] == cur + [c];
      start', cur', tally', tokens' := start, cur + [c], tally, tokens;
    } else {
      tally', tokens' := LearnBreak(whole, i, start, cur, tally, tokens, words0, clustersOf, dm);
      start', cur' := i + 1, [];
    }
  }

  /** Byte `i` is not a word byte: the token in progress is flushed. */
  method LearnBreak(whole: Bytes, i: nat, ghost start: nat, cur: Bytes, tally: Tally, ghost tokens: seq<Bytes>,
                    ghost words0: map<Bytes, int>, clustersOf: Bytes -> seq<Cluster>, dm: Dictionary.DictionaryManager)
    returns (tally': Tally, ghost tokens': seq<Bytes>)
    requires start <= i < |whole| && !WordByte(whole[i])
    requires cur == whole[start..i] && AllIn(cur, WordByte)
    requires start == 0 || !WordByte(whole[start - 1])
    requires tokens == Runs(whole[..start], WordByte)
    requires (dm.words, tally) == Learned(dm.isOpen, words0, tokens, clustersOf)
    modifies dm`words
    ensures tokens' == Runs(whole[..i + 1], WordByte)
    ensures (dm.words, tally') == Learned(dm.isOpen, words0, tokens', clustersOf)
  {
    CloseRun(whole, start, i);
    tally' := Flush(cur, tally, clustersOf, dm);
    tokens' := tokens;
    if cur != [] {
      LearnedAppend(dm.isOpen, words0, tokens, cur, clustersOf);
      tokens' := tokens + [cur];
    }
  }

  /** The end of the part read ends the token in progress. */
  lemma EndRun(whole: Bytes, start: nat, limit: nat)
    requires start <= limit <= |whole|
    requires AllIn(whole[start..limit], WordByte) && (start == 0 || !WordByte(whole[start - 1]))
    ensures Runs(whole[..limit], WordByte)
            == Runs(whole[..start], WordByte) + (if start == limit then [] else [whole[start..limit]])
  {
    RunsEndRun(whole[..start], whole[start..limit], WordByte);
    assert whole[..start] + whole[start..limit] == whole[..limit];
  }

  /** A byte that is not a word byte ends the token in progress. */
  lemma CloseRun(whole: Bytes, start: nat, i: nat)
    requires start <= i < |whole| && !WordByte(whole[i])
    requires AllIn(whole[start..i], WordByte) && (start == 0 || !WordByte(whole[start - 1]))
    ensures Runs(whole[..i + 1], WordByte)
            == Runs(whole[..start], WordByte) + (if start == i then [] else [whole[start..i]])
  {
    RunsCloseRun(whole[..start], whole[start..i], whole[i], WordByte);
    assert whole[..start] + whole[start..i] + [whole[i]] == whole[..i + 1];
  }

  lemma LearnedAppend(isOpen: bool, words: map<Bytes, int>, tokens: seq<Bytes>, token: Bytes, clustersOf: Bytes -> seq<Cluster>)
    ensures var before := Learned(isOpen, words, tokens, clustersOf);
      Learned(isOpen, words, tokens + [token], clustersOf)
      == Absorb(isOpen, before.0, before.1, token, ValidWord(clustersOf(token)))
  {
    assert (tokens + [token])[..|tokens|] == tokens;
  }

  // ---------------------------------------------------------------------
  // The editor tab

  /** Rows requested per page. */
  const PageSize: int := 50

  function Min(a: int, b: int): int { if a < b then a else b }

  /** The editor's table, filled page by page in word order. */
  class DbEditor {
    var currentPage: nat
    var isLoading: bool
    /** The rows in the table, in the order they were appended. */
    var shown: seq<Dictionary.Row>

    constructor ()
      ensures currentPage == 0 && !isLoading && shown == []
    {
      currentPage := 0;
      isLoading := false;
      shown := [];
    }

    /** The table holds the first `currentPage` pages of the store's listing in word order. */
    ghost predicate Consistent(words: map<Bytes, int>)
      reads this
    {
      forall rows :: Dictionary.Ordered(words, words.Keys, rows, Dictionary.ByWord, true) ==>
        shown == rows[..Min(PageSize * currentPage, |rows|)]
    }

    /**
     * `loadMore`: fetches the page at offset 50 times the page number and
     * appends it; the page number advances only when rows came back. A
     * call made while loading does nothing.
     */
    method LoadMore(dm: Dictionary.DictionaryManager) returns (found: seq<Dictionary.Row>)
      modifies this`currentPage, this`isLoading, this`shown
      ensures old(isLoading) ==> found == [] && unchanged(this)
      ensures !old(isLoading) ==>
                !isLoading && shown == old(shown) + found
                && currentPage == old(currentPage) + (if found == [] then 0 else 1)
      ensures !old(isLoading) && dm.isOpen ==>
                exists rows :: Dictionary.Ordered(dm.words, dm.words.Keys, rows, Dictionary.ByWord, true)
                               && found == Dictionary.Page(rows, PageSize, PageSize * old(currentPage))
      ensures !old(isLoading) && !dm.isOpen ==> found == []
      ensures old(Consistent(dm.words)) ==> Consistent(dm.words)
    {
      if isLoading {
        return [];
      }
      isLoading := true;
      ghost var wasConsistent := Consistent(dm.words);
      ghost var shown0 := shown;
      ghost var page0 := currentPage;
      found := dm.GetAllWords(PageSize, currentPage * PageSize);
      if found == [] {
        isLoading := false;
        return;
      }
      shown := shown + found;
      currentPage := currentPage + 1;
      isLoading := false;
      if wasConsistent {
        PageAppends(dm, shown0, page0, found);
      }
    }

    /**
     * `reload`: empties the table and loads the first page of the store's
     * listing in word order; nothing is loaded while a load is under way.
     */
    method Reload(dm: Dictionary.DictionaryManager)
      modifies this`currentPage, this`isLoading, this`shown
      ensures Consistent(dm.words)
      ensures isLoading == old(isLoading)
      ensures currentPage == (if shown == [] then 0 else 1)
      ensures !old(isLoading) && dm.isOpen ==>
                exists rows :: Dictionary.Ordered(dm.words, dm.words.Keys, rows, Dictionary.ByWord, true)
                               && shown == Dictionary.Page(rows, PageSize, 0)
      ensures old(isLoading) || !dm.isOpen ==> shown == []
    {
      currentPage := 0;
      shown := [];
      var _ := LoadMore(dm);
    }

    /**
     * `editRow`: unless cancelled, empty or unchanged, the old word is
     * removed, the new one added and its frequency set to the old word's
     * (overwriting the count of a word that was already stored); the table
     * is then reloaded.
     */
    method EditRow(dm: Dictionary.DictionaryManager, oldWord: Bytes, frequency: int, ok: bool, newWord: Bytes)
      modifies dm`words, this`currentPage, this`isLoading, this`shown
      ensures var edited := ok && newWord != [] && newWord != oldWord;
        (!edited ==> dm.words == old(dm.words) && unchanged(this))
        && (edited && dm.isOpen ==> dm.words == (old(dm.words) - {oldWord})[newWord := frequency])
        && (edited && !dm.isOpen ==> dm.words == old(dm.words))
        && (edited ==> Consistent(dm.words) && currentPage == (if shown == [] then 0 else 1))
        && (edited && dm.isOpen && !old(isLoading) ==>
              exists rows :: Dictionary.Ordered(dm.words, dm.words.Keys, rows, Dictionary.ByWord, true)
                             && shown == Dictionary.Page(rows, PageSize, 0))
    {
      if !ok || newWord == [] || newWord == oldWord {
        return;
      }
      dm.RemoveWord(oldWord);
      dm.AddWord(newWord);
      var _ := dm.UpdateWordFrequency(newWord, frequency);
      Reload(dm);
    }
  }

  /** A page fetched after a consistent table extends it to one page more. */
  lemma PageAppends(dm: Dictionary.DictionaryManager, shown0: seq<Dictionary.Row>, page0: nat, found: seq<Dictionary.Row>)
    requires dm.isOpen && found != []
    requires exists rows :: Dictionary.Ordered(dm.words, dm.words.Keys, rows, Dictionary.ByWord, true)
                            && found == Dictionary.Page(rows, PageSize, PageSize * page0)
    requires forall rows :: Dictionary.Ordered(dm.words, dm.words.Keys, rows, Dictionary.ByWord, true) ==>
               shown0 == rows[..Min(PageSize * page0, |rows|)]
    ensures forall rows :: Dictionary.Ordered(dm.words, dm.words.Keys, rows, Dictionary.ByWord, true) ==>
              shown0 + found == rows[..Min(PageSize * (page0 + 1), |rows|)]
  {
    var fetched :| Dictionary.Ordered(dm.words, dm.words.Keys, fetched, Dictionary.ByWord, true)
                   && found == Dictionary.Page(fetched, PageSize, PageSize * page0);
    forall rows | Dictionary.Ordered(dm.words, dm.words.Keys, rows, Dictionary.ByWord, true)
      ensures shown0 + found == rows[..Min(PageSize * (page0 + 1), |rows|)]
    {
      Dictionary.OrderedByWordUnique(dm.words, dm.words.Keys, rows, fetched, true);
      Dictionary.PageSlice(rows, PageSize, PageSize * page0);
      var start := Min(PageSize * page0, |rows|);
      assert rows[..start] + rows[start..Min(PageSize * (page0 + 1), |rows|)] == rows[..Min(PageSize * (page0 + 1), |rows|)];
    }
  }
}
