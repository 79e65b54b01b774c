// The word-frequency store behind suggestions and learning: a table of
// unique words, each with an integer frequency, in a store that may have
// failed to open. Its SQL statements are modelled on a map from word to
// frequency; the ORDER BY clauses become orderings proved of the rows
// returned, and a selection loop stands for the database's sort.

module Dictionary {
  import opened Bytes

  datatype SortColumn = ByWord | ByFrequency

  /** The enumerator values of the column choice. */
  function Ordinal(c: SortColumn): (r: int)
  {
    match c
    case ByWord => 0
    case ByFrequency => 1
  }

  function FromOrdinal(n: int): (r: Option<SortColumn>)
  {
    if n == 0 then Some(ByWord) else if n == 1 then Some(ByFrequency) else None
  }

  /** The two enumerators are exactly the values 0 and 1. */
  lemma OrdinalRoundTrip(c: SortColumn, n: int)
    ensures FromOrdinal(Ordinal(c)) == Some(c)
    ensures FromOrdinal(n).Some? <==> n == 0 || n == 1
    ensures FromOrdinal(n).Some? ==> Ordinal(FromOrdinal(n).value) == n
  {
  }

  // ---------------------------------------------------------------------
  // Orders

  /** Byte-wise lexicographic order (the database's binary collation). */
  predicate LexLe(a: Bytes, b: Bytes)
    decreases |a|
  {
    a == [] || (b != [] && (a[0] < b[0] || (a[0] == b[0] && LexLe(a[1..], b[1..]))))
  }

  lemma {:induction false} LexTotal(a: Bytes, b: Bytes)
    decreases |a|
    ensures LexLe(a, b) || LexLe(b, a)
  {
    if a != [] && b != [] && a[0] == b[0] {
      LexTotal(a[1..], b[1..]);
    }
  }

  lemma {:induction false} LexTrans(a: Bytes, b: Bytes, c: Bytes)
    requires LexLe(a, b) && LexLe(b, c)
    decreases |a|
    ensures LexLe(a, c)
  {
    if a != [] && b != [] && c != [] && a[0] == b[0] && b[0] == c[0] {
      LexTrans(a[1..], b[1..], c[1..]);
    }
  }

  lemma {:induction false} LexAntisym(a: Bytes, b: Bytes)
    requires LexLe(a, b) && LexLe(b, a)
    decreases |a|
    ensures a == b
  {
    if a != [] {
      LexAntisym(a[1..], b[1..]);
      assert a == [a[0]] + a[1..] && b == [b[0]] + b[1..];
    }
  }

  /** A row of the `words` table. */
  type Row = (Bytes, int)

  /** `x` may come before `y` under `ORDER BY <column> ASC|DESC`. */
  predicate InOrder(column: SortColumn, ascending: bool, x: Row, y: Row)
  {
    match column
    case ByWord => if ascending then LexLe(x.0, y.0) else LexLe(y.0, x.0)
    case ByFrequency => if ascending then x.1 <= y.1 else y.1 <= x.1
  }

  lemma InOrderTotal(column: SortColumn, ascending: bool, x: Row, y: Row)
    ensures InOrder(column, ascending, x, y) || InOrder(column, ascending, y, x)
  {
    LexTotal(x.0, y.0);
  }

  lemma InOrderTrans(column: SortColumn, ascending: bool, x: Row, y: Row, z: Row)
    requires InOrder(column, ascending, x, y) && InOrder(column, ascending, y, z)
    ensures InOrder(column, ascending, x, z)
  {
    if column == ByWord {
      if ascending { LexTrans(x.0, y.0, z.0); } else { LexTrans(z.0, y.0, x.0); }
    }
  }

  /** The row of word `w`. */
  function RowOf(words: map<Bytes, int>, w: Bytes): Row
    requires w in words
  {
    (w, words[w])
  }

  /** `w` may come first among `ws`. */
  predicate First(words: map<Bytes, int>, ws: set<Bytes>, column: SortColumn, ascending: bool, w: Bytes)
    requires ws <= words.Keys
  {
    w in ws && forall v :: v in ws ==> InOrder(column, ascending, RowOf(words, w), RowOf(words, v))
  }

  /** Every non-empty finite set of rows has a first row. */
  lemma {:induction false} FirstExists(words: map<Bytes, int>, ws: set<Bytes>, column: SortColumn, ascending: bool)
    requires ws <= words.Keys && ws != {}
    decreases |ws|
    ensures exists w :: First(words, ws, column, ascending, w)
  {
    var x :| x in ws;
    var rest := ws - {x};
    if rest == {} {
      assert ws == {x};
      InOrderTotal(column, ascending, RowOf(words, x), RowOf(words, x));
      assert First(words, ws, column, ascending, x);
    } else {
      FirstExists(words, rest, column, ascending);
      var m :| First(words, rest, column, ascending, m);
      InOrderTotal(column, ascending, RowOf(words, x), RowOf(words, m));
      if InOrder(column, ascending, RowOf(words, x), RowOf(words, m)) {
        forall v | v in ws ensures InOrder(column, ascending, RowOf(words, x), RowOf(words, v)) {
          if v != x {
            InOrderTrans(column, ascending, RowOf(words, x), RowOf(words, m), RowOf(words, v));
          } else {
            InOrderTotal(column, ascending, RowOf(words, x), RowOf(words, x));
          }
        }
        assert First(words, ws, column, ascending, x);
      } else {
        assert First(words, ws, column, ascending, m);
      }
    }
  }

  /**
   * `rows` lists the rows of exactly the words in `ws`, each once, in an
   * order the ORDER BY clause allows (rows that tie may come either way).
   */
  ghost predicate Ordered(words: map<Bytes, int>, ws: set<Bytes>, rows: seq<Row>, column: SortColumn, ascending: bool)
    requires ws <= words.Keys
  {
    |rows| == |ws|
    && (forall i :: 0 <= i < |rows| ==> rows[i].0 in ws && rows[i] == RowOf(words, rows[i].0))
    && (forall i, j :: 0 <= i < j < |rows| ==> rows[i].0 != rows[j].0)
    && (forall i, j :: 0 <= i < j < |rows| ==> InOrder(column, ascending, rows[i], rows[j]))
  }

  /** The words listed in `rows`. */
  function WordsOf(rows: seq<Row>): (r: set<Bytes>)
    decreases |rows|
  {
    if rows == [] then {} else WordsOf(rows[..|rows| - 1]) + {rows[|rows| - 1].0}
  }

  /** A word is listed exactly when some row holds it. */
  lemma {:induction false} WordsOfListed(rows: seq<Row>)
    decreases |rows|
    ensures forall i :: 0 <= i < |rows| ==> rows[i].0 in WordsOf(rows)
    ensures forall w :: w in WordsOf(rows) ==> exists i :: 0 <= i < |rows| && rows[i].0 == w
  {
    if rows != [] {
      var front := rows[..|rows| - 1];
      WordsOfListed(front);
      forall i | 0 <= i < |rows| ensures rows[i].0 in WordsOf(rows) {
        if i < |front| {
          assert front[i] == rows[i];
        }
      }
      forall w | w in WordsOf(rows) ensures exists i :: 0 <= i < |rows| && rows[i].0 == w {
        if w in WordsOf(front) {
          var i :| 0 <= i < |front| && front[i].0 == w;
          assert rows[i].0 == w;
        } else {
          assert rows[|rows| - 1].0 == w;
        }
      }
    }
  }

  /** Rows with distinct words list as many words as there are rows. */
  lemma {:induction false} WordsOfDistinct(rows: seq<Row>)
    requires forall i, j :: 0 <= i < j < |rows| ==> rows[i].0 != rows[j].0
    decreases |rows|
    ensures |WordsOf(rows)| == |rows|
  {
    if rows != [] {
      var front := rows[..|rows| - 1];
      WordsOfDistinct(front);
      WordsOfListed(front);
    }
  }

  /** An ordered listing is a permutation of the word set: every word of `ws` has its row in `rows`. */
  lemma OrderedCovers(words: map<Bytes, int>, ws: set<Bytes>, rows: seq<Row>, column: SortColumn, ascending: bool, w: Bytes)
    requires ws <= words.Keys && Ordered(words, ws, rows, column, ascending) && w in ws
    ensures RowOf(words, w) in rows
  {
    WordsOfListed(rows);
    WordsOfDistinct(rows);
    var listed := WordsOf(rows);
    assert listed <= ws;
    assert |ws - listed| == |ws| - |listed| == 0;
    assert w in listed;
    var i :| 0 <= i < |rows| && rows[i].0 == w;
    assert rows[i] == RowOf(words, w);
  }

  /** Words are unique, so ordering by word leaves no choice: there is one such listing. */
  lemma {:induction false} OrderedByWordUnique(words: map<Bytes, int>, ws: set<Bytes>, r1: seq<Row>, r2: seq<Row>, ascending: bool)
    requires ws <= words.Keys
    requires Ordered(words, ws, r1, ByWord, ascending) && Ordered(words, ws, r2, ByWord, ascending)
    decreases |r1|
    ensures r1 == r2
  {
    if r1 != [] {
      var a := r1[0].0;
      var b := r2[0].0;
      OrderedCovers(words, ws, r2, ByWord, ascending, a);
      OrderedCovers(words, ws, r1, ByWord, ascending, b);
      var j :| 0 <= j < |r2| && r2[j] == RowOf(words, a);
      var k :| 0 <= k < |r1| && r1[k] == RowOf(words, b);
      if j > 0 { assert InOrder(ByWord, ascending, r2[0], r2[j]); }
      if k > 0 { assert InOrder(ByWord, ascending, r1[0], r1[k]); }
      if ascending {
        LexTotal(a, a);
        LexAntisym(a, b);
      } else {
        LexTotal(a, a);
        LexAntisym(b, a);
      }
      var rest := ws - {a};
      assert Ordered(words, rest, r1[1..], ByWord, ascending) by {
        forall i | 0 <= i < |r1[1..]| ensures r1[1..][i].0 in rest {
          assert r1[1..][i] == r1[i + 1];
        }
      }
      assert Ordered(words, rest, r2[1..], ByWord, ascending) by {
        forall i | 0 <= i < |r2[1..]| ensures r2[1..][i].0 in rest {
          assert r2[1..][i] == r2[i + 1];
        }
      }
      OrderedByWordUnique(words, rest, r1[1..], r2[1..], ascending);
      assert r1 == [r1[0]] + r1[1..];
      assert r2 == [r2[0]] + r2[1..];
    }
  }

  // ---------------------------------------------------------------------
  // Paging

  /** `LIMIT limit OFFSET offset` as intended: skip `offset` rows when positive, then keep `limit` when positive. */
  function Page(rows: seq<Row>, limit: int, offset: int): (r: seq<Row>)
  {
    var skipped := if offset > 0 then rows[if offset <= |rows| then offset else |rows|..] else rows;
    if limit > 0 && limit < |skipped| then skipped[..limit] else skipped
  }

  /** The page is a contiguous run of the rows, starting at the offset and no longer than a positive limit. */
  lemma PageSlice(rows: seq<Row>, limit: int, offset: int)
    ensures var start := if offset <= 0 then 0 else if offset <= |rows| then offset else |rows|;
      Page(rows, limit, offset) == rows[start..start + |Page(rows, limit, offset)|]
      && (limit > 0 ==> |Page(rows, limit, offset)| == if limit < |rows| - start then limit else |rows| - start)
      && (limit <= 0 ==> |Page(rows, limit, offset)| == |rows| - start)
  {
  }

  /**
   * The statement text `getAllWords` builds: an OFFSET clause without a
   * LIMIT clause is not valid SQL, so the statement fails to prepare and
   * no row is returned.
   */
  function PageAsWritten(rows: seq<Row>, limit: int, offset: int): (r: seq<Row>)
  {
    if offset > 0 && limit <= 0 then [] else Page(rows, limit, offset)
  }

  /** With no limit and a positive offset inside the table, the rows after the offset are lost. */
  lemma OffsetWithoutLimitLosesRows(rows: seq<Row>, offset: int)
    requires 0 < offset < |rows|
    ensures PageAsWritten(rows, -1, offset) == []
    ensures Page(rows, -1, offset) == rows[offset..] && Page(rows, -1, offset) != []
  {
  }

  // ---------------------------------------------------------------------
  // Suggestions

  /** The result of the exact-match query: the input itself when stored. */
  function ExactMatch(words: map<Bytes, int>, input: Bytes): (r: seq<Bytes>)
  {
    if input in words then [input] else []
  }

  /** The stored words that start with `input` (`LIKE 'input%'`). */
  function Prefixed(words: map<Bytes, int>, input: Bytes): (r: set<Bytes>)
    ensures r <= words.Keys
  {
    set w | w in words && |input| <= |w| && w[..|input|] == input
  }

  /** The loop of `findWords` that appends the words of the prefix rows, one by one. */
  method AppendWords(results: seq<Bytes>, rows: seq<Row>) returns (r: seq<Bytes>)
    ensures r == results + WordsIn(rows)
  {
    r := results;
    var i := 0;
    while i < |rows|
      invariant i <= |rows|
      invariant r == results + WordsIn(rows[..i])
    {
      assert rows[..i + 1][..i] == rows[..i];
      r := r + [rows[i].0];
      i := i + 1;
    }
    assert rows[..i] == rows;
  }

  /** The words of `rows`, in order. */
  function WordsIn(rows: seq<Row>): (r: seq<Bytes>)
    decreases |rows|
  {
    if rows == [] then [] else WordsIn(rows[..|rows| - 1]) + [rows[|rows| - 1].0]
  }

  lemma {:induction false} WordsInIndex(rows: seq<Row>)
    decreases |rows|
    ensures |WordsIn(rows)| == |rows|
    ensures forall i :: 0 <= i < |rows| ==> WordsIn(rows)[i] == rows[i].0
  {
    if rows != [] {
      WordsInIndex(rows[..|rows| - 1]);
    }
  }

  /**
   * The suggestion list: the exact match, and, when it leaves room under
   * the limit, the first `limit - |exact|` prefix rows after it.
   */
  function Suggestions(exact: seq<Bytes>, rows: seq<Row>, limit: int): (r: seq<Bytes>)
  {
    if |exact| >= limit then exact
    else exact + WordsIn(if limit - |exact| < |rows| then rows[..limit - |exact|] else rows)
  }

  /** `results` is an answer `findWords` may give (ties in frequency may come either way). */
  ghost predicate Finds(isOpen: bool, words: map<Bytes, int>, input: Bytes, limit: int, results: seq<Bytes>)
  {
    if !isOpen || input == [] then results == []
    else
      exists rows :: Ordered(words, Prefixed(words, input), rows, ByFrequency, false)
                     && results == Suggestions(ExactMatch(words, input), rows, limit)
  }

  /**
   * What `findWords` promises: the exact word first when stored, never more
   * entries than a positive limit, only stored words that start with the
   * input, the prefix part most frequent first, and every stored word with
   * the prefix included when the limit leaves room for all of them.
   */
  lemma SuggestionsFacts(words: map<Bytes, int>, input: Bytes, rows: seq<Row>, limit: int)
    requires Ordered(words, Prefixed(words, input), rows, ByFrequency, false)
    ensures var r := Suggestions(ExactMatch(words, input), rows, limit);
      (input in words ==> |r| >= 1 && r[0] == input)
      && (limit >= 1 ==> |r| <= limit)
      && (forall i :: 0 <= i < |r| ==> r[i] in words && |input| <= |r[i]| && r[i][..|input|] == input)
      && (forall i, j :: |ExactMatch(words, input)| <= i < j < |r| ==> words[r[j]] <= words[r[i]])
      && (|ExactMatch(words, input)| + |Prefixed(words, input)| <= limit ==>
            forall w :: w in Prefixed(words, input) ==> w in r)
  {
    var exact := ExactMatch(words, input);
    SuggestionsRows(exact, rows, limit);
    SuggestionsPrefixed(words, input, rows, limit);
    SuggestionsByFrequency(words, input, rows, limit);
    SuggestionsComplete(words, input, rows, limit);
  }

  /** The suggestions are the exact match, then the first rows' words while the limit allows. */
  lemma SuggestionsRows(exact: seq<Bytes>, rows: seq<Row>, limit: int)
    ensures var r := Suggestions(exact, rows, limit);
      && |exact| <= |r|
      && r[..|exact|] == exact
      && (|exact| >= limit ==> |r| == |exact|)
      && (|exact| < limit ==> |r| == |exact| + (if limit - |exact| < |rows| then limit - |exact| else |rows|))
      && (forall i :: |exact| <= i < |r| ==> i - |exact| < |rows| && r[i] == rows[i - |exact|].0)
  {
    var r := Suggestions(exact, rows, limit);
    if |exact| < limit {
      var taken := if limit - |exact| < |rows| then rows[..limit - |exact|] else rows;
      WordsInIndex(taken);
      assert r == exact + WordsIn(taken);
      forall i | |exact| <= i < |r| ensures i - |exact| < |rows| && r[i] == rows[i - |exact|].0 {
        assert r[i] == WordsIn(taken)[i - |exact|] == taken[i - |exact|].0;
      }
    }
  }

  /** Every suggestion is a stored word that starts with the input. */
  lemma SuggestionsPrefixed(words: map<Bytes, int>, input: Bytes, rows: seq<Row>, limit: int)
    requires Ordered(words, Prefixed(words, input), rows, ByFrequency, false)
    ensures var r := Suggestions(ExactMatch(words, input), rows, limit);
      forall i :: 0 <= i < |r| ==> r[i] in words && |input| <= |r[i]| && r[i][..|input|] == input
  {
    var exact := ExactMatch(words, input);
    var r := Suggestions(exact, rows, limit);
    SuggestionsRows(exact, rows, limit);
    forall i | 0 <= i < |r| ensures r[i] in words && |input| <= |r[i]| && r[i][..|input|] == input {
      if i < |exact| {
        assert r[i] == r[..|exact|][i] == exact[i];
      } else {
        assert rows[i - |exact|].0 in Prefixed(words, input);
      }
    }
  }

  /** After the exact match the suggestions come most frequent first. */
  lemma SuggestionsByFrequency(words: map<Bytes, int>, input: Bytes, rows: seq<Row>, limit: int)
    requires Ordered(words, Prefixed(words, input), rows, ByFrequency, false)
    ensures var r := Suggestions(ExactMatch(words, input), rows, limit);
      forall i, j :: |ExactMatch(words, input)| <= i < j < |r| ==>
        r[i] in words && r[j] in words && words[r[j]] <= words[r[i]]
  {
    var exact := ExactMatch(words, input);
    var r := Suggestions(exact, rows, limit);
    SuggestionsRows(exact, rows, limit);
    forall i, j | |exact| <= i < j < |r| ensures r[i] in words && r[j] in words && words[r[j]] <= words[r[i]] {
      var x, y := rows[i - |exact|], rows[j - |exact|];
      assert InOrder(ByFrequency, false, x, y);
      assert x == RowOf(words, x.0) && y == RowOf(words, y.0);
    }
  }

  /** With room for all of them, every stored word with the prefix is suggested. */
  lemma SuggestionsComplete(words: map<Bytes, int>, input: Bytes, rows: seq<Row>, limit: int)
    requires Ordered(words, Prefixed(words, input), rows, ByFrequency, false)
    ensures |ExactMatch(words, input)| + |Prefixed(words, input)| <= limit ==>
              forall w :: w in Prefixed(words, input) ==> w in Suggestions(ExactMatch(words, input), rows, limit)
  {
    var exact := ExactMatch(words, input);
    var r := Suggestions(exact, rows, limit);
    if |exact| + |Prefixed(words, input)| <= limit {
      SuggestionsRows(exact, rows, limit);
      assert |r| == |exact| + |rows|;
      forall w | w in Prefixed(words, input) ensures w in r {
        OrderedCovers(words, Prefixed(words, input), rows, ByFrequency, false, w);
        var k :| 0 <= k < |rows| && rows[k] == RowOf(words, w);
        assert r[|exact| + k] == w;
      }
    }
  }

  /**
   * `INSERT ... ON CONFLICT(word) DO UPDATE SET frequency = frequency + 1`:
   * a new word gets frequency 1, a known one one more, and no other row changes.
   */
  function WithWordAdded(words: map<Bytes, int>, word: Bytes): (r: map<Bytes, int>)
    ensures r.Keys == words.Keys + {word}
    ensures r[word] == if word in words then words[word] + 1 else 1
    ensures forall w :: w in words && w != word ==> r[w] == words[w]
  {
    words[word := if word in words then words[word] + 1 else 1]
  }

  // ---------------------------------------------------------------------
  // The store

  class DictionaryManager {
    /** Whether the database opened (`db_` is not null). */
    const isOpen: bool
    /** The `words` table: each word once, with its frequency. */
    var words: map<Bytes, int>

    /** A store over the table found on disk; a store that failed to open stays empty. */
    constructor (openSucceeded: bool, stored: map<Bytes, int>)
      ensures isOpen == openSucceeded
      ensures words == if openSucceeded then stored else map[]
    {
      isOpen := openSucceeded;
      words := if openSucceeded then stored else map[];
    }

    /** `reset`: deletes every word row (the metadata table is not modelled). */
    method Reset()
      modifies this`words
      ensures isOpen ==> words == map[]
      ensures !isOpen ==> words == old(words)
    {
      if !isOpen {
        return;
      }
      words := map[];
    }

    /** `addWord`: a new word gets frequency 1, a known word one more. */
    method AddWord(word: Bytes)
      modifies this`words
      ensures isOpen ==> words == WithWordAdded(old(words), word)
      ensures !isOpen ==> words == old(words)
    {
      if !isOpen {
        return;
      }
      if word in words {
        words := words[word := words[word] + 1];
      } else {
        words := words[word := 1];
      }
    }

    /** `removeWord`: the word's row is deleted, if there is one. */
    method RemoveWord(word: Bytes)
      modifies this`words
      ensures isOpen ==> words == old(words) - {word}
      ensures !isOpen ==> words == old(words)
    {
      if !isOpen {
        return;
      }
      words := words - {word};
    }

    /** `getWordFrequency`: the stored frequency, or -1 for an unknown word or a store that is not open. */
    method GetWordFrequency(word: Bytes) returns (frequency: int)
      ensures isOpen && word in words ==> frequency == words[word]
      ensures !(isOpen && word in words) ==> frequency == -1
    {
      if !isOpen {
        return -1;
      }
      frequency := -1;
      if word in words {
        frequency := words[word];
      }
    }

    /** `updateWordFrequency`: overwrites the frequency of a stored word; true exactly when a row was updated. */
    method UpdateWordFrequency(word: Bytes, frequency: int) returns (success: bool)
      modifies this`words
      ensures success <==> isOpen && word in old(words)
      ensures words == if success then old(words)[word := frequency] else old(words)
    {
      if !isOpen {
        return false;
      }
      success := word in words;
      if success {
        words := words[word := frequency];
      }
    }

    /** The rows of the words in `ws` in an order ORDER BY allows: the first remaining row is taken each time. */
    method OrderRows(ws: set<Bytes>, column: SortColumn, ascending: bool) returns (rows: seq<Row>)
      requires ws <= words.Keys
      ensures Ordered(words, ws, rows, column, ascending)
    {
      rows := [];
      var remaining := ws;
      while remaining != {}
        invariant remaining <= ws
        invariant |rows| + |remaining| == |ws|
        invariant forall i :: 0 <= i < |rows| ==> rows[i].0 in ws && rows[i].0 !in remaining && rows[i] == RowOf(words, rows[i].0)
        invariant forall i, j :: 0 <= i < j < |rows| ==> rows[i].0 != rows[j].0
        invariant forall i, j :: 0 <= i < j < |rows| ==> InOrder(column, ascending, rows[i], rows[j])
        invariant forall i, v :: 0 <= i < |rows| && v in remaining ==> InOrder(column, ascending, rows[i], RowOf(words, v))
        decreases |remaining|
      {
        FirstExists(words, remaining, column, ascending);
        var w :| w in remaining && First(words, remaining, column, ascending, w);
        rows := rows + [RowOf(words, w)];
        remaining := remaining - {w};
      }
    }

    /**
     * `findWords`: nothing for an empty input or a closed store; otherwise
     * the exact match, then (unless that already reaches the limit) the
     * words starting with the input, most frequent first, as many as the
     * limit leaves room for.
     */
    method FindWords(input: Bytes, limit: int) returns (results: seq<Bytes>)
      ensures Finds(isOpen, words, input, limit, results)
    {
      results := [];
      if !isOpen || input == [] {
        return;
      }
      if input in words {
        results := results + [input];
      }
      assert results == ExactMatch(words, input);
      if |results| >= limit {
        ghost var rows := OrderRows(Prefixed(words, input), ByFrequency, false);
        assert results == Suggestions(ExactMatch(words, input), rows, limit);
        return;
      }
      var rows := OrderRows(Prefixed(words, input), ByFrequency, false);
      var prefixRows := if limit - |results| < |rows| then rows[..limit - |results|] else rows;
      ghost var exact := results;
      results := AppendWords(results, prefixRows);
      assert results == Suggestions(exact, rows, limit);
    }

    /**
     * `getAllWords`: every row in the requested order, paged by a positive
     * limit and offset; the defaults list the whole table by word, ascending.
     */
    method GetAllWords(limit: int := -1, offset: int := 0, sortBy: SortColumn := ByWord, ascending: bool := true)
      returns (results: seq<Row>)
      ensures !isOpen ==> results == []
      ensures isOpen ==> exists rows :: Ordered(words, words.Keys, rows, sortBy, ascending) && results == Page(rows, limit, offset)
    {
      if !isOpen {
        return [];
      }
      var rows := OrderRows(words.Keys, sortBy, ascending);
      results := Page(rows, limit, offset);
    }

    /** `searchWords`: the rows whose word contains the term, most frequent first; nothing for an empty term. */
    method SearchWords(searchTerm: Bytes) returns (results: seq<Row>)
      ensures !isOpen || searchTerm == [] ==> results == []
      ensures isOpen && searchTerm != [] ==>
        Ordered(words, Matching(words, searchTerm), results, ByFrequency, false)
    {
      if !isOpen || searchTerm == [] {
        return [];
      }
      results := OrderRows(Matching(words, searchTerm), ByFrequency, false);
    }
  }

  /** The stored words that contain `term` (`LIKE '%term%'`). */
  function Matching(words: map<Bytes, int>, term: Bytes): (r: set<Bytes>)
    ensures r <= words.Keys
  {
    set w | w in words && Contains(w, term)
  }

  /** `term` occurs somewhere in `w`. */
  predicate Contains(w: Bytes, term: Bytes)
  {
    exists i :: 0 <= i <= |w| && OccursAt(w, term, i)
  }

  /** `term` occurs in `w` at index `i`. */
  predicate OccursAt(w: Bytes, term: Bytes, i: nat)
  {
    i + |term| <= |w| && w[i..i + |term|] == term
  }
}
