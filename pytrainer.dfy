// The command-line trainer (lekhika-trainer.py): its own Devanagari word
// validator on code points, the chunked learning loop over a large text
// file, and the single-word add and remove commands. Python strings are
// sequences of code points, here `string` with Unicode characters. The
// worker pool's parallelism, the SQLite connection, argument parsing and
// printing are not modelled.

module PyTrainer {
  import Bytes
  import opened Tokens

  /** Characters read per chunk (15 MiB). */
  const ChunkSize: int := 15 * 1024 * 1024

  predicate Devanagari(c: char) { '\U{0900}' <= c <= '\U{097F}' }
  predicate IndependentVowel(c: char) { '\U{0904}' <= c <= '\U{0914}' }
  predicate Consonant(c: char) { '\U{0915}' <= c <= '\U{0939}' }
  const Halant: char := '\U{094D}'
  const Om: char := '\U{0950}'

  // ---------------------------------------------------------------------
  // The validator

  /** Rule 1's loop: every code point lies in the Devanagari block. */
  function AllDevanagari(s: string): (r: bool)
    ensures r <==> forall i :: 0 <= i < |s| ==> Devanagari(s[i])
  {
    s == [] || (Devanagari(s[0]) && AllDevanagari(s[1..]))
  }

  /** Rule 4's loop: no independent vowel. */
  function NoIndependentVowel(s: string): (r: bool)
    ensures r <==> forall i :: 0 <= i < |s| ==> !IndependentVowel(s[i])
  {
    s == [] || (!IndependentVowel(s[0]) && NoIndependentVowel(s[1..]))
  }

  /**
   * `is_valid_devanagari_word`: at least two code points, all in the
   * block, not ending with the halant, starting with a consonant, an
   * independent vowel or OM, and with no independent vowel after the start.
   */
  function IsValidDevanagariWord(word: string): (r: bool)
    ensures r <==> |word| >= 2
                   && (forall i :: 0 <= i < |word| ==> Devanagari(word[i]))
                   && word[|word| - 1] != Halant
                   && (Consonant(word[0]) || IndependentVowel(word[0]) || word[0] == Om)
                   && (forall i :: 1 <= i < |word| ==> !IndependentVowel(word[i]))
  {
    if |word| < 2 then false
    else if !AllDevanagari(word) then false
    else if word[|word| - 1] == Halant then false
    else if !(Consonant(word[0]) || IndependentVowel(word[0]) || word[0] == Om) then false
    else
      assert forall i :: 1 <= i < |word| ==> word[i] == word[1..][i - 1];
      NoIndependentVowel(word[1..])
  }

  /**
   * A valid word stays valid when a dependent sign or consonant is added,
   * and a halant at the end makes it invalid until a consonant follows.
   */
  lemma ExtendValid(word: string, c: char, k: char)
    requires IsValidDevanagariWord(word)
    requires Devanagari(c) && !IndependentVowel(c) && c != Halant && Consonant(k)
    ensures IsValidDevanagariWord(word + [c])
    ensures !IsValidDevanagariWord(word + [Halant])
    ensures IsValidDevanagariWord(word + [Halant, k])
  {
    assert forall i :: 0 <= i < |word| ==> (word + [c])[i] == word[i];
    assert forall i :: 0 <= i < |word| ==> (word + [Halant, k])[i] == word[i];
  }

  /** `validate_word_list`: the valid words, in their order. */
  function ValidateWordList(words: seq<string>): (r: seq<string>)
    ensures forall w :: w in r <==> w in words && IsValidDevanagariWord(w)
  {
    FilterMembers(words, IsValidDevanagariWord);
    Filter(words, IsValidDevanagariWord)
  }

  lemma {:induction false} FilterMembers<T>(s: seq<T>, p: T -> bool)
    ensures forall x :: x in Filter(s, p) <==> x in s && p(x)
  {
    if s != [] {
      FilterMembers(s[1..], p);
      assert s == [s[0]] + s[1..];
    }
  }

  // ---------------------------------------------------------------------
  // Splitting the words among the workers

  /** `[ws[j:j + n] for j in range(0, len(ws), n)]`. */
  function Slices(ws: seq<string>, n: nat): (r: seq<seq<string>>)
    requires n > 0
    decreases |ws|
  {
    if ws == [] then []
    else
      var m := if n < |ws| then n else |ws|;
      [ws[..m]] + Slices(ws[m..], n)
  }

  /** The slices, joined, give back the list; each is non-empty and holds at most `n` words. */
  lemma {:induction false} SlicesFacts(ws: seq<string>, n: nat)
    requires n > 0
    decreases |ws|
    ensures Flatten(Slices(ws, n)) == ws
    ensures forall k :: 0 <= k < |Slices(ws, n)| ==> 0 < |Slices(ws, n)[k]| <= n
  {
    if ws != [] {
      var m := if n < |ws| then n else |ws|;
      SlicesFacts(ws[m..], n);
      assert ws[..m] + ws[m..] == ws;
      assert Slices(ws, n)[1..] == Slices(ws[m..], n);
    }
  }

  /** The pool's slice length: the words divided among the workers, rounded up. */
  function PerWorker(count: nat, cpus: nat): (r: nat)
    requires cpus >= 1
  {
    (count + cpus - 1) / cpus
  }

  /**
   * The slicing as written: with no word found the slice length is 0, and
   * `range` with a step of 0 raises ValueError (None here).
   */
  function PoolSlicesAsWritten(ws: seq<string>, cpus: nat): (r: Bytes.Option<seq<seq<string>>>)
    requires cpus >= 1
  {
    var n := PerWorker(|ws|, cpus);
    if n == 0 then Bytes.None else Bytes.Some(Slices(ws, n))
  }

  /** The slicing as intended: no slice at all when there is no word. */
  function PoolSlices(ws: seq<string>, cpus: nat): (r: seq<seq<string>>)
    requires cpus >= 1
    ensures Flatten(r) == ws
  {
    var n := PerWorker(|ws|, cpus);
    SlicesFacts(ws, if n == 0 then 1 else n);
    Slices(ws, if n == 0 then 1 else n)
  }

  /** The slicing as written fails exactly on a chunk without words, and otherwise agrees with the intended one. */
  lemma NoWordsRaises(ws: seq<string>, cpus: nat)
    requires cpus >= 1
    ensures PoolSlicesAsWritten(ws, cpus).None? <==> ws == []
    ensures ws != [] ==> PoolSlicesAsWritten(ws, cpus) == Bytes.Some(PoolSlices(ws, cpus))
  {
    if ws != [] {
      assert |ws| + cpus - 1 >= cpus;
      assert PerWorker(|ws|, cpus) >= 1;
    }
  }

  /** `pool.map(validate_word_list, word_chunks)` joined: the same words as validating the whole list. */
  lemma PoolValidates(ws: seq<string>, cpus: nat)
    requires cpus >= 1
    ensures Flatten(FilterEach(PoolSlices(ws, cpus), IsValidDevanagariWord)) == ValidateWordList(ws)
  {
    FilterPieces(PoolSlices(ws, cpus), IsValidDevanagariWord);
  }

  // ---------------------------------------------------------------------
  // Chunked reading

  /** `s.rfind(c)`: the last index holding `c`, or -1. */
  function RFind(s: string, c: char): (r: int)
    ensures -1 <= r < |s|
    ensures r >= 0 ==> s[r] == c && forall i :: r < i < |s| ==> s[i] != c
    ensures r == -1 ==> forall i :: 0 <= i < |s| ==> s[i] != c
  {
    if s == [] then -1 else if s[|s| - 1] == c then |s| - 1 else RFind(s[..|s| - 1], c)
  }

  /**
   * Two chunks processed one after the other: the later one starts at a
   * space (or is empty), or the earlier one held no space at all.
   */
  predicate CutAtSpace(earlier: string, later: string)
  {
    later == [] || later[0] == ' ' || NoSpace(earlier)
  }

  /** Every two consecutive chunks are cut as `CutAtSpace` says. */
  predicate CutsAtSpaces(pieces: seq<string>)
  {
    forall k :: 0 <= k < |pieces| - 1 ==> CutAtSpace(pieces[k], pieces[k + 1])
  }

  lemma CutsSnoc(pieces: seq<string>, next: string)
    requires CutsAtSpaces(pieces)
    requires pieces != [] ==> CutAtSpace(pieces[|pieces| - 1], next)
    ensures CutsAtSpaces(pieces + [next])
  {
    var ps := pieces + [next];
    forall k | 0 <= k < |ps| - 1
      ensures CutAtSpace(ps[k], ps[k + 1])
    {
      if k < |pieces| - 1 {
        assert ps[k] == pieces[k] && ps[k + 1] == pieces[k + 1];
      }
    }
  }

  predicate NoSpace(s: string)
  {
    forall i :: 0 <= i < |s| ==> s[i] != ' '
  }

  /**
   * The chunks the loop of `learn_from_file` scans, from read `i` on with
   * `carried` kept back from the read before: the carried text plus the new
   * read, skipped when empty; every read but the last is cut at its last
   * space and the rest carried over, or carried over nothing when it holds
   * no space.
   */
  function CutFrom(texts: seq<string>, i: nat, carried: string): (r: seq<string>)
    requires i <= |texts|
    decreases |texts| - i
  {
    if i == |texts| then []
    else
      var whole := carried + texts[i];
      var cut := RFind(whole, ' ');
      if whole == [] then CutFrom(texts, i + 1, carried)
      else if i == |texts| - 1 then [whole]
      else if cut == -1 then [whole] + CutFrom(texts, i + 1, [])
      else [whole[..cut]] + CutFrom(texts, i + 1, whole[cut..])
  }

  /** The chunks scanned for the reads `texts`. */
  function Cut(texts: seq<string>): (r: seq<string>)
  {
    CutFrom(texts, 0, [])
  }

  /** The words found chunk by chunk. */
  function ChunkWords(pieces: seq<string>): (r: seq<string>)
  {
    ValidateWordList(Flatten(RunsEach(pieces, Devanagari)))
  }

  /**
   * When every chunk but the last held a space, the chunks were cut just
   * before spaces, and they yield the words of the whole text.
   */
  lemma ChunkedAsWhole(pieces: seq<string>)
    requires CutsAtSpaces(pieces)
    requires forall k :: 0 <= k < |pieces| - 1 ==> exists i :: 0 <= i < |pieces[k]| && pieces[k][i] == ' '
    ensures ChunkWords(pieces) == ValidateWordList(Runs(Flatten(pieces), Devanagari))
  {
    forall k | 1 <= k < |pieces| ensures pieces[k] == [] || !Devanagari(pieces[k][0]) {
      assert CutAtSpace(pieces[k - 1], pieces[k]);
    }
    RunsOfPieces(pieces, Devanagari);
  }

  /** The words of one chunk: its runs of Devanagari, validated slice by slice. */
  method ChunkValidWords(content: string, cpus: nat) returns (valid: seq<string>)
    requires cpus >= 1
    ensures valid == ValidateWordList(Runs(content, Devanagari))
  {
    var potential := Runs(content, Devanagari);
    var slices := PoolSlices(potential, cpus);
    var results := FilterEach(slices, IsValidDevanagariWord);
    PoolValidates(potential, cpus);
    valid := Flatten(results);
  }

  // ---------------------------------------------------------------------
  // The store

  /** `INSERT ... ON CONFLICT(word) DO UPDATE SET frequency = frequency + 1`. */
  function Incremented(words: map<string, int>, word: string): (r: map<string, int>)
    ensures r.Keys == words.Keys + {word}
    ensures r[word] == if word in words then words[word] + 1 else 1
    ensures forall w :: w in words && w != word ==> r[w] == words[w]
  {
    words[word := if word in words then words[word] + 1 else 1]
  }

  /** The store after inserting each word of `ws` in turn. */
  function AddAll(words: map<string, int>, ws: seq<string>): (r: map<string, int>)
    decreases |ws|
  {
    if ws == [] then words else Incremented(AddAll(words, ws[..|ws| - 1]), ws[|ws| - 1])
  }

  /** Each word's frequency rises by its number of occurrences, from 0 for a new word; no other row changes. */
  lemma {:induction false} AddAllCounts(words: map<string, int>, ws: seq<string>)
    decreases |ws|
    ensures forall w :: (w in AddAll(words, ws) <==> w in words || Count(w, ws) > 0)
                        && (w in AddAll(words, ws) ==>
                              AddAll(words, ws)[w] == (if w in words then words[w] else 0) + Count(w, ws))
  {
    if ws != [] {
      AddAllCounts(words, ws[..|ws| - 1]);
    }
  }

  class DictionaryManager {
    /** The `words` table: each word once, with its frequency. */
    var words: map<string, int>

    constructor (stored: map<string, int>)
      ensures words == stored
    {
      words := stored;
    }

    /** `add_word`: an invalid word is refused; a valid one is inserted or counted once more. */
    method AddWord(word: string) returns (accepted: bool)
      modifies this`words
      ensures accepted <==> IsValidDevanagariWord(word)
      ensures words == if accepted then Incremented(old(words), word) else old(words)
    {
      if !IsValidDevanagariWord(word) {
        return false;
      }
      words := Incremented(words, word);
      return true;
    }

    /** `remove_word`: deletes the row; the result is whether there was one. */
    method RemoveWord(word: string) returns (removed: bool)
      modifies this`words
      ensures removed <==> word in old(words)
      ensures words == old(words) - {word}
    {
      removed := word in words;
      words := words - {word};
    }

    /**
     * `learn_from_file`, given the texts the successive reads return (one per
     * chunk; the file size fixes their number, always at least one). Each
     * chunk but the last keeps back the text from its last space onward for
     * the next one, as `Cut` says: together the chunks are the whole text
     * read. The valid words are added at the end, only
     * when there is at least one.
     */
    method LearnFromFile(texts: seq<string>, cpus: nat) returns (learned: seq<string>)
      requires |texts| >= 1 && cpus >= 1
      modifies this`words
      ensures Flatten(Cut(texts)) == Flatten(texts)
      ensures CutsAtSpaces(Cut(texts))
      ensures learned == ChunkWords(Cut(texts))
      ensures words == AddAll(old(words), learned)
    {
      learned := ReadChunks(texts, cpus);
      if learned != [] {
        InsertAll(learned);
      }
    }

    /** `executemany` of the upsert: each word inserted or counted once more, in turn. */
    method InsertAll(ws: seq<string>)
      modifies this`words
      ensures words == AddAll(old(words), ws)
    {
      for j := 0 to |ws|
        invariant words == AddAll(old(words), ws[..j])
      {
        assert ws[..j + 1][..j] == ws[..j];
        words := Incremented(words, ws[j]);
      }
      assert ws[..|ws|] == ws;
    }
  }

  /** The chunk loop of `learn_from_file`: the valid words of every chunk, in order. */
  method ReadChunks(texts: seq<string>, cpus: nat) returns (allValid: seq<string>)
    requires |texts| >= 1 && cpus >= 1
    ensures Flatten(Cut(texts)) == Flatten(texts)
    ensures CutsAtSpaces(Cut(texts))
    ensures allValid == ChunkWords(Cut(texts))
  {
    allValid := [];
    var leftover: string := "";
    ghost var pieces: seq<string> := [];
    for i := 0 to |texts|
      invariant ChunksRead(texts, i, leftover, pieces, allValid)
    {
      leftover, allValid, pieces := ReadChunk(texts, i, leftover, allValid, pieces, cpus);
    }
    assert texts[..|texts|] == texts;
    assert pieces + [] == pieces;
  }

  /**
   * What the chunk loop has done after `i` reads: the pieces scanned so far
   * and the text carried over make up the reads, every cut is at a space,
   * the pieces still to come are the rest of `Cut`, and the valid words are
   * those of the pieces.
   */
  ghost predicate ChunksRead(texts: seq<string>, i: nat, leftover: string, pieces: seq<string>, allValid: seq<string>)
    requires i <= |texts|
  {
    && Flatten(pieces) + (if i == |texts| then [] else leftover) == Flatten(texts[..i])
    && (leftover == [] || leftover[0] == ' ')
    && (i < |texts| && leftover == [] && pieces != [] ==> NoSpace(pieces[|pieces| - 1]))
    && CutsAtSpaces(pieces)
    && pieces + CutFrom(texts, i, leftover) == Cut(texts)
    && allValid == ChunkWords(pieces)
  }

  /** One pass of the chunk loop: read `texts[i]`, cut at its last space, validate the chunk. */
  method ReadChunk(texts: seq<string>, i: nat, leftover: string, allValid: seq<string>, ghost pieces: seq<string>, cpus: nat)
    returns (leftover': string, allValid': seq<string>, ghost pieces': seq<string>)
    requires i < |texts| && cpus >= 1
    requires ChunksRead(texts, i, leftover, pieces, allValid)
    ensures ChunksRead(texts, i + 1, leftover', pieces', allValid')
  {
    ghost var done := Flatten(pieces);
    assert texts[..i + 1] == texts[..i] + [texts[i]];
    FlattenSnoc(texts[..i], texts[i]);
    var scan, content;
    scan, content, leftover' := NextChunk(leftover, texts[i], i == |texts| - 1);
    ghost var rest := if i + 1 == |texts| then [] else leftover';
    CutFromStep(texts, i, leftover, scan, content, leftover');
    if !scan {
      ChunkStep(done, leftover, texts[i], [], rest);
      allValid', pieces' := allValid, pieces;
    } else {
      ChunkStep(done, leftover, texts[i], content, rest);
      var chunkValid := ChunkValidWords(content, cpus);
      ChunkWordsSnoc(pieces, content);
      FlattenSnoc(pieces, content);
      if pieces != [] {
        assert CutAtSpace(pieces[|pieces| - 1], content);
      }
      CutsSnoc(pieces, content);
      pieces' := pieces + [content];
      allValid' := allValid + chunkValid;
      ConcatAssoc(pieces, [content], CutFrom(texts, i + 1, leftover'));
    }
  }

  lemma ConcatAssoc(a: seq<string>, b: seq<string>, c: seq<string>)
    ensures a + (b + c) == a + b + c
  {
  }

  /** A text with no space has no last space. */
  lemma {:induction false} NoSpaceNotFound(s: string)
    requires NoSpace(s)
    ensures RFind(s, ' ') == -1
    decreases |s|
  {
    if s != [] {
      assert s[|s| - 1] != ' ';
      NoSpaceNotFound(s[..|s| - 1]);
    }
  }

  /** What one pass of the chunk loop does, as `CutFrom` says. */
  lemma CutFromStep(texts: seq<string>, i: nat, leftover: string, scan: bool, content: string, carried: string)
    requires i < |texts|
    requires scan <==> leftover + texts[i] != []
    requires !scan ==> carried == leftover
    requires scan ==> content + (if i == |texts| - 1 then [] else carried) == leftover + texts[i]
    requires scan && i < |texts| - 1 && carried != [] ==> |content| == RFind(leftover + texts[i], ' ')
    requires scan && i < |texts| - 1 && carried == [] ==> NoSpace(content)
    ensures CutFrom(texts, i, leftover) == (if scan then [content] else []) + CutFrom(texts, i + 1, carried)
  {
    var whole := leftover + texts[i];
    if !scan {
    } else if i == |texts| - 1 {
      assert content == whole;
      assert CutFrom(texts, i + 1, carried) == [];
    } else if carried == [] {
      assert content == whole;
      NoSpaceNotFound(whole);
    } else {
      assert content == whole[..|content|] && carried == whole[|content|..];
    }
  }

  lemma ChunkStep(done: string, carried: string, text: string, content: string, rest: string)
    requires content + rest == carried + text
    ensures done + carried + text == done + content + rest
  {
    assert done + carried + text == done + (carried + text);
    assert done + content + rest == done + (content + rest);
  }

  /**
   * One pass of the chunk loop before the scan: the text carried over plus
   * the new read, skipped when empty; in a chunk that is not the last, the
   * part from the last space onward is carried over again (nothing when
   * there is no space).
   */
  method NextChunk(leftover: string, text: string, isLast: bool) returns (scan: bool, content: string, carried: string)
    requires leftover == [] || leftover[0] == ' '
    ensures scan <==> leftover + text != []
    ensures !scan ==> carried == leftover
    ensures scan ==> content + (if isLast then [] else carried) == leftover + text
    ensures isLast ==> carried == leftover
    ensures carried == [] || carried[0] == ' '
    ensures scan && !isLast && carried == [] ==> NoSpace(content)
    ensures scan && !isLast && carried != [] ==> |content| == RFind(leftover + text, ' ')
    ensures scan && leftover != [] ==> content == [] || content[0] == ' '
  {
    content := leftover + text;
    carried := leftover;
    if content == [] {
      return false, content, carried;
    }
    scan := true;
    if !isLast {
      var splitPoint := RFind(content, ' ');
      if splitPoint != -1 {
        carried := content[splitPoint..];
        content := content[..splitPoint];
        assert content + carried == leftover + text;
      } else {
        carried := "";
      }
    }
  }

  lemma ChunkWordsSnoc(pieces: seq<string>, content: string)
    ensures ChunkWords(pieces + [content]) == ChunkWords(pieces) + ValidateWordList(Runs(content, Devanagari))
  {
    assert RunsEach(pieces + [content], Devanagari) == RunsEach(pieces, Devanagari) + [Runs(content, Devanagari)];
    FlattenSnoc(RunsEach(pieces, Devanagari), Runs(content, Devanagari));
    FilterConcat(Flatten(RunsEach(pieces, Devanagari)), Runs(content, Devanagari), IsValidDevanagariWord);
  }
}
