// The fcitx addon around the engine: the per-context input state (buffer,
// cursor, "navigated in candidates"), the candidate list on the panel, the
// configuration it applies, and keyEvent's state machine. Drawing the
// preedit and the panel is left out; the strings committed to the
// application are recorded, in order, in `committed`.

module Addon {
  import opened Bytes
  import opened Keys
  import Pipeline
  import Core
  import Dictionary
  import Loader

  datatype LayoutHint = Horizontal | Vertical

  // ---------------------------------------------------------------------
  // Candidate cursor and the words shown

  /**
   * The candidate cursor after Up (`up`) or Down in a list of `total`
   * entries. The dividend is never negative, so C++'s `%` and Dafny's agree.
   */
  function NextCursor(index: int, total: int, up: bool): (r: int)
    requires 0 <= index < total
    ensures 0 <= r < total
  {
    if up then (index - 1 + total) % total else (index + 1) % total
  }

  /** Up and Down step by one and wrap around at both ends, and each undoes the other. */
  lemma NextCursorFacts(index: int, total: int)
    requires 0 <= index < total
    ensures NextCursor(index, total, false) == if index == total - 1 then 0 else index + 1
    ensures NextCursor(index, total, true) == if index == 0 then total - 1 else index - 1
    ensures NextCursor(NextCursor(index, total, false), total, true) == index
    ensures NextCursor(NextCursor(index, total, true), total, false) == index
  {
    ModOnce(index + 1, total);
    ModOnce(index - 1 + total, total);
    var down := NextCursor(index, total, false);
    var up := NextCursor(index, total, true);
    ModOnce(down - 1 + total, total);
    ModOnce(up + 1, total);
  }

  /** `x % n` for a dividend below `2 * n`: at most one `n` comes off. */
  lemma ModOnce(x: int, n: int)
    requires 0 < n && 0 <= x < 2 * n
    ensures x % n == if x < n then x else x - n
  {
    var q := x / n;
    assert x == q * n + x % n;
    assert q == 0 || q == 1;
  }

  /** The found words that pass `utf8::validate`, in their order. */
  function ValidOnly(ws: seq<Bytes>): (r: seq<Bytes>)
    decreases |ws|
  {
    if ws == [] then []
    else ValidOnly(ws[..|ws| - 1]) + (if ValidUtf8(ws[|ws| - 1]) then [ws[|ws| - 1]] else [])
  }

  /** Validation only drops words: what remains is exactly the well-formed words found. */
  lemma {:induction false} ValidOnlyFacts(ws: seq<Bytes>)
    decreases |ws|
    ensures |ValidOnly(ws)| <= |ws|
    ensures forall w :: w in ValidOnly(ws) <==> w in ws && ValidUtf8(w)
  {
    if ws != [] {
      var front := ws[..|ws| - 1];
      ValidOnlyFacts(front);
      assert ws == front + [ws[|ws| - 1]];
    }
  }

  /** `std::max(1, suggestionLimit_)`: the limit `updateCandidates` asks the store for. */
  function QueryLimit(suggestionLimit: int): (r: int)
  {
    if suggestionLimit < 1 then 1 else suggestionLimit
  }

  /**
   * The list `updateCandidates` puts on the panel for the `found` words, or
   * None for no list: none without a buffer, with suggestions off, or when
   * no found word is well-formed UTF-8.
   */
  function Shown(buffer: Bytes, enableSuggestion: bool, found: seq<Bytes>): (r: Option<seq<Bytes>>)
  {
    if buffer == [] || !enableSuggestion || ValidOnly(found) == [] then None else Some(ValidOnly(found))
  }

  /**
   * As written, the list goes on the panel whenever the store found a word,
   * even when every found word then fails validation.
   */
  function ShownAsWritten(buffer: Bytes, enableSuggestion: bool, found: seq<Bytes>): (r: Option<seq<Bytes>>)
  {
    if buffer == [] || !enableSuggestion || found == [] then None else Some(ValidOnly(found))
  }

  /**
   * A stored word that is not well-formed UTF-8 makes the written code show
   * an empty list, on which Up and Down compute `% 0` and Space and Return
   * read a candidate that does not exist; the corrected list is not shown.
   */
  lemma EmptyListShown()
    ensures ShownAsWritten([B('k')], true, [[0xFF]]) == Some([])
    ensures Shown([B('k')], true, [[0xFF]]) == None
  {
    assert CharLength([0xFF]) == 0;
    assert ValidOnly([[0xFF]]) == ValidOnly([]) + [];
  }

  /**
   * A shown list is never empty, holds only well-formed found words, and,
   * when the words came from `findWords` at the query limit, has at most
   * that many entries.
   */
  lemma ShownFacts(buffer: Bytes, enableSuggestion: bool, found: seq<Bytes>, isOpen: bool,
                   words: map<Bytes, int>, prefix: Bytes, suggestionLimit: int)
    requires Dictionary.Finds(isOpen, words, prefix, QueryLimit(suggestionLimit), found)
    ensures Shown(buffer, enableSuggestion, found) == None <==>
              buffer == [] || !enableSuggestion || forall w :: w in found ==> !ValidUtf8(w)
    ensures Shown(buffer, enableSuggestion, found).Some? ==>
              var ws := Shown(buffer, enableSuggestion, found).value;
              ws != [] && |ws| <= QueryLimit(suggestionLimit)
              && forall w :: w in ws ==> w in found && ValidUtf8(w)
  {
    ValidOnlyFacts(found);
    if ValidOnly(found) != [] {
      assert ValidOnly(found)[0] in ValidOnly(found);
    }
    if isOpen && prefix != [] {
      var rows :| Dictionary.Ordered(words, Dictionary.Prefixed(words, prefix), rows, Dictionary.ByFrequency, false)
                  && found == Dictionary.Suggestions(Dictionary.ExactMatch(words, prefix), rows, QueryLimit(suggestionLimit));
      Dictionary.SuggestionsFacts(words, prefix, rows, QueryLimit(suggestionLimit));
    }
  }

  // ---------------------------------------------------------------------
  // The candidate list

  class LekhikaCandidateList {
    var words: seq<Bytes>
    var labels: seq<Bytes>
    var cursor: int
    const horizontal: bool

    /** Each candidate carries the label of its 1-based position. */
    ghost predicate Valid()
      reads this
    {
      |labels| == |words| && forall i :: 0 <= i < |labels| ==> labels[i] == Decimal(i + 1)
    }

    constructor (horizontal: bool)
      ensures this.horizontal == horizontal && words == [] && cursor == 0 && Valid()
    {
      this.horizontal := horizontal;
      words := [];
      labels := [];
      cursor := 0;
    }

    function Size(): int
      reads this
    {
      |words|
    }

    /** `empty()`: no word was appended. */
    function Empty(): (r: bool)
      reads this
      ensures r <==> Size() == 0
    {
      words == []
    }

    function LayoutHint(): (r: LayoutHint)
      reads this
      ensures r == Horizontal <==> horizontal
    {
      if horizontal then Horizontal else Vertical
    }

    /** `label(idx)`: the decimal position `idx + 1` in range, the empty text outside. */
    function Label(idx: int): (r: Bytes)
      reads this
      requires Valid()
      ensures 0 <= idx < Size() ==> r == Decimal(idx + 1) && ParseDecimal(r) == idx + 1
      ensures !(0 <= idx < Size()) ==> r == []
    {
      if 0 <= idx < |labels| then DecimalRoundTrip(idx + 1); labels[idx] else []
    }

    /** `setCursorIndex`: stores the index as given, with no range check. */
    method SetCursorIndex(c: int)
      modifies this`cursor
      ensures cursor == c
    {
      cursor := c;
    }

    /** `append`: the word goes last, labelled with the new size. */
    method Append(word: Bytes)
      requires Valid()
      modifies this`words, this`labels
      ensures Valid()
      ensures words == old(words) + [word] && Size() == old(Size()) + 1
    {
      words := words + [word];
      labels := labels + [Decimal(|words|)];
    }
  }

  // ---------------------------------------------------------------------
  // Per-context state and configuration

  class NepaliRomanState {
    var buffer: Bytes
    var cursorPos: nat
    var navigatedInCandidates: bool

    constructor ()
      ensures buffer == [] && cursorPos == 0 && !navigatedInCandidates
    {
      buffer := [];
      cursorPos := 0;
      navigatedInCandidates := false;
    }
  }

  datatype Config = Config(
    enableSmartCorrection: bool,
    enableAutoCorrect: bool,
    enableIndicNumbers: bool,
    enableSymbolsTransliteration: bool,
    enableSuggestion: bool,
    enableDictionaryLearning: bool,
    horizontalLayout: bool,
    suggestionLimit: int,
    spacecanCommitSuggestions: bool)

  /** The option defaults: corrections, numbers, symbols and suggestions on; learning, horizontal layout and space-commit off; 7 suggestions. */
  const DefaultConfig := Config(true, true, true, true, true, false, false, 7, false)

  // ---------------------------------------------------------------------
  // The engine

  class NepaliRomanEngine {
    /** The state of the one input context modelled. */
    const state: NepaliRomanState
    const transliterator: Core.Transliteration
    const dictionary: Dictionary.DictionaryManager
    var config: Config
    var enableSmartCorrection: bool
    var enableAutoCorrect: bool
    var enableIndicNumbers: bool
    var enableSymbolsTransliteration: bool
    var enableSuggestion: bool
    var enableDictionaryLearning: bool
    var suggestionLimit: int
    var horizontalLayout: bool
    var spacecanCommitSuggestions: bool
    /** The candidate list on the panel; null when none is shown. */
    var candidateList: LekhikaCandidateList?
    /** Everything committed to the application so far. */
    var committed: seq<Bytes>

    /**
     * The cursor stays within the buffer, and a shown list is non-empty
     * with its candidate cursor on one of its entries.
     */
    ghost predicate Valid()
      reads this, state, candidateList
    {
      state.cursorPos <= |state.buffer|
      && (candidateList != null ==>
            candidateList.Valid() && 0 <= candidateList.cursor < |candidateList.words|)
    }

    /** The engine's switches are those of `config`, and the transliterator's toggles follow them. */
    ghost predicate Applied()
      reads this, transliterator
    {
      enableSmartCorrection == config.enableSmartCorrection
      && enableAutoCorrect == config.enableAutoCorrect
      && enableIndicNumbers == config.enableIndicNumbers
      && enableSymbolsTransliteration == config.enableSymbolsTransliteration
      && enableSuggestion == config.enableSuggestion
      && enableDictionaryLearning == config.enableDictionaryLearning
      && suggestionLimit == config.suggestionLimit
      && horizontalLayout == config.horizontalLayout
      && spacecanCommitSuggestions == config.spacecanCommitSuggestions
      && transliterator.enableSmartCorrection == config.enableSmartCorrection
      && transliterator.enableAutoCorrect == config.enableAutoCorrect
      && transliterator.enableIndicNumbers == config.enableIndicNumbers
      && transliterator.enableSymbolsTransliteration == config.enableSymbolsTransliteration
    }

    /** What the transliterator makes of `text`. */
    ghost function Transliterated(text: Bytes): Bytes
      reads transliterator
    {
      Pipeline.Transliterate(transliterator.Engine(), text)
    }

    /** The store after a committed `word` is learned: added only when learning is on. */
    ghost function Learned(words: map<Bytes, int>, word: Bytes): map<Bytes, int>
      reads this, dictionary
    {
      if enableDictionaryLearning && dictionary.isOpen then Dictionary.WithWordAdded(words, word) else words
    }

    /**
     * The panel after `updateCandidates(buffer)` with the store's answer
     * `found`: the list that `Shown` gives, freshly labelled, cursor on the
     * first entry, in the configured layout.
     */
    ghost predicate Suggesting(buffer: Bytes, found: seq<Bytes>)
      reads this, candidateList, transliterator, dictionary
    {
      (buffer != [] && enableSuggestion ==>
         Dictionary.Finds(dictionary.isOpen, dictionary.words, Transliterated(buffer), QueryLimit(suggestionLimit), found))
      && (candidateList == null <==> Shown(buffer, enableSuggestion, found) == None)
      && (candidateList != null ==>
            candidateList.Valid() && Some(candidateList.words) == Shown(buffer, enableSuggestion, found)
            && candidateList.cursor == 0 && candidateList.horizontal == horizontalLayout)
    }

    /**
     * The engine with the transliterator loaded from the two table files'
     * contents and the store as it opened; the options take their defaults.
     */
    constructor (autocorrectFile: Bytes, mappingFile: Bytes, storeOpened: bool, storedWords: map<Bytes, int>)
      ensures Valid() && Applied() && config == DefaultConfig
      ensures state.buffer == [] && state.cursorPos == 0 && !state.navigatedInCandidates
      ensures candidateList == null && committed == []
      ensures !transliterator.anusvaraRule && transliterator.specialWords == Loader.ParsedSpecialWords(map[], autocorrectFile)
      ensures dictionary.isOpen == storeOpened
    {
      state := new NepaliRomanState();
      dictionary := new Dictionary.DictionaryManager(storeOpened, storedWords);
      transliterator := new Core.Transliteration(autocorrectFile, mappingFile, false);
      config := DefaultConfig;
      enableSmartCorrection := true;
      enableAutoCorrect := true;
      enableIndicNumbers := true;
      enableSymbolsTransliteration := true;
      enableSuggestion := false;
      enableDictionaryLearning := false;
      suggestionLimit := 7;
      horizontalLayout := false;
      spacecanCommitSuggestions := false;
      candidateList := null;
      committed := [];
      new;
      ApplyConfig();
    }

    /** `applyConfig`: copies every option into the engine and the four toggles into the transliterator. */
    method ApplyConfig()
      modifies this`enableSmartCorrection, this`enableAutoCorrect, this`enableIndicNumbers,
               this`enableSymbolsTransliteration, this`enableSuggestion, this`enableDictionaryLearning,
               this`suggestionLimit, this`horizontalLayout, this`spacecanCommitSuggestions
      modifies transliterator`enableSmartCorrection, transliterator`enableAutoCorrect,
               transliterator`enableIndicNumbers, transliterator`enableSymbolsTransliteration
      ensures Applied()
    {
      enableSmartCorrection := config.enableSmartCorrection;
      enableAutoCorrect := config.enableAutoCorrect;
      enableIndicNumbers := config.enableIndicNumbers;
      enableSymbolsTransliteration := config.enableSymbolsTransliteration;
      spacecanCommitSuggestions := config.spacecanCommitSuggestions;
      enableDictionaryLearning := config.enableDictionaryLearning;
      enableSuggestion := config.enableSuggestion;
      suggestionLimit := config.suggestionLimit;
      horizontalLayout := config.horizontalLayout;
      PassToggles();
    }

    /** The second half of `applyConfig`: the transliterator takes the engine's four toggles. */
    method PassToggles()
      modifies transliterator`enableSmartCorrection, transliterator`enableAutoCorrect,
               transliterator`enableIndicNumbers, transliterator`enableSymbolsTransliteration
      ensures transliterator.enableSmartCorrection == enableSmartCorrection
      ensures transliterator.enableAutoCorrect == enableAutoCorrect
      ensures transliterator.enableIndicNumbers == enableIndicNumbers
      ensures transliterator.enableSymbolsTransliteration == enableSymbolsTransliteration
    {
      transliterator.SetEnableSmartCorrection(enableSmartCorrection);
      transliterator.SetEnableAutoCorrect(enableAutoCorrect);
      transliterator.SetEnableIndicNumbers(enableIndicNumbers);
      transliterator.SetEnableSymbolsTransliteration(enableSymbolsTransliteration);
    }

    /** `setConfig` and `reloadConfig` (on activation): the loaded options replace the current ones and are applied. */
    method LoadConfig(loaded: Config)
      modifies this`config, this`enableSmartCorrection, this`enableAutoCorrect, this`enableIndicNumbers,
               this`enableSymbolsTransliteration, this`enableSuggestion, this`enableDictionaryLearning,
               this`suggestionLimit, this`horizontalLayout, this`spacecanCommitSuggestions
      modifies transliterator`enableSmartCorrection, transliterator`enableAutoCorrect,
               transliterator`enableIndicNumbers, transliterator`enableSymbolsTransliteration
      ensures config == loaded && Applied()
    {
      config := loaded;
      ApplyConfig();
    }

    /** `updateCandidates`: the panel shows the validated suggestions for the buffer's transliteration. */
    method UpdateCandidates(buffer: Bytes) returns (ghost found: seq<Bytes>)
      modifies this`candidateList
      ensures Suggesting(buffer, found)
      ensures candidateList != null ==> fresh(candidateList)
    {
      candidateList := null;
      found := [];
      if buffer == [] || !enableSuggestion {
        return;
      }
      var prefix := transliterator.Transliterate(buffer);
      var words := dictionary.FindWords(prefix, QueryLimit(suggestionLimit));
      found := words;
      if words == [] {
        return;
      }
      var cands := BuildList(words, horizontalLayout);
      // The list goes on the panel only when a word survived validation.
      if !cands.Empty() {
        candidateList := cands;
      }
    }

    /** The loop of `updateCandidates`: a new list of the found words that pass validation. */
    static method BuildList(words: seq<Bytes>, horizontal: bool) returns (cands: LekhikaCandidateList)
      ensures fresh(cands) && cands.Valid() && cands.words == ValidOnly(words)
      ensures cands.cursor == 0 && cands.horizontal == horizontal
    {
      cands := new LekhikaCandidateList(horizontal);
      var i := 0;
      while i < |words|
        invariant 0 <= i <= |words|
        invariant fresh(cands) && cands.Valid() && cands.words == ValidOnly(words[..i])
        invariant cands.cursor == 0 && cands.horizontal == horizontal
      {
        assert words[..i + 1][..i] == words[..i];
        if ValidUtf8(words[i]) {
          cands.Append(words[i]);
        }
        i := i + 1;
      }
      assert words[..i] == words;
    }

    /** `updatePreedit`: redraws the preedit (not modelled) and refreshes the candidates for the buffer. */
    method UpdatePreedit() returns (ghost found: seq<Bytes>)
      modifies this`candidateList
      ensures Suggesting(state.buffer, found)
      ensures candidateList != null ==> fresh(candidateList)
    {
      found := UpdateCandidates(state.buffer);
    }

    /** `resetState`: empty buffer, cursor 0, not navigated, and no list shown. */
    method ResetState()
      modifies state, this`candidateList
      ensures state.buffer == [] && state.cursorPos == 0 && !state.navigatedInCandidates
      ensures candidateList == null
    {
      state.buffer := [];
      state.cursorPos := 0;
      state.navigatedInCandidates := false;
      ghost var found := UpdatePreedit();
    }

    /**
     * `commitBuffer` (with an empty `suffix`) and Space's fallback (with a
     * space): a non-empty buffer is committed transliterated, learned when
     * learning is on, and the state is reset; an empty buffer changes nothing.
     */
    method CommitBuffer(suffix: Bytes)
      requires Valid()
      modifies this`committed, this`candidateList, state, dictionary`words
      ensures Valid()
      ensures old(state.buffer) == [] ==>
                committed == old(committed) && candidateList == old(candidateList)
                && dictionary.words == old(dictionary.words) && unchanged(state)
      ensures old(state.buffer) != [] ==>
                committed == old(committed) + [old(Transliterated(state.buffer)) + suffix]
                && dictionary.words == Learned(old(dictionary.words), old(Transliterated(state.buffer)))
                && state.buffer == [] && state.cursorPos == 0 && !state.navigatedInCandidates
                && candidateList == null
    {
      if state.buffer != [] {
        var result := transliterator.Transliterate(state.buffer);
        committed := committed + [result + suffix];
        if enableDictionaryLearning {
          dictionary.AddWord(result);
        }
        ResetState();
      }
    }

    /** `commitRawBuffer`, used by deactivate and reset: a non-empty buffer is committed as typed and the state is reset. */
    method CommitRawBuffer()
      requires Valid()
      modifies this`committed, this`candidateList, state
      ensures Valid()
      ensures old(state.buffer) == [] ==>
                committed == old(committed) && candidateList == old(candidateList) && unchanged(state)
      ensures old(state.buffer) != [] ==>
                committed == old(committed) + [old(state.buffer)]
                && state.buffer == [] && state.cursorPos == 0 && !state.navigatedInCandidates
                && candidateList == null
    {
      if state.buffer != [] {
        committed := committed + [state.buffer];
        ResetState();
      }
    }

    /** Commits the candidate at `index` followed by `suffix` and resets the state. */
    method CommitCandidate(index: int, suffix: Bytes)
      requires Valid() && candidateList != null && 0 <= index < |candidateList.words|
      modifies this`committed, this`candidateList, state
      ensures Valid()
      ensures committed == old(committed) + [old(candidateList.words[index]) + suffix]
      ensures state.buffer == [] && state.cursorPos == 0 && !state.navigatedInCandidates
      ensures candidateList == null
    {
      committed := committed + [candidateList.words[index] + suffix];
      ResetState();
    }

    /** Left: one byte back when the buffer is non-empty and the cursor is not at its start. */
    method MoveLeft() returns (accepted: bool)
      requires Valid()
      modifies state`cursorPos, this`candidateList
      ensures Valid()
      ensures accepted <==> old(state.buffer) != [] && old(state.cursorPos) > 0
      ensures state.cursorPos == if accepted then old(state.cursorPos) - 1 else old(state.cursorPos)
      ensures !accepted ==> candidateList == old(candidateList)
    {
      accepted := state.buffer != [] && state.cursorPos > 0;
      if accepted {
        state.cursorPos := state.cursorPos - 1;
        ghost var found := UpdatePreedit();
      }
    }

    /** Right: one byte forward while the cursor is before the end of a non-empty buffer. */
    method MoveRight() returns (accepted: bool)
      requires Valid()
      modifies state`cursorPos, this`candidateList
      ensures Valid()
      ensures accepted <==> old(state.buffer) != [] && old(state.cursorPos) < |old(state.buffer)|
      ensures state.cursorPos == if accepted then old(state.cursorPos) + 1 else old(state.cursorPos)
      ensures !accepted ==> candidateList == old(candidateList)
    {
      accepted := state.buffer != [] && state.cursorPos < |state.buffer|;
      if accepted {
        state.cursorPos := state.cursorPos + 1;
        ghost var found := UpdatePreedit();
      }
    }

    /** Backspace: the byte before the cursor goes and the cursor steps back, only when there is one. */
    method Backspace() returns (accepted: bool)
      requires Valid()
      modifies state`buffer, state`cursorPos, this`candidateList
      ensures Valid()
      ensures accepted <==> old(state.buffer) != [] && old(state.cursorPos) > 0
      ensures accepted ==> state.buffer == EraseBefore(old(state.buffer), old(state.cursorPos))
                           && state.cursorPos == old(state.cursorPos) - 1
      ensures !accepted ==> unchanged(state) && candidateList == old(candidateList)
    {
      accepted := state.buffer != [] && state.cursorPos > 0;
      if accepted {
        state.buffer := EraseBefore(state.buffer, state.cursorPos);
        state.cursorPos := state.cursorPos - 1;
        ghost var found := UpdatePreedit();
      }
    }

    /** Up and Down on a shown list: the cursor wraps around, and the user is marked as having navigated. */
    method MoveCandidateCursor(up: bool)
      requires Valid() && candidateList != null
      modifies candidateList`cursor, state`navigatedInCandidates
      ensures Valid()
      ensures candidateList.cursor == NextCursor(old(candidateList.cursor), |candidateList.words|, up)
      ensures state.navigatedInCandidates
    {
      var total := |candidateList.words|;
      candidateList.SetCursorIndex(NextCursor(candidateList.cursor, total, up));
      state.navigatedInCandidates := true;
    }

    /** `commitBuffer`: a non-empty buffer is committed transliterated (and learned) and the state reset. */
    method FlushBuffer()
      requires Valid()
      modifies this`committed, this`candidateList, state, dictionary`words
      ensures Valid() && state.buffer == [] && state.cursorPos == 0
      ensures committed == old(committed + Flushed(state.buffer, Transliterated(state.buffer)))
    {
      ghost var flushed := Transliterated(state.buffer);
      CommitBuffer([]);
      assert flushed + [] == flushed;
    }

    /** '/': the buffer is flushed, then the slash is committed, transliterated when symbols are on. */
    method SlashKey()
      requires Valid()
      modifies this`committed, this`candidateList, state, dictionary`words
      ensures Valid() && state.buffer == [] && state.cursorPos == 0
      ensures committed == old(committed + Flushed(state.buffer, Transliterated(state.buffer))
                               + [if enableSymbolsTransliteration then Transliterated([B('/')]) else [B('/')]])
    {
      ghost var symbol := if enableSymbolsTransliteration then Transliterated([B('/')]) else [B('/')];
      FlushBuffer();
      var out := [B('/')];
      if enableSymbolsTransliteration {
        out := transliterator.Transliterate(out);
      }
      assert out == symbol;
      committed := committed + [out];
    }

    /**
     * A commit symbol, or a digit while no list is shown: the buffer is
     * flushed, then the key's text is committed, transliterated when its
     * switch (numbers or symbols) is on.
     */
    method CommitSymbolKey(chr: Bytes)
      requires Valid()
      modifies this`committed, this`candidateList, state, dictionary`words
      ensures Valid()
      ensures state.buffer == [] && state.cursorPos == 0
      ensures committed == old(committed + Flushed(state.buffer, Transliterated(state.buffer))
                               + [SymbolText(chr, enableIndicNumbers, enableSymbolsTransliteration, Transliterated(chr))])
    {
      ghost var symbol := SymbolText(chr, enableIndicNumbers, enableSymbolsTransliteration, Transliterated(chr));
      FlushBuffer();
      var symbolResult := chr;
      if (IsNumber(chr) && enableIndicNumbers) || (IsCommitSymbol(chr) && enableSymbolsTransliteration) {
        symbolResult := transliterator.Transliterate(chr);
      }
      assert symbolResult == symbol;
      committed := committed + [symbolResult];
      ghost var found := UpdatePreedit();
    }

    /** Any other text key: its text goes in at the cursor, which moves past it. */
    method InsertText(chr: Bytes)
      requires Valid()
      modifies state`buffer, state`cursorPos, this`candidateList
      ensures Valid()
      ensures state.buffer == InsertAt(old(state.buffer), old(state.cursorPos), chr)
      ensures state.cursorPos == old(state.cursorPos) + |chr|
    {
      state.buffer := InsertAt(state.buffer, state.cursorPos, chr);
      state.cursorPos := state.cursorPos + |chr|;
      ghost var found := UpdatePreedit();
    }

    /**
     * `keyEvent` for a key press. A shown list takes Space (after navigation
     * or with space-commit on), Return, and a digit that numbers one of its
     * entries; then the editing keys, Up/Down, Return, Space, Escape and text keys act
     * as their handlers state. The result is whether the key was consumed.
     */
    method KeyEvent(key: Key) returns (accepted: bool)
      requires Valid()
      modifies this`committed, this`candidateList, state, candidateList, dictionary`words
      ensures Valid()
      ensures old(committed) <= committed
    {
      var visible := candidateList != null;
      if visible {
        if key == Space && (spacecanCommitSuggestions || state.navigatedInCandidates) {
          // The candidate cursor is on an entry (never negative).
          CommitCandidate(candidateList.cursor, [B(' ')]);
          return true;
        }
        if key == Return || (key.Simple? && DigitIndex(key.chr) >= 0) {
          var index := if key == Return then candidateList.cursor else DigitIndex(key.chr);
          if index < |candidateList.words| {
            CommitCandidate(index, [B(' ')]);
            return true;
          }
        }
      }
      accepted := EditKey(key, visible);
    }

    /** The switch of `keyEvent` over the keys the candidate list did not take; `visible` is whether the list is shown. */
    method EditKey(key: Key, visible: bool) returns (accepted: bool)
      requires Valid() && visible == (candidateList != null)
      modifies this`committed, this`candidateList, state, candidateList, dictionary`words
      ensures Valid()
      ensures old(committed) <= committed
      ensures key == Escape || key.Simple? ==> accepted
      ensures key == Space || key == Other ==> !accepted
      ensures key == Up || key == Down ==> accepted == visible
      ensures key == Left ==>
                (accepted <==> old(state.buffer) != [] && old(state.cursorPos) > 0)
                && committed == old(committed) && state.buffer == old(state.buffer)
                && state.cursorPos == if accepted then old(state.cursorPos) - 1 else old(state.cursorPos)
      ensures key == Right ==>
                (accepted <==> old(state.buffer) != [] && old(state.cursorPos) < |old(state.buffer)|)
                && committed == old(committed) && state.buffer == old(state.buffer)
                && state.cursorPos == if accepted then old(state.cursorPos) + 1 else old(state.cursorPos)
      ensures key == BackSpace ==>
                (accepted <==> old(state.buffer) != [] && old(state.cursorPos) > 0) && committed == old(committed)
                && state.buffer == (if accepted then EraseBefore(old(state.buffer), old(state.cursorPos)) else old(state.buffer))
                && state.cursorPos == (if accepted then old(state.cursorPos) - 1 else old(state.cursorPos))
      ensures (key == Up || key == Down) && visible ==>
                candidateList == old(candidateList) && committed == old(committed)
                && state.buffer == old(state.buffer) && state.cursorPos == old(state.cursorPos)
                && candidateList.words == old(candidateList.words)
                && candidateList.cursor == NextCursor(old(candidateList.cursor), |old(candidateList.words)|, key == Up)
                && state.navigatedInCandidates
      ensures key == Return ==>
                (accepted <==> old(state.buffer) != []) && state.buffer == [] && state.cursorPos == 0
                && committed == old(committed + Flushed(state.buffer, Transliterated(state.buffer)))
      ensures key == Space ==>
                state.buffer == [] && state.cursorPos == 0
                && committed == old(committed + [(if state.buffer == [] then [] else Transliterated(state.buffer)) + [B(' ')]])
      ensures key == Escape ==>
                state.buffer == [] && state.cursorPos == 0
                && committed == old(committed + (if state.buffer == [] then [] else [state.buffer]))
      ensures key.Simple? && key.chr == [B('/')] ==>
                state.buffer == [] && state.cursorPos == 0
                && committed == old(committed + Flushed(state.buffer, Transliterated(state.buffer))
                                    + [if enableSymbolsTransliteration then Transliterated([B('/')]) else [B('/')]])
      ensures key.Simple? && key.chr != [B('/')] && (IsCommitSymbol(key.chr) || (IsNumber(key.chr) && !visible)) ==>
                state.buffer == [] && state.cursorPos == 0
                && committed == old(committed + Flushed(state.buffer, Transliterated(state.buffer))
                                    + [SymbolText(key.chr, enableIndicNumbers, enableSymbolsTransliteration, Transliterated(key.chr))])
      ensures key.Simple? && key.chr != [B('/')] && !IsCommitSymbol(key.chr) && !(IsNumber(key.chr) && !visible) ==>
                committed == old(committed)
                && state.buffer == InsertAt(old(state.buffer), old(state.cursorPos), key.chr)
                && state.cursorPos == old(state.cursorPos) + |key.chr|
      ensures key == Other ==>
                committed == old(committed) && unchanged(state) && candidateList == old(candidateList)
    {
      match key {
        case Simple(chr) =>
          accepted := true;
          TextKey(chr, visible);
        case Return =>
          accepted := CommitKey(key);
        case Space =>
          accepted := CommitKey(key);
        case Escape =>
          accepted := CommitKey(key);
        case _ =>
          accepted := CursorKey(key, visible);
      }
    }

    /** The keys of `keyEvent` that commit the buffer when no list took them: Return, Space and Escape. */
    method CommitKey(key: Key) returns (accepted: bool)
      requires Valid()
      requires key in {Return, Space, Escape}
      modifies this`committed, this`candidateList, state, dictionary`words
      ensures Valid()
      ensures key == Escape ==> accepted
      ensures key == Space ==> !accepted
      ensures key == Return ==>
                (accepted <==> old(state.buffer) != []) && state.buffer == [] && state.cursorPos == 0
                && committed == old(committed + Flushed(state.buffer, Transliterated(state.buffer)))
      ensures key == Space ==>
                state.buffer == [] && state.cursorPos == 0
                && committed == old(committed + [(if state.buffer == [] then [] else Transliterated(state.buffer)) + [B(' ')]])
      ensures key == Escape ==>
                state.buffer == [] && state.cursorPos == 0
                && committed == old(committed + (if state.buffer == [] then [] else [state.buffer]))
    {
      match key {
        case Return =>
          // A shown list has taken Return above; here only the buffer can be committed.
          accepted := state.buffer != [];
          FlushBuffer();
        case Space =>
          // Committed text is followed by a space; the key itself is not consumed.
          accepted := false;
          SpaceKey();
        case Escape =>
          accepted := true;
          CommitRawBuffer();
      }
    }

    /** The keys of `keyEvent` that move a cursor or erase, and the keys it ignores. */
    method CursorKey(key: Key, visible: bool) returns (accepted: bool)
      requires Valid() && visible == (candidateList != null)
      requires key in {Left, Right, Up, Down, BackSpace, Other}
      modifies this`candidateList, state, candidateList
      ensures Valid()
      ensures key == Other ==> !accepted
      ensures key == Up || key == Down ==> accepted == visible
      ensures key == Left ==>
                (accepted <==> old(state.buffer) != [] && old(state.cursorPos) > 0)
                && committed == old(committed) && state.buffer == old(state.buffer)
                && state.cursorPos == if accepted then old(state.cursorPos) - 1 else old(state.cursorPos)
      ensures key == Right ==>
                (accepted <==> old(state.buffer) != [] && old(state.cursorPos) < |old(state.buffer)|)
                && committed == old(committed) && state.buffer == old(state.buffer)
                && state.cursorPos == if accepted then old(state.cursorPos) + 1 else old(state.cursorPos)
      ensures key == BackSpace ==>
                (accepted <==> old(state.buffer) != [] && old(state.cursorPos) > 0) && committed == old(committed)
                && state.buffer == (if accepted then EraseBefore(old(state.buffer), old(state.cursorPos)) else old(state.buffer))
                && state.cursorPos == (if accepted then old(state.cursorPos) - 1 else old(state.cursorPos))
      ensures (key == Up || key == Down) && visible ==>
                candidateList == old(candidateList) && committed == old(committed)
                && state.buffer == old(state.buffer) && state.cursorPos == old(state.cursorPos)
                && candidateList.words == old(candidateList.words)
                && candidateList.cursor == NextCursor(old(candidateList.cursor), |old(candidateList.words)|, key == Up)
                && state.navigatedInCandidates
      ensures key == Other ==>
                committed == old(committed) && unchanged(state) && candidateList == old(candidateList)
    {
      match key {
        case Left =>
          accepted := MoveLeft();
        case Right =>
          accepted := MoveRight();
        case Up =>
          accepted := visible;
          if visible {
            MoveCandidateCursor(true);
          }
        case Down =>
          accepted := visible;
          if visible {
            MoveCandidateCursor(false);
          }
        case BackSpace =>
          accepted := Backspace();
        case Other =>
          accepted := false;
      }
    }

    /** Space when no list takes it: the transliterated buffer, if any, then a space. */
    method SpaceKey()
      requires Valid()
      modifies this`committed, this`candidateList, state, dictionary`words
      ensures Valid()
      ensures state.buffer == [] && state.cursorPos == 0
              && committed == old(committed + [(if state.buffer == [] then [] else Transliterated(state.buffer)) + [B(' ')]])
    {
      if state.buffer != [] {
        CommitBuffer([B(' ')]);
      } else {
        assert [] + [B(' ')] == [B(' ')];
        committed := committed + [[B(' ')]];
      }
    }

    /** A key with text: '/' is the slash handler, a commit symbol (or a digit with no list shown) commits, anything else is typed. */
    method TextKey(chr: Bytes, visible: bool)
      requires Valid() && visible == (candidateList != null)
      modifies this`committed, this`candidateList, state, candidateList, dictionary`words
      ensures Valid()
      ensures chr == [B('/')] ==>
                state.buffer == [] && state.cursorPos == 0
                && committed == old(committed + Flushed(state.buffer, Transliterated(state.buffer))
                                    + [if enableSymbolsTransliteration then Transliterated([B('/')]) else [B('/')]])
      ensures chr != [B('/')] && (IsCommitSymbol(chr) || (IsNumber(chr) && !visible)) ==>
                state.buffer == [] && state.cursorPos == 0
                && committed == old(committed + Flushed(state.buffer, Transliterated(state.buffer))
                                    + [SymbolText(chr, enableIndicNumbers, enableSymbolsTransliteration, Transliterated(chr))])
      ensures chr != [B('/')] && !IsCommitSymbol(chr) && !(IsNumber(chr) && !visible) ==>
                committed == old(committed)
                && state.buffer == InsertAt(old(state.buffer), old(state.cursorPos), chr)
                && state.cursorPos == old(state.cursorPos) + |chr|
    {
      if chr == [B('/')] {
        SlashKey();
      } else if IsCommitSymbol(chr) || (IsNumber(chr) && !visible) {
        CommitSymbolKey(chr);
      } else {
        InsertText(chr);
      }
    }

    /** `deactivate` and `reset`: the raw buffer is committed. */
    method Deactivate()
      requires Valid()
      modifies this`committed, this`candidateList, state
      ensures Valid()
      ensures old(state.buffer) != [] ==> committed == old(committed) + [old(state.buffer)] && state.buffer == []
      ensures old(state.buffer) == [] ==> committed == old(committed)
    {
      CommitRawBuffer();
    }
  }

  /** The text a commit-symbol or digit key commits: its transliteration when its switch is on, else itself. */
  function SymbolText(chr: Bytes, enableIndicNumbers: bool, enableSymbolsTransliteration: bool, transliterated: Bytes): (r: Bytes)
  {
    if (IsNumber(chr) && enableIndicNumbers) || (IsCommitSymbol(chr) && enableSymbolsTransliteration) then transliterated else chr
  }

  /** What flushing the buffer commits: its transliteration when it is non-empty. */
  function Flushed(buffer: Bytes, transliterated: Bytes): (r: seq<Bytes>)
    ensures |r| <= 1
    ensures r == [] <==> buffer == []
  {
    if buffer == [] then [] else [transliterated]
  }
}
