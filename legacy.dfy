// The older engine revision (lekhika.cpp): the same transliteration
// pipeline with the m -> '*' anusvara pass active, and a keyEvent with a
// buffer and cursor but no candidate list. Drawing the preedit is left
// out; the strings committed to the application are recorded in
// `committed`.

module Legacy {
  import opened Bytes
  import opened Keys
  import Pipeline
  import Core
  import Loader

  class NepaliRomanState {
    var buffer: Bytes
    var cursorPos: nat

    constructor ()
      ensures buffer == [] && cursorPos == 0
    {
      buffer := [];
      cursorPos := 0;
    }
  }

  /** The text a '.' or '?' key commits: a space first when it flushed a buffer. */
  function PunctuationText(chr: Bytes, hadBuffer: bool, symbolResult: Bytes): (r: Bytes)
    ensures chr != [B('.')] && chr != [B('?')] ==> r == symbolResult
    ensures (chr == [B('.')] || chr == [B('?')]) ==> r == (if hadBuffer then [B(' ')] else []) + symbolResult
  {
    if chr == [B('.')] || chr == [B('?')] then (if hadBuffer then [B(' ')] else []) + symbolResult else symbolResult
  }

  class NepaliRomanEngine {
    const state: NepaliRomanState
    /** The engine's tables and switches; this revision applies the anusvara pass. */
    const transliterator: Core.Transliteration
    var committed: seq<Bytes>

    ghost predicate Valid()
      reads this, state
    {
      state.cursorPos <= |state.buffer| && transliterator.anusvaraRule
    }

    ghost function Transliterated(text: Bytes): Bytes
      reads transliterator
    {
      Pipeline.Transliterate(transliterator.Engine(), text)
    }

    /**
     * The configuration is read first, so the special words are loaded only
     * when auto-correction is on in it; the mappings are always loaded.
     */
    constructor (enableSmartCorrection: bool, enableAutoCorrect: bool, enableIndicNumbers: bool,
                 enableSymbolsTransliteration: bool, autocorrectFile: Bytes, mappingFile: Bytes)
      ensures Valid() && state.buffer == [] && state.cursorPos == 0 && committed == []
      ensures transliterator.enableSmartCorrection == enableSmartCorrection
      ensures transliterator.enableAutoCorrect == enableAutoCorrect
      ensures transliterator.enableIndicNumbers == enableIndicNumbers
      ensures transliterator.enableSymbolsTransliteration == enableSymbolsTransliteration
      ensures transliterator.specialWords ==
                if enableAutoCorrect then Loader.ParsedSpecialWords(map[], autocorrectFile) else map[]
    {
      state := new NepaliRomanState();
      var t := new Core.Transliteration(if enableAutoCorrect then autocorrectFile else [], mappingFile, true);
      t.SetEnableSmartCorrection(enableSmartCorrection);
      t.SetEnableAutoCorrect(enableAutoCorrect);
      t.SetEnableIndicNumbers(enableIndicNumbers);
      t.SetEnableSymbolsTransliteration(enableSymbolsTransliteration);
      transliterator := t;
      committed := [];
      if !enableAutoCorrect {
        assert Loader.ParsedSpecialWords(map[], []) == map[];
      }
    }

    /**
     * `activate` and `setConfig`: the four switches are read again from the
     * configuration. The special words already loaded stay as they are.
     */
    method LoadConfig(enableSmartCorrection: bool, enableAutoCorrect: bool, enableIndicNumbers: bool,
                      enableSymbolsTransliteration: bool)
      modifies transliterator`enableSmartCorrection, transliterator`enableAutoCorrect,
               transliterator`enableIndicNumbers, transliterator`enableSymbolsTransliteration
      ensures transliterator.enableSmartCorrection == enableSmartCorrection
      ensures transliterator.enableAutoCorrect == enableAutoCorrect
      ensures transliterator.enableIndicNumbers == enableIndicNumbers
      ensures transliterator.enableSymbolsTransliteration == enableSymbolsTransliteration
    {
      transliterator.SetEnableSmartCorrection(enableSmartCorrection);
      transliterator.SetEnableAutoCorrect(enableAutoCorrect);
      transliterator.SetEnableIndicNumbers(enableIndicNumbers);
      transliterator.SetEnableSymbolsTransliteration(enableSymbolsTransliteration);
    }

    /**
     * Commits the transliterated buffer followed by `suffix` and clears the
     * buffer, when there is one; an empty buffer changes nothing.
     */
    method Flush(suffix: Bytes) returns (hadBuffer: bool)
      requires Valid()
      modifies this`committed, state
      ensures Valid() && state.buffer == [] && state.cursorPos == 0
      ensures hadBuffer <==> old(state.buffer) != []
      ensures committed == old(committed + (if state.buffer == [] then [] else [Transliterated(state.buffer) + suffix]))
    {
      hadBuffer := state.buffer != [];
      if hadBuffer {
        var result := transliterator.Transliterate(state.buffer);
        committed := committed + [result + suffix];
        state.buffer := [];
        state.cursorPos := 0;
      }
    }

    /** Left: one byte back when possible; consumed whenever the buffer is non-empty. */
    method MoveLeft() returns (accepted: bool)
      requires Valid()
      modifies state`cursorPos
      ensures Valid()
      ensures accepted <==> state.buffer != []
      ensures state.cursorPos == if accepted && old(state.cursorPos) > 0 then old(state.cursorPos) - 1 else old(state.cursorPos)
    {
      accepted := state.buffer != [];
      if accepted && state.cursorPos > 0 {
        state.cursorPos := state.cursorPos - 1;
      }
    }

    /** Right: one byte forward when possible; consumed whenever the buffer is non-empty. */
    method MoveRight() returns (accepted: bool)
      requires Valid()
      modifies state`cursorPos
      ensures Valid()
      ensures accepted <==> state.buffer != []
      ensures state.cursorPos == if accepted && old(state.cursorPos) < |state.buffer| then old(state.cursorPos) + 1 else old(state.cursorPos)
    {
      accepted := state.buffer != [];
      if accepted && state.cursorPos < |state.buffer| {
        state.cursorPos := state.cursorPos + 1;
      }
    }

    /** Backspace: the byte before the cursor goes and the cursor steps back, only when there is one. */
    method Backspace() returns (accepted: bool)
      requires Valid()
      modifies state
      ensures Valid()
      ensures accepted <==> old(state.buffer) != [] && old(state.cursorPos) > 0
      ensures accepted ==> state.buffer == EraseBefore(old(state.buffer), old(state.cursorPos))
                           && state.cursorPos == old(state.cursorPos) - 1
      ensures !accepted ==> unchanged(state)
    {
      accepted := state.buffer != [] && state.cursorPos > 0;
      if accepted {
        state.buffer := EraseBefore(state.buffer, state.cursorPos);
        state.cursorPos := state.cursorPos - 1;
      }
    }

    /** '/': a non-empty buffer is committed and the slash dropped; otherwise the slash is committed, transliterated when symbols are on. */
    method SlashKey()
      requires Valid()
      modifies this`committed, state
      ensures Valid() && state.buffer == [] && state.cursorPos == 0
      ensures old(state.buffer) != [] ==> committed == old(committed + [Transliterated(state.buffer)])
      ensures old(state.buffer) == [] ==>
                committed == old(committed + [if transliterator.enableSymbolsTransliteration then Transliterated([B('/')]) else [B('/')]])
    {
      ghost var flushed := Transliterated(state.buffer);
      var hadBuffer := Flush([]);
      assert flushed + [] == flushed;
      if !hadBuffer {
        var slashResult := [B('/')];
        if transliterator.enableSymbolsTransliteration {
          slashResult := transliterator.Transliterate(slashResult);
        }
        committed := committed + [slashResult];
      }
    }

    /**
     * A commit symbol or a digit: the buffer is flushed, then the key's text
     * is committed, transliterated when its switch is on ('.' and '?' after
     * a space when a buffer was flushed).
     */
    method SymbolKey(chr: Bytes)
      requires Valid()
      modifies this`committed, state
      ensures Valid() && state.buffer == [] && state.cursorPos == 0
      ensures committed == old(committed + (if state.buffer == [] then [] else [Transliterated(state.buffer)])
                               + [PunctuationText(chr, state.buffer != [],
                                    if (IsNumber(chr) && transliterator.enableIndicNumbers)
                                       || (IsCommitSymbol(chr) && transliterator.enableSymbolsTransliteration)
                                    then Transliterated(chr) else chr)])
    {
      ghost var flushed := Transliterated(state.buffer);
      ghost var symbol := if (IsNumber(chr) && transliterator.enableIndicNumbers)
                             || (IsCommitSymbol(chr) && transliterator.enableSymbolsTransliteration)
                          then Transliterated(chr) else chr;
      var hadBuffer := Flush([]);
      assert flushed + [] == flushed;
      var symbolResult := chr;
      if IsNumber(chr) && transliterator.enableIndicNumbers {
        symbolResult := transliterator.Transliterate(chr);
      } else if IsCommitSymbol(chr) && transliterator.enableSymbolsTransliteration {
        symbolResult := transliterator.Transliterate(chr);
      }
      assert symbolResult == symbol;
      committed := committed + [PunctuationText(chr, hadBuffer, symbolResult)];
    }

    /** Any other text key: its text goes in at the cursor, which moves past it. */
    method InsertText(chr: Bytes)
      requires Valid()
      modifies state
      ensures Valid()
      ensures state.buffer == InsertAt(old(state.buffer), old(state.cursorPos), chr)
      ensures state.cursorPos == old(state.cursorPos) + |chr|
    {
      state.buffer := InsertAt(state.buffer, state.cursorPos, chr);
      state.cursorPos := state.cursorPos + |chr|;
    }

    /**
     * `keyEvent` for a key press: Left, Right, Space, Return, Backspace and
     * text keys act as their handlers state; the result is whether the key
     * was consumed. Space and Return commit the transliterated buffer; the
     * keys without a branch are not consumed and change nothing.
     */
    method KeyEvent(key: Key) returns (accepted: bool)
      requires Valid()
      modifies this`committed, state
      ensures Valid()
      ensures old(committed) <= committed
      ensures key == Space ==>
                accepted && state.buffer == [] && state.cursorPos == 0 &&
                committed == old(committed + [if state.buffer == [] then [B(' ')] else Transliterated(state.buffer) + [B(' ')]])
      ensures key == Return ==>
                (accepted <==> old(state.buffer) != []) && state.buffer == [] && state.cursorPos == 0 &&
                committed == old(committed + (if state.buffer == [] then [] else [Transliterated(state.buffer)]))
      ensures key == Left ==>
                (accepted <==> old(state.buffer) != []) && committed == old(committed)
                && state.buffer == old(state.buffer)
                && state.cursorPos == if accepted && old(state.cursorPos) > 0 then old(state.cursorPos) - 1 else old(state.cursorPos)
      ensures key == Right ==>
                (accepted <==> old(state.buffer) != []) && committed == old(committed)
                && state.buffer == old(state.buffer)
                && state.cursorPos == if accepted && old(state.cursorPos) < |old(state.buffer)| then old(state.cursorPos) + 1 else old(state.cursorPos)
      ensures key == BackSpace ==>
                (accepted <==> old(state.buffer) != [] && old(state.cursorPos) > 0) && committed == old(committed)
                && (accepted ==> state.buffer == EraseBefore(old(state.buffer), old(state.cursorPos))
                                 && state.cursorPos == old(state.cursorPos) - 1)
                && (!accepted ==> unchanged(state))
      ensures key.Simple? && key.chr == [B('/')] ==>
                accepted && state.buffer == [] && state.cursorPos == 0
                && committed == old(committed + [if state.buffer != [] then Transliterated(state.buffer)
                                                 else if transliterator.enableSymbolsTransliteration then Transliterated([B('/')])
                                                 else [B('/')]])
      ensures key.Simple? && key.chr != [B('/')] && (IsCommitSymbol(key.chr) || IsNumber(key.chr)) ==>
                accepted && state.buffer == [] && state.cursorPos == 0
                && committed == old(committed + (if state.buffer == [] then [] else [Transliterated(state.buffer)])
                                    + [PunctuationText(key.chr, state.buffer != [],
                                         if (IsNumber(key.chr) && transliterator.enableIndicNumbers)
                                            || (IsCommitSymbol(key.chr) && transliterator.enableSymbolsTransliteration)
                                         then Transliterated(key.chr) else key.chr)])
      ensures key.Simple? && key.chr != [B('/')] && !IsCommitSymbol(key.chr) && !IsNumber(key.chr) ==>
                accepted && committed == old(committed)
                && state.buffer == InsertAt(old(state.buffer), old(state.cursorPos), key.chr)
                && state.cursorPos == old(state.cursorPos) + |key.chr|
      ensures key in {Up, Down, Escape, Other} ==> !accepted && committed == old(committed) && unchanged(state)
    {
      match key {
        case Space =>
          accepted := true;
          var hadBuffer := Flush([B(' ')]);
          if !hadBuffer {
            committed := committed + [[B(' ')]];
          }
        case Return =>
          ghost var flushed := Transliterated(state.buffer);
          accepted := Flush([]);
          assert flushed + [] == flushed;
        case Simple(chr) =>
          accepted := true;
          if chr == [B('/')] {
            SlashKey();
          } else if IsCommitSymbol(chr) || IsNumber(chr) {
            SymbolKey(chr);
          } else {
            InsertText(chr);
          }
        case _ =>
          accepted := CursorKey(key);
      }
    }

    /** The keys of `keyEvent` that move the cursor or erase, and the keys it ignores. */
    method CursorKey(key: Key) returns (accepted: bool)
      requires Valid()
      requires !key.Simple? && key != Space && key != Return
      modifies state
      ensures Valid()
      ensures key == Left ==>
                (accepted <==> old(state.buffer) != []) && committed == old(committed)
                && state.buffer == old(state.buffer)
                && state.cursorPos == if accepted && old(state.cursorPos) > 0 then old(state.cursorPos) - 1 else old(state.cursorPos)
      ensures key == Right ==>
                (accepted <==> old(state.buffer) != []) && committed == old(committed)
                && state.buffer == old(state.buffer)
                && state.cursorPos == if accepted && old(state.cursorPos) < |old(state.buffer)| then old(state.cursorPos) + 1 else old(state.cursorPos)
      ensures key == BackSpace ==>
                (accepted <==> old(state.buffer) != [] && old(state.cursorPos) > 0) && committed == old(committed)
                && (accepted ==> state.buffer == EraseBefore(old(state.buffer), old(state.cursorPos))
                                 && state.cursorPos == old(state.cursorPos) - 1)
                && (!accepted ==> unchanged(state))
      ensures key in {Up, Down, Escape, Other} ==> !accepted && committed == old(committed) && unchanged(state)
    {
      match key {
        case Left =>
          accepted := MoveLeft();
        case Right =>
          accepted := MoveRight();
        case BackSpace =>
          accepted := Backspace();
        case _ =>
          // Up, Down, Escape and the other keys that produce no text.
          accepted := false;
      }
    }

    /** `deactivate` and `reset`: the transliterated buffer is committed, and the buffer cleared. */
    method Deactivate()
      requires Valid()
      modifies this`committed, state
      ensures Valid() && state.buffer == [] && state.cursorPos == 0
      ensures committed == old(committed + (if state.buffer == [] then [] else [Transliterated(state.buffer)]))
    {
      ghost var flushed := Transliterated(state.buffer);
      var hadBuffer := Flush([]);
      assert flushed + [] == flushed;
    }
  }
}
