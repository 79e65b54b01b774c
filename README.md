# lekhika in Dafny

A model of the core of lekhika, an fcitx5 input method for Nepali. The user
types Roman letters, and the engine turns them into Devanagari. The model
covers:

- **The transliteration engine** (`Transliteration` in `src/lekhika_core.cpp`).
  - The two table loaders: `[specialWords]`, and `[charMap]` / `[consonantMap]`
    with the derived consonant forms.
  - The auto-correction gate and the smart-correction rules.
  - The punctuation spacer.
  - The `{...}` masking, the space-separated segments and the restoration of
    the masked spans.
  - The greedy longest-match tokenizer with its trailing-halant rule.
  - The older engine revision in `lekhika.cpp`, which adds an active `m` → `*`
    anusvara rule. It is the same engine with that rule switched on
    (`Engine.anusvaraRule`).
- **The word store** (`DictionaryManager`). It is a map from words to
  frequencies. Its SQL statements (upsert, exact-then-prefix lookup, paging,
  search) are stated as functions on that map.
- **The input contexts' key handling**, in two revisions: the addon
  (`src/lekhika-addon.cpp`) and the older `lekhika.cpp`. Each has a buffer,
  a cursor, the "navigated in candidates" flag and the candidate list with
  its wrap-around cursor. What gets committed is a sequence of committed
  texts.
- **The trainers**:
  - the C++ per-cluster validator, the `learnWorker` tokenizer and its
    counters, and the DbEditor's paging and row editing;
  - the Python validator and its chunked file reading;
  - the Python `add_word` and `remove_word`.
- **The offline scripts**:
  - `transliterate_nepal` (Devanagari back to Roman);
  - the alias × vowel-sign table builder.

Strings are byte sequences (`Bytes.Bytes`), as in the C++ source. Devanagari
letters are their three-byte UTF-8 encodings (RFC 3629, section 3). The
halant U+094D is `E0 A5 8D`. The Python code works on code points, so its
model uses `string`.

The model follows the code's own form:

- Loops that change state are methods with loop invariants, proved against
  specification functions. Examples: the parse loops, the correction passes,
  the tokenizer, the segment and restore loops, `learnWorker`, the chunk
  loop, `transliterate_nepal`, and the table builder.
- Objects the source updates in place are classes with `modifies` clauses:
  `Transliteration`, `DictionaryManager`, the candidate list, the input
  state and the engines.
- Pure lookups are functions.

Two observations about the addon's `keyEvent`:

- Once a candidate list is shown, Return is always taken by the early
  candidate block. So the later Return branch that checks for a shown list
  can never see one; the model keeps only the reachable behaviour. A digit
  is taken there only when it numbers a shown candidate; a digit past the
  end of the list falls through and is inserted into the buffer.
- Space is taken by the early block only after navigation or with
  space-commit on. Otherwise the later Space branch commits the
  transliterated buffer.

## Model

| member | source | states |
|---|---|---|
| Bytes.ToLower | src/lekhika_core.cpp:556-559 | ASCII `tolower`: upper-case letters map to lower-case, every other byte is kept |
| Bytes.Find | src/lekhika_core.cpp:600-607 | `std::string::find` from a position: an index where the pattern occurs, at or after the start, or -1 |
| Bytes.FindFirst | src/lekhika_core.cpp:600-607 | `find` reports the first occurrence at or after the start, and -1 only when there is none |
| Bytes.FindByte | src/lekhika_core.cpp:668-669 | single-byte `find`: an index holding the byte, at or after the start, or -1 |
| Bytes.FindByteFirst | src/lekhika_core.cpp:668-669 | the byte search finds the first occurrence and reports -1 only when there is none |
| Bytes.Split | src/lekhika_core.cpp:423 | `getline` pieces: the delimiter-free pieces between delimiters, a final empty piece dropped |
| Bytes.SplitOfJoin | src/lekhika_core.cpp:423 | splitting the join of delimiter-free lines, the last non-empty, gives those lines back |
| Bytes.JoinPieces | src/lekhika_core.cpp:684 | joining the pieces with the delimiter gives back the original text |
| Bytes.SplitDoubleDelimiter | src/lekhika_core.cpp:684 | two delimiters in a row split like one once empty pieces are dropped |
| Bytes.SplitTwo | src/lekhika_core.cpp:719 | two non-empty delimiter-free words around one delimiter split into exactly those two words |
| Bytes.Utf8ThreeValid | src/lekhika_core.cpp:763-770 | the three-byte UTF-8 encoder yields a well-formed character for every code point U+0800..U+FFFF outside the surrogates |
| Bytes.ValidUtf8Concat | src/lekhika-addon.cpp:439 | well-formed UTF-8 text stays well-formed when more well-formed text follows |
| Bytes.DecimalRoundTrip | src/lekhika-addon.cpp:49 | the decimal text of a number reads back as that number, so different labels are different texts |
| Loader.TrimLeft | src/lekhika_core.cpp:424 | the leading blanks and tabs go, and the rest is kept |
| Loader.TrimRight | src/lekhika_core.cpp:425 | the trailing blanks and tabs go, and the rest is kept |
| Loader.Trim | src/lekhika_core.cpp:424-425 | the result has no blank or tab at either end (the two slice lemmas say what was removed) |
| Loader.TrimLeftSlice | src/lekhika_core.cpp:424 | left trimming removes only blanks, and only at the start |
| Loader.TrimRightSlice | src/lekhika_core.cpp:425 | right trimming removes only blanks, and only at the end |
| Loader.TrimPadded | src/lekhika_core.cpp:439-442 | blanks added around a trimmed text are removed again |
| Loader.StripDoubleQuotes | src/lekhika_core.cpp:443-445 | one pair of double quotes around a value of two bytes or more is removed, and only then |
| Loader.HeaderName | src/lekhika_core.cpp:428-431 | a `[name]` line gives the name between its brackets, and any other line gives nothing |
| Loader.Fields | src/lekhika_core.cpp:434-438 | the text before and after the first `=`, or nothing for a line without `=` |
| Loader.SpecialLine | src/lekhika_core.cpp:420-448 | one line of the special-words file: headers switch section, blank and `#` lines are skipped, and trimmed, unquoted `key = value` entries of `[specialWords]` are stored |
| Loader.SpecialEntry | src/lekhika_core.cpp:432-446 | a trimmed `key = "value"` line inside `[specialWords]` stores key → value |
| Loader.SpecialWordsFileRoundTrip | src/lekhika_core.cpp:420-448 | a special-words file written from a list of entries parses back to those entries, with a later duplicate key overwriting an earlier one |
| Loader.Unescaped | src/lekhika_core.cpp:460-475 | escape decoding from left to right: `\n`, `\t`, `\\`, and any other escaped byte as itself; a trailing lone backslash stays |
| Loader.UnescapeEscaped | src/lekhika_core.cpp:460-475 | decoding undoes the escaping of any value |
| Loader.UnquoteQuotedEscaped | src/lekhika_core.cpp:454-477 | a value written in double quotes with escapes is read back by `unquote` |
| Loader.Unquote | src/lekhika_core.cpp:454-477 | the engine's loop strips one matching `"` or `'` pair, then decodes escapes as `Unescaped` states |
| Loader.DecodeEscape | src/lekhika_core.cpp:461-471 | `n` decodes to a newline, `t` to a tab, and every other byte to itself |
| Loader.BeforeComment | src/lekhika_core.cpp:492-495 | the value text up to its first `#`, and all of it when there is none |
| Loader.MappingLine | src/lekhika_core.cpp:478-507 | one mapping-file line: headers switch section, and entries go to `charMap` or the consonant table by section |
| Loader.MappingEntry | src/lekhika_core.cpp:487-506 | a trimmed `key = value` line is stored under its section |
| Loader.MappingEntryLineReads | src/lekhika_core.cpp:478-507 | a written entry line reads back as that entry, whatever bytes key and value hold |
| Loader.Stem | src/lekhika_core.cpp:509-511 | a consonant key longer than one byte loses a final `a`, and any other key is kept |
| Loader.DerivedForms | src/lekhika_core.cpp:512-535 | the twelve derived entries of a consonant, keyed by stem and suffix, valued by consonant and sign |
| Loader.SetIfAbsentFacts | src/lekhika_core.cpp:508-536 | writing only absent keys never replaces an existing entry, keeps every written key present, and gives each new key one entry's value |
| Loader.DerivedFromStep | src/lekhika_core.cpp:508-536 | processing one more consonant keeps the derivation relation |
| Correction.EndingRules | src/lekhika_core.cpp:555-576 | the ending rules as the source orders them: final `y`, long `a` with exempt endings, then final `i` |
| Correction.EndingShortWord | src/lekhika_core.cpp:555 | words of at most three bytes are left alone |
| Correction.EndingY | src/lekhika_core.cpp:560-561 | a final `y` or `Y` of a longer word becomes `ee` |
| Correction.EndingI | src/lekhika_core.cpp:573-574 | a final `i` after a non-vowel, not in `rri`, becomes `ee` |
| Correction.AppendsAExactly | src/lekhika_core.cpp:562-571 | an `a` is appended exactly when the final `a` is long and its ending is not exempt |
| Correction.EndingDoublesA | src/lekhika_core.cpp:562-571 | a final `a` is doubled exactly when the byte conditions hold (`m` before it, or non-vowels around it, not `y`, not `e`) and the ending is not exempt |
| Correction.VowelLower | src/lekhika_core.cpp:548-549 | lower-casing does not change whether a byte is a vowel |
| Correction.NyaEncoding | src/lekhika_core.cpp:618 | the inserted text is the UTF-8 encoding of U+091E followed by the halant |
| Correction.RunUnchanged | src/lekhika_core.cpp:577-623 | a correction pass leaves the word unchanged exactly when its rule fires nowhere |
| Correction.FirstFiringChanges | src/lekhika_core.cpp:577-623 | once a rule fires, the pass's output differs from the word |
| Correction.AnusvaraInPlace | lekhika.cpp:488-496 | the anusvara pass keeps the length and overwrites each firing `m` with `*` |
| Correction.RewriteAnusvara | lekhika.cpp:488-496 | the in-place loop computes the anusvara pass |
| Correction.RewriteNasals | src/lekhika_core.cpp:577-585 | each inner `n` before `k` or `g` becomes `ng`; the loop computes the rule's pass |
| Correction.RewriteGeminates | src/lekhika_core.cpp:600-609 | each `ng` at index 2 or later followed by a vowel becomes `ngg`, found by repeated `find` |
| Correction.RewriteRetroflex | src/lekhika_core.cpp:610-623 | `n` before `T`/`D` becomes `N`, and `n` before `ch` not followed by `h` becomes `ञ्` |
| Correction.ApplySmartCorrection | src/lekhika_core.cpp:552-625 | the ending rules, then the passes in the engine's order, the anusvara pass only when its rule is on |
| Pipeline.AutoCorrection | src/lekhika_core.cpp:540-546 | the special-words entry for the word, or the word itself when there is none |
| Pipeline.PreprocessGate | src/lekhika_core.cpp:627-639 | with auto-correction on and a differing special-word entry, that entry is returned and smart correction skipped; otherwise smart correction runs exactly when enabled |
| Pipeline.SpacerOnlyAddsSpaces | src/lekhika_core.cpp:641-659 | deleting every space from the spacer's output and from its input gives the same bytes |
| Pipeline.SpacedUnchanged | src/lekhika_core.cpp:652-655 | where no byte qualifies for a space (a `.`, `?` or mapped non-alphanumeric byte, not `*`, not first, not after a space) the spacer changes nothing |
| Pipeline.SpacedLength | src/lekhika_core.cpp:641-659 | the output is at least as long as the input and never longer than twice it, and no space goes before the first byte |
| Pipeline.MaskName | src/lekhika_core.cpp:675 | the mask `$-N-$` for span number N |
| Pipeline.MaskNamesDistinct | src/lekhika_core.cpp:675 | different span numbers give different masks |
| Pipeline.SpanEnd | src/lekhika_core.cpp:669-672 | a span ends at the next `}`, or at the last byte when there is none |
| Pipeline.Masked | src/lekhika_core.cpp:673-678 | the text with the span opened at a `{` replaced by its mask |
| Pipeline.MaskLeavesNoBrace | src/lekhika_core.cpp:668-679 | after masking, no `{` is left in the text |
| Pipeline.MasksDistinct | src/lekhika_core.cpp:668-679 | the masks of one transliteration are pairwise different |
| Pipeline.MaskNoSpan | src/lekhika_core.cpp:668-679 | a text without `{` is not masked and records nothing |
| Pipeline.MaskClosedSpan | src/lekhika_core.cpp:668-679 | a closed `{c}` after brace-free text is masked up to its `}`, and `c` is recorded |
| Pipeline.MaskOpenSpan | src/lekhika_core.cpp:669-676 | an unclosed span runs to the end of the text, and its recorded content loses its last byte |
| Pipeline.Longest | src/lekhika_core.cpp:725-744 | the prefix length the matcher settles on, tried from the longest down, is accepted, or 0 when none is |
| Pipeline.LongestIsLongest | src/lekhika_core.cpp:725-744 | no accepted prefix length lies above the one chosen |
| Pipeline.StepConsumes | src/lekhika_core.cpp:723-759 | every tokenizer step erases at least one byte, and at least the longest accepted prefix |
| Pipeline.StepGreedy | src/lekhika_core.cpp:723-744 | with a non-empty mapping value, a step appends the value of the longest accepted prefix |
| Pipeline.StepCopiesUnmapped | src/lekhika_core.cpp:747-758 | a byte that starts no accepted prefix is copied through unchanged |
| Pipeline.HalantRule | src/lekhika_core.cpp:761-774 | the three halant bytes are removed exactly when they end the result, the piece is longer than one byte and does not end in `\` |
| Pipeline.SlashSeparates | src/lekhika_core.cpp:719-777 | a `/` separates two pieces that are transliterated independently, and the `/` is not emitted |
| Pipeline.SegmentsDoubleSpace | src/lekhika_core.cpp:684-702 | two spaces separate segments exactly as one space does |
| Pipeline.SegmentsTwo | src/lekhika_core.cpp:684-702 | two space-free words separated by a space become their outputs separated by one space |
| Pipeline.SegmentLoneByte | src/lekhika_core.cpp:688-693 | a lone digit with Indic numerals off, or a lone symbol with symbol transliteration off, is copied unchanged |
| Pipeline.ReplaceAbsent | src/lekhika_core.cpp:703-709 | without an occurrence of the mask, restoring replaces nothing |
| Pipeline.ReplaceFirst | src/lekhika_core.cpp:703-709 | the first occurrence is replaced, and the rest is processed on its own |
| Pipeline.TransliterateWithoutSpans | src/lekhika_core.cpp:661-712 | text without braces is transliterated segment by segment, with nothing to restore |
| Core.ReplaceEvery | src/lekhika_core.cpp:704-709 | the replace loop replaces every occurrence, each search starting after the previous replacement |
| Core.Transliteration.constructor | src/lekhika_core.cpp:374-402 | all four toggles on; the special words and mappings are the parses of the given file contents |
| Core.Transliteration.SetEnableSmartCorrection | src/lekhika_core.h:62 | sets its own toggle and changes nothing else |
| Core.Transliteration.SetEnableAutoCorrect | src/lekhika_core.h:63 | sets its own toggle and changes nothing else |
| Core.Transliteration.SetEnableIndicNumbers | src/lekhika_core.h:64 | sets its own toggle and changes nothing else |
| Core.Transliteration.SetEnableSymbolsTransliteration | src/lekhika_core.h:65 | sets its own toggle and changes nothing else |
| Core.Transliteration.ParseSpecialWordsToml | src/lekhika_core.cpp:420-448 | the line loop leaves in `specialWords` the fold of `SpecialLine` over the file's lines |
| Core.Transliteration.SpecialWordsLine | src/lekhika_core.cpp:423-447 | one pass of the line loop is `SpecialLine` |
| Core.Transliteration.ParseSpecialEntry | src/lekhika_core.cpp:434-445 | a line is an entry exactly when it has a '='; the key and value are the trimmed text around the first one, the value without one pair of enclosing double quotes, as `Fields` and `StripDoubleQuotes` define |
| Core.Transliteration.ParseMappingsToml | src/lekhika_core.cpp:450-537 | `charMap` gains the `[charMap]` entries and then the derived consonant forms |
| Core.Transliteration.MappingsLine | src/lekhika_core.cpp:478-507 | one pass of the line loop is `MappingLine` |
| Core.Transliteration.ParseMappingEntry | src/lekhika_core.cpp:487-501 | a line is an entry exactly when it has a '='; the value is cut at its first '#', and both sides are trimmed and unquoted, as `Fields`, `BeforeComment` and `Unquoted` define |
| Core.Transliteration.DeriveConsonants | src/lekhika_core.cpp:508-536 | processing the consonants in any order adds their derived forms without replacing an entry |
| Core.Transliteration.DeriveConsonant | src/lekhika_core.cpp:509-535 | the derived forms of one consonant, each written only where its key is absent |
| Core.Transliteration.Preprocess | src/lekhika_core.cpp:627-639 | the method computes the gated auto/smart correction |
| Core.Transliteration.PreprocessInput | src/lekhika_core.cpp:641-659 | the method computes the punctuation spacer |
| Core.Transliteration.TokenStep | src/lekhika_core.cpp:723-759 | one round of the matcher: what `Step` appends, and the rest of the text |
| Core.Transliteration.MatchAll | src/lekhika_core.cpp:723-759 | the matcher loop computes `Tokens`: rounds of the matcher until nothing of the piece is left |
| Core.Transliteration.TransliterateSubSegment | src/lekhika_core.cpp:720-775 | one `/`-free piece: the matcher to the end, then the trailing-halant rule |
| Core.Transliteration.TransliterateSegment | src/lekhika_core.cpp:714-779 | the non-empty `/`-separated pieces, each transliterated, joined |
| Core.Transliteration.MaskSpans | src/lekhika_core.cpp:665-679 | the masking loop computes `Mask` of the spaced text |
| Core.Transliteration.MaskNext | src/lekhika_core.cpp:668-679 | one pass of the masking loop keeps the masking relation, and the scan point advances |
| Core.Transliteration.MaskOne | src/lekhika_core.cpp:673-678 | the span at a `{` is masked and its content recorded |
| Core.Transliteration.TransliterateSegments | src/lekhika_core.cpp:680-702 | the non-empty space-separated segments, transliterated and joined by one space |
| Core.Transliteration.SegmentOut | src/lekhika_core.cpp:684-701 | what one non-empty segment becomes |
| Core.Transliteration.RestoreSpans | src/lekhika_core.cpp:703-710 | each mask's transliteration is replaced by the span's original content |
| Core.Transliteration.Transliterate | src/lekhika_core.cpp:661-712 | spacing, masking, the segments, and restoring, as `Pipeline.Transliterate` states |
| Keys.CommitSymbols | src/lekhika-addon.cpp:325-327 | the 28 commit symbols, none of them `/` or a digit |
| Keys.CommitSymbolMeaning | src/lekhika-addon.cpp:325-328 | the symbol test holds exactly for texts found in the symbol string |
| Keys.CommitSymbolCases | lekhika.cpp:148-149 | every symbol byte and the empty text pass the symbol test; `/` and the digits do not |
| Keys.DigitIndex | src/lekhika-addon.cpp:163-166 | the keys 1..9 give the 0-based candidate index, and any other text gives -1 |
| Keys.InsertAt | src/lekhika-addon.cpp:352-353 | the text goes in at the cursor: the prefix, the text, then the suffix |
| Keys.InsertConcat | src/lekhika-addon.cpp:352-353 | typing byte by byte builds the same buffer as inserting the text at once |
| Keys.EraseBefore | src/lekhika-addon.cpp:313-314 | the byte before the cursor is removed and everything else kept |
| Keys.EraseUndoesInsert | src/lekhika-addon.cpp:313-314 | Backspace right after typing a one-byte key gives back the buffer |
| Addon.NextCursor | src/lekhika-addon.cpp:199-223 | Up and Down keep the candidate cursor in range |
| Addon.NextCursorFacts | src/lekhika-addon.cpp:199-223 | Down steps forward and wraps to 0, Up steps back and wraps to the end, and each undoes the other |
| Addon.ValidOnlyFacts | src/lekhika-addon.cpp:434-446 | validation keeps exactly the well-formed UTF-8 words found |
| Addon.ShownFacts | src/lekhika-addon.cpp:422-447 | no list for an empty buffer, suggestions off, or no valid word; otherwise a non-empty list of valid found words within the query limit |
| Addon.EmptyListShown | src/lekhika-addon.cpp:434-446 | a stored invalid word makes the written code show an empty list, which the corrected code does not show |
| Addon.LekhikaCandidateList.constructor | src/lekhika-addon.h:35-36 | a list built with its layout, no words and cursor 0 |
| Addon.LekhikaCandidateList.Empty | src/lekhika-addon.h:50 | empty exactly when no word was appended |
| Addon.LekhikaCandidateList.LayoutHint | src/lekhika-addon.h:43-46 | horizontal exactly when the list was built horizontal |
| Addon.LekhikaCandidateList.Label | src/lekhika-addon.cpp:34-38 | the decimal 1-based position in range, the empty text outside |
| Addon.LekhikaCandidateList.SetCursorIndex | src/lekhika-addon.h:48 | stores the index as given, with no range check |
| Addon.LekhikaCandidateList.Append | src/lekhika-addon.cpp:47-50 | the word goes last and the size grows by one |
| Addon.NepaliRomanState.constructor | src/lekhika-addon.h:76-81 | empty buffer, cursor 0, not navigated |
| Addon.NepaliRomanEngine.constructor | src/lekhika-addon.cpp:57-68 | the default options, applied; an empty state; the transliterator loaded from the two files |
| Addon.NepaliRomanEngine.ApplyConfig | src/lekhika-addon.cpp:84-103 | every option is copied into the engine and the four toggles into the transliterator |
| Addon.NepaliRomanEngine.LoadConfig | src/lekhika-addon.cpp:74-82 | the loaded options replace the current ones and are applied |
| Addon.NepaliRomanEngine.UpdateCandidates | src/lekhika-addon.cpp:422-447 | the panel shows the validated suggestions for the buffer's transliteration, or no list |
| Addon.NepaliRomanEngine.UpdatePreedit | src/lekhika-addon.cpp:398-420 | refreshes the candidates for the buffer |
| Addon.NepaliRomanEngine.ResetState | src/lekhika-addon.cpp:379-384 | empty buffer, cursor 0, not navigated, no list |
| Addon.NepaliRomanEngine.CommitBuffer | src/lekhika-addon.cpp:359-370 | a non-empty buffer is committed transliterated, learned only when learning is on, and the state reset; an empty buffer changes nothing |
| Addon.NepaliRomanEngine.CommitRawBuffer | src/lekhika-addon.cpp:372-377 | a non-empty buffer is committed as typed and the state reset; an empty one changes nothing |
| Addon.NepaliRomanEngine.CommitCandidate | src/lekhika-addon.cpp:148-176 | the chosen candidate and its suffix are committed and the state reset |
| Addon.NepaliRomanEngine.MoveLeft | src/lekhika-addon.cpp:180-187 | one byte back exactly when the buffer is non-empty and the cursor is past its start |
| Addon.NepaliRomanEngine.MoveRight | src/lekhika-addon.cpp:188-196 | one byte forward exactly when the cursor is before the end of a non-empty buffer |
| Addon.NepaliRomanEngine.Backspace | src/lekhika-addon.cpp:311-319 | the byte before the cursor goes and the cursor steps back, exactly when there is one |
| Addon.NepaliRomanEngine.MoveCandidateCursor | src/lekhika-addon.cpp:199-223 | the candidate cursor wraps by one, and the navigated flag is set |
| Addon.NepaliRomanEngine.FlushBuffer | src/lekhika-addon.cpp:359-370 | the buffer's transliteration is committed when non-empty, and the buffer emptied |
| Addon.NepaliRomanEngine.SlashKey | src/lekhika-addon.cpp:330-337 | the buffer is flushed, then the slash committed, transliterated when symbols are on |
| Addon.NepaliRomanEngine.CommitSymbolKey | src/lekhika-addon.cpp:339-350 | the buffer is flushed, then the key's text committed, transliterated when its toggle is on |
| Addon.NepaliRomanEngine.InsertText | src/lekhika-addon.cpp:352-355 | the text goes in at the cursor, which moves past it |
| Addon.NepaliRomanEngine.KeyEvent | src/lekhika-addon.cpp:132-357 | the state stays consistent and committed text is only ever extended |
| Addon.NepaliRomanEngine.EditKey | src/lekhika-addon.cpp:180-357 | for each key the list did not take, whether it is consumed and the new buffer, cursor and committed text: Left/Right move one byte, Backspace erases before the cursor, Up/Down wrap the list cursor, Return and Space commit the transliterated buffer (Space adds a space and is not consumed), Escape commits the raw buffer, `/` and commit symbols (digits with no list) flush and commit their text, other text is inserted at the cursor, and unknown keys change nothing |
| Addon.NepaliRomanEngine.CursorKey | src/lekhika-addon.cpp:180-223 | Left/Right move the cursor one byte when possible, Backspace erases the byte before it, Up/Down wrap the list cursor and mark navigation while a list is shown, and an unknown key changes nothing |
| Addon.NepaliRomanEngine.CommitKey | src/lekhika-addon.cpp:226-308 | Return commits the transliterated buffer, consumed exactly when there was one; Space commits it followed by a space (or just a space) without consuming; Escape commits the raw buffer and is consumed |
| Addon.NepaliRomanEngine.SpaceKey | src/lekhika-addon.cpp:281-297 | the transliterated buffer followed by a space is committed, or only a space when the buffer is empty, and the buffer emptied |
| Addon.NepaliRomanEngine.TextKey | src/lekhika-addon.cpp:322-356 | `/` flushes then commits the slash; a commit symbol, or a digit with no list shown, flushes then commits its text; any other text is inserted at the cursor, which moves past it |
| Addon.NepaliRomanEngine.Deactivate | src/lekhika-addon.cpp:386-396 | a non-empty raw buffer is committed and emptied |
| Legacy.NepaliRomanState.constructor | lekhika.h:28-32 | empty buffer, cursor 0 |
| Legacy.PunctuationText | lekhika.cpp:189-193 | `.` and `?` are committed after a space when a buffer was flushed; other keys as their own text |
| Legacy.NepaliRomanEngine.constructor | lekhika.cpp:24-33 | the toggles from the configuration; special words loaded only when auto-correction is on |
| Legacy.NepaliRomanEngine.LoadConfig | lekhika.cpp:39-46 | the four toggles are read again, and the loaded special words stay |
| Legacy.NepaliRomanEngine.Flush | lekhika.cpp:109-133 | the transliterated buffer and suffix are committed and the buffer cleared, when there is one |
| Legacy.NepaliRomanEngine.MoveLeft | lekhika.cpp:88-97 | one byte back when possible, consumed whenever the buffer is non-empty |
| Legacy.NepaliRomanEngine.MoveRight | lekhika.cpp:98-107 | one byte forward when possible, consumed whenever the buffer is non-empty |
| Legacy.NepaliRomanEngine.Backspace | lekhika.cpp:135-144 | the byte before the cursor goes, only when there is one |
| Legacy.NepaliRomanEngine.SlashKey | lekhika.cpp:152-166 | a non-empty buffer is committed and the slash dropped; otherwise the slash is committed |
| Legacy.NepaliRomanEngine.SymbolKey | lekhika.cpp:168-196 | the buffer is flushed, then the key's text committed, transliterated when its toggle is on |
| Legacy.NepaliRomanEngine.InsertText | lekhika.cpp:198-201 | the text goes in at the cursor, which moves past it |
| Legacy.NepaliRomanEngine.KeyEvent | lekhika.cpp:79-204 | for every key, whether it is consumed and the new buffer, cursor and committed text: Left/Right move one byte while the buffer is non-empty, Backspace erases before the cursor, Space and Return commit the transliterated buffer with their suffix, `/` commits the buffer or else the slash, symbols and digits flush and commit their text, other text is inserted at the cursor, and keys without a branch are not consumed and change nothing |
| Legacy.NepaliRomanEngine.CursorKey | lekhika.cpp:88-143 | Left/Right move one byte, consumed whenever the buffer is non-empty; Backspace erases before the cursor; Up, Down, Escape and unknown keys are not consumed and change nothing |
| Legacy.NepaliRomanEngine.Deactivate | lekhika.cpp:206-224 | the transliterated buffer is committed and the buffer cleared |
| Dictionary.OrdinalRoundTrip | src/lekhika_core.h:40 | the two sort columns are exactly the values 0 and 1 |
| Dictionary.InOrderTotal | src/lekhika_core.cpp:241-253 | any two rows are ordered one way or the other under ORDER BY |
| Dictionary.InOrderTrans | src/lekhika_core.cpp:241-253 | the ORDER BY relation is transitive |
| Dictionary.OrderedCovers | src/lekhika_core.cpp:241-253 | an ordered listing holds a row for every stored word |
| Dictionary.OrderedByWordUnique | src/lekhika_core.cpp:241-253 | ordering by word leaves one possible listing |
| Dictionary.PageSlice | src/lekhika_core.cpp:255-269 | the page is the run of rows from the offset, no longer than a positive limit |
| Dictionary.OffsetWithoutLimitLosesRows | src/lekhika_core.cpp:255-256 | with no limit and a positive offset inside the table, the written query returns no rows where the intended page has some |
| Dictionary.Prefixed | src/lekhika_core.cpp:199-203 | the stored words that start with the input |
| Dictionary.AppendWords | src/lekhika_core.cpp:204-208 | the loop appends the rows' words in order |
| Dictionary.SuggestionsFacts | src/lekhika_core.cpp:180-213 | the exact word first when stored, no more than a positive limit, only stored words with the prefix |
| Dictionary.SuggestionsRows | src/lekhika_core.cpp:186-210 | the suggestions are the exact match, then the first prefix rows while the limit allows |
| Dictionary.SuggestionsPrefixed | src/lekhika_core.cpp:199-210 | every suggestion is a stored word that starts with the input |
| Dictionary.SuggestionsByFrequency | src/lekhika_core.cpp:199-210 | after the exact match, suggestions come most frequent first |
| Dictionary.SuggestionsComplete | src/lekhika_core.cpp:199-210 | with room for them, every stored word with the prefix is suggested |
| Dictionary.WithWordAdded | src/lekhika_core.cpp:275-287 | a new word gets frequency 1, a known one one more, no other row changes |
| Dictionary.DictionaryManager.constructor | src/lekhika_core.cpp:65-83 | a store over the table found; a store that failed to open is empty |
| Dictionary.DictionaryManager.Reset | src/lekhika_core.cpp:91-101 | every word row is deleted |
| Dictionary.DictionaryManager.AddWord | src/lekhika_core.cpp:275-287 | the upsert: frequency 1 for a new word, one more for a known word |
| Dictionary.DictionaryManager.RemoveWord | src/lekhika_core.cpp:289-300 | the word's row is deleted, if there is one |
| Dictionary.DictionaryManager.GetWordFrequency | src/lekhika_core.cpp:215-234 | the stored frequency, or -1 for an unknown word or a closed store |
| Dictionary.DictionaryManager.UpdateWordFrequency | src/lekhika_core.cpp:326-341 | overwrites a stored word's frequency; true exactly when a row changed |
| Dictionary.DictionaryManager.OrderRows | src/lekhika_core.cpp:241-253 | the rows of the given words in an order ORDER BY allows |
| Dictionary.DictionaryManager.FindWords | src/lekhika_core.cpp:180-213 | nothing for an empty input or closed store; the exact match, then the prefix rows by frequency, up to the limit |
| Dictionary.DictionaryManager.GetAllWords | src/lekhika_core.cpp:236-273 | every row in the requested order, paged by a positive limit and offset |
| Dictionary.DictionaryManager.SearchWords | src/lekhika_core.cpp:301-324 | the rows whose word contains the term, most frequent first; nothing for an empty term |
| Dictionary.Matching | src/lekhika_core.cpp:306-316 | the stored words that contain the term |
| Tokens.Lead | src/lekhika-trainer.cpp:149-155 | the leading run of word bytes: all in the class, and the next one not |
| Tokens.Filter | lekhika-trainer.py:165 | the class elements, in order |
| Tokens.RunsShape | src/lekhika-trainer.cpp:149-155 | every run is non-empty and made of class elements only |
| Tokens.RunsFlatten | lekhika-trainer.py:165 | the runs together hold exactly the class elements, in order |
| Tokens.FilterPieces | lekhika-trainer.py:149-165 | filtering piece by piece and joining gives what filtering the whole gives |
| Tokens.RunsSeparated | src/lekhika-trainer.cpp:149-155 | an element outside the class splits the runs, and none crosses it |
| Tokens.RunsOfPieces | lekhika-trainer.py:149-165 | pieces cut before non-class elements have, together, the runs of the whole |
| Trainer.IsValidDevanagariWord | src/lekhika-trainer.cpp:72-103 | valid exactly when there are clusters and each starts in U+0904..U+0939, does not end with the virama and stays in the block |
| Trainer.ValidWordConcat | src/lekhika-trainer.cpp:72-103 | two cluster sequences join into a valid word exactly when both are valid (a statement about clusters, not about joined texts, whose clusters can regroup at the seam) |
| Trainer.ValidWordCodePoints | src/lekhika-trainer.cpp:72-103 | a valid word's code points are all in the block, the first a vowel or consonant, and the last not the virama |
| Trainer.LearnedTally | src/lekhika-trainer.cpp:127-147 | each token is seen once; each valid token is either added or skipped, so added + skipped ≤ seen |
| Trainer.LearnedStore | src/lekhika-trainer.cpp:127-156 | with the store open, each word's frequency rises by its valid occurrences, and nothing else changes |
| Trainer.Flush | src/lekhika-trainer.cpp:127-147 | an empty token is ignored, and any other updates the counters and the store |
| Trainer.Learn | src/lekhika-trainer.cpp:108-162 | the tokens are the maximal runs of word bytes read before the stop, the one in progress flushed at the end |
| Trainer.DbEditor.LoadMore | src/lekhika-trainer.cpp:333-372 | the page at offset 50 × page is appended; the page advances only when rows came back |
| Trainer.DbEditor.Reload | src/lekhika-trainer.cpp:325-331 | the table is emptied and, unless a load is under way or the store is closed, holds exactly the first page of the store's rows in word order, with the page number 1 (0 when nothing came back) |
| Trainer.DbEditor.EditRow | src/lekhika-trainer.cpp:438-458 | unless cancelled, empty or unchanged, the old word goes and the new one takes its frequency; the table is then reloaded to the first page, as `Reload` states |
| Trainer.PageAppends | src/lekhika-trainer.cpp:344-370 | a page fetched onto a consistent table extends it by one page |
| PyTrainer.AllDevanagari | lekhika-trainer.py:64-67 | every code point lies in U+0900..U+097F |
| PyTrainer.NoIndependentVowel | lekhika-trainer.py:80-87 | no independent vowel after the first position |
| PyTrainer.IsValidDevanagariWord | lekhika-trainer.py:48-89 | at least two code points, all in the block, not ending with the halant, starting with a consonant, vowel or OM, and no later independent vowel |
| PyTrainer.ExtendValid | lekhika-trainer.py:48-89 | a valid word stays valid with a sign or consonant appended, and a final halant invalidates it until a consonant follows |
| PyTrainer.ValidateWordList | lekhika-trainer.py:91-93 | exactly the valid words, in their order |
| PyTrainer.SlicesFacts | lekhika-trainer.py:170-171 | the slices join back to the list, each non-empty and at most the slice size |
| PyTrainer.PoolSlices | lekhika-trainer.py:170-171 | the intended slicing: no slice when there is no word |
| PyTrainer.NoWordsRaises | lekhika-trainer.py:170-171 | the written slicing fails exactly on a chunk without words, and agrees with the intended one otherwise |
| PyTrainer.PoolValidates | lekhika-trainer.py:167-175 | validating slice by slice in the pool yields the same words as validating the whole list |
| PyTrainer.RFind | lekhika-trainer.py:157 | the last index holding the character, or -1 |
| PyTrainer.ChunkedAsWhole | lekhika-trainer.py:149-165 | when every chunk but the last held a space, the chunks yield the words of the whole text |
| PyTrainer.ChunkValidWords | lekhika-trainer.py:165-175 | the valid words among a chunk's Devanagari runs |
| PyTrainer.Incremented | lekhika-trainer.py:201 | the upsert: a new word gets 1, a known word one more |
| PyTrainer.AddAllCounts | lekhika-trainer.py:186-191 | each word's frequency rises by its occurrences, and no other row changes |
| PyTrainer.DictionaryManager.AddWord | lekhika-trainer.py:196-204 | an invalid word is refused; a valid one is inserted or counted once more |
| PyTrainer.DictionaryManager.RemoveWord | lekhika-trainer.py:206-214 | the row is deleted, and the result says whether there was one |
| PyTrainer.DictionaryManager.LearnFromFile | lekhika-trainer.py:128-194 | the words learned are those of the chunks `Cut` gives, which together are the whole text; they are counted into the store |
| PyTrainer.DictionaryManager.InsertAll | lekhika-trainer.py:186-191 | the words are upserted one after the other |
| PyTrainer.ReadChunks | lekhika-trainer.py:149-175 | the valid words of the chunks `Cut` gives, in order; those chunks make up the text and are cut before spaces |
| PyTrainer.ReadChunk | lekhika-trainer.py:150-175 | one chunk read, cut at its last space, and validated; the chunks still to come are the rest of `Cut` |
| PyTrainer.CutFromStep | lekhika-trainer.py:150-162 | what one read adds to the chunks `CutFrom` gives: the carried text plus the read, cut at its last space unless it is the last read, nothing when empty |
| PyTrainer.NextChunk | lekhika-trainer.py:151-162 | the carried text plus the new read; a non-final chunk keeps the part before its last space (its length is the `rfind` index) or, with no space, all of it and carries nothing; processed plus carried equals the text read |
| DictMaker.DropLast | scripts/dictionary-maker.py:85 | everything but the last character, and nothing from nothing |
| DictMaker.UnitAt | scripts/dictionary-maker.py:76-102 | a key of the span's length is read whole; otherwise one code point, looked up in the consonant, vowel and diacritic tables in turn |
| DictMaker.TransliterateNepal | scripts/dictionary-maker.py:72-103 | the loop computes `Romanised` of the word |
| DictMaker.ScanStep | scripts/dictionary-maker.py:75-102 | one step of the loop emits the unit at the index and moves past it by 1 or more |
| DictMaker.UnitsSpell | scripts/dictionary-maker.py:74-102 | the scan reads every code point once, in order |
| DictMaker.KeyReadWhole | scripts/dictionary-maker.py:77-80 | a consonant key as long as the span is read whole, as its table spelling |
| DictMaker.AsWrittenNoConjunct | scripts/dictionary-maker.py:77-80 | as written, no conjunct key is ever read whole, since none has two code points |
| DictMaker.AsWrittenMisreadsKsha | scripts/dictionary-maker.py:77-80 | as written, क्ष comes out as `ksa` where the table says `ksha` |
| DictMaker.AsWrittenMisreadsJnya | scripts/dictionary-maker.py:77-80 | as written, ज्ञ comes out as `jjna` where the table says `jnja` |
| DictMaker.AsWrittenReadsTra | scripts/dictionary-maker.py:77-80 | as written, त्र comes out as `tra` only because its letters spell it |
| DictMaker.CorrectedReadsConjuncts | scripts/dictionary-maker.py:77-80 | with a span of three, the conjuncts come out as their table spellings |
| DictMaker.ScriptCorrectedAgrees | scripts/dictionary-maker.py:77-80 | words without a conjunct come out the same with either span |
| DictMaker.SpanTwoSplitsConjunct | scripts/dictionary-maker.py:77-100 | with a span of two, consonant, halant, consonant give the first spelling less its last letter, then the second |
| DictMaker.ConsonantSignPair | scripts/dictionary-maker.py:81-89 | a consonant before a sign loses its final letter, and the sign's spelling follows |
| DictMaker.VowelSignPair | scripts/dictionary-maker.py:90-96 | अ and a sign give the vowel's spelling, then the sign's |
| DictMaker.HalantDropsLast | scripts/dictionary-maker.py:97-100 | a final halant drops the last letter emitted for the rest of the word |
| DictMaker.VowelAppends | scripts/dictionary-maker.py:90-92 | a final independent vowel appends its spelling |
| DictMaker.UnknownSkipped | scripts/dictionary-maker.py:101-102 | a final code point found in no table, other than the halant, contributes nothing |
| DictMaker.RomanisedRoman | scripts/dictionary-maker.py:1-103 | the script's romanisations are lower-case Roman letters only |
| DictMaker.ScriptKeyLengths | scripts/dictionary-maker.py:1-39 | every consonant key is one code point or a three-code-point conjunct |
| TableMaker.HalfOf | scripts/table-maker.py:62-65 | each alias with its consonant and the halant |
| TableMaker.FullOf | scripts/table-maker.py:68-71 | each alias followed by `a`, with the bare consonant |
| TableMaker.MakeTable | scripts/table-maker.py:58-80 | the printed lines, and `output` written by the half forms and combinations only |
| TableMaker.HalfSection | scripts/table-maker.py:62-65 | the half-form loop prints and writes its rows |
| TableMaker.FullSection | scripts/table-maker.py:68-71 | the full-form loop prints its rows and writes nothing |
| TableMaker.ComboSection | scripts/table-maker.py:74-80 | the combination loops write every alias-and-sign row |
| TableMaker.AliasWithSigns | scripts/table-maker.py:76-80 | one alias with every sign, written in turn |
| TableMaker.LastWriteWins | scripts/table-maker.py:58-80 | a key is present exactly when some row writes it, with the value of the last such row |
| TableMaker.SectionSizes | scripts/table-maker.py:62-71 | one half form and one full form per alias |
| TableMaker.ComboSize | scripts/table-maker.py:74-80 | one combination per alias and sign |
| TableMaker.HalfRowsMembers | scripts/table-maker.py:62-65 | the half-form rows are exactly each alias with its consonant and the halant |
| TableMaker.FullRowsMembers | scripts/table-maker.py:68-71 | the full-form rows are exactly each alias with `a`, and its bare consonant |
| TableMaker.ComboRowsMembers | scripts/table-maker.py:74-80 | the combination rows are exactly the alias-and-sign pairs |
| TableMaker.OutputKeys | scripts/table-maker.py:58-80 | the keys of `output` are exactly the aliases and alias-and-sign texts, so a full form is a key only when it is one of those |
| TableMaker.AliasHalfForm | scripts/table-maker.py:62-65 | an alias of one consonant only, spelt by no combination, maps to that consonant and the halant |
| TableMaker.ComboForm | scripts/table-maker.py:74-80 | an alias-and-sign text no alias spells, written with one value throughout, maps to that value |

## Left out

- Reading files (`readFileContent`, `loadMappings`, `loadSpecialWords`, the package paths): the parsers take the file's content as a parameter.
- Config file load and save: the options are a `Config` value handed to the engine.
- fcitx rendering (preedit, aux text, the panel, `updateUserInterface`), key release events, and the addon factory. Only one input context is modelled.
- SQLite itself:
  - `LIKE` is modelled as a plain byte prefix or infix test; SQLite's ASCII case-insensitivity and its `%` and `_` wildcards are not.
  - Ties in ORDER BY are left free.
  - The `meta` table, transactions, database setup and the path are not modelled.
- Mask restoration takes the spans in the order they were recorded; the source walks an `unordered_map`, whose order is unspecified.
- Pipeline.ReplaceAll: with an empty pattern the source loops forever; the model leaves the text unchanged.
- Core.Transliteration.DeriveConsonants: the order in which the consonants are visited is chosen freely, because the source walks an `unordered_map`.
- The anusvara rule of the older revision is a flag on one engine, not a second engine.
- Locale-dependent `isalnum`, `isdigit` and `tolower` are ASCII tests; bytes at or above 0x80 are not alphanumeric.
- Integer widths: counts, frequencies and limits are unbounded integers.
- The ICU grapheme-cluster break iterator is a foreign call: the C++ validator takes the clusters as input (`Trainer.Cluster`), and `Trainer.Learn` takes a function giving each token's clusters.
- The C++ trainer counts UTF-16 code units against the block; the model uses code points, which agree inside U+0900..U+097F.
- The trainer's stop flag is a position `stopAt` in the input.
- The Qt user interface, logging and dialogs; DbEditor's addRow, delRows and resetDb.
- Python: the multiprocessing pool (its slicing and joining are modelled), argparse, `list_words`, `get_info`, `reset_database`, and printing.
- PyTrainer.ChunkedAsWhole: proved only when every chunk but the last holds a space, because a chunk without one is scanned whole and can split a word.
- The scripts' module-level file I/O (scripts/dictionary-maker.py:110-114); table-maker's printed lines are a `Line` datatype, not text.
- PyTrainer.ChunkValidWords, PyTrainer.ReadChunk, PyTrainer.ReadChunks, PyTrainer.DictionaryManager.LearnFromFile: these use the corrected `PoolSlices` (see Findings). As written, a chunk with no Devanagari run raises `ValueError`, and `learn_from_file` stops before updating the store. The model instead learns the words of the other chunks.
- Addon.NepaliRomanEngine.UpdateCandidates: this shows the corrected panel (see Findings), with no list when every found word fails UTF-8 validation. As written, an empty list is shown. Then Up/Down compute `% 0`, Return reads candidate 0 of an empty list, and a digit is inserted into the buffer; the model does not reach that state.
- Dictionary.DictionaryManager.GetAllWords: this returns the corrected `Page` (see Findings). As written, a limit of 0 or less with a positive offset returns nothing (`PageAsWritten`). The program's only caller passes a limit of 50.
- Addon.NepaliRomanEngine.KeyEvent: the contract states only that the state stays consistent and the committed text is extended; each branch's effect is stated by the handler method it calls.

## Findings

| source | as written | input that shows it | evidently intended | confidence | as-written member | corrected member |
|---|---|---|---|---|---|---|
| src/lekhika_core.cpp:255-256 | `getAllWords` with a limit of 0 or less and a positive offset builds `... OFFSET ?` with no `LIMIT`. SQLite rejects that statement at prepare, so the call returns nothing | limit -1, offset 1, on a table of two rows | the rows after the offset | not executed | Dictionary.OffsetWithoutLimitLosesRows | Dictionary.PageSlice |
| src/lekhika-addon.cpp:434-446 | `updateCandidates` shows the list even when every found word failed UTF-8 validation. The list is then empty, and Up/Down compute `% 0` | buffer `k`, suggestions on, the store's only match is the bytes `FF` | no list when nothing valid remains | not executed | Addon.EmptyListShown | Addon.ShownFacts |
| scripts/dictionary-maker.py:77-80 | the conjunct lookup slices two code points, but every conjunct key of the table has three, so conjuncts are read letter by letter | क्ष gives `ksa`, ज्ञ gives `jjna` | a slice of three code points, reading क्ष as `ksha` and ज्ञ as `jnja` | not executed | DictMaker.AsWrittenMisreadsKsha | DictMaker.CorrectedReadsConjuncts |
| lekhika-trainer.py:170-171 | a chunk with no Devanagari run makes the slice size 0, and `range(0, 0, 0)` raises `ValueError` | a chunk holding `abc` | no slices, and no words from that chunk | not executed | PyTrainer.NoWordsRaises | PyTrainer.PoolValidates |
