// The `Transliteration` engine object: its two tables and four switches,
// the loaders that fill the tables from the mapping and special-words
// files, and `transliterate` with its helpers. Every method performs the
// engine's loops on its own state and is proved to compute the value the
// functions of module Pipeline (and Loader) specify.

module Core {
  import opened Bytes
  import Loader
  import Correction
  import opened Pipeline

  // ---------------------------------------------------------------------
  // Loop steps, stated on values

  /** One more '/'-separated piece read by the sub-segment loop. */
  lemma SubSegmentsNext(e: Engine, subs: seq<Bytes>, i: nat)
    requires i < |subs|
    ensures Concat(SubSegmentResults(e, NonEmpty(subs[..i + 1])))
      == Concat(SubSegmentResults(e, NonEmpty(subs[..i]))) + (if subs[i] == [] then [] else SubSegmentResult(e, subs[i]))
  {
    assert subs[..i + 1] == subs[..i] + [subs[i]];
    NonEmptyAppend(subs[..i], subs[i]);
    if subs[i] != [] {
      var done := NonEmpty(subs[..i]);
      SubSegmentResultsAppend(e, done, [subs[i]]);
      ConcatAppend(SubSegmentResults(e, done), SubSegmentResults(e, [subs[i]]));
      ConcatSingle(SubSegmentResult(e, subs[i]), false);
    }
  }

  /** One more space-separated piece read by the segment loop. */
  lemma SegmentsNext(e: Engine, segs: seq<Bytes>, i: nat)
    requires i < |segs|
    ensures SegmentsOf(e, NonEmpty(segs[..i + 1])) ==
      if segs[i] == [] then SegmentsOf(e, NonEmpty(segs[..i]))
      else if NonEmpty(segs[..i]) == [] then SegmentOutput(e, segs[i])
      else SegmentsOf(e, NonEmpty(segs[..i])) + [B(' ')] + SegmentOutput(e, segs[i])
    ensures NonEmpty(segs[..i + 1]) == [] <==> NonEmpty(segs[..i]) == [] && segs[i] == []
  {
    assert segs[..i + 1] == segs[..i] + [segs[i]];
    NonEmptyAppend(segs[..i], segs[i]);
    if segs[i] != [] {
      SegmentsOfAppend(e, NonEmpty(segs[..i]), segs[i]);
    }
  }

  /** One more segment is joined on with a space, unless it is the first. */
  lemma SegmentsOfAppend(e: Engine, done: seq<Bytes>, seg: Bytes)
    ensures SegmentsOf(e, done + [seg]) ==
      if done == [] then SegmentOutput(e, seg) else SegmentsOf(e, done) + [B(' ')] + SegmentOutput(e, seg)
  {
    var outs := SegmentOutputs(e, done + [seg]);
    assert outs[..|outs| - 1] == SegmentOutputs(e, done);
    assert outs[|outs| - 1] == SegmentOutput(e, seg);
  }

  /** One round of the masking loop, on the values it computes. */
  lemma MaskRound(s: Bytes, from: nat, count: nat, tokens: seq<(Bytes, Bytes)>, begin: int,
                  s': Bytes, from': nat, count': nat, tokens': seq<(Bytes, Bytes)>)
    requires from <= |s| && begin == FindByte(s, B('{'), from) && begin != -1
    requires s' == Masked(s, begin, MaskName(count)) && from' == begin + |MaskName(count)|
    requires count' == count + 1 && tokens' == tokens + [(MaskName(count), SpanToken(s, begin))]
    ensures from' <= |s'| && |s'| - from' < |s| - from
    ensures MaskFrom(s', from', count', tokens') == MaskFrom(s, from, count, tokens)
  {
    MaskShrinks(s, from, begin, MaskName(count));
  }

  /** Masking the span at `begin` leaves less of the text to scan. */
  lemma MaskShrinks(s: Bytes, from: nat, begin: int, mask: Bytes)
    requires from <= |s| && begin == FindByte(s, B('{'), from) && begin != -1
    ensures begin + |mask| <= |Masked(s, begin, mask)|
    ensures |Masked(s, begin, mask)| - (begin + |mask|) < |s| - from
  {
    FindByteFirst(s, B('{'), from);
  }

  /**
   * The engine's replace loop: every occurrence of `pat`, searched from
   * just after the previous replacement, is replaced by `rep`.
   */
  method ReplaceEvery(text: Bytes, pat: Bytes, rep: Bytes) returns (result: Bytes)
    ensures result == ReplaceAll(text, pat, rep)
  {
    result := text;
    if pat == [] {
      return;
    }
    var pos: nat := 0;
    var p := Find(result, pat, pos);
    assert result[pos..] == text;
    while p != -1
      invariant pos <= |result|
      invariant p == Find(result, pat, pos)
      invariant result[..pos] + ReplaceAll(result[pos..], pat, rep) == ReplaceAll(text, pat, rep)
      decreases |result| - pos
    {
      var next := result[..p] + rep + result[p + |pat|..];
      ReplaceRound(result, pat, rep, pos, p, next);
      result := next;
      pos := p + |rep|;
      p := Find(result, pat, pos);
    }
    ReplaceDone(result, pat, rep, pos);
  }

  class Transliteration {
    var charMap: map<Bytes, Bytes>
    var specialWords: map<Bytes, Bytes>
    var enableSmartCorrection: bool
    var enableAutoCorrect: bool
    var enableIndicNumbers: bool
    var enableSymbolsTransliteration: bool
    /** Whether this revision applies the m -> '*' anusvara pass. */
    const anusvaraRule: bool

    /** The tables and switches as the specification functions read them. */
    function Engine(): (r: Pipeline.Engine)
      reads this
      ensures r.charMap == charMap && r.specialWords == specialWords
    {
      Pipeline.Engine(charMap, specialWords, enableSmartCorrection, enableAutoCorrect,
                      enableIndicNumbers, enableSymbolsTransliteration, anusvaraRule)
    }

    /**
     * The engine loads the special words (auto-correction is on at that
     * point), then the mappings; each file's content is given here, and an
     * empty content loads nothing.
     */
    constructor (autocorrectFile: Bytes, mappingFile: Bytes, anusvaraRule: bool)
      ensures enableSmartCorrection && enableAutoCorrect && enableIndicNumbers && enableSymbolsTransliteration
      ensures this.anusvaraRule == anusvaraRule
      ensures specialWords == Loader.ParsedSpecialWords(map[], autocorrectFile)
      ensures var st := Loader.ParsedMappings(map[], mappingFile);
              Loader.DerivedFrom(st.charMap, st.consonants, {}, charMap)
    {
      this.anusvaraRule := anusvaraRule;
      charMap := map[];
      specialWords := map[];
      enableSmartCorrection := true;
      enableAutoCorrect := true;
      enableIndicNumbers := true;
      enableSymbolsTransliteration := true;
      new;
      if enableAutoCorrect && autocorrectFile != [] {
        ParseSpecialWordsToml(autocorrectFile);
      }
      if mappingFile != [] {
        ParseMappingsToml(mappingFile);
      }
    }

    method SetEnableSmartCorrection(enable: bool)
      modifies this`enableSmartCorrection
      ensures enableSmartCorrection == enable
    {
      enableSmartCorrection := enable;
    }

    method SetEnableAutoCorrect(enable: bool)
      modifies this`enableAutoCorrect
      ensures enableAutoCorrect == enable
    {
      enableAutoCorrect := enable;
    }

    method SetEnableIndicNumbers(enable: bool)
      modifies this`enableIndicNumbers
      ensures enableIndicNumbers == enable
    {
      enableIndicNumbers := enable;
    }

    method SetEnableSymbolsTransliteration(enable: bool)
      modifies this`enableSymbolsTransliteration
      ensures enableSymbolsTransliteration == enable
    {
      enableSymbolsTransliteration := enable;
    }

    // -------------------------------------------------------------------
    // Loading the tables

    /** Reads the special-words file line by line into `specialWords`. */
    method ParseSpecialWordsToml(content: Bytes)
      modifies this`specialWords
      ensures specialWords == Loader.ParsedSpecialWords(old(specialWords), content)
    {
      var lines := Split(content, B('\n'));
      var section: Bytes := [];
      var i := 0;
      while i < |lines|
        invariant i <= |lines|
        invariant Loader.SpecialLines(Loader.SpecialState(specialWords, section), lines[i..])
          == Loader.SpecialLines(Loader.SpecialState(old(specialWords), []), lines)
      {
        assert lines[i..][1..] == lines[i + 1..];
        section := SpecialWordsLine(lines[i], section);
        i := i + 1;
      }
    }

    /** One line of the special-words file; `section` is the section the line is read in. */
    method SpecialWordsLine(raw: Bytes, section: Bytes) returns (section': Bytes)
      modifies this`specialWords
      ensures Loader.SpecialState(specialWords, section') == Loader.SpecialLine(Loader.SpecialState(old(specialWords), section), raw)
    {
      section' := section;
      var line := Loader.Trim(raw);
      if line == [] || line[0] == B('#') {
      } else if line[0] == B('[') && line[|line| - 1] == B(']') {
        section' := line[1..|line| - 1];
      } else if section == Loader.SpecialWordsSection {
        var found, key, value := ParseSpecialEntry(line);
        if found {
          specialWords := specialWords[key := value];
        }
      }
    }

    /** An entry line of the special-words section: the trimmed key and the trimmed, unquoted value around the first '='. */
    method ParseSpecialEntry(line: Bytes) returns (found: bool, key: Bytes, value: Bytes)
      ensures found <==> B('=') in line
      ensures found ==> var (k, v) := Loader.Fields(line).value;
                        key == Loader.Trim(k) && value == Loader.StripDoubleQuotes(Loader.Trim(v))
    {
      var eqPos := IndexOf(line, B('='));
      found := eqPos < |line|;
      key, value := [], [];
      if found {
        assert Loader.Fields(line) == Some((line[..eqPos], line[eqPos + 1..]));
        key := Loader.Trim(line[..eqPos]);
        value := Loader.Trim(line[eqPos + 1..]);
        if |value| >= 2 && value[0] == B('"') && value[|value| - 1] == B('"') {
          value := value[1..|value| - 1];
        }
      }
    }

    /**
     * Reads the mapping file: `[charMap]` entries go into `charMap`,
     * `[consonantMap]` entries into a local table, from which the derived
     * forms are then added.
     */
    method ParseMappingsToml(content: Bytes)
      modifies this`charMap
      ensures var st := Loader.ParsedMappings(old(charMap), content);
              Loader.DerivedFrom(st.charMap, st.consonants, {}, charMap)
    {
      var lines := Split(content, B('\n'));
      var section: Bytes := [];
      var consonantMap: map<Bytes, Bytes> := map[];
      var i := 0;
      while i < |lines|
        invariant i <= |lines|
        invariant Loader.MappingLines(Loader.MappingState(charMap, consonantMap, section), lines[i..])
          == Loader.ParsedMappings(old(charMap), content)
      {
        assert lines[i..][1..] == lines[i + 1..];
        section, consonantMap := MappingsLine(lines[i], section, consonantMap);
        i := i + 1;
      }
      assert lines[i..] == [];
      DeriveConsonants(consonantMap);
    }

    /**
     * Every consonant, in an order the engine does not fix (it walks a hash
     * table), adds its derived forms without replacing an entry already there.
     */
    method DeriveConsonants(consonantMap: map<Bytes, Bytes>)
      modifies this`charMap
      ensures Loader.DerivedFrom(old(charMap), consonantMap, {}, charMap)
    {
      var pending := consonantMap.Keys;
      Loader.DerivedFromStart(charMap, consonantMap);
      while pending != {}
        invariant pending <= consonantMap.Keys
        invariant Loader.DerivedFrom(old(charMap), consonantMap, pending, charMap)
        decreases pending
      {
        var conso :| conso in pending;
        Loader.DerivedFromStep(old(charMap), consonantMap, pending, charMap, conso);
        DeriveConsonant(conso, consonantMap[conso]);
        pending := pending - {conso};
      }
    }

    /** One line of the mapping file, with the section and the consonant table read so far. */
    method MappingsLine(raw: Bytes, section: Bytes, consonantMap: map<Bytes, Bytes>)
      returns (section': Bytes, consonantMap': map<Bytes, Bytes>)
      modifies this`charMap
      ensures Loader.MappingState(charMap, consonantMap', section')
        == Loader.MappingLine(Loader.MappingState(old(charMap), consonantMap, section), raw)
    {
      section', consonantMap' := section, consonantMap;
      var line := Loader.Trim(raw);
      if line == [] || line[0] == B('#') {
      } else if line[0] == B('[') && line[|line| - 1] == B(']') {
        section' := line[1..|line| - 1];
      } else {
        var found, key, value := ParseMappingEntry(line);
        if found {
          if section == Loader.CharMapSection {
            charMap := charMap[key := value];
          } else if section == Loader.ConsonantMapSection {
            consonantMap' := consonantMap[key := value];
          }
        }
      }
    }

    /** An entry line of the mapping file: the key and the value around the first '=', the value cut at '#', both trimmed and unquoted. */
    method ParseMappingEntry(line: Bytes) returns (found: bool, key: Bytes, value: Bytes)
      ensures found <==> B('=') in line
      ensures found ==> var (k, v) := Loader.Fields(line).value;
                        key == Loader.Unquoted(Loader.Trim(k)) && value == Loader.Unquoted(Loader.Trim(Loader.BeforeComment(v)))
    {
      var eqPos := IndexOf(line, B('='));
      found := eqPos < |line|;
      key, value := [], [];
      if found {
        key := line[..eqPos];
        value := line[eqPos + 1..];
        var commentPos := IndexOf(value, B('#'));
        if commentPos < |value| {
          value := value[..commentPos];
        }
        assert Loader.Fields(line) == Some((line[..eqPos], line[eqPos + 1..]));
        assert value == Loader.BeforeComment(line[eqPos + 1..]);
        key := Loader.Trim(key);
        value := Loader.Trim(value);
        key := Loader.Unquote(key);
        value := Loader.Unquote(value);
      }
    }

    /** The derived forms of one consonant, each written only where its key is absent. */
    method DeriveConsonant(conso: Bytes, val: Bytes)
      modifies this`charMap
      ensures charMap == Loader.SetIfAbsent(old(charMap), Loader.DerivedForms(conso, val))
    {
      var forms := Loader.DerivedForms(conso, val);
      var j := 0;
      while j < |forms|
        invariant j <= |forms|
        invariant charMap == Loader.SetIfAbsent(old(charMap), forms[..j])
      {
        assert forms[..j + 1][..j] == forms[..j];
        if forms[j].0 !in charMap {
          charMap := charMap[forms[j].0 := forms[j].1];
        }
        j := j + 1;
      }
      assert forms[..j] == forms;
    }

    // -------------------------------------------------------------------
    // Transliteration

    /** `preprocess`: auto-correction first, smart correction when that changed nothing. */
    method Preprocess(input: Bytes) returns (processedWord: Bytes)
      ensures processedWord == Pipeline.Preprocess(Engine(), input)
    {
      processedWord := input;
      if enableAutoCorrect {
        var autoCorrected := AutoCorrection(Engine(), processedWord);
        if autoCorrected != processedWord {
          return autoCorrected;
        }
      }
      if enableSmartCorrection {
        processedWord := Correction.ApplySmartCorrection(processedWord, anusvaraRule);
      }
    }

    /** `preprocessInput`: the punctuation spacer. */
    method PreprocessInput(input: Bytes) returns (out: Bytes)
      ensures out == Pipeline.PreprocessInput(Engine(), input)
    {
      out := [];
      var i := 0;
      while i < |input|
        invariant i <= |input|
        invariant out == Spaced(Engine(), input, i)
      {
        var c := input[i];
        if c != B('*') {
          if i > 0 && (c == B('.') || c == B('?') || [c] in charMap) && !IsAlnum(c) && input[i - 1] != B(' ') {
            out := out + [B(' ')];
          }
        }
        out := out + [c];
        i := i + 1;
      }
    }

    /**
     * One round of the matcher: tries the prefixes of `rem` from the
     * longest down, and returns what it appends and what is left.
     */
    method TokenStep(rem: Bytes) returns (piece: Bytes, rest: Bytes)
      requires rem != []
      ensures piece == Step(Engine(), rem).0 && rest == rem[Step(Engine(), rem).1..]
    {
      ghost var e := Engine();
      var matched: Bytes := [];
      var taken := 0;
      var i := |rem|;
      while i > 0 && taken == 0
        invariant 0 <= i <= |rem| && (taken == 0 || taken == i)
        invariant taken == 0 ==> Longest(e, rem, |rem|) == Longest(e, rem, i) && matched == []
        invariant taken != 0 ==> Longest(e, rem, |rem|) == i && matched == TakenOutput(e, rem, i)
        decreases i - taken
      {
        var part := rem[..i];
        if |part| == 1 && IsDigit(part[0]) && !enableIndicNumbers {
          matched := part;
          taken := i;
        } else if |part| == 1 && !IsAlnum(part[0]) && !enableSymbolsTransliteration {
          matched := part;
          taken := i;
        } else if part in charMap {
          matched := charMap[part];
          taken := i;
        } else {
          i := i - 1;
        }
      }
      assert taken == Longest(e, rem, |rem|);
      rest := rem[taken..];
      if matched != [] {
        piece := matched;
      } else {
        // At the end of the text the engine reads the string's terminating NUL.
        var c: byte := if rest == [] then 0 else rest[0];
        if IsDigit(c) && !enableIndicNumbers {
          piece := [c];
        } else if !IsAlnum(c) && !enableSymbolsTransliteration {
          piece := [c];
        } else if [c] in charMap {
          piece := charMap[[c]];
        } else {
          piece := [c];
        }
        if rest != [] {
          assert rem[taken..][1..] == rem[taken + 1..];
          rest := rest[1..];
        }
      }
    }

    /** One non-empty '/'-separated piece: the matcher to the end, then the trailing-halant rule. */
    method TransliterateSubSegment(subSegment: Bytes) returns (subResult: Bytes)
      ensures subResult == SubSegmentResult(Engine(), subSegment)
    {
      subResult := MatchAll(subSegment);
      var originalEndsWithHalanta := subSegment != [] && subSegment[|subSegment| - 1] == B('\\');
      var n := |subResult|;
      var resultEndsWithHalanta := n >= 3 && subResult[n - 3] == 0xE0 && subResult[n - 2] == 0xA5 && subResult[n - 1] == 0x8D;
      assert resultEndsWithHalanta <==> EndsWithHalant(subResult) by {
        if n >= 3 {
          assert subResult[n - 3..] == [subResult[n - 3], subResult[n - 2], subResult[n - 1]];
        }
      }
      if resultEndsWithHalanta && !originalEndsWithHalanta && |subSegment| > 1 {
        subResult := subResult[..n - 3];
      }
    }

    /** The matcher loop: rounds of `TokenStep` until nothing is left. */
    method MatchAll(subSegment: Bytes) returns (subResult: Bytes)
      ensures subResult == Tokens(Engine(), subSegment)
    {
      subResult := [];
      var rem := subSegment;
      while rem != []
        invariant subResult + Tokens(Engine(), rem) == Tokens(Engine(), subSegment)
        decreases |rem|
      {
        var piece, rest := TokenStep(rem);
        assert Tokens(Engine(), rem) == piece + Tokens(Engine(), rest);
        assert subResult + piece + Tokens(Engine(), rest) == subResult + Tokens(Engine(), rem);
        subResult := subResult + piece;
        rem := rest;
      }
    }

    /** `transliterateSegment`: the non-empty '/'-separated pieces, each transliterated, concatenated. */
    method TransliterateSegment(input: Bytes) returns (result: Bytes)
      ensures result == Pipeline.TransliterateSegment(Engine(), input)
    {
      var subs := Split(input, B('/'));
      result := [];
      var i := 0;
      while i < |subs|
        invariant i <= |subs|
        invariant result == Concat(SubSegmentResults(Engine(), NonEmpty(subs[..i])))
      {
        SubSegmentsNext(Engine(), subs, i);
        if subs[i] != [] {
          var subResult := TransliterateSubSegment(subs[i]);
          result := result + subResult;
        }
        i := i + 1;
      }
      assert subs[..i] == subs;
    }

    /** The masking loop of `transliterate`: each `{...}` span becomes `$-N-$`, its content recorded. */
    method MaskSpans(preprocessed: Bytes) returns (processed: Bytes, engTokens: seq<(Bytes, Bytes)>)
      ensures Masking(processed, engTokens) == Mask(preprocessed)
    {
      processed := preprocessed;
      engTokens := [];
      var tokenCount := 1;
      var endIndex: nat := 0;
      var beginIndex := FindByte(processed, B('{'), endIndex);
      while beginIndex != -1
        invariant endIndex <= |processed|
        invariant beginIndex == FindByte(processed, B('{'), endIndex)
        invariant MaskFrom(processed, endIndex, tokenCount, engTokens) == Mask(preprocessed)
        decreases |processed| - endIndex
      {
        processed, endIndex, tokenCount, engTokens := MaskNext(processed, endIndex, tokenCount, engTokens, beginIndex);
        beginIndex := FindByte(processed, B('{'), endIndex);
      }
      MaskDone(processed, endIndex, tokenCount, engTokens);
    }

    /** The body of the masking loop: the span at `beginIndex` masked and recorded, the scan resumed after the mask. */
    method MaskNext(processed: Bytes, endIndex: nat, tokenCount: nat, engTokens: seq<(Bytes, Bytes)>, beginIndex: int)
      returns (processed': Bytes, endIndex': nat, tokenCount': nat, engTokens': seq<(Bytes, Bytes)>)
      requires endIndex <= |processed| && beginIndex == FindByte(processed, B('{'), endIndex) && beginIndex != -1
      ensures endIndex' <= |processed'| && |processed'| - endIndex' < |processed| - endIndex
      ensures MaskFrom(processed', endIndex', tokenCount', engTokens') == MaskFrom(processed, endIndex, tokenCount, engTokens)
    {
      var mask := MaskName(tokenCount);
      var content;
      processed', content := MaskOne(processed, beginIndex, mask);
      tokenCount' := tokenCount + 1;
      engTokens' := engTokens + [(mask, content)];
      endIndex' := beginIndex + |mask|;
      MaskRound(processed, endIndex, tokenCount, engTokens, beginIndex, processed', endIndex', tokenCount', engTokens');
    }

    /** One span of the masking loop: the text with the span opened at `beginIndex` replaced by `mask`, and its content. */
    method MaskOne(processed: Bytes, beginIndex: nat, mask: Bytes) returns (processed': Bytes, content: Bytes)
      requires beginIndex < |processed|
      ensures processed' == Masked(processed, beginIndex, mask) && content == SpanToken(processed, beginIndex)
    {
      var endIndex := FindByte(processed, B('}'), beginIndex + 1);
      if endIndex == -1 {
        endIndex := |processed| - 1;
      }
      var token := processed[beginIndex..endIndex + 1];
      content := if |token| >= 2 then token[1..|token| - 1] else [];
      processed' := processed[..beginIndex] + mask + processed[beginIndex + |token|..];
    }

    /** The segment loop of `transliterate`: non-empty space-separated segments, one space between outputs. */
    method TransliterateSegments(processed: Bytes) returns (result: Bytes)
      ensures result == Segments(Engine(), processed)
    {
      var segs := Split(processed, B(' '));
      result := [];
      var first := true;
      var i := 0;
      while i < |segs|
        invariant i <= |segs|
        invariant first <==> NonEmpty(segs[..i]) == []
        invariant result == SegmentsOf(Engine(), NonEmpty(segs[..i]))
      {
        SegmentsNext(Engine(), segs, i);
        var segment := segs[i];
        if segment != [] {
          if !first {
            result := result + [B(' ')];
          }
          var out := SegmentOut(segment);
          result := result + out;
          first := false;
        }
        i := i + 1;
      }
      assert segs[..i] == segs;
    }

    /** What one non-empty space-separated segment becomes. */
    method SegmentOut(segment: Bytes) returns (out: Bytes)
      requires segment != []
      ensures out == SegmentOutput(Engine(), segment)
    {
      if |segment| == 1 && IsDigit(segment[0]) && !enableIndicNumbers {
        out := segment;
      } else if |segment| == 1 && !IsAlnum(segment[0]) && !enableSymbolsTransliteration {
        out := segment;
      } else if |segment| == 1 && segment in charMap {
        out := charMap[segment];
      } else {
        var cleaned := Preprocess(segment);
        out := TransliterateSegment(cleaned);
      }
    }

    /** The restoring loop of `transliterate`: each mask's transliteration is replaced by the span's content. */
    method RestoreSpans(transliterated: Bytes, engTokens: seq<(Bytes, Bytes)>) returns (result: Bytes)
      ensures result == Restore(Engine(), transliterated, engTokens)
    {
      result := transliterated;
      var j := 0;
      while j < |engTokens|
        invariant j <= |engTokens|
        invariant Restore(Engine(), result, engTokens[j..]) == Restore(Engine(), transliterated, engTokens)
      {
        assert engTokens[j..][1..] == engTokens[j + 1..];
        var (mask, original) := engTokens[j];
        var translatedMask := TransliterateSegment(mask);
        result := ReplaceEvery(result, translatedMask, original);
        j := j + 1;
      }
    }

    /** `transliterate`: spacing, masking, the segments, then the spans put back. */
    method Transliterate(input: Bytes) returns (result: Bytes)
      ensures result == Pipeline.Transliterate(Engine(), input)
    {
      var preprocessed := PreprocessInput(input);
      var processed, engTokens := MaskSpans(preprocessed);
      result := TransliterateSegments(processed);
      result := RestoreSpans(result, engTokens);
    }
  }
}
