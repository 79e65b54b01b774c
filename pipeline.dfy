// What `transliterate` computes, stated on values: the punctuation spacer,
// the masking of `{...}` spans, the space-separated segments, the greedy
// longest-match tokenizer with its trailing-halant rule, and the
// restoration of the masked spans. The engine class performs the same
// steps with loops and is proved to compute these functions.

module Pipeline {
  import opened Bytes
  import Correction

  /** The tables and switches `transliterate` reads. */
  datatype Engine = Engine(
    charMap: map<Bytes, Bytes>,
    specialWords: map<Bytes, Bytes>,
    smartCorrection: bool,
    autoCorrect: bool,
    indicNumbers: bool,
    symbols: bool,
    anusvaraRule: bool)

  // ---------------------------------------------------------------------
  // Preprocessing one word

  /** `applyAutoCorrection`: the special-words entry for the word, or the word itself. */
  function AutoCorrection(e: Engine, word: Bytes): (r: Bytes)
    ensures word in e.specialWords ==> r == e.specialWords[word]
    ensures word !in e.specialWords ==> r == word
  {
    if word in e.specialWords then e.specialWords[word] else word
  }

  /** `preprocess`: a special word that differs from the input wins; otherwise smart correction, if enabled. */
  function Preprocess(e: Engine, word: Bytes): (r: Bytes)
  {
    if e.autoCorrect && AutoCorrection(e, word) != word then AutoCorrection(e, word)
    else if e.smartCorrection then Correction.SmartCorrection(word, e.anusvaraRule)
    else word
  }

  /**
   * With auto-correction on, a special word whose entry differs from it is
   * replaced and smart correction is skipped; in every other case smart
   * correction runs exactly when it is enabled.
   */
  lemma PreprocessGate(e: Engine, word: Bytes)
    ensures e.autoCorrect && word in e.specialWords && e.specialWords[word] != word ==>
      Preprocess(e, word) == e.specialWords[word]
    ensures !(e.autoCorrect && word in e.specialWords && e.specialWords[word] != word) ==>
      Preprocess(e, word) == if e.smartCorrection then Correction.SmartCorrection(word, e.anusvaraRule) else word
  {
  }

  // ---------------------------------------------------------------------
  // The punctuation spacer

  /**
   * `preprocessInput` puts a space before byte `i` when it is not '*', not
   * the first byte, is '.', '?' or a one-byte key of the mapping, is not a
   * letter or digit, and does not follow a space.
   */
  predicate SpaceBefore(e: Engine, s: Bytes, i: nat)
    requires i < |s|
  {
    s[i] != B('*') && i > 0 && (s[i] == B('.') || s[i] == B('?') || [s[i]] in e.charMap)
    && !IsAlnum(s[i]) && s[i - 1] != B(' ')
  }

  /** The spacer's output for the first `n` bytes. */
  function Spaced(e: Engine, s: Bytes, n: nat): (r: Bytes)
    requires n <= |s|
  {
    if n == 0 then []
    else Spaced(e, s, n - 1) + (if SpaceBefore(e, s, n - 1) then [B(' '), s[n - 1]] else [s[n - 1]])
  }

  function PreprocessInput(e: Engine, s: Bytes): Bytes
  {
    Spaced(e, s, |s|)
  }

  /** The bytes of `s` other than spaces, in order. */
  function WithoutSpaces(s: Bytes): (r: Bytes)
    ensures forall i :: 0 <= i < |r| ==> r[i] != B(' ')
  {
    if s == [] then []
    else WithoutSpaces(s[..|s| - 1]) + (if s[|s| - 1] == B(' ') then [] else [s[|s| - 1]])
  }

  lemma {:induction false} WithoutSpacesAppend(a: Bytes, b: Bytes)
    decreases |b|
    ensures WithoutSpaces(a + b) == WithoutSpaces(a) + WithoutSpaces(b)
  {
    if b != [] {
      var front := b[..|b| - 1];
      assert (a + b)[..|a + b| - 1] == a + front;
      assert (a + b)[|a + b| - 1] == b[|b| - 1];
      WithoutSpacesAppend(a, front);
    } else {
      assert a + b == a;
    }
  }

  /** An inserted space disappears again. */
  lemma WithoutSpacesPiece(c: byte, spaced: bool)
    ensures WithoutSpaces(if spaced then [B(' '), c] else [c]) == WithoutSpaces([c])
  {
    if spaced {
      WithoutSpacesAppend([B(' ')], [c]);
      assert [B(' ')] + [c] == [B(' '), c];
    }
  }

  lemma {:induction false} SpacedWithoutSpaces(e: Engine, s: Bytes, n: nat)
    requires n <= |s|
    decreases n
    ensures WithoutSpaces(Spaced(e, s, n)) == WithoutSpaces(s[..n])
  {
    if n > 0 {
      SpacedWithoutSpaces(e, s, n - 1);
      SpacedWithoutSpacesStep(e, s, n);
    }
  }

  /** Both sides grow by the same bytes when one more input byte is spaced. */
  lemma SpacedWithoutSpacesStep(e: Engine, s: Bytes, n: nat)
    requires 0 < n <= |s|
    ensures WithoutSpaces(Spaced(e, s, n)) == WithoutSpaces(Spaced(e, s, n - 1)) + WithoutSpaces([s[n - 1]])
    ensures WithoutSpaces(s[..n]) == WithoutSpaces(s[..n - 1]) + WithoutSpaces([s[n - 1]])
  {
    var piece := if SpaceBefore(e, s, n - 1) then [B(' '), s[n - 1]] else [s[n - 1]];
    WithoutSpacesAppend(Spaced(e, s, n - 1), piece);
    WithoutSpacesPiece(s[n - 1], SpaceBefore(e, s, n - 1));
    assert s[..n] == s[..n - 1] + [s[n - 1]];
    WithoutSpacesAppend(s[..n - 1], [s[n - 1]]);
  }

  /** The spacer only inserts spaces: deleting all spaces from its output and from its input gives the same bytes. */
  lemma SpacerOnlyAddsSpaces(e: Engine, s: Bytes)
    ensures WithoutSpaces(PreprocessInput(e, s)) == WithoutSpaces(s)
  {
    SpacedWithoutSpaces(e, s, |s|);
    assert s[..|s|] == s;
  }

  /** Where no byte qualifies, the spacer changes nothing. */
  lemma {:induction false} SpacedUnchanged(e: Engine, s: Bytes, n: nat)
    requires n <= |s|
    requires forall i :: 0 <= i < n ==> !SpaceBefore(e, s, i)
    decreases n
    ensures Spaced(e, s, n) == s[..n]
  {
    if n > 0 {
      SpacedUnchanged(e, s, n - 1);
      assert s[..n] == s[..n - 1] + [s[n - 1]];
    }
  }

  /** The output has one more byte for each space inserted, and never grows past twice the input. */
  lemma {:induction false} SpacedLength(e: Engine, s: Bytes, n: nat)
    requires n <= |s|
    decreases n
    ensures n <= |Spaced(e, s, n)| <= 2 * n
    ensures n > 0 ==> Spaced(e, s, n)[0] == s[0]
  {
    if n > 0 {
      SpacedLength(e, s, n - 1);
      if n == 1 {
        assert !SpaceBefore(e, s, 0);
      }
    }
  }

  // ---------------------------------------------------------------------
  // Masking `{...}` spans

  /** The mask `$-N-$`. */
  function MaskName(n: nat): (r: Bytes)
    ensures B('{') !in r && B(' ') !in r && B('/') !in r
  {
    var d := Decimal(n);
    var r := [B('$'), B('-')] + d + [B('-'), B('$')];
    assert forall i :: 0 <= i < |r| ==> r[i] == B('$') || r[i] == B('-') || IsDigit(r[i]) by {
      forall i | 0 <= i < |r| ensures r[i] == B('$') || r[i] == B('-') || IsDigit(r[i]) {
        if 2 <= i < 2 + |d| {
          assert r[i] == d[i - 2];
        }
      }
    }
    r
  }

  /** The number inside a mask can be read back, so different numbers give different masks. */
  lemma MaskNamesDistinct(i: nat, j: nat)
    requires i != j
    ensures MaskName(i) != MaskName(j)
  {
    var a, b := MaskName(i), MaskName(j);
    assert a[2..|a| - 2] == Decimal(i);
    assert b[2..|b| - 2] == Decimal(j);
    DecimalRoundTrip(i);
    DecimalRoundTrip(j);
  }

  /** The scanner's result: the masked text and the (mask, content) pairs in the order they were made. */
  datatype Masking = Masking(text: Bytes, tokens: seq<(Bytes, Bytes)>)

  /** The content recorded for a span token: its bytes without the first and the last. */
  function SpanContent(token: Bytes): (r: Bytes)
  {
    if |token| >= 2 then token[1..|token| - 1] else []
  }

  /** Where the span opened at `begin` ends: at the next '}', or at the last byte when there is none. */
  function SpanEnd(s: Bytes, begin: nat): (r: nat)
    requires begin < |s|
    ensures begin <= r < |s|
  {
    var close := FindByte(s, B('}'), begin + 1);
    if close == -1 then |s| - 1 else close
  }

  /** The scan from `from` on, with `count` the next mask number. */
  function MaskFrom(s: Bytes, from: nat, count: nat, tokens: seq<(Bytes, Bytes)>): (r: Masking)
    requires from <= |s|
    decreases |s| - from
  {
    var begin := FindByte(s, B('{'), from);
    if begin == -1 then Masking(s, tokens)
    else
      MaskFrom(Masked(s, begin, MaskName(count)), begin + |MaskName(count)|, count + 1,
               tokens + [(MaskName(count), SpanToken(s, begin))])
  }

  /** The text with the span opened at `begin` replaced by `mask`. */
  function Masked(s: Bytes, begin: nat, mask: Bytes): (r: Bytes)
    requires begin < |s|
    ensures |r| == begin + |mask| + (|s| - SpanEnd(s, begin) - 1)
  {
    s[..begin] + mask + s[SpanEnd(s, begin) + 1..]
  }

  /** The content recorded for the span opened at `begin`. */
  function SpanToken(s: Bytes, begin: nat): (r: Bytes)
    requires begin < |s|
  {
    SpanContent(s[begin..SpanEnd(s, begin) + 1])
  }

  function Mask(s: Bytes): Masking
  {
    MaskFrom(s, 0, 1, [])
  }

  /** No '{' among the first `n` bytes. */
  predicate BraceFreeBefore(s: Bytes, n: nat)
    requires n <= |s|
  {
    forall i :: 0 <= i < n ==> s[i] != B('{')
  }

  /** Masking the span at the next '{' leaves the text up to the end of the mask free of '{'. */
  lemma MaskedBraceFree(s: Bytes, from: nat, mask: Bytes)
    requires from <= |s| && BraceFreeBefore(s, from) && B('{') !in mask
    requires FindByte(s, B('{'), from) != -1
    ensures var begin := FindByte(s, B('{'), from);
      begin + |mask| <= |Masked(s, begin, mask)| && BraceFreeBefore(Masked(s, begin, mask), begin + |mask|)
  {
    var begin := FindByte(s, B('{'), from);
    FindByteFirst(s, B('{'), from);
    var m := Masked(s, begin, mask);
    assert m[..begin + |mask|] == s[..begin] + mask;
    forall i | 0 <= i < begin + |mask| ensures m[i] != B('{') {
      if i < begin {
        assert m[i] == s[i];
      } else {
        assert m[i] == mask[i - begin];
      }
    }
  }

  /** When the scan ends, the whole text is free of '{'. */
  lemma DoneBraceFree(s: Bytes, from: nat)
    requires from <= |s| && BraceFreeBefore(s, from) && FindByte(s, B('{'), from) == -1
    ensures BraceFreeBefore(s, |s|)
  {
    FindByteFirst(s, B('{'), from);
  }

  /** No '{' is left before the scan point, hence none at all when the scan ends. */
  lemma {:induction false} MaskFromNoBrace(s: Bytes, from: nat, count: nat, tokens: seq<(Bytes, Bytes)>)
    requires from <= |s| && BraceFreeBefore(s, from)
    decreases |s| - from
    ensures var t := MaskFrom(s, from, count, tokens).text; BraceFreeBefore(t, |t|)
  {
    var begin := FindByte(s, B('{'), from);
    if begin == -1 {
      MaskDone(s, from, count, tokens);
      DoneBraceFree(s, from);
    } else {
      var mask := MaskName(count);
      MaskedBraceFree(s, from, mask);
      MaskFromNoBrace(Masked(s, begin, mask), begin + |mask|, count + 1, tokens + [(mask, SpanToken(s, begin))]);
      BraceFreeStep(s, from, count, tokens);
    }
  }

  lemma BraceFreeStep(s: Bytes, from: nat, count: nat, tokens: seq<(Bytes, Bytes)>)
    requires from <= |s| && FindByte(s, B('{'), from) != -1
    requires var begin := FindByte(s, B('{'), from);
      var t := MaskFrom(Masked(s, begin, MaskName(count)), begin + |MaskName(count)|, count + 1,
                        tokens + [(MaskName(count), SpanToken(s, begin))]).text;
      BraceFreeBefore(t, |t|)
    ensures var t := MaskFrom(s, from, count, tokens).text; BraceFreeBefore(t, |t|)
  {
    MaskStep(s, from, count, tokens);
  }

  /** The scan ends when no '{' is left from `from` on. */
  lemma MaskDone(s: Bytes, from: nat, count: nat, tokens: seq<(Bytes, Bytes)>)
    requires from <= |s| && FindByte(s, B('{'), from) == -1
    ensures MaskFrom(s, from, count, tokens) == Masking(s, tokens)
  {
  }

  /** After masking, no '{' is left in the text. */
  lemma MaskLeavesNoBrace(s: Bytes)
    ensures B('{') !in Mask(s).text
  {
    MaskFromNoBrace(s, 0, 1, []);
  }

  /** The i-th recorded span is masked as `$-i-$`, counting from 1. */
  predicate Numbered(tokens: seq<(Bytes, Bytes)>)
  {
    forall i :: 0 <= i < |tokens| ==> tokens[i].0 == MaskName(i + 1)
  }

  lemma NumberedAppend(tokens: seq<(Bytes, Bytes)>, content: Bytes)
    requires Numbered(tokens)
    ensures Numbered(tokens + [(MaskName(|tokens| + 1), content)])
  {
  }

  /** Every mask the scan makes carries its position in the list of recorded spans. */
  lemma {:induction false} MaskFromNames(s: Bytes, from: nat, count: nat, tokens: seq<(Bytes, Bytes)>)
    requires from <= |s| && count == |tokens| + 1 && Numbered(tokens)
    decreases |s| - from
    ensures Numbered(MaskFrom(s, from, count, tokens).tokens)
  {
    var begin := FindByte(s, B('{'), from);
    if begin == -1 {
      MaskDone(s, from, count, tokens);
    } else {
      var mask := MaskName(count);
      NumberedAppend(tokens, SpanToken(s, begin));
      MaskFromNames(Masked(s, begin, mask), begin + |mask|, count + 1, tokens + [(mask, SpanToken(s, begin))]);
      NumberedStep(s, from, count, tokens);
    }
  }

  lemma NumberedStep(s: Bytes, from: nat, count: nat, tokens: seq<(Bytes, Bytes)>)
    requires from <= |s| && FindByte(s, B('{'), from) != -1
    requires var begin := FindByte(s, B('{'), from);
      Numbered(MaskFrom(Masked(s, begin, MaskName(count)), begin + |MaskName(count)|, count + 1,
                        tokens + [(MaskName(count), SpanToken(s, begin))]).tokens)
    ensures Numbered(MaskFrom(s, from, count, tokens).tokens)
  {
    MaskStep(s, from, count, tokens);
  }

  /** The masks of one transliteration are pairwise different. */
  lemma MasksDistinct(s: Bytes, i: nat, j: nat)
    requires i < j < |Mask(s).tokens|
    ensures Mask(s).tokens[i].0 != Mask(s).tokens[j].0
  {
    MaskFromNames(s, 0, 1, []);
    MaskNamesDistinct(i + 1, j + 1);
  }

  /** A text without '{' is not masked. */
  lemma MaskNoSpan(s: Bytes)
    requires B('{') !in s
    ensures Mask(s) == Masking(s, [])
  {
    FindByteFirst(s, B('{'), 0);
  }

  /**
   * A closed span `{c}` after brace-free text: the scan finds its '{',
   * masks it up to and including its '}', and records `c`.
   */
  lemma MaskClosedSpan(a: Bytes, c: Bytes, b: Bytes)
    requires B('{') !in a && B('}') !in c
    ensures var s := a + [B('{')] + c + [B('}')] + b;
      FindByte(s, B('{'), 0) == |a| && Masked(s, |a|, MaskName(1)) == a + MaskName(1) + b
      && SpanToken(s, |a|) == c
  {
    var s := a + [B('{')] + c + [B('}')] + b;
    OpenAt(a, c + [B('}')] + b);
    assert s == a + [B('{')] + (c + [B('}')] + b);
    ClosedSpan(a, c, b);
  }

  /** One round of the scan: the span at the next '{' is masked and recorded. */
  lemma MaskStep(s: Bytes, from: nat, count: nat, tokens: seq<(Bytes, Bytes)>)
    requires from <= |s| && FindByte(s, B('{'), from) != -1
    ensures var begin := FindByte(s, B('{'), from);
      MaskFrom(s, from, count, tokens)
        == MaskFrom(Masked(s, begin, MaskName(count)), begin + |MaskName(count)|, count + 1,
                    tokens + [(MaskName(count), SpanToken(s, begin))])
  {
  }

  /** The first '{' of `a + "{" + rest` is the one after `a`. */
  lemma OpenAt(a: Bytes, rest: Bytes)
    requires B('{') !in a
    ensures FindByte(a + [B('{')] + rest, B('{'), 0) == |a|
  {
    var s := a + [B('{')] + rest;
    forall i | 0 <= i < |a| ensures s[i] != B('{') {
      assert s[i] == a[i];
    }
    FirstByteAt(s, B('{'), |a|, 0);
  }

  /** The span `{c}` ends at its '}' and is masked as a whole. */
  lemma ClosedSpan(a: Bytes, c: Bytes, b: Bytes)
    requires B('}') !in c
    ensures var s := a + [B('{')] + c + [B('}')] + b;
      Masked(s, |a|, MaskName(1)) == a + MaskName(1) + b && SpanToken(s, |a|) == c
  {
    var s := a + [B('{')] + c + [B('}')] + b;
    var close := |a| + 1 + |c|;
    forall i | |a| + 1 <= i < close ensures s[i] != B('}') {
      assert s[i] == c[i - |a| - 1];
    }
    FirstByteAt(s, B('}'), close, |a| + 1);
    assert s[..|a|] == a && s[close + 1..] == b;
    assert s[|a|..close + 1] == [B('{')] + c + [B('}')];
  }

  /** A span that is never closed runs to the end of the text, and its content loses the last byte. */
  lemma MaskOpenSpan(a: Bytes, c: Bytes)
    requires B('{') !in a && B('}') !in c
    ensures var s := a + [B('{')] + c;
      FindByte(s, B('{'), 0) == |a| && Masked(s, |a|, MaskName(1)) == a + MaskName(1)
      && SpanToken(s, |a|) == if c == [] then [] else c[..|c| - 1]
  {
    OpenAt(a, c);
    OpenSpan(a, c);
  }

  /** An unclosed span reaches the last byte; the mask replaces all of it. */
  lemma OpenSpan(a: Bytes, c: Bytes)
    requires B('}') !in c
    ensures var s := a + [B('{')] + c;
      Masked(s, |a|, MaskName(1)) == a + MaskName(1)
      && SpanToken(s, |a|) == if c == [] then [] else c[..|c| - 1]
  {
    var s := a + [B('{')] + c;
    assert SpanEnd(s, |a|) == |s| - 1;
    assert s[..|a|] == a && s[|s|..] == [];
    assert s[|a|..|s|] == [B('{')] + c;
  }

  // ---------------------------------------------------------------------
  // The greedy tokenizer

  /** The matcher accepts the first `i` bytes of `rem` (the checks made at length `i`). */
  predicate Takes(e: Engine, rem: Bytes, i: nat)
    requires 1 <= i <= |rem|
  {
    (i == 1 && IsDigit(rem[0]) && !e.indicNumbers)
    || (i == 1 && !IsAlnum(rem[0]) && !e.symbols)
    || rem[..i] in e.charMap
  }

  /** What an accepted prefix contributes: the byte itself for a kept digit or symbol, else the mapping. */
  function TakenOutput(e: Engine, rem: Bytes, i: nat): (r: Bytes)
    requires 1 <= i <= |rem| && Takes(e, rem, i)
  {
    if i == 1 && IsDigit(rem[0]) && !e.indicNumbers then rem[..1]
    else if i == 1 && !IsAlnum(rem[0]) && !e.symbols then rem[..1]
    else e.charMap[rem[..i]]
  }

  /** The length the matcher settles on, trying lengths `n`, `n - 1`, ..., 1; 0 when none is accepted. */
  function Longest(e: Engine, rem: Bytes, n: nat): (r: nat)
    requires n <= |rem|
    ensures r <= n && (r > 0 ==> Takes(e, rem, r))
  {
    if n == 0 then 0 else if Takes(e, rem, n) then n else Longest(e, rem, n - 1)
  }

  /** No accepted length lies above the one the matcher settles on. */
  lemma {:induction false} LongestIsLongest(e: Engine, rem: Bytes, n: nat, j: nat)
    requires j <= n <= |rem| && 1 <= j && Takes(e, rem, j)
    decreases n
    ensures j <= Longest(e, rem, n)
  {
    if n > j && !Takes(e, rem, n) {
      LongestIsLongest(e, rem, n - 1, j);
    }
  }

  /** The single-byte branch taken when nothing was matched (or the match was empty). */
  function Fallback(e: Engine, c: byte): (r: Bytes)
  {
    if IsDigit(c) && !e.indicNumbers then [c]
    else if !IsAlnum(c) && !e.symbols then [c]
    else if [c] in e.charMap then e.charMap[[c]]
    else [c]
  }

  /**
   * One step of the tokenizer: what it appends and how many bytes it
   * erases. A non-empty match is appended. Otherwise the single-byte branch
   * runs on the first byte still left, which after an empty mapping value
   * is the byte after the erased match; at the end of the text it reads the
   * terminating NUL byte and erases nothing more.
   */
  function Step(e: Engine, rem: Bytes): (r: (Bytes, nat))
    requires rem != []
    ensures 1 <= r.1 <= |rem|
  {
    var i := Longest(e, rem, |rem|);
    if i > 0 && TakenOutput(e, rem, i) != [] then (TakenOutput(e, rem, i), i)
    else if i < |rem| then (Fallback(e, rem[i]), i + 1)
    else (Fallback(e, 0), i)
  }

  /** The tokenizer's output for the rest `rem` of a sub-segment. */
  function Tokens(e: Engine, rem: Bytes): (r: Bytes)
    decreases |rem|
  {
    if rem == [] then [] else Step(e, rem).0 + Tokens(e, rem[Step(e, rem).1..])
  }

  /** Every step erases at least one byte, and at least the longest accepted prefix. */
  lemma StepConsumes(e: Engine, rem: Bytes, j: nat)
    requires 1 <= j <= |rem| && Takes(e, rem, j)
    ensures j <= Step(e, rem).1
  {
    LongestIsLongest(e, rem, |rem|, j);
  }

  /** With non-empty mapping values, a step appends the output of the longest accepted prefix. */
  lemma StepGreedy(e: Engine, rem: Bytes)
    requires rem != [] && forall k :: k in e.charMap ==> e.charMap[k] != []
    requires exists j :: 1 <= j <= |rem| && Takes(e, rem, j)
    ensures var i := Step(e, rem).1;
      Takes(e, rem, i) && Step(e, rem).0 == TakenOutput(e, rem, i)
      && forall j :: i < j <= |rem| ==> !Takes(e, rem, j)
  {
    var j :| 1 <= j <= |rem| && Takes(e, rem, j);
    LongestIsLongest(e, rem, |rem|, j);
    var i := Longest(e, rem, |rem|);
    forall k | i < k <= |rem| ensures !Takes(e, rem, k) {
      if Takes(e, rem, k) {
        LongestIsLongest(e, rem, |rem|, k);
      }
    }
  }

  /** A byte no prefix of the text is accepted for is copied through unchanged. */
  lemma StepCopiesUnmapped(e: Engine, rem: Bytes)
    requires rem != [] && forall j :: 1 <= j <= |rem| ==> !Takes(e, rem, j)
    ensures Step(e, rem) == ([rem[0]], 1)
  {
    assert !Takes(e, rem, 1);
    assert rem[..1] == [rem[0]];
  }

  /** The trailing-halant rule: a result ending in the halant loses it unless the sub-segment ends in '\' or is one byte long. */
  function SubSegmentResult(e: Engine, sub: Bytes): Bytes
  {
    DropHalant(sub, Tokens(e, sub))
  }

  function DropHalant(sub: Bytes, out: Bytes): (r: Bytes)
  {
    if EndsWithHalant(out) && !(sub != [] && sub[|sub| - 1] == B('\\')) && |sub| > 1 then out[..|out| - 3]
    else out
  }

  /** The halant rule removes exactly the three halant bytes, and only when they end the result. */
  lemma HalantRule(sub: Bytes, out: Bytes)
    ensures if |out| >= 3 && out[|out| - 3..] == [0xE0, 0xA5, 0x8D] && |sub| > 1 && sub[|sub| - 1] != B('\\')
      then DropHalant(sub, out) + [0xE0, 0xA5, 0x8D] == out
      else DropHalant(sub, out) == out
  {
    if |out| >= 3 && out[|out| - 3..] == [0xE0, 0xA5, 0x8D] && |sub| > 1 && sub[|sub| - 1] != B('\\') {
      assert out == out[..|out| - 3] + out[|out| - 3..];
    }
  }

  function SubSegmentResults(e: Engine, subs: seq<Bytes>): seq<Bytes>
  {
    seq(|subs|, i requires 0 <= i < |subs| => SubSegmentResult(e, subs[i]))
  }

  /** `transliterateSegment`: the '/'-separated sub-segments, each tokenized, concatenated without the separators. */
  function TransliterateSegment(e: Engine, s: Bytes): Bytes
  {
    Concat(SubSegmentResults(e, NonEmpty(Split(s, B('/')))))
  }

  lemma {:induction false} ConcatAppend(xs: seq<Bytes>, ys: seq<Bytes>)
    decreases |ys|
    ensures Concat(xs + ys) == Concat(xs) + Concat(ys)
  {
    if ys != [] {
      var front := ys[..|ys| - 1];
      assert (xs + ys)[..|xs + ys| - 1] == xs + front;
      assert (xs + ys)[|xs + ys| - 1] == ys[|ys| - 1];
      ConcatAppend(xs, front);
    } else {
      assert xs + ys == xs;
    }
  }

  lemma SubSegmentResultsAppend(e: Engine, xs: seq<Bytes>, ys: seq<Bytes>)
    ensures SubSegmentResults(e, xs + ys) == SubSegmentResults(e, xs) + SubSegmentResults(e, ys)
  {
    var l, r := SubSegmentResults(e, xs + ys), SubSegmentResults(e, xs) + SubSegmentResults(e, ys);
    forall i | 0 <= i < |l| ensures l[i] == r[i] {
      if i >= |xs| {
        assert (xs + ys)[i] == ys[i - |xs|];
      }
    }
  }

  /** A '/' separates two sub-segments that are transliterated independently; the '/' itself is not emitted. */
  lemma SlashSeparates(e: Engine, a: Bytes, b: Bytes)
    requires B('/') !in a
    ensures TransliterateSegment(e, a + [B('/')] + b)
      == (if a == [] then [] else SubSegmentResult(e, a)) + TransliterateSegment(e, b)
  {
    var rest := NonEmpty(Split(b, B('/')));
    NonEmptySplitCons(a, B('/'), b);
    NonEmptySingle(a);
    SubSegmentResultsAppend(e, NonEmpty([a]), rest);
    ConcatAppend(SubSegmentResults(e, NonEmpty([a])), SubSegmentResults(e, rest));
    ConcatSingle(if a == [] then [] else SubSegmentResult(e, a), a == []);
  }

  lemma ConcatSingle(x: Bytes, none: bool)
    ensures Concat(if none then [] else [x]) == if none then [] else x
  {
    if !none {
      var one: seq<Bytes> := [x];
      assert one[..0] == [];
    }
  }

  // ---------------------------------------------------------------------
  // Space-separated segments

  /** What one non-empty segment becomes. */
  function SegmentOutput(e: Engine, seg: Bytes): (r: Bytes)
  {
    if |seg| == 1 && IsDigit(seg[0]) && !e.indicNumbers then seg
    else if |seg| == 1 && !IsAlnum(seg[0]) && !e.symbols then seg
    else if |seg| == 1 && seg in e.charMap then e.charMap[seg]
    else TransliterateSegment(e, Preprocess(e, seg))
  }

  function SegmentOutputs(e: Engine, segs: seq<Bytes>): seq<Bytes>
  {
    seq(|segs|, i requires 0 <= i < |segs| => SegmentOutput(e, segs[i]))
  }

  /** The non-empty space-separated segments, each transformed, joined with single spaces. */
  function Segments(e: Engine, text: Bytes): Bytes
  {
    SegmentsOf(e, NonEmpty(Split(text, B(' '))))
  }

  function SegmentsOf(e: Engine, segs: seq<Bytes>): Bytes
  {
    Join(SegmentOutputs(e, segs), [B(' ')])
  }

  /** A run of two spaces separates segments exactly as one space does. */
  lemma SegmentsDoubleSpace(e: Engine, a: Bytes, b: Bytes)
    requires B(' ') !in a
    ensures Segments(e, a + [B(' '), B(' ')] + b) == Segments(e, a + [B(' ')] + b)
  {
    SplitDoubleDelimiter(a, B(' '), b);
  }

  /** Two space-free words separated by one space become their outputs separated by one space. */
  lemma SegmentsTwo(e: Engine, a: Bytes, b: Bytes)
    requires a != [] && b != [] && B(' ') !in a && B(' ') !in b
    ensures Segments(e, a + [B(' ')] + b) == SegmentOutput(e, a) + [B(' ')] + SegmentOutput(e, b)
  {
    SplitTwo(a, B(' '), b);
    var outs := SegmentOutputs(e, [a, b]);
    assert outs == [SegmentOutput(e, a), SegmentOutput(e, b)];
    JoinTwo(SegmentOutput(e, a), SegmentOutput(e, b), [B(' ')]);
  }

  lemma JoinTwo(x: Bytes, y: Bytes, sep: Bytes)
    ensures Join([x, y], sep) == x + sep + y
  {
    var two: seq<Bytes> := [x, y];
    assert two[..1] == [x];
  }

  /** A lone digit with Indic numerals off, or a lone symbol with symbol transliteration off, is copied. */
  lemma SegmentLoneByte(e: Engine, c: byte)
    requires (IsDigit(c) && !e.indicNumbers) || (!IsAlnum(c) && !e.symbols)
    requires c != B(' ')
    ensures Segments(e, [c]) == [c]
  {
    PiecesNoDelimiter([c], B(' '));
    assert NonEmpty([[c]]) == [[c]] by {
      assert [[c]][..0] == [];
    }
  }

  // ---------------------------------------------------------------------
  // Restoring the masked spans

  /**
   * Every occurrence of `pat` in `t`, found left to right without overlap,
   * replaced by `rep`; text put in by a replacement is not searched again.
   * An empty pattern is left alone (see the notes on what is not modelled).
   */
  function ReplaceAll(t: Bytes, pat: Bytes, rep: Bytes): (r: Bytes)
    decreases |t|
  {
    if pat == [] || Find(t, pat, 0) == -1 then t
    else BeforeMatch(t, pat) + rep + ReplaceAll(AfterMatch(t, pat), pat, rep)
  }

  /** The text before the first occurrence of `pat`. */
  function BeforeMatch(t: Bytes, pat: Bytes): (r: Bytes)
    requires pat != [] && Find(t, pat, 0) != -1
  {
    t[..Find(t, pat, 0)]
  }

  /** The text after the first occurrence of `pat`. */
  function AfterMatch(t: Bytes, pat: Bytes): (r: Bytes)
    requires pat != [] && Find(t, pat, 0) != -1
    ensures |r| < |t|
  {
    t[Find(t, pat, 0) + |pat|..]
  }

  /** Without an occurrence, nothing is replaced. */
  lemma ReplaceAbsent(t: Bytes, pat: Bytes, rep: Bytes)
    requires forall i :: !MatchAt(t, pat, i)
    ensures ReplaceAll(t, pat, rep) == t
  {
    FindFirst(t, pat, 0);
  }

  /** The first occurrence is replaced, and the rest is processed on its own. */
  lemma ReplaceFirst(a: Bytes, pat: Bytes, b: Bytes, rep: Bytes)
    requires pat != [] && forall i :: 0 <= i < |a| ==> !MatchAt(a + pat + b, pat, i)
    ensures ReplaceAll(a + pat + b, pat, rep) == a + rep + ReplaceAll(b, pat, rep)
  {
    var t := a + pat + b;
    FindFirst(t, pat, 0);
    assert MatchAt(t, pat, |a|) by {
      assert t[|a|..|a| + |pat|] == pat;
    }
    assert t[..|a|] == a && t[|a| + |pat|..] == b;
  }

  /**
   * One round of the source's replace loop, from position `pos` of `s`:
   * the text before `pos` is final, and what follows is still to be
   * processed. Replacing at the next occurrence keeps that split.
   */
  lemma ReplaceRound(s: Bytes, pat: Bytes, rep: Bytes, pos: nat, p: int, s': Bytes)
    requires pos <= |s| && pat != [] && p == Find(s, pat, pos) && p != -1
    requires s' == s[..p] + rep + s[p + |pat|..]
    ensures p + |rep| <= |s'|
    ensures s[..pos] + ReplaceAll(s[pos..], pat, rep) == s'[..p + |rep|] + ReplaceAll(s'[p + |rep|..], pat, rep)
  {
    ReplaceFromFind(s, pat, rep, pos, p);
    SpliceSplit(s, p, |pat|, rep, s');
  }

  /** Replacing from `pos` on cuts the text at the occurrence `Find` reports. */
  lemma ReplaceFromFind(s: Bytes, pat: Bytes, rep: Bytes, pos: nat, p: int)
    requires pos <= |s| && pat != [] && p == Find(s, pat, pos) && p != -1
    ensures pos <= p && p + |pat| <= |s|
    ensures s[..pos] + ReplaceAll(s[pos..], pat, rep) == s[..p] + rep + ReplaceAll(s[p + |pat|..], pat, rep)
  {
    FindRest(s, pat, pos);
    ReplaceAfterParts(s, pos, p, |pat|);
    ReplaceAfter(s[..pos], s[pos..], pat, rep, p - pos, s[..p], s[p + |pat|..]);
  }

  /** The prefix before `pos` and the rest, cut at `p` and `p + m`. */
  lemma ReplaceAfterParts(s: Bytes, pos: nat, p: nat, m: nat)
    requires pos <= p && p + m <= |s|
    ensures s[..pos] + s[pos..][..p - pos] == s[..p]
    ensures s[pos..][p - pos + m..] == s[p + m..]
  {
  }

  /** Behind a text `a` that is final, `t` is replaced up to and including its first occurrence, at `k`. */
  lemma ReplaceAfter(a: Bytes, t: Bytes, pat: Bytes, rep: Bytes, k: int, head: Bytes, tail: Bytes)
    requires pat != [] && k == Find(t, pat, 0) && k != -1
    requires k + |pat| <= |t| && a + t[..k] == head && t[k + |pat|..] == tail
    ensures a + ReplaceAll(t, pat, rep) == head + rep + ReplaceAll(tail, pat, rep)
  {
    ReplaceAtFirst(t, pat, rep);
    ConcatAssoc(a, t[..k], rep, ReplaceAll(tail, pat, rep));
  }

  lemma ConcatAssoc(a: Bytes, b: Bytes, c: Bytes, d: Bytes)
    ensures a + (b + c + d) == a + b + c + d
  {
  }

  /** With an occurrence, the text is cut at the first one. */
  lemma ReplaceAtFirst(t: Bytes, pat: Bytes, rep: Bytes)
    requires pat != [] && Find(t, pat, 0) != -1
    ensures var k := Find(t, pat, 0);
      ReplaceAll(t, pat, rep) == t[..k] + rep + ReplaceAll(t[k + |pat|..], pat, rep)
  {
  }

  /** Searching from `pos` is searching the rest of the text from its start. */
  lemma FindRest(s: Bytes, pat: Bytes, pos: nat)
    requires pos <= |s| && pat != []
    ensures Find(s[pos..], pat, 0) == if Find(s, pat, pos) == -1 then -1 else Find(s, pat, pos) - pos
  {
    var a, t := s[..pos], s[pos..];
    assert a + t == s;
    FindShift(a, t, pat, 0);
  }

  lemma SpliceSplit(s: Bytes, p: nat, m: nat, rep: Bytes, s': Bytes)
    requires p + m <= |s| && s' == s[..p] + rep + s[p + m..]
    ensures p + |rep| <= |s'|
    ensures s'[..p + |rep|] == s[..p] + rep
    ensures s'[p + |rep|..] == s[p + m..]
  {
  }

  /** When no occurrence is left from `pos` on, the split text is the final result. */
  lemma ReplaceDone(s: Bytes, pat: Bytes, rep: Bytes, pos: nat)
    requires pos <= |s| && (pat == [] || Find(s, pat, pos) == -1)
    ensures s[..pos] + ReplaceAll(s[pos..], pat, rep) == s
  {
    if pat != [] {
      FindShift(s[..pos], s[pos..], pat, 0);
      assert s[..pos] + s[pos..] == s;
    }
  }

  /** The masks restored in the order they were made: each mask's transliteration is replaced by the span's original text. */
  function Restore(e: Engine, result: Bytes, tokens: seq<(Bytes, Bytes)>): (r: Bytes)
    decreases |tokens|
  {
    if tokens == [] then result
    else Restore(e, ReplaceAll(result, TransliterateSegment(e, tokens[0].0), tokens[0].1), tokens[1..])
  }

  /** `transliterate`: spacing, masking, the segments, then the masked spans put back. */
  function Transliterate(e: Engine, input: Bytes): Bytes
  {
    var m := Mask(PreprocessInput(e, input));
    Restore(e, Segments(e, m.text), m.tokens)
  }

  /** Text without braces is transliterated segment by segment, with nothing to restore. */
  lemma TransliterateWithoutSpans(e: Engine, input: Bytes)
    requires B('{') !in PreprocessInput(e, input)
    ensures Transliterate(e, input) == Segments(e, PreprocessInput(e, input))
  {
    MaskNoSpan(PreprocessInput(e, input));
  }
}
