// The two line-oriented table files the engine loads at start-up: the
// special-words file (`[specialWords]` section, `key = "value"` lines) and
// the mapping file (`[charMap]` and `[consonantMap]` sections, with quoted,
// escaped keys and values and `#` comments). This module holds the
// per-line semantics as functions; the engine class applies them line by
// line to its tables.

module Loader {
  import opened Bytes

  predicate IsBlank(b: byte) { b == B(' ') || b == B('\t') }

  /** `s.erase(0, s.find_first_not_of(" \t"))` */
  function TrimLeft(s: Bytes): (r: Bytes)
    ensures |r| <= |s|
    ensures r == [] || !IsBlank(r[0])
  {
    if s != [] && IsBlank(s[0]) then TrimLeft(s[1..]) else s
  }

  /** `s.erase(s.find_last_not_of(" \t") + 1)` */
  function TrimRight(s: Bytes): (r: Bytes)
    ensures |r| <= |s|
    ensures r != [] ==> r[0] == s[0]
    ensures r == [] || !IsBlank(r[|r| - 1])
  {
    if s != [] && IsBlank(s[|s| - 1]) then TrimRight(s[..|s| - 1]) else s
  }

  /** Both erasures: blanks and tabs at either end go, nothing else. */
  function Trim(s: Bytes): (r: Bytes)
    ensures r == [] || (!IsBlank(r[0]) && !IsBlank(r[|r| - 1]))
  {
    TrimRight(TrimLeft(s))
  }

  /** Trimming on the left removes only blanks, and only at the start. */
  lemma {:induction false} TrimLeftSlice(s: Bytes)
    decreases |s|
    ensures var t := TrimLeft(s);
            t == s[|s| - |t|..] && forall i :: 0 <= i < |s| - |t| ==> IsBlank(s[i])
  {
    if s != [] && IsBlank(s[0]) {
      var rest := s[1..];
      TrimLeftSlice(rest);
      var t := TrimLeft(rest);
      assert rest[|rest| - |t|..] == s[|s| - |t|..];
      forall i | 1 <= i < |s| - |t| ensures IsBlank(s[i]) {
        assert s[i] == rest[i - 1];
      }
    }
  }

  /** Trimming on the right removes only blanks, and only at the end. */
  lemma {:induction false} TrimRightSlice(s: Bytes)
    decreases |s|
    ensures var t := TrimRight(s);
            t == s[..|t|] && forall i :: |t| <= i < |s| ==> IsBlank(s[i])
  {
    if s != [] && IsBlank(s[|s| - 1]) {
      var front := s[..|s| - 1];
      TrimRightSlice(front);
      var t := TrimRight(front);
      assert front[..|t|] == s[..|t|];
      forall i | |t| <= i < |s| - 1 ensures IsBlank(s[i]) {
        assert s[i] == front[i];
      }
    }
  }

  /** A string with no blank at either end is its own trimming. */
  lemma TrimTrimmed(s: Bytes)
    requires s == [] || (!IsBlank(s[0]) && !IsBlank(s[|s| - 1]))
    ensures Trim(s) == s
  {
  }

  /** Blanks around a trimmed string are removed again. */
  lemma {:induction false} TrimPadded(pre: Bytes, s: Bytes, post: Bytes)
    requires forall i :: 0 <= i < |pre| ==> IsBlank(pre[i])
    requires forall i :: 0 <= i < |post| ==> IsBlank(post[i])
    requires s != [] && !IsBlank(s[0]) && !IsBlank(s[|s| - 1])
    ensures Trim(pre + s + post) == s
  {
    var t := pre + s + post;
    TrimLeftBlanks(pre, s + post);
    assert t == pre + (s + post);
    TrimRightBlanks(s, post);
  }

  lemma {:induction false} TrimLeftBlanks(pre: Bytes, s: Bytes)
    requires forall i :: 0 <= i < |pre| ==> IsBlank(pre[i])
    requires s != [] && !IsBlank(s[0])
    decreases |pre|
    ensures TrimLeft(pre + s) == s
  {
    if pre != [] {
      assert (pre + s)[1..] == pre[1..] + s;
      TrimLeftBlanks(pre[1..], s);
    } else {
      assert pre + s == s;
    }
  }

  lemma {:induction false} TrimRightBlanks(s: Bytes, post: Bytes)
    requires forall i :: 0 <= i < |post| ==> IsBlank(post[i])
    requires s != [] && !IsBlank(s[|s| - 1])
    decreases |post|
    ensures TrimRight(s + post) == s
  {
    if post != [] {
      assert (s + post)[..|s + post| - 1] == s + post[..|post| - 1];
      TrimRightBlanks(s, post[..|post| - 1]);
    } else {
      assert s + post == s;
    }
  }

  // ---------------------------------------------------------------------
  // The special-words file

  const SpecialWordsSection := Ascii("specialWords")

  /** The header line `[specialWords]`. */
  const SpecialWordsHeader: Bytes := [B('[')] + SpecialWordsSection + [B(']')]

  /** One pair of double quotes around a value of two bytes or more goes. */
  function StripDoubleQuotes(v: Bytes): (r: Bytes)
    ensures |v| >= 2 && v[0] == B('"') && v[|v| - 1] == B('"') ==> r == v[1..|v| - 1]
    ensures !(|v| >= 2 && v[0] == B('"') && v[|v| - 1] == B('"')) ==> r == v
  {
    if |v| >= 2 && v[0] == B('"') && v[|v| - 1] == B('"') then v[1..|v| - 1] else v
  }

  /** The parser's state between lines: the table so far and the section. */
  datatype SpecialState = SpecialState(words: map<Bytes, Bytes>, section: Bytes)

  /** A trimmed line that opens a section; its name is the text inside the brackets. */
  predicate IsHeader(line: Bytes)
  {
    line != [] && line[0] == B('[') && line[|line| - 1] == B(']')
  }

  function HeaderName(line: Bytes): (r: Bytes)
    requires IsHeader(line)
    ensures |r| + 2 == |line|
  {
    line[1..|line| - 1]
  }

  /**
   * The text before and after the first '=' of a line, or None when the
   * line has no '='.
   */
  function Fields(line: Bytes): (r: Option<(Bytes, Bytes)>)
    ensures r.Some? ==> line == r.value.0 + [B('=')] + r.value.1 && B('=') !in r.value.0
    ensures r.None? <==> B('=') !in line
  {
    var eq := IndexOf(line, B('='));
    if eq == |line| then None
    else
      assert line == line[..eq] + [B('=')] + line[eq + 1..];
      Some((line[..eq], line[eq + 1..]))
  }

  lemma FieldsOf(k: Bytes, rest: Bytes)
    requires B('=') !in k
    ensures Fields(k + [B('=')] + rest) == Some((k, rest))
  {
    var line := k + [B('=')] + rest;
    IndexOfFirst(line, B('='), |k|);
    assert line[..|k|] == k && line[|k| + 1..] == rest;
  }

  /** What one line of the special-words file does to the parser state. */
  function SpecialLine(st: SpecialState, raw: Bytes): (r: SpecialState)
    ensures r.words.Keys >= st.words.Keys
    ensures forall k :: k in st.words && k in r.words && r.words[k] != st.words[k] ==> r.section == SpecialWordsSection
  {
    var line := Trim(raw);
    if line == [] || line[0] == B('#') then st
    else if IsHeader(line) then st.(section := HeaderName(line))
    else if st.section != SpecialWordsSection then st
    else
      match Fields(line)
      case None => st
      case Some((key, value)) => st.(words := st.words[Trim(key) := StripDoubleQuotes(Trim(value))])
  }

  /** The lines of a file applied in order. */
  function SpecialLines(st: SpecialState, lines: seq<Bytes>): (r: SpecialState)
    decreases |lines|
  {
    if lines == [] then st else SpecialLines(SpecialLine(st, lines[0]), lines[1..])
  }

  /** Parsing a whole special-words file into an existing table. */
  function ParsedSpecialWords(words: map<Bytes, Bytes>, content: Bytes): (r: map<Bytes, Bytes>)
  {
    SpecialLines(SpecialState(words, []), Split(content, B('\n'))).words
  }

  /** A key that the line format carries unchanged. */
  predicate PlainKey(k: Bytes)
  {
    k != [] && !IsBlank(k[0]) && !IsBlank(k[|k| - 1]) && k[0] != B('#') && B('=') !in k
  }

  /** The line `key = "value"`. */
  function SpecialEntryLine(k: Bytes, v: Bytes): Bytes
  {
    k + [B(' '), B('='), B(' '), B('"')] + v + [B('"')]
  }

  /** Entries written in order into a table: a later key overwrites. */
  function Insert(m: map<Bytes, Bytes>, entries: seq<(Bytes, Bytes)>): (r: map<Bytes, Bytes>)
    decreases |entries|
  {
    if entries == [] then m else Insert(m[entries[0].0 := entries[0].1], entries[1..])
  }

  /** A special-words file: a section header, then one line per entry. */
  function SpecialWordsFile(entries: seq<(Bytes, Bytes)>): Bytes
  {
    Join([SpecialWordsHeader] + SpecialEntryLines(entries), [B('\n')])
  }

  function SpecialEntryLines(entries: seq<(Bytes, Bytes)>): (r: seq<Bytes>)
    ensures |r| == |entries|
    ensures forall i :: 0 <= i < |r| ==> r[i] == SpecialEntryLine(entries[i].0, entries[i].1)
  {
    if entries == [] then [] else [SpecialEntryLine(entries[0].0, entries[0].1)] + SpecialEntryLines(entries[1..])
  }

  /** A trimmed `key = value` line inside the special-words section. */
  lemma SpecialEntry(st: SpecialState, line: Bytes, key: Bytes, value: Bytes)
    requires st.section == SpecialWordsSection
    requires Trim(line) == line && line != [] && line[0] != B('#') && !IsHeader(line)
    requires Fields(line) == Some((key, value))
    ensures SpecialLine(st, line) == st.(words := st.words[Trim(key) := StripDoubleQuotes(Trim(value))])
  {
  }

  /** The written line is a trimmed, uncommented, non-header line. */
  lemma SpecialEntryLineShape(k: Bytes, v: Bytes)
    requires PlainKey(k)
    ensures var line := SpecialEntryLine(k, v);
            Trim(line) == line && line != [] && line[0] != B('#') && !IsHeader(line)
            && Fields(line) == Some((k + [B(' ')], [B(' '), B('"')] + v + [B('"')]))
  {
    var kk := k + [B(' ')];
    var vv := [B(' '), B('"')] + v + [B('"')];
    var line := SpecialEntryLine(k, v);
    assert line == kk + [B('=')] + vv;
    assert B('=') !in kk;
    FieldsOf(kk, vv);
    TrimTrimmed(line);
  }

  /** Its two fields trim back to the key and the quoted value. */
  lemma SpecialEntryFields(k: Bytes, v: Bytes)
    requires PlainKey(k)
    ensures Trim(k + [B(' ')]) == k
    ensures StripDoubleQuotes(Trim([B(' '), B('"')] + v + [B('"')])) == v
  {
    TrimPadded([], k, [B(' ')]);
    assert [] + k + [B(' ')] == k + [B(' ')];
    var q := [B('"')] + v + [B('"')];
    TrimPadded([B(' ')], q, []);
    assert [B(' ')] + q + [] == [B(' '), B('"')] + v + [B('"')];
  }

  /** One written entry line reads back as that entry. */
  lemma SpecialEntryLineReads(st: SpecialState, k: Bytes, v: Bytes)
    requires st.section == SpecialWordsSection
    requires PlainKey(k)
    ensures SpecialLine(st, SpecialEntryLine(k, v)) == st.(words := st.words[k := v])
  {
    SpecialEntryLineShape(k, v);
    SpecialEntryFields(k, v);
    SpecialEntry(st, SpecialEntryLine(k, v), k + [B(' ')], [B(' '), B('"')] + v + [B('"')]);
  }

  lemma {:induction false} SpecialEntryLinesRead(st: SpecialState, entries: seq<(Bytes, Bytes)>)
    requires st.section == SpecialWordsSection
    requires forall i :: 0 <= i < |entries| ==> PlainKey(entries[i].0)
    decreases |entries|
    ensures SpecialLines(st, SpecialEntryLines(entries)) == SpecialState(Insert(st.words, entries), st.section)
  {
    if entries != [] {
      SpecialEntryLineReads(st, entries[0].0, entries[0].1);
      var lines := SpecialEntryLines(entries);
      assert lines[1..] == SpecialEntryLines(entries[1..]);
      SpecialEntryLinesRead(st.(words := st.words[entries[0].0 := entries[0].1]), entries[1..]);
    }
  }

  /** An entry line holds a newline only where its key or value does. */
  lemma SpecialEntryLineNoNewline(k: Bytes, v: Bytes)
    requires B('\n') !in k && B('\n') !in v
    ensures B('\n') !in SpecialEntryLine(k, v)
    ensures SpecialEntryLine(k, v) != []
  {
  }

  /** The header line holds no newline. */
  lemma SpecialWordsHeaderNoNewline()
    ensures B('\n') !in SpecialWordsHeader && SpecialWordsHeader != []
  {
    AsciiAvoids("specialWords", '\n');
  }

  /** Reading the header line enters the special-words section. */
  lemma SpecialWordsHeaderEnters(st: SpecialState)
    ensures SpecialLine(st, SpecialWordsHeader) == st.(section := SpecialWordsSection)
  {
    var h := SpecialWordsHeader;
    assert h[0] == B('[') && h[|h| - 1] == B(']');
    TrimTrimmed(h);
    assert h[1..|h| - 1] == SpecialWordsSection;
  }

  /** No entry line is empty or holds a newline. */
  lemma SpecialEntryLinesClean(entries: seq<(Bytes, Bytes)>)
    requires forall i :: 0 <= i < |entries| ==> B('\n') !in entries[i].0 && B('\n') !in entries[i].1
    ensures forall i :: 0 <= i < |SpecialEntryLines(entries)| ==>
      B('\n') !in SpecialEntryLines(entries)[i] && SpecialEntryLines(entries)[i] != []
  {
    var body := SpecialEntryLines(entries);
    forall i | 0 <= i < |body|
      ensures B('\n') !in body[i] && body[i] != []
    {
      SpecialEntryLineNoNewline(entries[i].0, entries[i].1);
    }
  }

  /** A header line and body lines, none empty or holding a newline, split back out of their join. */
  lemma HeaderBodyLines(header: Bytes, body: seq<Bytes>)
    requires header != [] && B('\n') !in header
    requires forall i :: 0 <= i < |body| ==> B('\n') !in body[i] && body[i] != []
    ensures Split(Join([header] + body, [B('\n')]), B('\n')) == [header] + body
  {
    var lines := [header] + body;
    forall i | 0 <= i < |lines|
      ensures B('\n') !in lines[i]
    {
      if i > 0 {
        assert lines[i] == body[i - 1];
      }
    }
    assert lines[|lines| - 1] != [] by {
      if |body| > 0 {
        assert lines[|lines| - 1] == body[|body| - 1];
      }
    }
    SplitOfJoin(lines, B('\n'));
  }

  /** The lines of a written special-words file are exactly the lines written. */
  lemma SpecialWordsFileLines(entries: seq<(Bytes, Bytes)>)
    requires forall i :: 0 <= i < |entries| ==> B('\n') !in entries[i].0 && B('\n') !in entries[i].1
    ensures Split(SpecialWordsFile(entries), B('\n')) == [SpecialWordsHeader] + SpecialEntryLines(entries)
  {
    var header, body := SpecialWordsHeader, SpecialEntryLines(entries);
    assert header != [] && B('\n') !in header by {
      SpecialWordsHeaderNoNewline();
    }
    assert forall i :: 0 <= i < |body| ==> B('\n') !in body[i] && body[i] != [] by {
      SpecialEntryLinesClean(entries);
    }
    HeaderBodyLines(header, body);
  }

  /**
   * Round trip: a special-words file written from a list of entries parses
   * back to those entries, a later duplicate key overwriting an earlier one.
   */
  lemma SpecialWordsFileRoundTrip(entries: seq<(Bytes, Bytes)>)
    requires forall i :: 0 <= i < |entries| ==> PlainKey(entries[i].0)
    requires forall i :: 0 <= i < |entries| ==> B('\n') !in entries[i].0 && B('\n') !in entries[i].1
    ensures ParsedSpecialWords(map[], SpecialWordsFile(entries)) == Insert(map[], entries)
  {
    SpecialWordsFileLines(entries);
    SpecialWordsHeaderEnters(SpecialState(map[], []));
    var lines := [SpecialWordsHeader] + SpecialEntryLines(entries);
    var st1 := SpecialState(map[], SpecialWordsSection);
    assert lines[1..] == SpecialEntryLines(entries);
    SpecialEntryLinesRead(st1, entries);
  }

  // ---------------------------------------------------------------------
  // The mapping file

  const CharMapSection := Ascii("charMap")
  const ConsonantMapSection := Ascii("consonantMap")

  /** The byte an escape `\x` stands for. */
  function EscapedByte(x: byte): (r: byte)
  {
    if x == B('\\') then B('\\')
    else if x == B('n') then B('\n')
    else if x == B('t') then B('\t')
    else x
  }

  /** Escape decoding, left to right; a trailing lone backslash stays. */
  function Unescaped(s: Bytes): (r: Bytes)
    decreases |s|
    ensures |r| <= |s|
    ensures B('\\') !in s ==> r == s
  {
    if s == [] then []
    else if s[0] == B('\\') && |s| >= 2 then [EscapedByte(s[1])] + Unescaped(s[2..])
    else [s[0]] + Unescaped(s[1..])
  }

  predicate Quoted(s: Bytes)
  {
    |s| >= 2 && ((s[0] == B('"') && s[|s| - 1] == B('"')) || (s[0] == B('\'') && s[|s| - 1] == B('\'')))
  }

  /** The `unquote` helper: one pair of matching quotes goes, then escapes are decoded. */
  function Unquoted(s: Bytes): (r: Bytes)
  {
    Unescaped(if Quoted(s) then s[1..|s| - 1] else s)
  }

  /** The inverse of `Unescaped` on the escapes the decoder knows. */
  function Escaped(v: Bytes): (r: Bytes)
    decreases |v|
  {
    if v == [] then []
    else
      var c := v[0];
      var e := if c == B('\\') then [B('\\'), B('\\')] else if c == B('\n') then [B('\\'), B('n')]
               else if c == B('\t') then [B('\\'), B('t')] else [c];
      e + Escaped(v[1..])
  }

  /** A byte other than the escape letters appears in the encoding only if it appears in the value. */
  lemma {:induction false} EscapedAvoids(v: Bytes, c: byte)
    requires c !in v && c != B('\\') && c != B('n') && c != B('t')
    decreases |v|
    ensures c !in Escaped(v)
  {
    if v != [] {
      EscapedAvoids(v[1..], c);
    }
  }

  /** Decoding undoes encoding. */
  lemma {:induction false} UnescapeEscaped(v: Bytes)
    decreases |v|
    ensures Unescaped(Escaped(v)) == v
  {
    if v != [] {
      var e := Escaped(v);
      var c := v[0];
      UnescapeEscaped(v[1..]);
      if c == B('\\') || c == B('\n') || c == B('\t') {
        assert e[0] == B('\\') && e[2..] == Escaped(v[1..]);
      } else {
        assert e[0] == c && e[1..] == Escaped(v[1..]);
      }
    }
  }

  /** A value written in double quotes with escapes is read back by `unquote`. */
  lemma UnquoteQuotedEscaped(v: Bytes)
    ensures Unquoted([B('"')] + Escaped(v) + [B('"')]) == v
  {
    var s := [B('"')] + Escaped(v) + [B('"')];
    assert s[1..|s| - 1] == Escaped(v);
    UnescapeEscaped(v);
  }

  /** The mapping parser's state between lines. */
  datatype MappingState = MappingState(charMap: map<Bytes, Bytes>, consonants: map<Bytes, Bytes>, section: Bytes)

  /** The value text of a mapping line up to its first '#'. */
  function BeforeComment(value: Bytes): (r: Bytes)
    ensures B('#') !in value ==> r == value
  {
    value[..IndexOf(value, B('#'))]
  }

  /** What one line of the mapping file does to the parser state. */
  function MappingLine(st: MappingState, raw: Bytes): (r: MappingState)
    ensures r.charMap.Keys >= st.charMap.Keys && r.consonants.Keys >= st.consonants.Keys
  {
    var line := Trim(raw);
    if line == [] || line[0] == B('#') then st
    else if IsHeader(line) then st.(section := HeaderName(line))
    else
      match Fields(line)
      case None => st
      case Some((key, value)) =>
        var k := Unquoted(Trim(key));
        var v := Unquoted(Trim(BeforeComment(value)));
        if st.section == CharMapSection then st.(charMap := st.charMap[k := v])
        else if st.section == ConsonantMapSection then st.(consonants := st.consonants[k := v])
        else st
  }

  function MappingLines(st: MappingState, lines: seq<Bytes>): (r: MappingState)
    decreases |lines|
  {
    if lines == [] then st else MappingLines(MappingLine(st, lines[0]), lines[1..])
  }

  /** The explicit entries and consonant bases of a mapping file read into `charMap`. */
  function ParsedMappings(charMap: map<Bytes, Bytes>, content: Bytes): (r: MappingState)
  {
    MappingLines(MappingState(charMap, map[], []), Split(content, B('\n')))
  }

  /** The line `"key" = "value"`, both sides escaped. */
  function MappingEntryLine(k: Bytes, v: Bytes): Bytes
  {
    [B('"')] + Escaped(k) + [B('"'), B(' '), B('='), B(' '), B('"')] + Escaped(v) + [B('"')]
  }

  /** A trimmed `key = value` line of the mapping file. */
  lemma MappingEntry(st: MappingState, line: Bytes, key: Bytes, value: Bytes)
    requires Trim(line) == line && line != [] && line[0] != B('#') && !IsHeader(line)
    requires Fields(line) == Some((key, value))
    ensures var k := Unquoted(Trim(key));
            var v := Unquoted(Trim(BeforeComment(value)));
            MappingLine(st, line) ==
              if st.section == CharMapSection then st.(charMap := st.charMap[k := v])
              else if st.section == ConsonantMapSection then st.(consonants := st.consonants[k := v])
              else st
  {
  }

  lemma MappingEntryLineShape(k: Bytes, v: Bytes)
    requires B('=') !in k
    ensures var line := MappingEntryLine(k, v);
            Trim(line) == line && line != [] && line[0] != B('#') && !IsHeader(line)
            && Fields(line) == Some(([B('"')] + Escaped(k) + [B('"'), B(' ')], [B(' '), B('"')] + Escaped(v) + [B('"')]))
  {
    var kk := [B('"')] + Escaped(k) + [B('"'), B(' ')];
    var vv := [B(' '), B('"')] + Escaped(v) + [B('"')];
    var line := MappingEntryLine(k, v);
    assert line == kk + [B('=')] + vv;
    EscapedAvoids(k, B('='));
    assert B('=') !in kk;
    FieldsOf(kk, vv);
    TrimTrimmed(line);
  }

  lemma MappingEntryKey(k: Bytes)
    ensures Unquoted(Trim([B('"')] + Escaped(k) + [B('"'), B(' ')])) == k
  {
    var qk := [B('"')] + Escaped(k) + [B('"')];
    TrimPadded([], qk, [B(' ')]);
    assert [] + qk + [B(' ')] == [B('"')] + Escaped(k) + [B('"'), B(' ')];
    UnquoteQuotedEscaped(k);
  }

  lemma MappingEntryValue(v: Bytes)
    requires B('#') !in v
    ensures Unquoted(Trim(BeforeComment([B(' '), B('"')] + Escaped(v) + [B('"')]))) == v
  {
    var qv := [B('"')] + Escaped(v) + [B('"')];
    var vv := [B(' ')] + qv;
    assert vv == [B(' '), B('"')] + Escaped(v) + [B('"')];
    EscapedAvoids(v, B('#'));
    assert B('#') !in vv;
    TrimPadded([B(' ')], qv, []);
    assert [B(' ')] + qv + [] == vv;
    UnquoteQuotedEscaped(v);
  }

  /** One written entry line reads back as that entry, whatever bytes key and value hold. */
  lemma MappingEntryLineReads(st: MappingState, k: Bytes, v: Bytes)
    requires B('=') !in k && B('#') !in v
    ensures MappingLine(st, MappingEntryLine(k, v)) ==
      if st.section == CharMapSection then st.(charMap := st.charMap[k := v])
      else if st.section == ConsonantMapSection then st.(consonants := st.consonants[k := v])
      else st
  {
    MappingEntryLineShape(k, v);
    MappingEntryKey(k);
    MappingEntryValue(v);
    MappingEntry(st, MappingEntryLine(k, v), [B('"')] + Escaped(k) + [B('"'), B(' ')], [B(' '), B('"')] + Escaped(v) + [B('"')]);
  }

  /** The `unquote` helper as the engine runs it: strip the quotes, then decode escapes left to right. */
  method Unquote(input: Bytes) returns (result: Bytes)
    ensures result == Unquoted(input)
  {
    var str := input;
    if |str| >= 2 && ((str[0] == B('"') && str[|str| - 1] == B('"')) || (str[0] == B('\'') && str[|str| - 1] == B('\''))) {
      str := str[1..|str| - 1];
    }
    result := [];
    var i := 0;
    while i < |str|
      invariant i <= |str|
      invariant result + Unescaped(str[i..]) == Unescaped(str)
    {
      if str[i] == B('\\') && i + 1 < |str| {
        var decoded := DecodeEscape(str[i + 1]);
        UnescapedEscape(str, i, result);
        result := result + [decoded];
        i := i + 2;
      } else {
        UnescapedPlain(str, i, result);
        result := result + [str[i]];
        i := i + 1;
      }
    }
  }

  /** The byte a backslash followed by `next` decodes to. */
  method DecodeEscape(next: byte) returns (b: byte)
    ensures b == EscapedByte(next)
  {
    if next == B('\\') {
      b := B('\\');
    } else if next == B('n') {
      b := B('\n');
    } else if next == B('t') {
      b := B('\t');
    } else {
      b := next;
    }
  }

  lemma UnescapedEscape(s: Bytes, i: nat, done: Bytes)
    requires i + 1 < |s| && s[i] == B('\\')
    ensures done + Unescaped(s[i..]) == (done + [EscapedByte(s[i + 1])]) + Unescaped(s[i + 2..])
  {
    assert s[i..][2..] == s[i + 2..];
  }

  lemma UnescapedPlain(s: Bytes, i: nat, done: Bytes)
    requires i < |s| && !(s[i] == B('\\') && i + 1 < |s|)
    ensures done + Unescaped(s[i..]) == (done + [s[i]]) + Unescaped(s[i + 1..])
  {
    assert s[i..][1..] == s[i + 1..];
  }

  // ---------------------------------------------------------------------
  // Forms derived from the consonant table

  /** A consonant key without its final 'a', when it has one and is longer than one byte. */
  function Stem(conso: Bytes): (r: Bytes)
    ensures |conso| > 1 && conso[|conso| - 1] == B('a') ==> r + [B('a')] == conso
    ensures !(|conso| > 1 && conso[|conso| - 1] == B('a')) ==> r == conso
  {
    if |conso| > 1 && conso[|conso| - 1] == B('a') then conso[..|conso| - 1] else conso
  }

  /** The UTF-8 bytes of a Devanagari sign. */
  function Sign(cp: int): (r: Bytes)
    requires 0x0900 <= cp <= 0x097F
    ensures |r| == 3
  {
    Utf8Three(cp)
  }

  /**
   * The twelve entries derived from one consonant, in the order the loader
   * tries them: the consonant itself, its full form with "a" (sign AA), the
   * stem with the romanised vowel signs I, II, U, UU, vocalic R, E, AI, O
   * and AU, and finally the bare stem with the halant.
   */
  function DerivedForms(conso: Bytes, val: Bytes): (r: seq<(Bytes, Bytes)>)
    ensures |r| == 12
  {
    var st := Stem(conso);
    [(conso, val),
     (conso + [B('a')], val + Sign(0x093E)),
     (st + [B('i')], val + Sign(0x093F)),
     (st + [B('e'), B('e')], val + Sign(0x0940)),
     (st + [B('u')], val + Sign(0x0941)),
     (st + [B('o'), B('o')], val + Sign(0x0942)),
     (st + [B('r'), B('r'), B('i')], val + Sign(0x0943)),
     (st + [B('e')], val + Sign(0x0947)),
     (st + [B('a'), B('i')], val + Sign(0x0948)),
     (st + [B('o')], val + Sign(0x094B)),
     (st + [B('a'), B('u')], val + Sign(0x094C)),
     (st, val + Halant())]
  }

  /** Entries written in order, each only when its key is still absent. */
  function SetIfAbsent(m: map<Bytes, Bytes>, ds: seq<(Bytes, Bytes)>): (r: map<Bytes, Bytes>)
    decreases |ds|
  {
    if ds == [] then m
    else
      var prev := SetIfAbsent(m, ds[..|ds| - 1]);
      var d := ds[|ds| - 1];
      if d.0 in prev then prev else prev[d.0 := d.1]
  }

  /**
   * Writing only absent keys never replaces an existing entry, leaves every
   * written key present, and gives each new key the value of one of the
   * entries.
   */
  lemma {:induction false} SetIfAbsentFacts(m: map<Bytes, Bytes>, ds: seq<(Bytes, Bytes)>)
    decreases |ds|
    ensures var r := SetIfAbsent(m, ds);
      (forall k :: k in m ==> k in r && r[k] == m[k])
      && (forall j :: 0 <= j < |ds| ==> ds[j].0 in r)
      && (forall k :: k in r && k !in m ==> exists j :: 0 <= j < |ds| && ds[j] == (k, r[k]))
  {
    if ds != [] {
      var front := ds[..|ds| - 1];
      SetIfAbsentFacts(m, front);
      var prev := SetIfAbsent(m, front);
      var r := SetIfAbsent(m, ds);
      forall j | 0 <= j < |ds| ensures ds[j].0 in r {
        if j < |ds| - 1 { assert ds[j] == front[j]; }
      }
      forall k | k in r && k !in m
        ensures exists j :: 0 <= j < |ds| && ds[j] == (k, r[k])
      {
        if k in prev {
          var j :| 0 <= j < |front| && front[j] == (k, prev[k]);
          assert ds[j] == (k, r[k]);
        } else {
          assert ds[|ds| - 1] == (k, r[k]);
        }
      }
    }
  }

  /** The pair is one of the forms derived from some consonant of the table. */
  ghost predicate Derivable(consonants: map<Bytes, Bytes>, k: Bytes, v: Bytes)
  {
    exists c :: c in consonants && (k, v) in DerivedForms(c, consonants[c])
  }

  /**
   * The table once every consonant outside `pending` was processed,
   * starting from `explicit`: explicit entries are kept, every form of a
   * processed consonant has an entry, and every other entry is a derived
   * form of some consonant.
   */
  ghost predicate DerivedFrom(explicit: map<Bytes, Bytes>, consonants: map<Bytes, Bytes>, pending: set<Bytes>, m: map<Bytes, Bytes>)
  {
    (forall k :: k in explicit ==> k in m && m[k] == explicit[k])
    && (forall c :: c in consonants && c !in pending ==>
          forall j :: 0 <= j < 12 ==> DerivedForms(c, consonants[c])[j].0 in m)
    && (forall k :: k in m && k !in explicit ==> Derivable(consonants, k, m[k]))
  }

  lemma DerivedFromStart(explicit: map<Bytes, Bytes>, consonants: map<Bytes, Bytes>)
    ensures DerivedFrom(explicit, consonants, consonants.Keys, explicit)
  {
  }

  /** Processing one more consonant keeps the relation. */
  lemma DerivedFromStep(explicit: map<Bytes, Bytes>, consonants: map<Bytes, Bytes>, pending: set<Bytes>,
                        m: map<Bytes, Bytes>, c: Bytes)
    requires DerivedFrom(explicit, consonants, pending, m) && c in consonants
    ensures DerivedFrom(explicit, consonants, pending - {c}, SetIfAbsent(m, DerivedForms(c, consonants[c])))
  {
    var ds := DerivedForms(c, consonants[c]);
    var m' := SetIfAbsent(m, ds);
    SetIfAbsentFacts(m, ds);
    StepCovers(consonants, pending, m, m', c);
    StepDerivable(explicit, consonants, m, m', c);
  }

  /** The processed consonants, `c` now among them, have all their forms in the table. */
  lemma StepCovers(consonants: map<Bytes, Bytes>, pending: set<Bytes>, m: map<Bytes, Bytes>, m': map<Bytes, Bytes>, c: Bytes)
    requires c in consonants
    requires forall c' :: c' in consonants && c' !in pending ==>
               forall j :: 0 <= j < 12 ==> DerivedForms(c', consonants[c'])[j].0 in m
    requires forall k :: k in m ==> k in m'
    requires forall j :: 0 <= j < 12 ==> DerivedForms(c, consonants[c])[j].0 in m'
    ensures forall c' :: c' in consonants && c' !in pending - {c} ==>
              forall j :: 0 <= j < 12 ==> DerivedForms(c', consonants[c'])[j].0 in m'
  {
  }

  /** An entry that `c`'s forms added is one of them, so every entry not from `explicit` stays derivable. */
  lemma StepDerivable(explicit: map<Bytes, Bytes>, consonants: map<Bytes, Bytes>, m: map<Bytes, Bytes>, m': map<Bytes, Bytes>, c: Bytes)
    requires c in consonants
    requires forall k :: k in m && k !in explicit ==> Derivable(consonants, k, m[k])
    requires forall k :: k in m ==> k in m' && m'[k] == m[k]
    requires forall k :: k in m' && k !in m ==> exists j :: 0 <= j < 12 && DerivedForms(c, consonants[c])[j] == (k, m'[k])
    ensures forall k :: k in m' && k !in explicit ==> Derivable(consonants, k, m'[k])
  {
    forall k | k in m' && k !in explicit
      ensures Derivable(consonants, k, m'[k])
    {
      if k !in m {
        var j :| 0 <= j < 12 && DerivedForms(c, consonants[c])[j] == (k, m'[k]);
        assert (k, m'[k]) in DerivedForms(c, consonants[c]);
      }
    }
  }
}
