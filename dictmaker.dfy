// The dictionary maker (scripts/dictionary-maker.py): the romanisation of
// a Nepali word that builds the word list of the input method. Text is a
// sequence of Unicode code points; each table keeps the first spelling the
// script uses.

module DictMaker {
  import opened Bytes

  const Halant: char := '\U{094D}'

  /**
   * The script's three lookup tables, keyed by Devanagari text (one code
   * point, or three for a conjunct, or two for अ with a sign).
   */
  datatype Tables = Tables(consonants: map<string, string>, vowels: map<string, string>,
                           diacritics: map<string, string>)

  const Script: Tables := Tables(
    map[
      "क" := "ka", "ख" := "kha", "ग" := "ga", "घ" := "gha", "ङ" := "nga",
      "च" := "cha", "छ" := "chha", "ज" := "ja", "झ" := "jha", "ञ" := "jna",
      "ट" := "ta", "ठ" := "tha", "ड" := "da", "ढ" := "dha", "ण" := "na",
      "त" := "ta", "थ" := "tha", "द" := "da", "ध" := "dha", "न" := "na",
      "प" := "pa", "फ" := "pha", "ब" := "ba", "भ" := "bha", "म" := "ma",
      "य" := "ya", "र" := "ra", "ल" := "la", "व" := "wa", "श" := "sa",
      "ष" := "sa", "स" := "sa", "ह" := "ha",
      "क्ष" := "ksha", "त्र" := "tra", "ज्ञ" := "jnja"],
    map[
      "आ" := "a", "इ" := "i", "ई" := "i", "उ" := "u", "ऊ" := "u",
      "ऋ" := "ri", "ॠ" := "ri", "ए" := "e", "ऐ" := "ai", "ओ" := "o",
      "औ" := "au", "अं" := "am", "अँ" := "an", "अः" := "ah", "अ" := "a"],
    map[
      "ा" := "a", "ि" := "i", "ी" := "i", "ु" := "u", "ू" := "u", "े" := "e",
      "ै" := "ai", "ो" := "o", "ौ" := "au", "ं" := "m", "ँ" := "n", "ः" := "h"])

  /** Python's `s[:-1]`: everything but the last code point, nothing from nothing. */
  function DropLast(s: string): (r: string)
    ensures s != [] ==> s == r + [s[|s| - 1]]
    ensures s == [] ==> r == []
  {
    if s == [] then [] else s[..|s| - 1]
  }

  /**
   * What one step of the scan reads, with the spelling it looked up: a
   * multi-code-point consonant key, a consonant (losing its inherent "a"
   * before a sign), an independent vowel, a sign, the halant, or anything
   * else, which is skipped.
   */
  datatype Unit =
    | Conjunct(key: string, spelling: string)
    | Letter(c: char, spelling: string, beforeSign: bool)
    | Vowel(c: char, spelling: string)
    | Sign(c: char, spelling: string)
    | HalantMark
    | Skipped(c: char)

  /** The code points a unit consumes. */
  function Text(u: Unit): (t: string)
  {
    match u
    case Conjunct(key, _) => key
    case Letter(c, _, _) => [c]
    case Vowel(c, _) => [c]
    case Sign(c, _) => [c]
    case HalantMark => [Halant]
    case Skipped(c) => [c]
  }

  /** A consonant key of `span` code points starts at `i`. */
  predicate KeyAt(t: Tables, w: string, span: nat, i: nat)
  {
    i + span <= |w| && w[i..i + span] in t.consonants
  }

  /**
   * The unit at position `i`. The script looks up the `span` code points
   * at `i` among the consonant keys first; it is written with a span of 2.
   */
  function UnitAt(t: Tables, w: string, span: nat, i: nat): (u: Unit)
    requires i < |w|
    ensures u.Conjunct? <==> KeyAt(t, w, span, i)
    ensures u.Conjunct? ==> u.key == w[i..i + span] && u.spelling == t.consonants[u.key]
    ensures !u.Conjunct? ==> Text(u) == [w[i]]
  {
    if KeyAt(t, w, span, i) then Conjunct(w[i..i + span], t.consonants[w[i..i + span]])
    else
      var c := [w[i]];
      if c in t.consonants then Letter(w[i], t.consonants[c], i + 1 < |w| && [w[i + 1]] in t.diacritics)
      else if c in t.vowels then Vowel(w[i], t.vowels[c])
      else if c in t.diacritics then Sign(w[i], t.diacritics[c])
      else if w[i] == Halant then HalantMark
      else Skipped(w[i])
  }

  /** How many code points the unit at `i` covers. */
  function Width(t: Tables, w: string, span: nat, i: nat): (n: nat)
  {
    if KeyAt(t, w, span, i) then span else 1
  }

  /** The units of `w[i..]`, left to right. */
  function Units(t: Tables, w: string, span: nat, i: nat): (us: seq<Unit>)
    requires span >= 1
    decreases |w| - i
  {
    if i >= |w| then []
    else
      [UnitAt(t, w, span, i)] + Units(t, w, span, i + Width(t, w, span, i))
  }

  /** The Roman text after one more unit: spellings are appended, the halant drops the last letter. */
  function Emit(acc: string, u: Unit): (r: string)
  {
    match u
    case Conjunct(_, spelling) => acc + spelling
    case Letter(_, spelling, beforeSign) => acc + (if beforeSign then DropLast(spelling) else spelling)
    case Vowel(_, spelling) => acc + spelling
    case Sign(_, spelling) => acc + spelling
    case HalantMark => DropLast(acc)
    case Skipped(_) => acc
  }

  function Emitted(acc: string, us: seq<Unit>): (r: string)
    decreases |us|
  {
    if us == [] then acc else Emitted(Emit(acc, us[0]), us[1..])
  }

  /** The text emitted from position `i` on, after `acc`. */
  function EmittedFrom(t: Tables, w: string, span: nat, i: nat, acc: string): (r: string)
    requires span >= 1
    decreases |w| - i
  {
    if i >= |w| then acc
    else
      EmittedFrom(t, w, span, i + Width(t, w, span, i), Emit(acc, UnitAt(t, w, span, i)))
  }

  /** The romanisation of a word. */
  function Romanised(t: Tables, w: string, span: nat): (r: string)
    requires span >= 1
  {
    EmittedFrom(t, w, span, 0, "")
  }

  /** Emitting from a position is emitting the units found from there. */
  lemma {:induction false} EmittedFromUnits(t: Tables, w: string, span: nat, i: nat, acc: string)
    requires span >= 1
    ensures EmittedFrom(t, w, span, i, acc) == Emitted(acc, Units(t, w, span, i))
    decreases |w| - i
  {
    if i < |w| {
      var next, acc' := UnitsEmitStep(t, w, span, i, acc);
      EmittedFromUnits(t, w, span, next, acc');
    }
  }

  /** One step of the scan, taken alike by `EmittedFrom` and by `Emitted` over the units. */
  lemma UnitsEmitStep(t: Tables, w: string, span: nat, i: nat, acc: string) returns (next: nat, acc': string)
    requires span >= 1 && i < |w|
    ensures i < next
    ensures EmittedFrom(t, w, span, i, acc) == EmittedFrom(t, w, span, next, acc')
    ensures Emitted(acc, Units(t, w, span, i)) == Emitted(acc', Units(t, w, span, next))
  {
    next, acc' := i + Width(t, w, span, i), Emit(acc, UnitAt(t, w, span, i));
    EmittedFromStep(t, w, span, i, acc, acc', next);
    EmittedStep(t, w, span, i, acc);
  }

  /**
   * `transliterate_nepal`, scanning with the given span (2 as written).
   * The index moves past the span on a consonant key of that length and
   * one code point otherwise.
   */
  method TransliterateNepal(t: Tables, word: string, span: nat) returns (r: string)
    requires span >= 1
    ensures r == Romanised(t, word, span)
  {
    r := "";
    var i: nat := 0;
    while i < |word|
      invariant i <= |word|
      invariant EmittedFrom(t, word, span, i, r) == Romanised(t, word, span)
      decreases |word| - i
    {
      var r', next := ScanStep(t, word, span, i, r);
      EmittedFromStep(t, word, span, i, r, r', next);
      r, i := r', next;
    }
  }

  lemma EmittedFromStep(t: Tables, w: string, span: nat, i: nat, acc: string, acc': string, next: nat)
    requires span >= 1 && i < |w|
    requires acc' == Emit(acc, UnitAt(t, w, span, i)) && next == i + Width(t, w, span, i)
    ensures EmittedFrom(t, w, span, i, acc) == EmittedFrom(t, w, span, next, acc')
  {
  }

  /** One pass of the scan loop: the unit at `i` read, its spelling emitted, the index moved past it. */
  method ScanStep(t: Tables, word: string, span: nat, i: nat, r: string) returns (r': string, next: nat)
    requires span >= 1 && i < |word|
    ensures r' == Emit(r, UnitAt(t, word, span, i))
    ensures next == i + Width(t, word, span, i)
    ensures i < next <= |word|
  {
    var c := [word[i]];
    if i + span <= |word| && word[i..i + span] in t.consonants {
      r' := r + t.consonants[word[i..i + span]];
      next := i + span;
    } else if c in t.consonants {
      if i + 1 < |word| && [word[i + 1]] in t.diacritics {
        r' := r + DropLast(t.consonants[c]);
      } else {
        r' := r + t.consonants[c];
      }
      next := i + 1;
    } else if c in t.vowels {
      r' := r + t.vowels[c];
      next := i + 1;
    } else if c in t.diacritics {
      r' := r + t.diacritics[c];
      next := i + 1;
    } else if word[i] == Halant {
      r' := DropLast(r);
      next := i + 1;
    } else {
      r' := r;
      next := i + 1;
    }
  }

  lemma UnitsStep(t: Tables, w: string, span: nat, i: nat, u: Unit, later: seq<Unit>)
    requires span >= 1 && i < |w|
    requires u == UnitAt(t, w, span, i) && later == Units(t, w, span, i + Width(t, w, span, i))
    ensures Units(t, w, span, i) == [u] + later
  {
  }

  lemma EmittedStep(t: Tables, w: string, span: nat, i: nat, acc: string)
    requires span >= 1 && i < |w|
    ensures Emitted(acc, Units(t, w, span, i))
            == Emitted(Emit(acc, UnitAt(t, w, span, i)), Units(t, w, span, i + Width(t, w, span, i)))
  {
    var u := UnitAt(t, w, span, i);
    var later := Units(t, w, span, i + Width(t, w, span, i));
    UnitsStep(t, w, span, i, u, later);
    assert ([u] + later)[1..] == later;
  }

  function Joined(us: seq<Unit>): (t: string)
  {
    if us == [] then [] else Text(us[0]) + Joined(us[1..])
  }

  /** The scan reads every code point once, in order: the units spell the word out. */
  lemma {:induction false} UnitsSpell(t: Tables, w: string, span: nat, i: nat)
    requires span >= 1 && i <= |w|
    ensures Joined(Units(t, w, span, i)) == w[i..]
    decreases |w| - i
  {
    if i < |w| {
      var u := UnitAt(t, w, span, i);
      var later := Units(t, w, span, i + Width(t, w, span, i));
      UnitsSpell(t, w, span, i + Width(t, w, span, i));
      UnitsStep(t, w, span, i, u, later);
      JoinedCons(u, later);
      TextAt(t, w, span, i);
    }
  }

  lemma JoinedCons(u: Unit, later: seq<Unit>)
    ensures Joined([u] + later) == Text(u) + Joined(later)
  {
    assert ([u] + later)[1..] == later;
  }

  /** The unit found at `i` spells the code points it covers, at least one. */
  lemma TextAt(t: Tables, w: string, span: nat, i: nat)
    requires span >= 1 && i < |w|
    ensures i < i + Width(t, w, span, i) <= |w|
    ensures w[i..] == Text(UnitAt(t, w, span, i)) + w[i + Width(t, w, span, i)..]
  {
    var n := Width(t, w, span, i);
    assert w[i..] == w[i..i + n] + w[i + n..];
  }

  /** Every consonant key of the script is one code point or a three-code-point conjunct. */
  lemma ScriptKeyLengths(key: string)
    requires key in Script.consonants
    ensures |key| == 1 || |key| == 3
  {
  }

  /** A scan whose span is the length of no consonant key finds no conjunct. */
  lemma {:induction false} NoConjunctFound(t: Tables, w: string, span: nat, i: nat)
    requires span >= 1
    requires forall key :: key in t.consonants ==> |key| != span
    ensures forall k :: 0 <= k < |Units(t, w, span, i)| ==> !Units(t, w, span, i)[k].Conjunct?
    decreases |w| - i
  {
    if i < |w| {
      assert !KeyAt(t, w, span, i) by {
        if i + span <= |w| {
          assert |w[i..i + span]| == span;
        }
      }
      NoConjunctFound(t, w, span, i + 1);
    }
  }

  /** As written, the script never reads a conjunct whole: no key has two code points. */
  lemma AsWrittenNoConjunct(w: string)
    ensures forall k :: 0 <= k < |Units(Script, w, 2, 0)| ==> !Units(Script, w, 2, 0)[k].Conjunct?
  {
    ScriptNoPairKeys();
    NoConjunctFound(Script, w, 2, 0);
  }

  /** A consonant key exactly as long as the span is read whole, as its table spelling. */
  lemma KeyReadWhole(t: Tables, key: string, span: nat)
    requires span >= 1 && key in t.consonants && |key| == span
    ensures Romanised(t, key, span) == t.consonants[key]
  {
    assert key[0..span] == key;
    assert KeyAt(t, key, span, 0);
    assert EmittedFrom(t, key, span, span, "" + t.consonants[key]) == t.consonants[key];
  }

  /** With a span of three, the script's conjuncts come out as their table spellings. */
  lemma CorrectedReadsConjuncts()
    ensures Romanised(Script, "क्ष", 3) == "ksha"
    ensures Romanised(Script, "त्र", 3) == "tra"
    ensures Romanised(Script, "ज्ञ", 3) == "jnja"
  {
    KeyReadWhole(Script, "क्ष", 3);
    KeyReadWhole(Script, "त्र", 3);
    KeyReadWhole(Script, "ज्ञ", 3);
  }

  /**
   * With a span of two and no key of two code points, a consonant, the
   * halant and a consonant come out as the first spelling less its last
   * letter, then the second spelling.
   */
  lemma SpanTwoSplitsConjunct(t: Tables, c: char, d: char)
    requires forall key :: key in t.consonants ==> |key| != 2
    requires [c] in t.consonants && [d] in t.consonants
    requires [Halant] !in t.consonants && [Halant] !in t.vowels && [Halant] !in t.diacritics
    ensures Romanised(t, [c, Halant, d], 2) == DropLast(t.consonants[[c]]) + t.consonants[[d]]
  {
    var w := [c, Halant, d];
    assert |w[0..2]| == 2 && [w[0]] == [c] && [w[1]] == [Halant] && [w[2]] == [d];
    assert !KeyAt(t, w, 2, 0) && !KeyAt(t, w, 2, 1) && !KeyAt(t, w, 2, 2);
    var first := t.consonants[[c]];
    assert UnitAt(t, w, 2, 0) == Letter(c, first, false);
    assert UnitAt(t, w, 2, 1) == HalantMark;
    assert UnitAt(t, w, 2, 2) == Letter(d, t.consonants[[d]], false);
    var second := t.consonants[[d]];
    assert "" + first == first;
    assert EmittedFrom(t, w, 2, 0, "") == EmittedFrom(t, w, 2, 1, first);
    assert EmittedFrom(t, w, 2, 1, first) == EmittedFrom(t, w, 2, 2, DropLast(first));
    assert EmittedFrom(t, w, 2, 2, DropLast(first)) == EmittedFrom(t, w, 2, 3, DropLast(first) + second);
  }

  /** The script's halant is in none of its tables. */
  lemma ScriptHalant()
    ensures [Halant] !in Script.consonants && [Halant] !in Script.vowels && [Halant] !in Script.diacritics
  {
  }

  /** No consonant key of the script has two code points. */
  lemma ScriptNoPairKeys()
    ensures forall key :: key in Script.consonants ==> |key| != 2
  {
    forall key | key in Script.consonants
      ensures |key| != 2
    {
      ScriptKeyLengths(key);
    }
  }

  /** With the script's tables and a span of two, a consonant, the halant and a consonant are read one by one. */
  lemma ScriptSplitsConjunct(c: char, d: char)
    requires [c] in Script.consonants && [d] in Script.consonants
    ensures Romanised(Script, [c, Halant, d], 2) == DropLast(Script.consonants[[c]]) + Script.consonants[[d]]
  {
    ScriptHalant();
    ScriptNoPairKeys();
    SpanTwoSplitsConjunct(Script, c, d);
  }

  lemma KshaLetters()
    ensures ['क'] in Script.consonants && Script.consonants[['क']] == "ka"
    ensures ['ष'] in Script.consonants && Script.consonants[['ष']] == "sa"
    ensures DropLast(Script.consonants[['क']]) + Script.consonants[['ष']] == "ksa"
  {
    assert DropLast("ka") == "k";
    assert "k" + "sa" == "ksa";
  }

  /** As written, क्ष comes out as "ksa" where the table says "ksha". */
  lemma AsWrittenMisreadsKsha()
    ensures Romanised(Script, ['क', Halant, 'ष'], 2) == "ksa"
  {
    KshaLetters();
    ScriptSplitsConjunct('क', 'ष');
  }

  lemma JnyaLetters()
    ensures ['ज'] in Script.consonants && Script.consonants[['ज']] == "ja"
    ensures ['ञ'] in Script.consonants && Script.consonants[['ञ']] == "jna"
    ensures DropLast(Script.consonants[['ज']]) + Script.consonants[['ञ']] == "jjna"
  {
    assert DropLast("ja") == "j";
    assert "j" + "jna" == "jjna";
  }

  /** As written, ज्ञ comes out as "jjna" where the table says "jnja". */
  lemma AsWrittenMisreadsJnya()
    ensures Romanised(Script, ['ज', Halant, 'ञ'], 2) == "jjna"
  {
    JnyaLetters();
    ScriptSplitsConjunct('ज', 'ञ');
  }

  lemma TraLetters()
    ensures ['त'] in Script.consonants && Script.consonants[['त']] == "ta"
    ensures ['र'] in Script.consonants && Script.consonants[['र']] == "ra"
    ensures DropLast(Script.consonants[['त']]) + Script.consonants[['र']] == "tra"
  {
    assert DropLast("ta") == "t";
    assert "t" + "ra" == "tra";
  }

  /** As written, त्र comes out as "tra" only because त less its "a" and र spell it. */
  lemma AsWrittenReadsTra()
    ensures Romanised(Script, ['त', Halant, 'र'], 2) == "tra"
  {
    TraLetters();
    ScriptSplitsConjunct('त', 'र');
  }

  /** A key of three code points starts at `i`. */
  predicate ConjunctAt(t: Tables, w: string, i: nat)
  {
    KeyAt(t, w, 3, i)
  }

  /**
   * Where no conjunct starts and no key has two code points, the corrected
   * span reads what the written one reads.
   */
  lemma {:induction false} CorrectedAgrees(t: Tables, w: string, i: nat, acc: string)
    requires forall key :: key in t.consonants ==> |key| != 2
    requires forall j :: 0 <= j < |w| ==> !ConjunctAt(t, w, j)
    ensures EmittedFrom(t, w, 3, i, acc) == EmittedFrom(t, w, 2, i, acc)
    decreases |w| - i
  {
    if i < |w| {
      assert !KeyAt(t, w, 2, i) by {
        if i + 2 <= |w| {
          assert |w[i..i + 2]| == 2;
        }
      }
      assert !ConjunctAt(t, w, i);
      var u := UnitAt(t, w, 2, i);
      assert UnitAt(t, w, 3, i) == u;
      CorrectedAgrees(t, w, i + 1, Emit(acc, u));
    }
  }

  /** For the script's tables: words without a conjunct come out the same with either span. */
  lemma ScriptCorrectedAgrees(w: string)
    requires forall j :: 0 <= j < |w| ==> !ConjunctAt(Script, w, j)
    ensures Romanised(Script, w, 3) == Romanised(Script, w, 2)
  {
    forall key | key in Script.consonants
      ensures |key| != 2
    {
      ScriptKeyLengths(key);
    }
    CorrectedAgrees(Script, w, 0, "");
  }

  /**
   * The vowel keys of two code points are never looked up: the scan reads
   * अ and then the sign, which gives their table spelling anyway.
   */
  lemma VowelPairAgrees(sign: char, spelling: string, span: nat)
    requires (sign, spelling) in {('ं', "m"), ('ँ', "n"), ('ः', "h")}
    requires span >= 2
    ensures ['अ', sign] in Script.vowels
    ensures Romanised(Script, ['अ', sign], span) == Script.vowels[['अ', sign]]
  {
    ScriptNoPairKeys();
    ScriptVowelA();
    ScriptSign(sign, spelling);
    ScriptVowelPair(sign, spelling);
    VowelSignPair(Script, sign, span);
  }

  /** The vowel table's entries for अ with a sign. */
  lemma ScriptVowelPair(sign: char, spelling: string)
    requires (sign, spelling) in {('ं', "m"), ('ँ', "n"), ('ः', "h")}
    ensures ['अ', sign] in Script.vowels && Script.vowels[['अ', sign]] == "a" + spelling
  {
  }

  lemma ScriptVowelA()
    ensures ['अ'] !in Script.consonants && ['अ'] in Script.vowels && Script.vowels[['अ']] == "a"
  {
  }

  /** A sign of the script, found in the diacritic table only. */
  lemma ScriptSign(sign: char, spelling: string)
    requires (sign, spelling) in {('ं', "m"), ('ँ', "n"), ('ः', "h")}
    ensures [sign] !in Script.consonants && [sign] !in Script.vowels
    ensures [sign] in Script.diacritics && Script.diacritics[[sign]] == spelling
  {
    SignNotLetter(sign);
  }

  /** No consonant or vowel key is a sign of the script. */
  lemma SignNotLetter(sign: char)
    requires sign in {'ं', 'ँ', 'ः'}
    ensures [sign] !in Script.consonants && [sign] !in Script.vowels
  {
    SignNotConsonant(sign);
    SignNotVowel(sign);
  }

  lemma SignNotConsonant(sign: char)
    requires sign in {'ं', 'ँ', 'ः'}
    ensures [sign] !in Script.consonants
  {
    forall key | key in Script.consonants
      ensures key != [sign]
    {
      ConsonantKeyStart(key);
    }
  }

  /** Every consonant key of the script starts with a consonant letter, all of which come after the signs. */
  lemma ConsonantKeyStart(key: string)
    requires key in Script.consonants
    ensures key != [] && 'क' <= key[0]
  {
  }

  /** Every vowel key of the script starts with an independent vowel, all of which come after the signs. */
  lemma VowelKeyStart(key: string)
    requires key in Script.vowels
    ensures key != [] && 'अ' <= key[0]
  {
  }

  lemma SignNotVowel(sign: char)
    requires sign in {'ं', 'ँ', 'ः'}
    ensures [sign] !in Script.vowels
  {
    forall key | key in Script.vowels
      ensures key != [sign]
    {
      VowelKeyStart(key);
    }
  }

  /** अ and a sign, with a span of two or more: the vowel's spelling, then the sign's. */
  lemma VowelSignPair(t: Tables, sign: char, span: nat)
    requires span >= 2
    requires forall key :: key in t.consonants ==> |key| != 2
    requires ['अ'] !in t.consonants && ['अ'] in t.vowels
    requires [sign] !in t.consonants && [sign] !in t.vowels && [sign] in t.diacritics
    ensures Romanised(t, ['अ', sign], span) == t.vowels[['अ']] + t.diacritics[[sign]]
  {
    var w := ['अ', sign];
    assert [w[0]] == ['अ'] && [w[1]] == [sign];
    if span == 2 {
      assert |w[0..2]| == 2;
    }
    assert !KeyAt(t, w, span, 0) && !KeyAt(t, w, span, 1);
    assert UnitAt(t, w, span, 0) == Vowel('अ', t.vowels[['अ']]);
    assert UnitAt(t, w, span, 1) == Sign(sign, t.diacritics[[sign]]);
    var a, m := t.vowels[['अ']], t.diacritics[[sign]];
    assert "" + a == a;
    assert EmittedFrom(t, w, span, 0, "") == EmittedFrom(t, w, span, 1, a);
    assert EmittedFrom(t, w, span, 1, a) == EmittedFrom(t, w, span, 2, a + m);
  }

  predicate Roman(s: string)
  {
    forall i :: 0 <= i < |s| ==> 'a' <= s[i] <= 'z'
  }

  predicate RomanTables(t: Tables)
  {
    && (forall key :: key in t.consonants ==> Roman(t.consonants[key]))
    && (forall key :: key in t.vowels ==> Roman(t.vowels[key]))
    && (forall key :: key in t.diacritics ==> Roman(t.diacritics[key]))
  }

  lemma ScriptRoman()
    ensures RomanTables(Script)
  {
    ConsonantsRoman();
    VowelsRoman();
    DiacriticsRoman();
  }

  lemma ConsonantsRoman()
    ensures forall key :: key in Script.consonants ==> Roman(Script.consonants[key])
  {
  }

  lemma VowelsRoman()
    ensures forall key :: key in Script.vowels ==> Roman(Script.vowels[key])
  {
  }

  lemma DiacriticsRoman()
    ensures forall key :: key in Script.diacritics ==> Roman(Script.diacritics[key])
  {
  }

  /** With tables spelt in lower-case Roman letters, so is everything emitted. */
  lemma {:induction false} EmittedRoman(t: Tables, w: string, span: nat, i: nat, acc: string)
    requires span >= 1 && RomanTables(t) && Roman(acc)
    ensures Roman(EmittedFrom(t, w, span, i, acc))
    decreases |w| - i
  {
    if i < |w| {
      var next, acc' := RomanStep(t, w, span, i, acc);
      EmittedRoman(t, w, span, next, acc');
    }
  }

  /** One step of the scan from a Roman text, with the unit itself out of sight. */
  lemma RomanStep(t: Tables, w: string, span: nat, i: nat, acc: string) returns (next: nat, acc': string)
    requires span >= 1 && i < |w| && RomanTables(t) && Roman(acc)
    ensures i < next <= |w| && Roman(acc')
    ensures EmittedFrom(t, w, span, i, acc) == EmittedFrom(t, w, span, next, acc')
  {
    var u := UnitAt(t, w, span, i);
    next, acc' := i + Width(t, w, span, i), Emit(acc, u);
    EmittedFromStep(t, w, span, i, acc, acc', next);
    EmitRoman(t, w, span, i, acc);
    TextAt(t, w, span, i);
  }

  /** One more unit keeps the text Roman: what it appends comes from the tables. */
  lemma EmitRoman(t: Tables, w: string, span: nat, i: nat, acc: string)
    requires span >= 1 && i < |w| && RomanTables(t) && Roman(acc)
    ensures Roman(Emit(acc, UnitAt(t, w, span, i)))
  {
    var c := [w[i]];
    if KeyAt(t, w, span, i) {
      RomanAppend(acc, t.consonants[w[i..i + span]]);
    } else if c in t.consonants {
      RomanDropLast(t.consonants[c]);
      RomanAppend(acc, t.consonants[c]);
      RomanAppend(acc, DropLast(t.consonants[c]));
    } else if c in t.vowels {
      RomanAppend(acc, t.vowels[c]);
    } else if c in t.diacritics {
      RomanAppend(acc, t.diacritics[c]);
    } else {
      RomanDropLast(acc);
    }
  }

  lemma RomanAppend(a: string, b: string)
    requires Roman(a) && Roman(b)
    ensures Roman(a + b)
  {
  }

  lemma RomanDropLast(s: string)
    requires Roman(s)
    ensures Roman(DropLast(s))
  {
  }

  /** The script's romanisations are made of lower-case Roman letters only. */
  lemma RomanisedRoman(w: string, span: nat)
    requires span >= 1
    ensures Roman(Romanised(Script, w, span))
  {
    ScriptRoman();
    EmittedRoman(Script, w, span, 0, "");
  }

  /** A consonant before a sign loses its inherent "a"; the sign's spelling follows. */
  lemma ConsonantSignPair(t: Tables, k: char, sign: char, span: nat)
    requires span >= 2
    requires forall key :: key in t.consonants ==> |key| != 2
    requires [k] in t.consonants
    requires [sign] !in t.consonants && [sign] !in t.vowels && [sign] in t.diacritics
    ensures Romanised(t, [k, sign], span) == DropLast(t.consonants[[k]]) + t.diacritics[[sign]]
  {
    var w := [k, sign];
    assert [w[0]] == [k] && [w[1]] == [sign];
    if span == 2 {
      assert |w[0..2]| == 2;
    }
    assert !KeyAt(t, w, span, 0) && !KeyAt(t, w, span, 1);
    var a, m := DropLast(t.consonants[[k]]), t.diacritics[[sign]];
    assert UnitAt(t, w, span, 0) == Letter(k, t.consonants[[k]], true);
    assert UnitAt(t, w, span, 1) == Sign(sign, m);
    assert "" + a == a;
    assert EmittedFrom(t, w, span, 0, "") == EmittedFrom(t, w, span, 1, a);
    assert EmittedFrom(t, w, span, 1, a) == EmittedFrom(t, w, span, 2, a + m);
  }

  /** No consonant key longer than one code point ends with the code point `c` appended to `w`. */
  predicate NoKeyEndsAt(t: Tables, w: string, c: char, span: nat)
  {
    2 <= span <= |w| + 1 ==> !KeyAt(t, w + [c], span, |w| + 1 - span)
  }

  /**
   * A code point that ends no consonant key and is not a sign changes
   * nothing the scan reads before it: the word with it appended reads as
   * the word, then the unit of the new code point.
   */
  lemma {:induction false} EmittedAppend(t: Tables, w: string, c: char, span: nat, i: nat, acc: string)
    requires span >= 1 && i <= |w|
    requires [c] !in t.diacritics
    requires NoKeyEndsAt(t, w, c, span)
    ensures EmittedFrom(t, w + [c], span, i, acc)
            == Emit(EmittedFrom(t, w, span, i, acc), UnitAt(t, w + [c], span, |w|))
    decreases |w| - i
  {
    if i == |w| {
      AppendLast(t, w, c, span, acc);
    } else {
      var next, acc' := AppendStep(t, w, c, span, i, acc);
      EmittedAppend(t, w, c, span, next, acc');
    }
  }

  /** The appended code point, read last, is emitted after everything before it. */
  lemma AppendLast(t: Tables, w: string, c: char, span: nat, acc: string)
    requires span >= 1
    ensures EmittedFrom(t, w + [c], span, |w|, acc) == Emit(acc, UnitAt(t, w + [c], span, |w|))
  {
    var v := w + [c];
    assert Width(t, v, span, |w|) == 1;
  }

  /** One step of the scan, the same in the word and in the word with a code point appended. */
  lemma AppendStep(t: Tables, w: string, c: char, span: nat, i: nat, acc: string) returns (next: nat, acc': string)
    requires span >= 1 && i < |w|
    requires [c] !in t.diacritics
    requires NoKeyEndsAt(t, w, c, span)
    ensures i < next <= |w|
    ensures EmittedFrom(t, w + [c], span, i, acc) == EmittedFrom(t, w + [c], span, next, acc')
    ensures EmittedFrom(t, w, span, i, acc) == EmittedFrom(t, w, span, next, acc')
  {
    AppendUnitAt(t, w, c, span, i);
    TextAt(t, w, span, i);
    next, acc' := i + Width(t, w, span, i), Emit(acc, UnitAt(t, w, span, i));
    EmittedFromStep(t, w, span, i, acc, acc', next);
    EmittedFromStep(t, w + [c], span, i, acc, acc', next);
  }

  /** Before the appended code point, the scan finds the same units as in the word alone. */
  lemma AppendUnitAt(t: Tables, w: string, c: char, span: nat, i: nat)
    requires span >= 1 && i < |w|
    requires [c] !in t.diacritics
    requires NoKeyEndsAt(t, w, c, span)
    ensures UnitAt(t, w + [c], span, i) == UnitAt(t, w, span, i)
    ensures Width(t, w + [c], span, i) == Width(t, w, span, i)
  {
    var v := w + [c];
    assert KeyAt(t, v, span, i) <==> KeyAt(t, w, span, i) by {
      if i + span <= |w| {
        assert v[i..i + span] == w[i..i + span];
      }
    }
    assert v[i] == w[i];
    if i + 1 < |w| {
      assert v[i + 1] == w[i + 1];
    } else {
      assert v[i + 1] == c;
    }
    if i + span <= |w| {
      assert v[i..i + span] == w[i..i + span];
    }
  }

  /** The last code point of every consonant key of the script is a consonant of its own. */
  lemma ScriptKeyEnds(key: string)
    requires key in Script.consonants
    ensures key != [] && [key[|key| - 1]] in Script.consonants
  {
  }

  /** For the script's tables: appending a code point that is neither a consonant nor a sign. */
  lemma ScriptAppend(w: string, c: char, span: nat)
    requires span >= 1
    requires [c] !in Script.consonants && [c] !in Script.diacritics
    ensures Romanised(Script, w + [c], span) == Emit(Romanised(Script, w, span), UnitAt(Script, w + [c], span, |w|))
  {
    if 2 <= span <= |w| + 1 {
      var key := (w + [c])[|w| + 1 - span..|w| + 1];
      if key in Script.consonants {
        ScriptKeyEnds(key);
      }
    }
    EmittedAppend(Script, w, c, span, 0, "");
  }

  /** A final halant drops the last letter emitted for the rest of the word. */
  lemma HalantDropsLast(w: string, span: nat)
    requires span >= 1
    ensures Romanised(Script, w + [Halant], span) == DropLast(Romanised(Script, w, span))
  {
    ScriptHalant();
    ScriptAppend(w, Halant, span);
    var v := w + [Halant];
    assert v[|w|] == Halant;
    if span == 1 {
      assert v[|w|..|w| + 1] == [Halant];
    }
    assert UnitAt(Script, v, span, |w|) == HalantMark;
  }

  /** A final code point found in no table, other than the halant, contributes nothing. */
  lemma UnknownSkipped(w: string, c: char, span: nat)
    requires span >= 1 && c != Halant
    requires [c] !in Script.consonants && [c] !in Script.vowels && [c] !in Script.diacritics
    ensures Romanised(Script, w + [c], span) == Romanised(Script, w, span)
  {
    ScriptAppend(w, c, span);
    var v := w + [c];
    assert v[|w|] == c;
    if span == 1 {
      assert v[|w|..|w| + 1] == [c];
    }
    assert UnitAt(Script, v, span, |w|) == Skipped(c);
  }

  /** A final independent vowel appends its spelling. */
  lemma VowelAppends(w: string, c: char, span: nat)
    requires span >= 1
    requires [c] in Script.vowels && [c] !in Script.consonants && [c] !in Script.diacritics
    ensures Romanised(Script, w + [c], span) == Romanised(Script, w, span) + Script.vowels[[c]]
  {
    ScriptAppend(w, c, span);
    var v := w + [c];
    assert v[|w|] == c;
    if span == 1 {
      assert v[|w|..|w| + 1] == [c];
    }
    assert UnitAt(Script, v, span, |w|) == Vowel(c, Script.vowels[[c]]);
  }
}
