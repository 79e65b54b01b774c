// The table maker (scripts/table-maker.py): from the consonants with their
// Roman aliases and the vowel signs with their Roman keys, it prints three
// sections of table lines (half forms, full forms, consonant-and-sign
// combinations) and fills a dictionary `output` from the half forms and the
// combinations. Python dictionaries iterate in insertion order, so the two
// tables are sequences of entries here.

module TableMaker {
  const Halant: string := "्"

  /** A consonant (or conjunct) and its Roman aliases, in order. */
  type Entry = (string, seq<string>)

  /** A vowel sign and its Roman key. */
  type SignEntry = (string, string)

  /** A printed line: a section heading or a `roman devanagari` row. */
  datatype Line = Heading(title: string) | Row(roman: string, devanagari: string)

  const ScriptConsonants: seq<Entry> := [
    ("क", ["k"]), ("ख", ["K", "kh"]), ("ग", ["g"]), ("घ", ["G", "gh"]), ("ङ", ["ng"]),
    ("च", ["c", "ch"]), ("छ", ["chh", "Ch"]), ("ज", ["j"]), ("झ", ["jh", "J"]), ("ञ", ["jn"]),
    ("ट", ["T"]), ("ठ", ["Th"]), ("ड", ["D"]), ("ढ", ["Dh"]), ("ण", ["N"]),
    ("त", ["t"]), ("थ", ["th"]), ("द", ["d"]), ("ध", ["dh"]), ("न", ["n"]),
    ("प", ["p"]), ("फ", ["ph", "P"]), ("ब", ["b"]), ("भ", ["bh", "B"]), ("म", ["m"]),
    ("य", ["y"]), ("र", ["r"]), ("ल", ["l"]), ("व", ["w", "v"]), ("श", ["sh"]),
    ("ष", ["Sh"]), ("स", ["s"]), ("ह", ["h"]),
    ("क्ष", ["ksh"]), ("त्र", ["tr"]), ("ज्ञ", ["jnj"])]

  const ScriptSigns: seq<SignEntry> := [
    ("ा", "aa"), ("ि", "i"), ("ी", "ee"), ("ु", "u"), ("ू", "oo"), ("ृ", "Ri"), ("ॄ", "Ree"),
    ("े", "e"), ("ै", "ai"), ("ो", "o"), ("ौ", "au"), ("ं", "M"), ("ँ", "MM"), ("ः", "H")]

  // ---------------------------------------------------------------------
  // The three sections

  /** The half forms of one consonant: each alias with the consonant and the halant. */
  function HalfOf(k: string, aliases: seq<string>): (rows: seq<Line>)
    ensures |rows| == |aliases|
    ensures forall j :: 0 <= j < |rows| ==> rows[j] == Row(aliases[j], k + Halant)
  {
    if aliases == [] then [] else HalfOf(k, aliases[..|aliases| - 1]) + [Row(aliases[|aliases| - 1], k + Halant)]
  }

  function HalfRows(cs: seq<Entry>): (rows: seq<Line>)
  {
    if cs == [] then [] else HalfRows(cs[..|cs| - 1]) + HalfOf(cs[|cs| - 1].0, cs[|cs| - 1].1)
  }

  /** The full forms of one consonant: each alias followed by "a", with the bare consonant. */
  function FullOf(k: string, aliases: seq<string>): (rows: seq<Line>)
    ensures |rows| == |aliases|
    ensures forall j :: 0 <= j < |rows| ==> rows[j] == Row(aliases[j] + "a", k)
  {
    if aliases == [] then [] else FullOf(k, aliases[..|aliases| - 1]) + [Row(aliases[|aliases| - 1] + "a", k)]
  }

  function FullRows(cs: seq<Entry>): (rows: seq<Line>)
  {
    if cs == [] then [] else FullRows(cs[..|cs| - 1]) + FullOf(cs[|cs| - 1].0, cs[|cs| - 1].1)
  }

  /** One alias of `k` with each sign whose Devanagari is not empty. */
  function SignsOf(k: string, alias: string, signs: seq<SignEntry>): (rows: seq<Line>)
  {
    if signs == [] then []
    else
      var g := signs[|signs| - 1];
      SignsOf(k, alias, signs[..|signs| - 1]) + (if g.0 != "" then [Row(alias + g.1, k + g.0)] else [])
  }

  function CombosOf(k: string, aliases: seq<string>, signs: seq<SignEntry>): (rows: seq<Line>)
  {
    if aliases == [] then []
    else CombosOf(k, aliases[..|aliases| - 1], signs) + SignsOf(k, aliases[|aliases| - 1], signs)
  }

  function ComboRows(cs: seq<Entry>, signs: seq<SignEntry>): (rows: seq<Line>)
  {
    if cs == [] then [] else ComboRows(cs[..|cs| - 1], signs) + CombosOf(cs[|cs| - 1].0, cs[|cs| - 1].1, signs)
  }

  /** The dictionary after each row in turn is assigned; headings assign nothing. */
  function Applied(m: map<string, string>, rows: seq<Line>): (r: map<string, string>)
  {
    if rows == [] then m
    else
      var before := Applied(m, rows[..|rows| - 1]);
      match rows[|rows| - 1]
      case Row(roman, devanagari) => before[roman := devanagari]
      case Heading(_) => before
  }

  /** Everything the script prints, in order. */
  function Printed(cs: seq<Entry>, signs: seq<SignEntry>): (lines: seq<Line>)
  {
    [Heading("## Half Consonants")] + HalfRows(cs)
    + [Heading("\n## Full Consonants")] + FullRows(cs)
    + [Heading("\n## Devanagari Tables")] + ComboRows(cs, signs)
  }

  // ---------------------------------------------------------------------
  // The script

  /**
   * The module-level loops of the script: the printed lines, and the
   * `output` dictionary, which only the half forms and the combinations
   * write to.
   */
  method MakeTable(cs: seq<Entry>, signs: seq<SignEntry>) returns (printed: seq<Line>, output: map<string, string>)
    ensures printed == Printed(cs, signs)
    ensures output == Applied(map[], HalfRows(cs) + ComboRows(cs, signs))
  {
    output := map[];
    printed := [Heading("## Half Consonants")];
    var half;
    half, output := HalfSection(cs, output);
    printed := printed + half + [Heading("\n## Full Consonants")];
    var full := FullSection(cs);
    printed := printed + full + [Heading("\n## Devanagari Tables")];
    var combos;
    combos, output := ComboSection(cs, signs, output);
    printed := printed + combos;
    AppliedConcat(map[], half, combos);
  }

  method HalfSection(cs: seq<Entry>, output: map<string, string>) returns (rows: seq<Line>, output': map<string, string>)
    ensures rows == HalfRows(cs)
    ensures output' == Applied(output, rows)
  {
    rows, output' := [], output;
    for i := 0 to |cs|
      invariant rows == HalfRows(cs[..i])
      invariant output' == Applied(output, rows)
    {
      assert cs[..i + 1][..i] == cs[..i];
      var k, aliases := cs[i].0, cs[i].1;
      ghost var before := rows;
      for j := 0 to |aliases|
        invariant rows == before + HalfOf(k, aliases[..j])
        invariant output' == Applied(output, rows)
      {
        assert aliases[..j + 1][..j] == aliases[..j];
        output' := output'[aliases[j] := k + Halant];
        AppliedSnoc(output, rows, Row(aliases[j], k + Halant));
        rows := rows + [Row(aliases[j], k + Halant)];
      }
      assert aliases[..|aliases|] == aliases;
    }
    assert cs[..|cs|] == cs;
  }

  method FullSection(cs: seq<Entry>) returns (rows: seq<Line>)
    ensures rows == FullRows(cs)
  {
    rows := [];
    for i := 0 to |cs|
      invariant rows == FullRows(cs[..i])
    {
      assert cs[..i + 1][..i] == cs[..i];
      var k, aliases := cs[i].0, cs[i].1;
      ghost var before := rows;
      for j := 0 to |aliases|
        invariant rows == before + FullOf(k, aliases[..j])
      {
        assert aliases[..j + 1][..j] == aliases[..j];
        rows := rows + [Row(aliases[j] + "a", k)];
      }
      assert aliases[..|aliases|] == aliases;
    }
    assert cs[..|cs|] == cs;
  }

  method ComboSection(cs: seq<Entry>, signs: seq<SignEntry>, output: map<string, string>)
    returns (rows: seq<Line>, output': map<string, string>)
    ensures rows == ComboRows(cs, signs)
    ensures output' == Applied(output, rows)
  {
    rows, output' := [], output;
    for i := 0 to |cs|
      invariant rows == ComboRows(cs[..i], signs)
      invariant output' == Applied(output, rows)
    {
      assert cs[..i + 1][..i] == cs[..i];
      var k, aliases := cs[i].0, cs[i].1;
      ghost var before := rows;
      for j := 0 to |aliases|
        invariant rows == before + CombosOf(k, aliases[..j], signs)
        invariant output' == Applied(output, rows)
      {
        assert aliases[..j + 1][..j] == aliases[..j];
        assert CombosOf(k, aliases[..j + 1], signs) == CombosOf(k, aliases[..j], signs) + SignsOf(k, aliases[j], signs);
        rows, output' := AliasWithSigns(k, aliases[j], signs, output, rows, output');
      }
      assert aliases[..|aliases|] == aliases;
      assert ComboRows(cs[..i + 1], signs) == ComboRows(cs[..i], signs) + CombosOf(k, aliases, signs);
    }
    assert cs[..|cs|] == cs;
  }

  /** The innermost loop: one alias with every sign. */
  method AliasWithSigns(k: string, alias: string, signs: seq<SignEntry>, start: map<string, string>,
                        rows: seq<Line>, output: map<string, string>)
    returns (rows': seq<Line>, output': map<string, string>)
    requires output == Applied(start, rows)
    ensures rows' == rows + SignsOf(k, alias, signs)
    ensures output' == Applied(start, rows')
  {
    rows', output' := rows, output;
    for s := 0 to |signs|
      invariant rows' == rows + SignsOf(k, alias, signs[..s])
      invariant output' == Applied(start, rows')
    {
      assert signs[..s + 1][..s] == signs[..s];
      var gKey, gValue := signs[s].0, signs[s].1;
      if gKey != "" {
        output' := output'[alias + gValue := k + gKey];
        AppliedSnoc(start, rows', Row(alias + gValue, k + gKey));
        rows' := rows' + [Row(alias + gValue, k + gKey)];
      }
    }
    assert signs[..|signs|] == signs;
  }

  // ---------------------------------------------------------------------
  // Properties

  lemma AppliedSnoc(m: map<string, string>, rows: seq<Line>, line: Line)
    ensures Applied(m, rows + [line]) == match line
                                        case Row(roman, devanagari) => Applied(m, rows)[roman := devanagari]
                                        case Heading(_) => Applied(m, rows)
  {
    assert (rows + [line])[..|rows|] == rows;
  }

  /** Assigning two runs of rows in turn is assigning them joined. */
  lemma {:induction false} AppliedConcat(m: map<string, string>, a: seq<Line>, b: seq<Line>)
    ensures Applied(m, a + b) == Applied(Applied(m, a), b)
    decreases |b|
  {
    if b == [] {
      assert a + b == a;
    } else {
      var front := b[..|b| - 1];
      assert (a + b)[..|a + b| - 1] == a + front;
      AppliedConcat(m, a, front);
    }
  }

  /** Roman text `key` is assigned by row `j`. */
  predicate Writes(rows: seq<Line>, j: int, key: string)
  {
    0 <= j < |rows| && rows[j].Row? && rows[j].roman == key
  }

  /**
   * Plain dictionary assignment: a key is in the result exactly when it
   * was there before or some row assigns it, and it holds the value of the
   * last row that assigns it.
   */
  lemma {:induction false} LastWriteWins(m: map<string, string>, rows: seq<Line>, key: string)
    ensures key in Applied(m, rows) <==> key in m || exists j :: Writes(rows, j, key)
    ensures forall j :: Writes(rows, j, key) && (forall l :: j < l < |rows| ==> !Writes(rows, l, key))
                        ==> Applied(m, rows)[key] == rows[j].devanagari
    ensures (forall j :: !Writes(rows, j, key)) && key in m ==> Applied(m, rows)[key] == m[key]
  {
    if rows != [] {
      var front, last := rows[..|rows| - 1], |rows| - 1;
      LastWriteWins(m, front, key);
      assert forall j :: Writes(front, j, key) <==> Writes(rows, j, key) && j < last;
      if Writes(rows, last, key) {
        assert Applied(m, rows)[key] == rows[last].devanagari;
      } else {
        assert key in Applied(m, rows) <==> key in Applied(m, front);
        assert key in Applied(m, rows) ==> Applied(m, rows)[key] == Applied(m, front)[key];
      }
    }
  }

  /** How many aliases the table has in all. */
  function AliasCount(cs: seq<Entry>): (n: nat)
  {
    if cs == [] then 0 else AliasCount(cs[..|cs| - 1]) + |cs[|cs| - 1].1|
  }

  /** How many signs have a non-empty Devanagari key. */
  function SignCount(signs: seq<SignEntry>): (n: nat)
  {
    if signs == [] then 0 else SignCount(signs[..|signs| - 1]) + (if signs[|signs| - 1].0 != "" then 1 else 0)
  }

  /** One half form and one full form per alias. */
  lemma {:induction false} SectionSizes(cs: seq<Entry>)
    ensures |HalfRows(cs)| == |FullRows(cs)| == AliasCount(cs)
  {
    if cs != [] {
      SectionSizes(cs[..|cs| - 1]);
    }
  }

  /** One combination per alias and sign. */
  lemma {:induction false} ComboSize(cs: seq<Entry>, signs: seq<SignEntry>)
    ensures |ComboRows(cs, signs)| == AliasCount(cs) * SignCount(signs)
  {
    if cs != [] {
      var front, last := cs[..|cs| - 1], cs[|cs| - 1];
      ComboSize(front, signs);
      CombosSize(last.0, last.1, signs);
      var n, m, c := AliasCount(front), |last.1|, SignCount(signs);
      assert |ComboRows(cs, signs)| == n * c + m * c;
      assert AliasCount(cs) == n + m;
      Distribute(n, m, c);
    }
  }

  lemma Distribute(n: nat, m: nat, c: nat)
    ensures (n + m) * c == n * c + m * c
  {
  }

  lemma {:induction false} CombosSize(k: string, aliases: seq<string>, signs: seq<SignEntry>)
    ensures |CombosOf(k, aliases, signs)| == |aliases| * SignCount(signs)
  {
    if aliases != [] {
      CombosSize(k, aliases[..|aliases| - 1], signs);
      SignsSize(k, aliases[|aliases| - 1], signs);
      Distribute(|aliases| - 1, 1, SignCount(signs));
    }
  }

  lemma {:induction false} SignsSize(k: string, alias: string, signs: seq<SignEntry>)
    ensures |SignsOf(k, alias, signs)| == SignCount(signs)
  {
    if signs != [] {
      SignsSize(k, alias, signs[..|signs| - 1]);
    }
  }

  /** The half-form rows are exactly each alias with its consonant and the halant. */
  lemma {:induction false} HalfRowsMembers(cs: seq<Entry>, line: Line)
    ensures line in HalfRows(cs) <==>
              exists i, j :: 0 <= i < |cs| && 0 <= j < |cs[i].1| && line == Row(cs[i].1[j], cs[i].0 + Halant)
  {
    if cs != [] {
      var front, last := cs[..|cs| - 1], cs[|cs| - 1];
      HalfRowsMembers(front, line);
      if line in HalfOf(last.0, last.1) {
        var j :| 0 <= j < |last.1| && HalfOf(last.0, last.1)[j] == line;
        assert cs[|cs| - 1].1[j] == last.1[j];
      }
      if exists i, j :: 0 <= i < |cs| && 0 <= j < |cs[i].1| && line == Row(cs[i].1[j], cs[i].0 + Halant) {
        var i, j :| 0 <= i < |cs| && 0 <= j < |cs[i].1| && line == Row(cs[i].1[j], cs[i].0 + Halant);
        if i < |front| {
          assert front[i] == cs[i];
        } else {
          assert HalfOf(last.0, last.1)[j] == line;
        }
      }
    }
  }

  /** The full-form rows are exactly each alias followed by "a", with its bare consonant. */
  lemma {:induction false} FullRowsMembers(cs: seq<Entry>, line: Line)
    ensures line in FullRows(cs) <==>
              exists i, j :: 0 <= i < |cs| && 0 <= j < |cs[i].1| && line == Row(cs[i].1[j] + "a", cs[i].0)
  {
    if cs != [] {
      var front, last := cs[..|cs| - 1], cs[|cs| - 1];
      FullRowsMembers(front, line);
      if line in FullOf(last.0, last.1) {
        var j :| 0 <= j < |last.1| && FullOf(last.0, last.1)[j] == line;
        assert cs[|cs| - 1].1[j] == last.1[j];
      }
      if exists i, j :: 0 <= i < |cs| && 0 <= j < |cs[i].1| && line == Row(cs[i].1[j] + "a", cs[i].0) {
        var i, j :| 0 <= i < |cs| && 0 <= j < |cs[i].1| && line == Row(cs[i].1[j] + "a", cs[i].0);
        if i < |front| {
          assert front[i] == cs[i];
        } else {
          assert FullOf(last.0, last.1)[j] == line;
        }
      }
    }
  }

  /** A combination row is an alias followed by a sign's Roman key, with the consonant and that sign. */
  predicate IsCombo(cs: seq<Entry>, signs: seq<SignEntry>, line: Line)
  {
    exists i, j, s :: 0 <= i < |cs| && 0 <= j < |cs[i].1| && 0 <= s < |signs| && signs[s].0 != ""
                      && line == Row(cs[i].1[j] + signs[s].1, cs[i].0 + signs[s].0)
  }

  lemma {:induction false} SignsOfMembers(k: string, alias: string, signs: seq<SignEntry>, line: Line)
    ensures line in SignsOf(k, alias, signs) <==>
              exists s :: 0 <= s < |signs| && signs[s].0 != "" && line == Row(alias + signs[s].1, k + signs[s].0)
  {
    if signs != [] {
      var front, g := signs[..|signs| - 1], signs[|signs| - 1];
      var tail := if g.0 != "" then [Row(alias + g.1, k + g.0)] else [];
      SignsOfMembers(k, alias, front, line);
      assert SignsOf(k, alias, signs) == SignsOf(k, alias, front) + tail;
      assert line in tail <==> g.0 != "" && line == Row(alias + g.1, k + g.0);
      if exists s :: 0 <= s < |signs| && signs[s].0 != "" && line == Row(alias + signs[s].1, k + signs[s].0) {
        var s :| 0 <= s < |signs| && signs[s].0 != "" && line == Row(alias + signs[s].1, k + signs[s].0);
        if s < |front| {
          assert front[s] == signs[s];
        }
      }
      if line in tail {
        assert signs[|signs| - 1] == g;
      }
    }
  }

  lemma {:induction false} CombosOfMembers(k: string, aliases: seq<string>, signs: seq<SignEntry>, line: Line)
    ensures line in CombosOf(k, aliases, signs) <==>
              exists j, s :: 0 <= j < |aliases| && 0 <= s < |signs| && signs[s].0 != ""
                             && line == Row(aliases[j] + signs[s].1, k + signs[s].0)
  {
    if aliases != [] {
      var front, last := aliases[..|aliases| - 1], aliases[|aliases| - 1];
      CombosOfMembers(k, front, signs, line);
      SignsOfMembers(k, last, signs, line);
      assert CombosOf(k, aliases, signs) == CombosOf(k, front, signs) + SignsOf(k, last, signs);
      if line in CombosOf(k, front, signs) {
        var j, s :| 0 <= j < |front| && 0 <= s < |signs| && signs[s].0 != ""
                    && line == Row(front[j] + signs[s].1, k + signs[s].0);
        assert aliases[j] == front[j];
      }
      if line in SignsOf(k, last, signs) {
        var s :| 0 <= s < |signs| && signs[s].0 != "" && line == Row(last + signs[s].1, k + signs[s].0);
        assert aliases[|front|] == last;
      }
      if exists j, s :: 0 <= j < |aliases| && 0 <= s < |signs| && signs[s].0 != ""
                        && line == Row(aliases[j] + signs[s].1, k + signs[s].0) {
        var j, s :| 0 <= j < |aliases| && 0 <= s < |signs| && signs[s].0 != ""
                    && line == Row(aliases[j] + signs[s].1, k + signs[s].0);
        if j < |front| {
          assert front[j] == aliases[j];
        } else {
          assert aliases[j] == last;
        }
      }
    }
  }

  /** The combination rows are exactly the alias-and-sign pairs. */
  lemma ComboRowsMembers(cs: seq<Entry>, signs: seq<SignEntry>, line: Line)
    ensures line in ComboRows(cs, signs) <==> IsCombo(cs, signs, line)
  {
    if line in ComboRows(cs, signs) {
      ComboRowsSound(cs, signs, line);
    }
    if IsCombo(cs, signs, line) {
      ComboRowsComplete(cs, signs, line);
    }
  }

  lemma {:induction false} ComboRowsSound(cs: seq<Entry>, signs: seq<SignEntry>, line: Line)
    requires line in ComboRows(cs, signs)
    ensures IsCombo(cs, signs, line)
  {
    var front, last := cs[..|cs| - 1], cs[|cs| - 1];
    assert ComboRows(cs, signs) == ComboRows(front, signs) + CombosOf(last.0, last.1, signs);
    if line in ComboRows(front, signs) {
      ComboRowsSound(front, signs, line);
      var i, j, s :| 0 <= i < |front| && 0 <= j < |front[i].1| && 0 <= s < |signs| && signs[s].0 != ""
                     && line == Row(front[i].1[j] + signs[s].1, front[i].0 + signs[s].0);
      assert cs[i] == front[i];
      assert 0 <= i < |cs| && 0 <= j < |cs[i].1| && line == Row(cs[i].1[j] + signs[s].1, cs[i].0 + signs[s].0);
    } else {
      CombosOfMembers(last.0, last.1, signs, line);
      var j, s :| 0 <= j < |last.1| && 0 <= s < |signs| && signs[s].0 != ""
                  && line == Row(last.1[j] + signs[s].1, last.0 + signs[s].0);
      var i := |front|;
      assert cs[i] == last;
      assert 0 <= i < |cs| && 0 <= j < |cs[i].1| && line == Row(cs[i].1[j] + signs[s].1, cs[i].0 + signs[s].0);
    }
  }

  lemma {:induction false} ComboRowsComplete(cs: seq<Entry>, signs: seq<SignEntry>, line: Line)
    requires IsCombo(cs, signs, line)
    ensures line in ComboRows(cs, signs)
  {
    var i, j, s :| 0 <= i < |cs| && 0 <= j < |cs[i].1| && 0 <= s < |signs| && signs[s].0 != ""
                   && line == Row(cs[i].1[j] + signs[s].1, cs[i].0 + signs[s].0);
    var front, last := cs[..|cs| - 1], cs[|cs| - 1];
    assert ComboRows(cs, signs) == ComboRows(front, signs) + CombosOf(last.0, last.1, signs);
    if i < |front| {
      assert front[i] == cs[i];
      assert 0 <= i < |front| && 0 <= j < |front[i].1| && line == Row(front[i].1[j] + signs[s].1, front[i].0 + signs[s].0);
      ComboRowsComplete(front, signs, line);
    } else {
      assert cs[i] == last;
      CombosOfMembers(last.0, last.1, signs, line);
      assert 0 <= j < |last.1| && line == Row(last.1[j] + signs[s].1, last.0 + signs[s].0);
    }
  }

  /** When every row that assigns `key` assigns `v`, and one does, the result holds `v` there. */
  lemma {:induction false} UniformWrites(m: map<string, string>, rows: seq<Line>, key: string, v: string)
    requires exists j :: Writes(rows, j, key)
    requires forall j :: Writes(rows, j, key) ==> rows[j].devanagari == v
    ensures key in Applied(m, rows) && Applied(m, rows)[key] == v
  {
    var front, last := rows[..|rows| - 1], |rows| - 1;
    if !Writes(rows, last, key) {
      var j :| Writes(rows, j, key);
      assert Writes(front, j, key);
      forall l | Writes(front, l, key)
        ensures front[l].devanagari == v
      {
        assert Writes(rows, l, key);
      }
      UniformWrites(m, front, key, v);
    }
  }

  /** The `output` dictionary the script builds. */
  function Output(cs: seq<Entry>, signs: seq<SignEntry>): (output: map<string, string>)
  {
    Applied(map[], HalfRows(cs) + ComboRows(cs, signs))
  }

  /** An alias of some consonant. */
  predicate IsAlias(cs: seq<Entry>, a: string)
  {
    exists i, j :: 0 <= i < |cs| && 0 <= j < |cs[i].1| && cs[i].1[j] == a
  }

  /** A Roman text the half or combination section spells. */
  predicate Spelt(cs: seq<Entry>, signs: seq<SignEntry>, key: string)
  {
    IsAlias(cs, key)
    || exists i, j, s :: 0 <= i < |cs| && 0 <= j < |cs[i].1| && 0 <= s < |signs| && signs[s].0 != ""
                         && key == cs[i].1[j] + signs[s].1
  }

  /** A row written to `output` spells its key. */
  lemma WrittenSpelt(cs: seq<Entry>, signs: seq<SignEntry>, line: Line)
    requires line in HalfRows(cs) + ComboRows(cs, signs)
    ensures line.Row? && Spelt(cs, signs, line.roman)
  {
    HalfRowsMembers(cs, line);
    ComboRowsMembers(cs, signs, line);
  }

  /** A key spelt by the half or combination section is written by one of their rows. */
  lemma SpeltWritten(cs: seq<Entry>, signs: seq<SignEntry>, key: string)
    requires Spelt(cs, signs, key)
    ensures exists j :: Writes(HalfRows(cs) + ComboRows(cs, signs), j, key)
  {
    var rows := HalfRows(cs) + ComboRows(cs, signs);
    if IsAlias(cs, key) {
      var i, j :| 0 <= i < |cs| && 0 <= j < |cs[i].1| && cs[i].1[j] == key;
      var line := Row(key, cs[i].0 + Halant);
      HalfRowsMembers(cs, line);
      var n :| 0 <= n < |HalfRows(cs)| && HalfRows(cs)[n] == line;
      assert Writes(rows, n, key);
    } else {
      var i, j, s :| 0 <= i < |cs| && 0 <= j < |cs[i].1| && 0 <= s < |signs| && signs[s].0 != ""
                     && key == cs[i].1[j] + signs[s].1;
      var line := Row(key, cs[i].0 + signs[s].0);
      ComboRowsMembers(cs, signs, line);
      var n :| 0 <= n < |ComboRows(cs, signs)| && ComboRows(cs, signs)[n] == line;
      assert Writes(rows, |HalfRows(cs)| + n, key);
    }
  }

  /**
   * The keys of `output` are exactly the aliases and the alias-and-sign
   * texts: a full form (alias and "a") is a key only when it is one of
   * those too.
   */
  lemma OutputKeys(cs: seq<Entry>, signs: seq<SignEntry>, key: string)
    ensures key in Output(cs, signs) <==> Spelt(cs, signs, key)
  {
    var rows := HalfRows(cs) + ComboRows(cs, signs);
    LastWriteWins(map[], rows, key);
    if key in Output(cs, signs) {
      var j :| Writes(rows, j, key);
      WrittenSpelt(cs, signs, rows[j]);
    }
    if Spelt(cs, signs, key) {
      SpeltWritten(cs, signs, key);
    }
  }

  /**
   * An alias that belongs to one consonant only and that no combination
   * spells maps to that consonant and the halant.
   */
  lemma AliasHalfForm(cs: seq<Entry>, signs: seq<SignEntry>, k: string, a: string)
    requires exists i :: 0 <= i < |cs| && cs[i].0 == k && a in cs[i].1
    requires forall i :: 0 <= i < |cs| && a in cs[i].1 ==> cs[i].0 == k
    requires forall line :: line in ComboRows(cs, signs) ==> line.Row? && line.roman != a
    ensures a in Output(cs, signs) && Output(cs, signs)[a] == k + Halant
  {
    var rows := HalfRows(cs) + ComboRows(cs, signs);
    var i :| 0 <= i < |cs| && cs[i].0 == k && a in cs[i].1;
    var j :| 0 <= j < |cs[i].1| && cs[i].1[j] == a;
    HalfRowsMembers(cs, Row(a, k + Halant));
    var n :| 0 <= n < |HalfRows(cs)| && HalfRows(cs)[n] == Row(a, k + Halant);
    assert Writes(rows, n, a);
    forall l | Writes(rows, l, a)
      ensures rows[l].devanagari == k + Halant
    {
      if l < |HalfRows(cs)| {
        var line := HalfRows(cs)[l];
        HalfRowsMembers(cs, line);
        var i', j' :| 0 <= i' < |cs| && 0 <= j' < |cs[i'].1| && line == Row(cs[i'].1[j'], cs[i'].0 + Halant);
        assert a in cs[i'].1;
      } else {
        assert rows[l] in ComboRows(cs, signs);
      }
    }
    UniformWrites(map[], rows, a, k + Halant);
  }

  /**
   * An alias-and-sign text that no alias spells, and that every
   * combination spelling it gives the same Devanagari, maps to that text.
   */
  lemma ComboForm(cs: seq<Entry>, signs: seq<SignEntry>, key: string, d: string)
    requires Row(key, d) in ComboRows(cs, signs)
    requires forall line :: line in ComboRows(cs, signs) && line.Row? && line.roman == key ==> line.devanagari == d
    requires !IsAlias(cs, key)
    ensures key in Output(cs, signs) && Output(cs, signs)[key] == d
  {
    var rows := HalfRows(cs) + ComboRows(cs, signs);
    var n :| 0 <= n < |ComboRows(cs, signs)| && ComboRows(cs, signs)[n] == Row(key, d);
    assert Writes(rows, |HalfRows(cs)| + n, key);
    forall l | Writes(rows, l, key)
      ensures rows[l].devanagari == d
    {
      if l < |HalfRows(cs)| {
        var line := HalfRows(cs)[l];
        HalfRowsMembers(cs, line);
        assert false;
      } else {
        assert rows[l] == ComboRows(cs, signs)[l - |HalfRows(cs)|];
      }
    }
    UniformWrites(map[], rows, key, d);
  }
}
