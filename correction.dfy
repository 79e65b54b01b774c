// The smart-correction rules that rewrite one romanised word before it is
// transliterated: the word-ending rules, then four left-to-right passes
// (nasal "ng", the optional anusvara '*', "ngg" gemination, and the
// retroflex/palatal nasals). Each pass is specified position by position
// on the word it starts from; the methods below perform the passes the way
// the engine does, rewriting the word in place while they scan it.

module Correction {
  import opened Bytes

  // ---------------------------------------------------------------------
  // Word endings

  const Ee: Bytes := [B('e'), B('e')]

  /** Byte `n` from the end, lower-cased (`n` = 0 is the last byte). */
  function Tail(w: Bytes, n: nat): byte
    requires n < |w|
  {
    ToLower(w[|w| - 1 - n])
  }

  /** The endings "hha", "kna", "hna", "rna", "ndra" and "ntra" keep their final 'a' single. */
  predicate ExemptEnding(e0: byte, e1: byte, e2: byte, e3: byte)
  {
    (e0 == B('a') && e1 == B('h') && e2 == B('h'))
    || (e0 == B('a') && e1 == B('n') && (e2 == B('k') || e2 == B('h') || e2 == B('r')))
    || (e0 == B('a') && e1 == B('r') && ((e2 == B('d') && e3 == B('n')) || (e2 == B('t') && e3 == B('n'))))
  }

  /** A final 'a' after 'm', or after a non-vowel other than 'y', with no 'e' two before it and a non-vowel three before it. */
  predicate LongFinalA(e0: byte, e1: byte, e2: byte, e3: byte)
  {
    e0 == B('a') && (e1 == B('m') || (!IsVowel(e1) && !IsVowel(e3) && e1 != B('y') && e2 != B('e')))
  }

  /**
   * The ending rules, for words longer than three bytes: a final 'y'
   * becomes "ee"; otherwise a final 'a' is doubled unless the ending is
   * exempt; then a final 'i' after a non-vowel (but not after "rr")
   * becomes "ee".
   */
  function EndingRules(w: Bytes): (r: Bytes)
    ensures r == w || r == w + [B('a')] || (|w| > 3 && r == w[..|w| - 1] + Ee)
  {
    if |w| <= 3 then w
    else
      var e0, e1, e2, e3 := Tail(w, 0), Tail(w, 1), Tail(w, 2), Tail(w, 3);
      var w1 :=
        if !IsVowel(e0) && e0 == B('y') then w[..|w| - 1] + Ee
        else if !ExemptEnding(e0, e1, e2, e3) && LongFinalA(e0, e1, e2, e3) then w + [B('a')]
        else w;
      if e0 == B('i') && !IsVowel(e1) && !(e1 == B('r') && e2 == B('r')) then w1[..|w1| - 1] + Ee
      else w1
  }

  /** The lower-cased last `|e|` bytes of `w` spell `e`. */
  predicate EndsIn(w: Bytes, e: string)
  {
    |e| <= |w| && forall j :: 0 <= j < |e| ==> Tail(w, j) as int == e[|e| - 1 - j] as int
  }

  /** The ending rules leave words of at most three bytes alone. */
  lemma EndingShortWord(w: Bytes)
    requires |w| <= 3
    ensures EndingRules(w) == w
  {
  }

  /** A final 'y' or 'Y' of a longer word becomes "ee". */
  lemma EndingY(w: Bytes)
    requires |w| > 3 && EndsIn(w, "y")
    ensures EndingRules(w) == w[..|w| - 1] + Ee
  {
    assert Tail(w, 0) == B('y');
  }

  /** A final 'i' after a non-vowel, not in "rri", becomes "ee". */
  lemma EndingI(w: Bytes)
    requires |w| > 3 && EndsIn(w, "i") && !IsVowel(w[|w| - 2]) && !EndsIn(w, "rri")
    ensures EndingRules(w) == w[..|w| - 1] + Ee
  {
    assert Tail(w, 0) == B('i');
    assert !IsVowel(Tail(w, 1));
    assert !(Tail(w, 1) == B('r') && Tail(w, 2) == B('r'));
  }

  /** The endings whose final 'a' is never doubled, stated as suffixes. */
  predicate ExemptSuffix(w: Bytes)
  {
    EndsIn(w, "hha") || EndsIn(w, "kna") || EndsIn(w, "hna") || EndsIn(w, "rna")
    || EndsIn(w, "ndra") || EndsIn(w, "ntra")
  }

  /** Lower-casing does not change whether a byte is a vowel. */
  lemma VowelLower(b: byte)
    ensures IsVowel(ToLower(b)) <==> IsVowel(b)
  {
  }

  /** `EndsIn` for a one-, two-, three- and four-byte ending, stated byte by byte. */
  lemma EndsInBytes(w: Bytes, e: string)
    requires 1 <= |e| <= 4
    ensures EndsIn(w, e) <==>
      (|e| <= |w| && Tail(w, 0) as int == e[|e| - 1] as int
       && (|e| >= 2 ==> Tail(w, 1) as int == e[|e| - 2] as int)
       && (|e| >= 3 ==> Tail(w, 2) as int == e[|e| - 3] as int)
       && (|e| >= 4 ==> Tail(w, 3) as int == e[|e| - 4] as int))
  {
  }

  /** The rules append an 'a' exactly when the final 'a' is long and its ending is not exempt. */
  lemma AppendsAExactly(w: Bytes)
    ensures EndingRules(w) == w + [B('a')] <==>
      |w| > 3 && !ExemptEnding(Tail(w, 0), Tail(w, 1), Tail(w, 2), Tail(w, 3))
      && LongFinalA(Tail(w, 0), Tail(w, 1), Tail(w, 2), Tail(w, 3))
  {
    if |w| > 3 && EndingRules(w) == w + [B('a')] {
      assert EndingRules(w)[|w|] == B('a');
    }
  }

  /**
   * A final 'a' is doubled exactly when the word is longer than three
   * bytes, its ending is not exempt, and the byte before the 'a' is 'm' or
   * a non-vowel other than 'y', the byte two before it is not 'e' and the
   * byte three before it is not a vowel.
   */
  lemma EndingDoublesA(w: Bytes)
    ensures EndingRules(w) == w + [B('a')] <==>
      |w| > 3 && EndsIn(w, "a") && !ExemptSuffix(w)
      && (EndsIn(w, "ma") || (!IsVowel(w[|w| - 2]) && !EndsIn(w, "ya") && ToLower(w[|w| - 3]) != B('e') && !IsVowel(w[|w| - 4])))
  {
    AppendsAExactly(w);
    if |w| > 3 {
      EndsInBytes(w, "a");
      ExemptSuffixTail(w);
      LongSuffixTail(w);
    }
  }

  /** The exempt suffixes are the exempt endings of the lower-cased last four bytes. */
  lemma ExemptSuffixTail(w: Bytes)
    requires |w| > 3
    ensures ExemptSuffix(w) <==> ExemptEnding(Tail(w, 0), Tail(w, 1), Tail(w, 2), Tail(w, 3))
  {
    ExemptThreeTail(w);
    ExemptFourTail(w);
  }

  lemma ExemptThreeTail(w: Bytes)
    requires |w| > 3
    ensures EndsIn(w, "hha") || EndsIn(w, "kna") || EndsIn(w, "hna") || EndsIn(w, "rna") <==>
      Tail(w, 0) == B('a') && ((Tail(w, 1) == B('h') && Tail(w, 2) == B('h'))
        || (Tail(w, 1) == B('n') && (Tail(w, 2) == B('k') || Tail(w, 2) == B('h') || Tail(w, 2) == B('r'))))
  {
    EndsInBytes(w, "hha");
    EndsInBytes(w, "kna");
    EndsInBytes(w, "hna");
    EndsInBytes(w, "rna");
  }

  lemma ExemptFourTail(w: Bytes)
    requires |w| > 3
    ensures EndsIn(w, "ndra") || EndsIn(w, "ntra") <==>
      Tail(w, 0) == B('a') && Tail(w, 1) == B('r') && (Tail(w, 2) == B('d') || Tail(w, 2) == B('t')) && Tail(w, 3) == B('n')
  {
    EndsInBytes(w, "ndra");
    EndsInBytes(w, "ntra");
  }

  /** The long-'a' condition, stated on the lower-cased last four bytes. */
  lemma LongSuffixTail(w: Bytes)
    requires |w| > 3
    ensures EndsIn(w, "a") && (EndsIn(w, "ma") || (!IsVowel(w[|w| - 2]) && !EndsIn(w, "ya") && ToLower(w[|w| - 3]) != B('e') && !IsVowel(w[|w| - 4])))
      <==> LongFinalA(Tail(w, 0), Tail(w, 1), Tail(w, 2), Tail(w, 3))
  {
    EndsInBytes(w, "a");
    EndsInBytes(w, "ma");
    EndsInBytes(w, "ya");
    VowelLower(w[|w| - 2]);
    VowelLower(w[|w| - 4]);
  }

  // ---------------------------------------------------------------------
  // The four scanning passes, position by position

  datatype Pass = Nasal | Anusvara | Geminate | Retroflex

  /** The consonants y, r, l, v, s and h, before which an 'm' becomes the anusvara marker. */
  predicate AnusvaraConsonant(b: byte)
  {
    b == B('y') || b == B('r') || b == B('l') || b == B('v') || b == B('s') || b == B('h')
  }

  /** The bytes of "ञ्": NYA (U+091E) followed by the halant, in UTF-8. */
  const Nya: Bytes := [0xE0, 0xA4, 0x9E, 0xE0, 0xA5, 0x8D]

  /** `Nya` is the UTF-8 encoding of U+091E followed by that of the halant U+094D. */
  lemma NyaEncoding()
    ensures Nya == Utf8Three(0x091E) + Halant()
  {
  }

  /** None of the bytes of "ञ्" is an ASCII 'n'. */
  lemma NyaHasNoN()
    ensures forall m :: 0 <= m < |Nya| ==> Nya[m] != B('n')
  {
    forall m | 0 <= m < |Nya| ensures Nya[m] != B('n') {
      if m == 0 {} else if m == 1 {} else if m == 2 {} else if m == 3 {} else if m == 4 {} else {}
    }
  }

  /** Whether the pass rewrites the byte at position `k` of the word it scans. */
  predicate Fires(p: Pass, w: Bytes, k: nat)
    requires k < |w|
  {
    match p
    case Nasal =>
      0 < k && k + 1 < |w| && ToLower(w[k]) == B('n')
      && (ToLower(w[k + 1]) == B('k') || ToLower(w[k + 1]) == B('g'))
    case Anusvara =>
      k + 1 < |w| && ToLower(w[k]) == B('m') && AnusvaraConsonant(ToLower(w[k + 1]))
    case Geminate =>
      3 <= k && k + 1 < |w| && w[k - 1] == B('n') && w[k] == B('g') && IsVowel(w[k + 1])
    case Retroflex =>
      w[k] == B('n') && k + 1 < |w|
      && ((w[k + 1] == B('T') || w[k + 1] == B('D'))
          || (w[k + 1] == B('c') && k + 2 < |w| && w[k + 2] == B('h') && !(k + 3 < |w| && w[k + 3] == B('h'))))
  }

  /** What a firing position becomes. */
  function Replacement(p: Pass, w: Bytes, k: nat): (r: Bytes)
    requires k < |w| && Fires(p, w, k)
    ensures |r| >= 2 || (|r| == 1 && r[0] != w[k])
  {
    match p
    case Nasal => [B('n'), B('g')]
    case Anusvara => [B('*')]
    case Geminate => [B('g'), B('g')]
    case Retroflex => if w[k + 1] == B('T') || w[k + 1] == B('D') then [B('N')] else Nya
  }

  /** The output of the pass for position `k`. */
  function Piece(p: Pass, w: Bytes, k: nat): (r: Bytes)
    requires k < |w|
  {
    if Fires(p, w, k) then Replacement(p, w, k) else [w[k]]
  }

  /** The output of the pass for positions `0 .. k - 1`. */
  function Prefix(p: Pass, w: Bytes, k: nat): (r: Bytes)
    requires k <= |w|
  {
    if k == 0 then [] else Prefix(p, w, k - 1) + Piece(p, w, k - 1)
  }

  /** The whole pass over `w`. */
  function Run(p: Pass, w: Bytes): Bytes
  {
    Prefix(p, w, |w|)
  }

  /** The complete correction of a word, with or without the anusvara rule. */
  function SmartCorrection(w: Bytes, anusvaraRule: bool): Bytes
  {
    var a := Run(Nasal, EndingRules(w));
    var b := if anusvaraRule then Run(Anusvara, a) else a;
    Run(Retroflex, Run(Geminate, b))
  }

  // ---------------------------------------------------------------------
  // Lemmas about the passes

  /** Where the rule does not fire, the pass copies the word through. */
  lemma {:induction false} CopiedRun(p: Pass, w: Bytes, k: nat, j: nat)
    requires k <= j <= |w|
    requires forall m :: k <= m < j ==> !Fires(p, w, m)
    decreases j
    ensures Prefix(p, w, j) == Prefix(p, w, k) + w[k..j]
  {
    if j > k {
      CopiedRun(p, w, k, j - 1);
      assert w[k..j] == w[k..j - 1] + [w[j - 1]];
    }
  }

  /** A longer prefix of the output extends a shorter one by at least one byte per position. */
  lemma {:induction false} PrefixExtends(p: Pass, w: Bytes, i: nat, j: nat)
    requires i <= j <= |w|
    decreases j
    ensures |Prefix(p, w, j)| >= |Prefix(p, w, i)| + (j - i)
    ensures Prefix(p, w, j)[..|Prefix(p, w, i)|] == Prefix(p, w, i)
  {
    if j > i {
      PrefixExtends(p, w, i, j - 1);
    }
  }

  /** A pass leaves the word unchanged exactly when its rule fires nowhere. */
  lemma RunUnchanged(p: Pass, w: Bytes)
    ensures Run(p, w) == w <==> forall k :: 0 <= k < |w| ==> !Fires(p, w, k)
  {
    if forall k :: 0 <= k < |w| ==> !Fires(p, w, k) {
      CopiedRun(p, w, 0, |w|);
    } else {
      var n :| 0 <= n < |w| && Fires(p, w, n);
      FirstFiring(p, w, n);
      var m :| 0 <= m <= n && Fires(p, w, m) && forall k :: 0 <= k < m ==> !Fires(p, w, k);
      FirstFiringChanges(p, w, m);
    }
  }

  /** The output up to and including the first firing position is the copied word and the replacement. */
  lemma FirstFiringPrefix(p: Pass, w: Bytes, m: nat)
    requires m < |w| && Fires(p, w, m) && forall k :: 0 <= k < m ==> !Fires(p, w, k)
    ensures Prefix(p, w, m + 1) == w[..m] + Replacement(p, w, m)
  {
    CopiedRun(p, w, 0, m);
  }

  /** Once the rule fires, the output differs from the word. */
  lemma FirstFiringChanges(p: Pass, w: Bytes, m: nat)
    requires m < |w| && Fires(p, w, m) && forall k :: 0 <= k < m ==> !Fires(p, w, k)
    ensures Run(p, w) != w
  {
    FirstFiringPrefix(p, w, m);
    var pre := Prefix(p, w, m + 1);
    var r := Replacement(p, w, m);
    PrefixExtends(p, w, m + 1, |w|);
    if |r| < 2 {
      assert Run(p, w)[m] == pre[m] == r[0];
    }
  }

  /** Where a rule fires at `n`, there is a first position where it fires. */
  lemma {:induction false} FirstFiring(p: Pass, w: Bytes, n: nat)
    requires n < |w| && Fires(p, w, n)
    decreases n
    ensures exists m :: 0 <= m <= n && Fires(p, w, m) && forall k :: 0 <= k < m ==> !Fires(p, w, k)
  {
    if exists k :: 0 <= k < n && Fires(p, w, k) {
      var k :| 0 <= k < n && Fires(p, w, k);
      FirstFiring(p, w, k);
    }
  }

  /** The anusvara pass keeps the length and overwrites each firing 'm' with '*'. */
  lemma {:induction false} AnusvaraInPlace(w: Bytes, k: nat)
    requires k <= |w|
    decreases k
    ensures |Prefix(Anusvara, w, k)| == k
    ensures forall j :: 0 <= j < k ==>
      Prefix(Anusvara, w, k)[j] == if Fires(Anusvara, w, j) then B('*') else w[j]
  {
    if k > 0 {
      AnusvaraInPlace(w, k - 1);
    }
  }

  /** The unscanned rest of the word sits right after the output so far. */
  lemma RestAt(p: Pass, w: Bytes, k: nat, word: Bytes, j: nat)
    requires k + j < |w| && word == Prefix(p, w, k) + w[k..]
    ensures word[|Prefix(p, w, k)| + j] == w[k + j]
  {
  }

  /** Scanning positions where the rule does not fire leaves the word as it is. */
  lemma {:induction false} SkipRun(p: Pass, w: Bytes, k: nat, j: nat, word: Bytes)
    requires k <= j <= |w| && word == Prefix(p, w, k) + w[k..]
    requires forall m :: k <= m < j ==> !Fires(p, w, m)
    decreases j - k
    ensures word == Prefix(p, w, j) + w[j..]
    ensures |Prefix(p, w, j)| == |Prefix(p, w, k)| + (j - k)
  {
    if k < j {
      StepCopy(p, w, k, word);
      SkipRun(p, w, k + 1, j, word);
    }
  }

  /** Scanning one position where the rule does not fire leaves the word as it is. */
  lemma StepCopy(p: Pass, w: Bytes, k: nat, word: Bytes)
    requires k < |w| && word == Prefix(p, w, k) + w[k..] && !Fires(p, w, k)
    ensures word == Prefix(p, w, k + 1) + w[k + 1..]
    ensures |Prefix(p, w, k + 1)| == |Prefix(p, w, k)| + 1
  {
    assert w[k..] == [w[k]] + w[k + 1..];
  }

  /** Scanning a firing position replaces its one byte by the replacement. */
  lemma StepReplace(p: Pass, w: Bytes, k: nat, word: Bytes)
    requires k < |w| && word == Prefix(p, w, k) + w[k..] && Fires(p, w, k)
    ensures var i := |Prefix(p, w, k)|;
      i < |word| && word[..i] + Replacement(p, w, k) + word[i + 1..] == Prefix(p, w, k + 1) + w[k + 1..]
    ensures |Prefix(p, w, k + 1)| == |Prefix(p, w, k)| + |Replacement(p, w, k)|
  {
    var i := |Prefix(p, w, k)|;
    assert word[..i] == Prefix(p, w, k);
    assert word[i + 1..] == w[k + 1..];
  }

  // ---------------------------------------------------------------------
  // The passes as the engine performs them

  const Ng: Bytes := [B('n'), B('g')]

  /** The nasal scan has passed positions `0 .. k - 1` and stands at index `i` of the word. */
  predicate NasalScanned(w: Bytes, k: nat, word: Bytes, i: nat)
  {
    k <= |w| && word == Prefix(Nasal, w, k) + w[k..] && i == |Prefix(Nasal, w, k)|
  }

  /** The engine's test at index `i`: a lower-cased 'n', not first and not last, before 'k' or 'g'. */
  predicate NasalAt(word: Bytes, i: nat)
  {
    i < |word| && ToLower(word[i]) == B('n') && i > 0 && i + 1 < |word|
    && (ToLower(word[i + 1]) == B('k') || ToLower(word[i + 1]) == B('g'))
  }

  /** At the scan point the engine's test is the rule. */
  lemma NasalTest(w: Bytes, k: nat, word: Bytes, i: nat)
    requires NasalScanned(w, k, word, i) && i < |word|
    ensures k < |w| && (NasalAt(word, i) <==> Fires(Nasal, w, k))
  {
    PrefixExtends(Nasal, w, 0, k);
    RestAt(Nasal, w, k, word, 0);
    if k + 1 < |w| {
      RestAt(Nasal, w, k, word, 1);
    }
  }

  /** Where the engine's test holds, writing "ng" over the 'n' is the rule's output. */
  lemma NasalFire(w: Bytes, k: nat, word: Bytes, i: nat)
    requires NasalScanned(w, k, word, i) && NasalAt(word, i)
    ensures NasalScanned(w, k + 1, word[..i] + [B('n'), B('g')] + word[i + 1..], i + 2)
  {
    NasalTest(w, k, word, i);
    StepReplace(Nasal, w, k, word);
  }

  /** Where the engine's test fails, the byte is copied. */
  lemma NasalCopy(w: Bytes, k: nat, word: Bytes, i: nat)
    requires NasalScanned(w, k, word, i) && i < |word| && !NasalAt(word, i)
    ensures NasalScanned(w, k + 1, word, i + 1)
  {
    NasalTest(w, k, word, i);
    StepCopy(Nasal, w, k, word);
  }

  /** The engine's edit at a nasal: "ng" replaces the 'n' and the scan moves past the inserted 'g'. */
  method NasalRewrite(ghost w: Bytes, ghost k: nat, word: Bytes, i: nat) returns (word': Bytes)
    requires NasalScanned(w, k, word, i) && NasalAt(word, i)
    ensures NasalScanned(w, k + 1, word', i + 2)
  {
    NasalFire(w, k, word, i);
    word' := word[..i] + [B('n'), B('g')] + word[i + 1..];
  }

  /** Each 'n' (either case), not first and not last, before 'k' or 'g' is replaced by "ng". */
  method RewriteNasals(w: Bytes) returns (word: Bytes)
    ensures word == Run(Nasal, w)
  {
    word := w;
    var i := 0;
    ghost var k: nat := 0;
    while i < |word|
      invariant NasalScanned(w, k, word, i)
      decreases |w| - k
    {
      if ToLower(word[i]) == B('n') && i > 0 && i + 1 < |word| {
        var next := ToLower(word[i + 1]);
        if next == B('k') || next == B('g') {
          word := NasalRewrite(w, k, word, i);
          i := i + 1;
        } else {
          NasalCopy(w, k, word, i);
        }
      } else {
        NasalCopy(w, k, word, i);
      }
      i := i + 1;
      k := k + 1;
    }
  }

  /** One position of the anusvara scan. */
  lemma AnusvaraStep(w: Bytes, k: nat, word: Bytes)
    requires k < |w| && word == Prefix(Anusvara, w, k) + w[k..] && |Prefix(Anusvara, w, k)| == k
    ensures |Prefix(Anusvara, w, k + 1)| == k + 1
    ensures if ToLower(word[k]) == B('m') && k + 1 < |word| && AnusvaraConsonant(ToLower(word[k + 1]))
      then word[k := B('*')] == Prefix(Anusvara, w, k + 1) + w[k + 1..]
      else word == Prefix(Anusvara, w, k + 1) + w[k + 1..]
  {
    RestAt(Anusvara, w, k, word, 0);
    if k + 1 < |w| { RestAt(Anusvara, w, k, word, 1); }
    if Fires(Anusvara, w, k) {
      StepReplace(Anusvara, w, k, word);
      assert word[..k] + [B('*')] + word[k + 1..] == word[k := B('*')];
    } else {
      StepCopy(Anusvara, w, k, word);
    }
  }

  /** Each 'm' (either case) before one of y, r, l, v, s, h is overwritten with '*'. */
  method RewriteAnusvara(w: Bytes) returns (word: Bytes)
    ensures word == Run(Anusvara, w)
  {
    word := w;
    var i := 0;
    while i < |word|
      invariant i <= |w| && |word| == |w|
      invariant word == Prefix(Anusvara, w, i) + w[i..]
      invariant |Prefix(Anusvara, w, i)| == i
    {
      AnusvaraStep(w, i, word);
      if ToLower(word[i]) == B('m') && i + 1 < |word| {
        if AnusvaraConsonant(ToLower(word[i + 1])) {
          word := word[i := B('*')];
        }
      }
      i := i + 1;
    }
  }

  /** `find` from a position where the pattern does not start is `find` from the next one. */
  lemma FindSkip(s: Bytes, pat: Bytes, from: nat)
    requires !MatchAt(s, pat, from)
    ensures Find(s, pat, from) == Find(s, pat, from + 1)
  {
  }

  /** "ng" does not start at a 'g'. */
  lemma NoNgAtG(s: Bytes, i: nat)
    requires i < |s| && s[i] == B('g')
    ensures !MatchAt(s, Ng, i)
  {
  }

  /** An "ng" in the unscanned rest of the word is found at the matching index of the whole. */
  lemma NgInRest(word: Bytes, pre: Bytes, w: Bytes, k: nat, j: nat)
    requires k <= j && j + 1 < |w| && word == pre + w[k..]
    ensures MatchAt(word, Ng, |pre| + (j - k)) <==> w[j] == B('n') && w[j + 1] == B('g')
  {
    var i := |pre| + (j - k);
    assert word[i] == w[j] && word[i + 1] == w[j + 1];
    assert word[i..i + 2] == [word[i], word[i + 1]];
  }

  /** An "ng" found in the unscanned rest of the word comes from an "ng" of the original word. */
  lemma NgOrigin(w: Bytes, k: nat, pre: Bytes, word: Bytes, pos: int) returns (q: nat)
    requires k <= |w| && word == pre + w[k..] && |pre| <= pos && MatchAt(word, Ng, pos)
    ensures q == k + (pos - |pre|) && q + 1 < |w| && w[q] == B('n') && w[q + 1] == B('g')
  {
    q := k + (pos - |pre|);
    assert word[pos..pos + 2] == Ng;
    assert word[pos] == Ng[0] && word[pos + 1] == Ng[1];
    assert word[pos] == w[q] && word[pos + 1] == w[q + 1];
  }

  /** With no "ng" found between the scan point and position `q`, the rule fires nowhere up to `q`. */
  lemma NoGeminateBefore(w: Bytes, k: nat, pre: Bytes, word: Bytes, q: nat)
    requires k <= q < |w| && (k == 0 || w[k - 1] != B('n')) && word == pre + w[k..]
    requires forall i :: |pre| <= i < |pre| + (q - k) ==> !MatchAt(word, Ng, i)
    ensures forall m :: k <= m <= q ==> !Fires(Geminate, w, m)
  {
    forall m | k < m <= q
      ensures !(w[m - 1] == B('n') && w[m] == B('g'))
    {
      NgInRest(word, pre, w, k, m - 1);
    }
  }

  /** The scan has passed positions `0 .. k - 1`, and the untouched rest of the word starts at `from`. */
  predicate GeminateScanned(w: Bytes, k: nat, word: Bytes, from: nat)
  {
    k <= |w| && (k == 0 || w[k - 1] != B('n'))
    && word == Prefix(Geminate, w, k) + w[k..] && from == |Prefix(Geminate, w, k)|
  }

  /** The engine's test at a found "ng": at index 2 or later, and followed by a vowel. */
  predicate GeminateAt(word: Bytes, pos: nat)
  {
    pos >= 2 && pos + 2 < |word| && IsVowel(word[pos + 2])
  }

  /** The engine's test at the found "ng" is the rule for its 'g'. */
  lemma GeminateTest(w: Bytes, q: nat, word: Bytes, pos: nat)
    requires q + 1 < |w| && w[q] == B('n') && w[q + 1] == B('g')
    requires word == Prefix(Geminate, w, q + 1) + w[q + 1..] && |Prefix(Geminate, w, q + 1)| == pos + 1
    ensures GeminateAt(word, pos) <==> Fires(Geminate, w, q + 1)
  {
    if q + 2 < |w| {
      RestAt(Geminate, w, q + 1, word, 1);
    }
    if q < 2 {
      SkipRun(Geminate, w, 0, q + 1, Prefix(Geminate, w, 0) + w);
    } else {
      PrefixExtends(Geminate, w, 0, q + 1);
    }
  }

  /**
   * The next "ng" that `find` reports lies at original position `q`: the
   * positions up to and including its 'n' are copied, and the engine's
   * test at `pos` is the rule for the 'g' at `q + 1`.
   */
  lemma GeminateLocate(w: Bytes, k: nat, word: Bytes, from: nat, pos: int) returns (q: nat)
    requires GeminateScanned(w, k, word, from)
    requires pos != -1 && pos == Find(word, Ng, from)
    ensures 0 <= pos && k <= q && q + 1 < |w| && w[q] == B('n') && w[q + 1] == B('g')
    ensures word == Prefix(Geminate, w, q + 1) + w[q + 1..]
    ensures |Prefix(Geminate, w, q + 1)| == pos + 1
    ensures GeminateAt(word, pos) <==> Fires(Geminate, w, q + 1)
  {
    var pre := Prefix(Geminate, w, k);
    FindFirst(word, Ng, from);
    q := NgOrigin(w, k, pre, word, pos);
    NoGeminateBefore(w, k, pre, word, q);
    SkipRun(Geminate, w, k, q + 1, word);
    GeminateTest(w, q, word, pos);
  }

  /** A found "ng" that passes the engine's test: rewriting it to "ngg" is the rule's output for its 'g'. */
  lemma GeminateFire(w: Bytes, k: nat, word: Bytes, from: nat, pos: int) returns (k': nat)
    requires GeminateScanned(w, k, word, from)
    requires pos != -1 && pos == Find(word, Ng, from) && GeminateAt(word, pos)
    ensures k < k'
    ensures GeminateScanned(w, k', word[..pos] + [B('n'), B('g'), B('g')] + word[pos + 2..], pos + 3)
  {
    var q := GeminateLocate(w, k, word, from, pos);
    GeminateReplaced(w, q, word, pos);
    k' := q + 2;
  }

  /** The rule fires for the 'g' at `q + 1`, whose output is the engine's "ngg" in place of "ng" at `pos`. */
  lemma GeminateReplaced(w: Bytes, q: nat, word: Bytes, pos: nat)
    requires q + 1 < |w| && w[q] == B('n') && w[q + 1] == B('g')
    requires word == Prefix(Geminate, w, q + 1) + w[q + 1..] && |Prefix(Geminate, w, q + 1)| == pos + 1
    requires Fires(Geminate, w, q + 1)
    ensures GeminateScanned(w, q + 2, word[..pos] + [B('n'), B('g'), B('g')] + word[pos + 2..], pos + 3)
  {
    StepReplace(Geminate, w, q + 1, word);
    assert word[..pos] + [B('n'), B('g'), B('g')] == word[..pos + 1] + [B('g'), B('g')];
  }

  /** A found "ng" that fails the engine's test is copied, and searching on from its 'g' skips the 'g'. */
  lemma GeminateSkip(w: Bytes, k: nat, word: Bytes, from: nat, pos: int) returns (k': nat)
    requires GeminateScanned(w, k, word, from)
    requires pos != -1 && pos == Find(word, Ng, from) && !GeminateAt(word, pos)
    ensures k < k'
    ensures GeminateScanned(w, k', word, pos + 2)
    ensures Find(word, Ng, pos + 1) == Find(word, Ng, pos + 2)
  {
    var q := GeminateLocate(w, k, word, from, pos);
    GeminateCopied(w, q, word, pos);
    k' := q + 2;
  }

  /** The rule does not fire for the 'g' at `q + 1`: it is copied, and no "ng" starts at it. */
  lemma GeminateCopied(w: Bytes, q: nat, word: Bytes, pos: nat)
    requires q + 1 < |w| && w[q] == B('n') && w[q + 1] == B('g')
    requires word == Prefix(Geminate, w, q + 1) + w[q + 1..] && |Prefix(Geminate, w, q + 1)| == pos + 1
    requires !Fires(Geminate, w, q + 1)
    ensures GeminateScanned(w, q + 2, word, pos + 2)
    ensures Find(word, Ng, pos + 1) == Find(word, Ng, pos + 2)
  {
    StepCopy(Geminate, w, q + 1, word);
    assert word[pos + 1] == w[q + 1];
    NoNgAtG(word, pos + 1);
    FindSkip(word, Ng, pos + 1);
  }

  /** When `find` reports no further "ng", the rest of the word is copied. */
  lemma GeminateDone(w: Bytes, k: nat, word: Bytes, from: nat)
    requires GeminateScanned(w, k, word, from) && Find(word, Ng, from) == -1
    ensures word == Run(Geminate, w)
  {
    FindFirst(word, Ng, from);
    forall j | k <= j < |w| ensures !Fires(Geminate, w, j) {
      if j > k && j + 1 < |w| {
        NgInRest(word, Prefix(Geminate, w, k), w, k, j - 1);
      }
    }
    SkipRun(Geminate, w, k, |w|, word);
  }

  /** The engine's edit at a found "ng" that passes its test: "ng" becomes "ngg" and the search resumes after it. */
  method GeminateRewrite(ghost w: Bytes, ghost k: nat, word: Bytes, ghost from: nat, pos: int)
    returns (word': Bytes, ghost k': nat, ghost from': nat, pos': int)
    requires GeminateScanned(w, k, word, from) && pos != -1 && pos == Find(word, Ng, from) && GeminateAt(word, pos)
    ensures GeminateScanned(w, k', word', from') && pos' == Find(word', Ng, from') && k < k'
  {
    k' := GeminateFire(w, k, word, from, pos);
    word' := word[..pos] + [B('n'), B('g'), B('g')] + word[pos + 2..];
    from' := pos + 3;
    pos' := Find(word', Ng, pos + 3);
  }

  /** The engine's step past a found "ng" that fails its test: the search resumes at its 'g'. */
  method GeminatePass(ghost w: Bytes, ghost k: nat, word: Bytes, ghost from: nat, pos: int)
    returns (ghost k': nat, ghost from': nat, pos': int)
    requires GeminateScanned(w, k, word, from) && pos != -1 && pos == Find(word, Ng, from) && !GeminateAt(word, pos)
    ensures GeminateScanned(w, k', word, from') && pos' == Find(word, Ng, from') && k < k'
  {
    k' := GeminateSkip(w, k, word, from, pos);
    from' := pos + 2;
    pos' := Find(word, Ng, pos + 1);
  }

  /** Each "ng" at index 2 or later and followed by a vowel becomes "ngg", found by repeated `find`. */
  method RewriteGeminates(w: Bytes) returns (word: Bytes)
    ensures word == Run(Geminate, w)
  {
    word := w;
    ghost var k: nat := 0;
    ghost var from: nat := 0;
    var pos := Find(word, Ng, 0);
    while pos != -1
      invariant GeminateScanned(w, k, word, from) && pos == Find(word, Ng, from)
      decreases |w| - k
    {
      if pos >= 2 && pos + 2 < |word| && IsVowel(word[pos + 2]) {
        word, k, from, pos := GeminateRewrite(w, k, word, from, pos);
      } else {
        k, from, pos := GeminatePass(w, k, word, from, pos);
      }
    }
    GeminateDone(w, k, word, from);
  }

  /**
   * The retroflex scan has passed positions `0 .. k - 1` and stands at
   * index `i`, which is the end of their output or, after a "ञ्" was
   * written, at most four bytes before it, inside the "ञ्".
   */
  predicate RetroflexScanned(w: Bytes, k: nat, word: Bytes, i: nat)
  {
    k <= |w| && word == Prefix(Retroflex, w, k) + w[k..]
    && i <= |Prefix(Retroflex, w, k)| <= i + 4
    && (i < |Prefix(Retroflex, w, k)| ==>
          6 <= |Prefix(Retroflex, w, k)| && word[|Prefix(Retroflex, w, k)| - 6..|Prefix(Retroflex, w, k)|] == Nya)
  }

  /** The engine's test at index `i`: an 'n' before 'T' or 'D', or before "ch" not followed by 'h'. */
  predicate RetroflexAt(word: Bytes, i: nat)
  {
    i < |word| && word[i] == B('n') && i + 1 < |word|
    && ((word[i + 1] == B('T') || word[i + 1] == B('D'))
        || (word[i + 1] == B('c') && i + 2 < |word| && word[i + 2] == B('h') && !(i + 3 < |word| && word[i + 3] == B('h'))))
  }

  /** An 'n' the scan meets is never inside a "ञ्" it wrote. */
  lemma RetroflexAtNext(w: Bytes, k: nat, word: Bytes, i: nat)
    requires RetroflexScanned(w, k, word, i) && i < |word| && word[i] == B('n')
    ensures i == |Prefix(Retroflex, w, k)| && k < |w|
  {
    NyaHasNoN();
  }

  /** At the end of the output so far, the engine's test is the rule. */
  lemma RetroflexTest(w: Bytes, k: nat, word: Bytes, i: nat)
    requires RetroflexScanned(w, k, word, i) && i == |Prefix(Retroflex, w, k)| && k < |w|
    ensures RetroflexAt(word, i) <==> Fires(Retroflex, w, k)
  {
    RestAt(Retroflex, w, k, word, 0);
    if k + 1 < |w| { RestAt(Retroflex, w, k, word, 1); }
    if k + 2 < |w| { RestAt(Retroflex, w, k, word, 2); }
    if k + 3 < |w| { RestAt(Retroflex, w, k, word, 3); }
  }

  /** An 'n' before 'T' or 'D' becomes 'N', and the scan moves past the 'T' or 'D', which the rule copies. */
  lemma RetroflexFireN(w: Bytes, k: nat, word: Bytes, i: nat)
    requires RetroflexScanned(w, k, word, i) && RetroflexAt(word, i) && (word[i + 1] == B('T') || word[i + 1] == B('D'))
    ensures k + 2 <= |w| && RetroflexScanned(w, k + 2, word[..i] + [B('N')] + word[i + 1..], i + 2)
  {
    RetroflexAtNext(w, k, word, i);
    RetroflexTest(w, k, word, i);
    RestAt(Retroflex, w, k, word, 1);
    StepReplace(Retroflex, w, k, word);
    StepCopy(Retroflex, w, k + 1, word[..i] + [B('N')] + word[i + 1..]);
  }

  /** An 'n' before "ch" not followed by 'h' becomes "ञ्", and the scan moves two bytes into it. */
  lemma RetroflexFireNya(w: Bytes, k: nat, word: Bytes, i: nat)
    requires RetroflexScanned(w, k, word, i) && RetroflexAt(word, i) && !(word[i + 1] == B('T') || word[i + 1] == B('D'))
    ensures RetroflexScanned(w, k + 1, word[..i] + Nya + word[i + 1..], i + 2)
  {
    RetroflexAtNext(w, k, word, i);
    RetroflexTest(w, k, word, i);
    RestAt(Retroflex, w, k, word, 1);
    StepReplace(Retroflex, w, k, word);
    SpliceMiddle(word[..i], Nya, word[i + 1..]);
  }

  /** Where the engine's test fails, the scan moves one byte on; at the end of the output that copies one position. */
  lemma RetroflexCopy(w: Bytes, k: nat, word: Bytes, i: nat) returns (k': nat)
    requires RetroflexScanned(w, k, word, i) && i < |word| && !RetroflexAt(word, i)
    ensures RetroflexScanned(w, k', word, i + 1)
    ensures k < k' || (k == k' && i < |Prefix(Retroflex, w, k)|)
  {
    if i < |Prefix(Retroflex, w, k)| {
      k' := k;
    } else {
      RetroflexTest(w, k, word, i);
      StepCopy(Retroflex, w, k, word);
      k' := k + 1;
    }
  }

  /** When the scan has run off the end of the word, the whole word has been scanned. */
  lemma RetroflexDone(w: Bytes, k: nat, word: Bytes, i: nat)
    requires RetroflexScanned(w, k, word, i) && |word| <= i
    ensures word == Run(Retroflex, w)
  {
  }

  /** The engine's edit at an 'n' before 'T' or 'D'. */
  method RetroflexRewriteN(ghost w: Bytes, ghost k: nat, word: Bytes, i: nat) returns (word': Bytes)
    requires RetroflexScanned(w, k, word, i) && RetroflexAt(word, i) && (word[i + 1] == B('T') || word[i + 1] == B('D'))
    ensures k + 2 <= |w| && RetroflexScanned(w, k + 2, word', i + 2)
  {
    RetroflexFireN(w, k, word, i);
    word' := word[..i] + [B('N')] + word[i + 1..];
  }

  /** The engine's edit at an 'n' before "ch" not followed by 'h'. */
  method RetroflexRewriteNya(ghost w: Bytes, ghost k: nat, word: Bytes, i: nat) returns (word': Bytes)
    requires RetroflexScanned(w, k, word, i) && RetroflexAt(word, i) && !(word[i + 1] == B('T') || word[i + 1] == B('D'))
    ensures k + 1 <= |w| && RetroflexScanned(w, k + 1, word', i + 2)
  {
    RetroflexFireNya(w, k, word, i);
    word' := word[..i] + Nya + word[i + 1..];
  }

  /** Each 'n' before 'T' or 'D' becomes 'N'; each 'n' before "ch" not followed by 'h' becomes "ञ्". */
  method RewriteRetroflex(w: Bytes) returns (word: Bytes)
    ensures word == Run(Retroflex, w)
  {
    word := w;
    var i: nat := 0;
    ghost var k: nat := 0;
    while i < |word|
      invariant RetroflexScanned(w, k, word, i)
      decreases |w| - k, |Prefix(Retroflex, w, k)| - i
    {
      word, k, i := RetroflexStep(w, k, word, i);
    }
    RetroflexDone(w, k, word, i);
  }

  /** One pass of the retroflex loop at index `i`. */
  method RetroflexStep(ghost w: Bytes, ghost k: nat, word: Bytes, i: nat) returns (word': Bytes, ghost k': nat, i': nat)
    requires RetroflexScanned(w, k, word, i) && i < |word|
    ensures RetroflexScanned(w, k', word', i')
    ensures k < k' <= |w| || (k' == k && i' == i + 1 && i' <= |Prefix(Retroflex, w, k)|)
  {
    word' := word;
    if word[i] == B('n') && i + 1 < |word| {
      var next := word[i + 1];
      if next == B('T') || next == B('D') {
        word' := RetroflexRewriteN(w, k, word, i);
        k' := k + 2;
        i' := i + 2;
        return;
      } else if next == B('c') && i + 2 < |word| && word[i + 2] == B('h') {
        if !(i + 3 < |word| && word[i + 3] == B('h')) {
          word' := RetroflexRewriteNya(w, k, word, i);
          k' := k + 1;
          i' := i + 2;
          return;
        }
      }
    }
    k' := RetroflexCopy(w, k, word, i);
    i' := i + 1;
  }

  /** `applySmartCorrection`: the ending rules, then the passes in the engine's order. */
  method ApplySmartCorrection(input: Bytes, anusvaraRule: bool) returns (word: Bytes)
    ensures word == SmartCorrection(input, anusvaraRule)
  {
    word := EndingRules(input);
    word := RewriteNasals(word);
    if anusvaraRule {
      word := RewriteAnusvara(word);
    }
    word := RewriteGeminates(word);
    word := RewriteRetroflex(word);
  }
}
