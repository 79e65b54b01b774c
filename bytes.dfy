// Byte strings as the C++ core sees them: `std::string` is a sequence of
// bytes, compared and searched byte by byte. The character tests are the
// C library's tests in the "C" locale, so only ASCII letters and digits
// count; every byte at or above 0x80 is neither a letter nor a digit.

module Bytes {

  newtype byte = b: int | 0 <= b < 256

  type Bytes = seq<byte>

  datatype Option<T> = None | Some(value: T)

  /** The byte of an ASCII (or Latin-1) character literal. */
  function B(c: char): (r: byte)
    requires c as int < 256
    ensures r as int == c as int
  {
    c as int as byte
  }

  predicate IsAsciiText(s: string)
  {
    forall i :: 0 <= i < |s| ==> s[i] as int < 128
  }

  /** The bytes of an ASCII string literal. */
  function Ascii(s: string): (r: Bytes)
    requires IsAsciiText(s)
    ensures |r| == |s|
    ensures forall i :: 0 <= i < |s| ==> r[i] as int == s[i] as int
  {
    seq(|s|, i requires 0 <= i < |s| => s[i] as int as byte)
  }

  /** A character absent from an ASCII text is absent from its bytes. */
  lemma AsciiAvoids(s: string, c: char)
    requires IsAsciiText(s) && c as int < 256 && c !in s
    ensures B(c) !in Ascii(s)
  {
    var r := Ascii(s);
    forall i | 0 <= i < |r| ensures r[i] != B(c) {
      assert s[i] != c;
    }
  }

  // ---------------------------------------------------------------------
  // <cctype> in the "C" locale

  predicate IsDigit(b: byte) { 0x30 <= b <= 0x39 }
  predicate IsUpper(b: byte) { 0x41 <= b <= 0x5A }
  predicate IsLower(b: byte) { 0x61 <= b <= 0x7A }
  predicate IsAlpha(b: byte) { IsUpper(b) || IsLower(b) }
  predicate IsAlnum(b: byte) { IsAlpha(b) || IsDigit(b) }

  function ToLower(b: byte): (r: byte)
    ensures IsUpper(b) ==> r as int == b as int + 32
    ensures !IsUpper(b) ==> r == b
    ensures !IsUpper(r)
  {
    if IsUpper(b) then b + 32 else b
  }

  /** `isVowel`: the lower-cased byte is one of "aeiou". */
  predicate IsVowel(b: byte)
  {
    var l := ToLower(b);
    l == B('a') || l == B('e') || l == B('i') || l == B('o') || l == B('u')
  }

  // ---------------------------------------------------------------------
  // UTF-8 (RFC 3629, section 3): a code point in U+0800..U+FFFF takes
  // three bytes 1110xxxx 10xxxxxx 10xxxxxx.

  function Utf8Three(cp: int): (r: Bytes)
    requires 0x800 <= cp <= 0xFFFF
    ensures |r| == 3
    ensures 0xE0 <= r[0] <= 0xEF && 0x80 <= r[1] <= 0xBF && 0x80 <= r[2] <= 0xBF
    ensures ((r[0] as int - 0xE0) * 0x40 + (r[1] as int - 0x80)) * 0x40 + (r[2] as int - 0x80) == cp
  {
    var q := cp / 0x40;
    assert cp == q * 0x40 + cp % 0x40;
    assert q == (q / 0x40) * 0x40 + q % 0x40;
    [(0xE0 + q / 0x40) as byte, (0x80 + q % 0x40) as byte, (0x80 + cp % 0x40) as byte]
  }

  /** A continuation byte 10xxxxxx within [lo, hi]. */
  predicate Tail(b: byte, lo: byte, hi: byte)
  {
    lo <= b <= hi
  }

  /**
   * The length of the well-formed UTF-8 character that starts `s`, or 0 when
   * `s` does not start with one (the UTF8-char rule of RFC 3629, section 4).
   */
  function CharLength(s: Bytes): (r: nat)
    ensures r <= |s| && r <= 4
  {
    if s == [] then 0
    else if s[0] <= 0x7F then 1
    else if 0xC2 <= s[0] <= 0xDF then
      (if |s| >= 2 && Tail(s[1], 0x80, 0xBF) then 2 else 0)
    else if 0xE0 <= s[0] <= 0xEF then
      var lo: byte := if s[0] == 0xE0 then 0xA0 else 0x80;
      var hi: byte := if s[0] == 0xED then 0x9F else 0xBF;
      (if |s| >= 3 && Tail(s[1], lo, hi) && Tail(s[2], 0x80, 0xBF) then 3 else 0)
    else if 0xF0 <= s[0] <= 0xF4 then
      var lo: byte := if s[0] == 0xF0 then 0x90 else 0x80;
      var hi: byte := if s[0] == 0xF4 then 0x8F else 0xBF;
      (if |s| >= 4 && Tail(s[1], lo, hi) && Tail(s[2], 0x80, 0xBF) && Tail(s[3], 0x80, 0xBF) then 4 else 0)
    else 0
  }

  /** `s` is a sequence of well-formed UTF-8 characters (RFC 3629, section 4). */
  predicate ValidUtf8(s: Bytes)
    decreases |s|
  {
    s == [] || (CharLength(s) > 0 && ValidUtf8(s[CharLength(s)..]))
  }

  /** The three-byte encoder produces a well-formed character for every code point outside the surrogates. */
  lemma Utf8ThreeValid(cp: int)
    requires 0x800 <= cp <= 0xFFFF && !(0xD800 <= cp <= 0xDFFF)
    ensures CharLength(Utf8Three(cp)) == 3
    ensures ValidUtf8(Utf8Three(cp))
  {
    var r := Utf8Three(cp);
    assert r[3..] == [];
  }

  /** The first character of `a` is the first character of `a + b`. */
  lemma CharLengthExtends(a: Bytes, b: Bytes)
    requires CharLength(a) > 0
    ensures CharLength(a + b) == CharLength(a)
  {
    var k := CharLength(a);
    assert forall j :: 0 <= j < k ==> (a + b)[j] == a[j];
  }

  /** Well-formed text stays well-formed when more well-formed text follows. */
  lemma {:induction false} ValidUtf8Concat(a: Bytes, b: Bytes)
    requires ValidUtf8(a) && ValidUtf8(b)
    decreases |a|
    ensures ValidUtf8(a + b)
  {
    if a != [] {
      var k := CharLength(a);
      CharLengthExtends(a, b);
      var rest := a[k..];
      assert (a + b)[k..] == rest + b;
      ValidUtf8Concat(rest, b);
    } else {
      assert a + b == b;
    }
  }

  /** DEVANAGARI SIGN VIRAMA (halant), U+094D. */
  const HalantCodePoint := 0x094D

  function Halant(): (r: Bytes)
    ensures r == [0xE0, 0xA5, 0x8D]
  {
    Utf8Three(HalantCodePoint)
  }

  predicate EndsWithHalant(s: Bytes)
  {
    |s| >= 3 && s[|s| - 3..] == Halant()
  }

  // ---------------------------------------------------------------------
  // Searching

  /** The pattern occurs in `s` starting at index `i`. */
  predicate MatchAt(s: Bytes, pat: Bytes, i: int)
  {
    0 <= i && i + |pat| <= |s| && s[i..i + |pat|] == pat
  }

  /**
   * `std::string::find(pat, from)`: the first index at or after `from`
   * where `pat` occurs, or -1 for `npos`.
   */
  function Find(s: Bytes, pat: Bytes, from: nat): (r: int)
    decreases |s| - from
    ensures r == -1 || (from <= r && r + |pat| <= |s|)
  {
    if from + |pat| > |s| then -1
    else if s[from..from + |pat|] == pat then from
    else Find(s, pat, from + 1)
  }

  /** The pattern occurs nowhere in `s`. */
  ghost predicate Absent(s: Bytes, pat: Bytes)
  {
    forall i :: !MatchAt(s, pat, i)
  }

  // ---------------------------------------------------------------------
  // Splitting and joining

  /** Index of the first `d` in `s`, or |s| when there is none. */
  function IndexOf(s: Bytes, d: byte): (r: nat)
    ensures r <= |s|
    ensures r < |s| ==> s[r] == d
    ensures forall i :: 0 <= i < r ==> s[i] != d
  {
    if s == [] then 0 else if s[0] == d then 0 else 1 + IndexOf(s[1..], d)
  }

  /** All pieces of `s` between occurrences of `d`; never empty. */
  function Pieces(s: Bytes, d: byte): (r: seq<Bytes>)
    decreases |s|
    ensures |r| >= 1
    ensures forall k :: 0 <= k < |r| ==> d !in r[k]
  {
    var i := IndexOf(s, d);
    if i == |s| then [s] else [s[..i]] + Pieces(s[i + 1..], d)
  }

  /**
   * The pieces `std::getline(stream, piece, d)` yields one after another:
   * the text between delimiters, except that a final empty piece (after a
   * trailing delimiter, or of an empty input) is not produced.
   */
  function Split(s: Bytes, d: byte): (r: seq<Bytes>)
    ensures forall k :: 0 <= k < |r| ==> d !in r[k]
  {
    var p := Pieces(s, d);
    if p[|p| - 1] == [] then p[..|p| - 1] else p
  }

  /** The non-empty elements of `ps`, in order. */
  function NonEmpty(ps: seq<Bytes>): (r: seq<Bytes>)
    ensures |r| <= |ps|
    ensures forall k :: 0 <= k < |r| ==> r[k] != [] && r[k] in ps
  {
    if ps == [] then []
    else if ps[|ps| - 1] == [] then NonEmpty(ps[..|ps| - 1])
    else NonEmpty(ps[..|ps| - 1]) + [ps[|ps| - 1]]
  }

  /** The words of `ws` with one `sep` between neighbours. */
  function Join(ws: seq<Bytes>, sep: Bytes): (r: Bytes)
  {
    if ws == [] then []
    else if |ws| == 1 then ws[0]
    else Join(ws[..|ws| - 1], sep) + sep + ws[|ws| - 1]
  }

  /** Concatenation of all elements. */
  function Concat(ws: seq<Bytes>): (r: Bytes)
  {
    if ws == [] then [] else Concat(ws[..|ws| - 1]) + ws[|ws| - 1]
  }

  // ---------------------------------------------------------------------
  // Lemmas about splitting

  /** Pieces of a string with a delimiter at `|a|`. */
  lemma {:induction false} PiecesAppend(a: Bytes, d: byte, b: Bytes)
    requires d !in a
    ensures Pieces(a + [d] + b, d) == [a] + Pieces(b, d)
  {
    var s := a + [d] + b;
    assert s[|a|] == d;
    IndexOfFirst(s, d, |a|);
    assert s[..|a|] == a;
    assert s[|a| + 1..] == b;
  }

  lemma IndexOfFirst(s: Bytes, d: byte, i: nat)
    requires i < |s| && s[i] == d && forall j :: 0 <= j < i ==> s[j] != d
    ensures IndexOf(s, d) == i
  {
  }

  lemma PiecesNoDelimiter(s: Bytes, d: byte)
    requires d !in s
    ensures Pieces(s, d) == [s]
  {
  }

  /** Joining pieces with the delimiter gives back the string. */
  lemma {:induction false} JoinPieces(s: Bytes, d: byte)
    decreases |s|
    ensures Join(Pieces(s, d), [d]) == s
  {
    var i := IndexOf(s, d);
    if i < |s| {
      var rest := s[i + 1..];
      assert s == s[..i] + [d] + rest;
      PiecesAppend(s[..i], d, rest);
      JoinPieces(rest, d);
      JoinCons(s[..i], Pieces(rest, d), [d]);
    }
  }

  /** Join of a list with a new first element. */
  lemma {:induction false} JoinCons(w: Bytes, ws: seq<Bytes>, sep: Bytes)
    requires ws != []
    decreases |ws|
    ensures Join([w] + ws, sep) == w + sep + Join(ws, sep)
  {
    if |ws| == 1 {
      assert ([w] + ws)[..1] == [w];
    } else {
      var front := ws[..|ws| - 1];
      assert ([w] + ws)[..|ws|] == [w] + front;
      JoinCons(w, front, sep);
    }
  }

  lemma NonEmptyAppend(ps: seq<Bytes>, p: Bytes)
    ensures NonEmpty(ps + [p]) == if p == [] then NonEmpty(ps) else NonEmpty(ps) + [p]
  {
    assert (ps + [p])[..|ps|] == ps;
  }

  lemma {:induction false} NonEmptyConcat(ps: seq<Bytes>, qs: seq<Bytes>)
    decreases |qs|
    ensures NonEmpty(ps + qs) == NonEmpty(ps) + NonEmpty(qs)
  {
    if qs != [] {
      var front := qs[..|qs| - 1];
      var last := qs[|qs| - 1];
      assert ps + qs == (ps + front) + [last];
      assert qs == front + [last];
      NonEmptyAppend(ps + front, last);
      NonEmptyAppend(front, last);
      NonEmptyConcat(ps, front);
      if last == [] {
        calc {
          NonEmpty(ps + qs);
          NonEmpty(ps + front);
          NonEmpty(ps) + NonEmpty(front);
        }
      } else {
        calc {
          NonEmpty(ps + qs);
          NonEmpty(ps + front) + [last];
          NonEmpty(ps) + NonEmpty(front) + [last];
        }
      }
    } else {
      assert ps + qs == ps;
    }
  }

  /** A trailing empty piece never survives `NonEmpty`, so `Split` loses nothing. */
  lemma NonEmptySplit(s: Bytes, d: byte)
    ensures NonEmpty(Split(s, d)) == NonEmpty(Pieces(s, d))
  {
    var p := Pieces(s, d);
    if p[|p| - 1] == [] {
      NonEmptyDropLast(p);
    }
  }

  lemma NonEmptyDropLast(p: seq<Bytes>)
    requires p != [] && p[|p| - 1] == []
    ensures NonEmpty(p[..|p| - 1]) == NonEmpty(p)
  {
    assert p == p[..|p| - 1] + [p[|p| - 1]];
    NonEmptyAppend(p[..|p| - 1], []);
  }

  /** Splitting the join of delimiter-free words recovers the non-empty ones. */
  lemma {:induction false} PiecesOfJoin(ws: seq<Bytes>, d: byte)
    requires ws != []
    requires forall k :: 0 <= k < |ws| ==> d !in ws[k]
    decreases |ws|
    ensures Pieces(Join(ws, [d]), d) == ws
  {
    if |ws| == 1 {
      PiecesNoDelimiter(ws[0], d);
    } else {
      var rest := ws[1..];
      assert ws == [ws[0]] + rest;
      JoinCons(ws[0], rest, [d]);
      PiecesOfJoin(rest, d);
      PiecesAppend(ws[0], d, Join(rest, [d]));
    }
  }

  /** Splitting the join of delimiter-free lines, the last one non-empty, recovers them. */
  lemma SplitOfJoin(ws: seq<Bytes>, d: byte)
    requires ws != [] && ws[|ws| - 1] != []
    requires forall k :: 0 <= k < |ws| ==> d !in ws[k]
    ensures Split(Join(ws, [d]), d) == ws
  {
    PiecesOfJoin(ws, d);
  }

  /** The non-empty pieces of `a`, a delimiter and `b` are those of `a` followed by those of `b`. */
  lemma NonEmptySplitCons(a: Bytes, d: byte, b: Bytes)
    requires d !in a
    ensures NonEmpty(Split(a + [d] + b, d)) == NonEmpty([a]) + NonEmpty(Split(b, d))
  {
    NonEmptySplit(a + [d] + b, d);
    PiecesAppend(a, d, b);
    NonEmptyConcat([a], Pieces(b, d));
    NonEmptySplit(b, d);
  }

  lemma NonEmptySingle(a: Bytes)
    ensures NonEmpty([a]) == if a == [] then [] else [a]
  {
    var one: seq<Bytes> := [a];
    assert one[..0] == [];
  }

  /** Two delimiters in a row split like one: the empty piece between them is dropped. */
  lemma SplitDoubleDelimiter(a: Bytes, d: byte, b: Bytes)
    requires d !in a
    ensures NonEmpty(Split(a + [d, d] + b, d)) == NonEmpty(Split(a + [d] + b, d))
  {
    var b1 := [d] + b;
    assert a + [d, d] + b == a + [d] + b1;
    assert [] + [d] + b == b1;
    NonEmptySplitCons(a, d, b1);
    NonEmptySplitCons([], d, b);
    NonEmptySplitCons(a, d, b);
    NonEmptySingle([]);
    assert NonEmpty(Split(b1, d)) == NonEmpty(Split(b, d));
  }

  /** Two non-empty delimiter-free words around one delimiter split into exactly those words. */
  lemma SplitTwo(a: Bytes, d: byte, b: Bytes)
    requires a != [] && b != [] && d !in a && d !in b
    ensures NonEmpty(Split(a + [d] + b, d)) == [a, b]
  {
    assert NonEmpty(Split(b, d)) == [b] by { SplitWhole(b, d); }
    assert NonEmpty([a]) == [a] by { NonEmptySingle(a); }
    NonEmptySplitCons(a, d, b);
    assert [a] + [b] == [a, b];
  }

  /** A non-empty word without the delimiter is one piece. */
  lemma SplitWhole(b: Bytes, d: byte)
    requires b != [] && d !in b
    ensures NonEmpty(Split(b, d)) == [b]
  {
    PiecesNoDelimiter(b, d);
    NonEmptySingle(b);
  }

  /** The middle of a three-part concatenation. */
  lemma SpliceMiddle(a: Bytes, r: Bytes, b: Bytes)
    ensures (a + r + b)[|a|..|a| + |r|] == r
  {
  }

  // ---------------------------------------------------------------------
  // Lemmas about searching

  /** `find` reports the first occurrence at or after `from`, and -1 only when there is none. */
  lemma {:induction false} FindFirst(s: Bytes, pat: Bytes, from: nat)
    decreases |s| - from
    ensures Find(s, pat, from) == -1 || (from <= Find(s, pat, from) && MatchAt(s, pat, Find(s, pat, from)))
    ensures Find(s, pat, from) == -1 ==> forall i :: from <= i ==> !MatchAt(s, pat, i)
    ensures Find(s, pat, from) != -1 ==> forall i :: from <= i < Find(s, pat, from) ==> !MatchAt(s, pat, i)
  {
    if from + |pat| <= |s| && s[from..from + |pat|] != pat {
      FindFirst(s, pat, from + 1);
    }
  }

  /** `std::string::find(c, from)` for a single byte `c`: its first index at or after `from`, or -1. */
  function FindByte(s: Bytes, c: byte, from: nat): (r: int)
    decreases |s| - from
    ensures r == -1 || (from <= r < |s| && s[r] == c)
  {
    if from >= |s| then -1 else if s[from] == c then from else FindByte(s, c, from + 1)
  }

  /** `FindByte` finds the first occurrence, and reports -1 only when there is none. */
  lemma {:induction false} FindByteFirst(s: Bytes, c: byte, from: nat)
    decreases |s| - from
    ensures var r := FindByte(s, c, from);
      (r == -1 ==> forall i :: from <= i < |s| ==> s[i] != c)
      && (r != -1 ==> forall i :: from <= i < r ==> s[i] != c)
  {
    if from < |s| && s[from] != c {
      FindByteFirst(s, c, from + 1);
    }
  }

  /** A byte at `p` with none of its kind between `from` and `p` is what the search finds. */
  lemma FirstByteAt(s: Bytes, c: byte, p: nat, from: nat)
    requires from <= p < |s| && s[p] == c
    requires forall i :: from <= i < p ==> s[i] != c
    ensures FindByte(s, c, from) == p
  {
    FindByteFirst(s, c, from);
  }

  /** Searching from `|a|` in `a + b` is searching `b`, shifted. */
  lemma {:induction false} FindShift(a: Bytes, b: Bytes, pat: Bytes, from: nat)
    requires pat != []
    decreases |b| - from
    ensures Find(a + b, pat, |a| + from) == if Find(b, pat, from) == -1 then -1 else |a| + Find(b, pat, from)
  {
    var s := a + b;
    if |a| + from + |pat| > |s| {
    } else {
      assert s[|a| + from..|a| + from + |pat|] == b[from..from + |pat|];
      if b[from..from + |pat|] != pat {
        FindShift(a, b, pat, from + 1);
      }
    }
  }

  lemma MatchAtShift(a: Bytes, b: Bytes, pat: Bytes, i: int)
    requires 0 <= i
    ensures MatchAt(a + b, pat, |a| + i) <==> MatchAt(b, pat, i)
  {
    if |a| + i + |pat| <= |a + b| {
      assert (a + b)[|a| + i..|a| + i + |pat|] == b[i..i + |pat|];
    }
  }

  // ---------------------------------------------------------------------
  // Decimal numerals (`std::to_string` of an unsigned count)

  function Digit(n: nat): (r: byte)
    requires n < 10
    ensures IsDigit(r)
  {
    (0x30 + n) as byte
  }

  function Decimal(n: nat): (r: Bytes)
    decreases n
    ensures 1 <= |r|
    ensures forall i :: 0 <= i < |r| ==> IsDigit(r[i])
  {
    if n < 10 then [Digit(n)] else Decimal(n / 10) + [Digit(n % 10)]
  }

  function DigitValue(b: byte): (r: nat)
    requires IsDigit(b)
    ensures r < 10
  {
    (b - 0x30) as int
  }

  /** Reads back a decimal numeral. */
  function ParseDecimal(s: Bytes): (r: nat)
    requires forall i :: 0 <= i < |s| ==> IsDigit(s[i])
  {
    if s == [] then 0 else 10 * ParseDecimal(s[..|s| - 1]) + DigitValue(s[|s| - 1])
  }

  /** `Decimal` is injective because it can be read back. */
  lemma {:induction false} DecimalRoundTrip(n: nat)
    decreases n
    ensures ParseDecimal(Decimal(n)) == n
  {
    var d := Decimal(n);
    if n >= 10 {
      DecimalRoundTrip(n / 10);
      assert d[..|d| - 1] == Decimal(n / 10);
    }
  }
}
