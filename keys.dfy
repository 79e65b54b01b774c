// What the two keyEvent revisions share: the keys they tell apart, the
// commit-symbol test on a key's text, and the buffer edits at the cursor.

module Keys {
  import opened Bytes

  /**
   * A key press (releases are ignored before any of this). `Simple` is a
   * key that produces text; `chr` is that text in UTF-8.
   */
  datatype Key =
    | Left | Right | Up | Down
    | Return | Space | Escape | BackSpace
    | Simple(chr: Bytes)
    | Other

  /** The keys that commit the buffer and are then committed themselves. */
  function CommitSymbols(): (r: Bytes)
    ensures |r| == 28
    ensures forall i :: 0 <= i < |r| ==> r[i] != B('/') && !IsDigit(r[i])
  {
    var text := "!@#$%^()-_=+[]{};:'\",.<>?|\\\\";
    assert forall i :: 0 <= i < |text| ==> text[i] != '/' && !('0' <= text[i] <= '9');
    Ascii(text)
  }

  /**
   * `commitSymbols.find(chr) != npos`: the key text occurs in the symbol
   * string. A substring test, so the empty text counts as a symbol.
   */
  predicate IsCommitSymbol(chr: Bytes)
  {
    Find(CommitSymbols(), chr, 0) != -1
  }

  /** A one-byte ASCII digit. */
  predicate IsNumber(chr: Bytes)
  {
    |chr| == 1 && IsDigit(chr[0])
  }

  /** The symbol test holds exactly for the texts that occur in the symbol string. */
  lemma CommitSymbolMeaning(chr: Bytes)
    ensures IsCommitSymbol(chr) <==> exists i :: MatchAt(CommitSymbols(), chr, i)
  {
    FindFirst(CommitSymbols(), chr, 0);
  }

  /** Every single symbol byte, and the empty text, pass the symbol test; '/' and the digits do not. */
  lemma CommitSymbolCases(i: nat, d: byte)
    requires i < |CommitSymbols()| && IsDigit(d)
    ensures IsCommitSymbol([CommitSymbols()[i]])
    ensures IsCommitSymbol([])
    ensures !IsCommitSymbol([B('/')]) && !IsCommitSymbol([d])
  {
    SymbolByteFound(i);
    assert IsCommitSymbol([]);
    SlashNotSymbol();
    DigitNotSymbol(d);
  }

  lemma SymbolByteFound(i: nat)
    requires i < |CommitSymbols()|
    ensures IsCommitSymbol([CommitSymbols()[i]])
  {
    var s := CommitSymbols();
    FindFirst(s, [s[i]], 0);
    assert MatchAt(s, [s[i]], i);
  }

  lemma SlashNotSymbol()
    ensures !IsCommitSymbol([B('/')])
  {
    var s := CommitSymbols();
    forall i
      ensures !MatchAt(s, [B('/')], i)
    {
      if 0 <= i && i + 1 <= |s| {
        assert s[i..i + 1][0] == s[i];
      }
    }
    FindFirst(s, [B('/')], 0);
  }

  lemma DigitNotSymbol(d: byte)
    requires IsDigit(d)
    ensures !IsCommitSymbol([d])
  {
    var s := CommitSymbols();
    forall i
      ensures !MatchAt(s, [d], i)
    {
      if 0 <= i && i + 1 <= |s| {
        assert s[i..i + 1][0] == s[i];
      }
    }
    FindFirst(s, [d], 0);
  }

  /** The digit keys 1..9 that pick a candidate by position: the 0-based index, or -1. */
  function DigitIndex(chr: Bytes): (r: int)
    ensures -1 <= r <= 8
    ensures r >= 0 <==> |chr| == 1 && B('1') <= chr[0] <= B('9')
    ensures r >= 0 ==> chr == [Digit(r + 1)]
  {
    if |chr| == 1 && B('1') <= chr[0] <= B('9') then (chr[0] - B('1')) as int else -1
  }

  // ---------------------------------------------------------------------
  // Buffer edits

  /** `buffer.insert(pos, chr)`. */
  function InsertAt(buffer: Bytes, pos: nat, chr: Bytes): (r: Bytes)
    requires pos <= |buffer|
    ensures |r| == |buffer| + |chr|
    ensures r[..pos] == buffer[..pos] && r[pos..pos + |chr|] == chr && r[pos + |chr|..] == buffer[pos..]
  {
    buffer[..pos] + chr + buffer[pos..]
  }

  /** `buffer.erase(pos - 1, 1)`: the byte before the cursor goes. */
  function EraseBefore(buffer: Bytes, pos: nat): (r: Bytes)
    requires 0 < pos <= |buffer|
    ensures |r| == |buffer| - 1
    ensures r[..pos - 1] == buffer[..pos - 1] && r[pos - 1..] == buffer[pos..]
  {
    buffer[..pos - 1] + buffer[pos..]
  }

  /** Backspace right after typing a one-byte key gives back the buffer. */
  lemma EraseUndoesInsert(buffer: Bytes, pos: nat, b: byte)
    requires pos <= |buffer|
    ensures EraseBefore(InsertAt(buffer, pos, [b]), pos + 1) == buffer
  {
    var r := InsertAt(buffer, pos, [b]);
    assert r[..pos] + r[pos + 1..] == buffer[..pos] + buffer[pos..];
    assert buffer[..pos] + buffer[pos..] == buffer;
  }

  /** Typing byte by byte at the cursor builds the same buffer as inserting the text at once. */
  lemma {:induction false} InsertConcat(buffer: Bytes, pos: nat, a: Bytes, b: Bytes)
    requires pos <= |buffer|
    ensures InsertAt(InsertAt(buffer, pos, a), pos + |a|, b) == InsertAt(buffer, pos, a + b)
  {
    var r := InsertAt(buffer, pos, a);
    assert r[..pos + |a|] == buffer[..pos] + a;
    assert r[pos + |a|..] == buffer[pos..];
  }
}
