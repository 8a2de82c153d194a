/** The splitter behind `tokenize` in script.js.
    `tokenize(text)` trims the text, splits it with the regular expression
    `/(\s+|[.,!?'"-])/` (the capture group keeps every separator in the
    result), and keeps only the pieces that are non-empty after trimming.
    `Tokenize` below follows those three steps literally; `Scan` is an
    independent left-to-right scanner, and the two are proved equal. */
module Tokenizer {

  /** The characters JavaScript's `\s` and `String.prototype.trim` treat as
      white space: U+0009..U+000D (tab, line feed, vertical tab, form feed,
      carriage return), space, no-break space, U+1680, U+2000..U+200A, the
      line and paragraph separators, U+202F, U+205F, U+3000 and U+FEFF. */
  predicate IsSpace(c: char) {
    c == ' ' || ('\t' <= c <= '\r') || c == '\U{00A0}' || c == '\U{1680}'
    || ('\U{2000}' <= c <= '\U{200A}') || c == '\U{2028}' || c == '\U{2029}'
    || c == '\U{202F}' || c == '\U{205F}' || c == '\U{3000}' || c == '\U{FEFF}'
  }

  /** The single-character separators `. , ! ? ' " -` of the splitting regex. */
  predicate IsPunct(c: char) {
    c == '.' || c == ',' || c == '!' || c == '?' || c == '\'' || c == '"' || c == '-'
  }

  predicate IsWordChar(c: char) {
    !IsSpace(c) && !IsPunct(c)
  }

  ghost predicate AllSpace(s: string) {
    forall i :: 0 <= i < |s| ==> IsSpace(s[i])
  }

  ghost predicate AllWordChars(s: string) {
    forall i :: 0 <= i < |s| ==> IsWordChar(s[i])
  }

  /** A word: a non-empty run of characters that are neither white space nor punctuation. */
  ghost predicate IsWord(s: string) {
    |s| > 0 && AllWordChars(s)
  }

  /** Exactly one of `. , ! ? ' " -`; decode tests tokens for this shape too. */
  predicate IsPunctToken(s: string) {
    |s| == 1 && IsPunct(s[0])
  }

  /** What tokenize may produce: a word or a single punctuation character. */
  ghost predicate IsToken(s: string) {
    IsWord(s) || IsPunctToken(s)
  }

  // ---------------------------------------------------------------------
  // String.prototype.trim

  function TrimStart(s: string): string
    decreases |s|
  {
    if s != [] && IsSpace(s[0]) then TrimStart(s[1..]) else s
  }

  function TrimEnd(s: string): string
    decreases |s|
  {
    if s != [] && IsSpace(s[|s| - 1]) then TrimEnd(s[..|s| - 1]) else s
  }

  function Trim(s: string): string {
    TrimEnd(TrimStart(s))
  }

  // ---------------------------------------------------------------------
  // String.prototype.split with the separator /(\s+|[.,!?'"-])/

  /** Length of the white-space run `\s+` matches (greedily) at the start of `s`. */
  function LeadingSpaces(s: string): (n: nat)
    ensures n <= |s| && AllSpace(s[..n])
    ensures n < |s| ==> !IsSpace(s[n])
    decreases |s|
  {
    if s != [] && IsSpace(s[0]) then 1 + LeadingSpaces(s[1..]) else 0
  }

  /** Splits `s`, where `piece` is the part of the current segment already
      read. Every match of the separator closes the segment and is itself
      emitted (the capture group); the segment after the last match is
      emitted at the end, possibly empty. */
  function SplitFrom(s: string, piece: string): seq<string>
    decreases |s|
  {
    if s == [] then [piece]
    else if IsSpace(s[0]) then
      var n := LeadingSpaces(s);
      [piece, s[..n]] + SplitFrom(s[n..], "")
    else if IsPunct(s[0]) then [piece, [s[0]]] + SplitFrom(s[1..], "")
    else SplitFrom(s[1..], piece + [s[0]])
  }

  function Split(s: string): seq<string> {
    SplitFrom(s, "")
  }

  /** The filter `token => token && token.trim().length > 0`. */
  function KeepTokens(pieces: seq<string>): seq<string>
    decreases |pieces|
  {
    if pieces == [] then []
    else (if pieces[0] != "" && Trim(pieces[0]) != "" then [pieces[0]] else [])
         + KeepTokens(pieces[1..])
  }

  /** `tokenize(text)` of script.js. It equals the scanner `Scan`, so every
      token is a word or a single punctuation character (never white space,
      in particular never the seeded token " "), and gluing the tokens
      together gives back the text with its white space deleted. */
  function Tokenize(text: string): (tokens: seq<string>)
    ensures tokens == Scan(text)
    ensures forall i :: 0 <= i < |tokens| ==> IsToken(tokens[i])
    ensures " " !in tokens
    ensures Concat(tokens) == RemoveSpaces(text)
  {
    TokenizeIsScan(text);
    ScanTokens(text);
    ScanConcat(text);
    assert !IsToken(" ") by {
      assert IsSpace(" "[0]);
    }
    KeepTokens(Split(Trim(text)))
  }

  // ---------------------------------------------------------------------
  // The reference scanner and the helpers stating what tokens are

  /** Length of the run of word characters at the start of `s`. */
  function WordLength(s: string): (n: nat)
    ensures n <= |s| && AllWordChars(s[..n])
    ensures n < |s| ==> !IsWordChar(s[n])
    decreases |s|
  {
    if s != [] && IsWordChar(s[0]) then 1 + WordLength(s[1..]) else 0
  }

  /** Reads `s` from left to right: white space is skipped, a punctuation
      character is a token of its own, and a maximal run of other
      characters is one token. */
  function Scan(s: string): seq<string>
    decreases |s|
  {
    if s == [] then []
    else if IsSpace(s[0]) then Scan(s[1..])
    else if IsPunct(s[0]) then [[s[0]]] + Scan(s[1..])
    else
      var n := WordLength(s);
      [s[..n]] + Scan(s[n..])
  }

  function RemoveSpaces(s: string): string
    decreases |s|
  {
    if s == [] then []
    else (if IsSpace(s[0]) then [] else [s[0]]) + RemoveSpaces(s[1..])
  }

  function Concat(ts: seq<string>): string
    decreases |ts|
  {
    if ts == [] then [] else ts[0] + Concat(ts[1..])
  }

  // ---------------------------------------------------------------------
  // Lemmas

  lemma {:induction false} ConcatAppend(a: seq<string>, b: seq<string>)
    ensures Concat(a + b) == Concat(a) + Concat(b)
    decreases |a|
  {
    if a != [] {
      assert (a + b)[0] == a[0] && (a + b)[1..] == a[1..] + b;
      ConcatAppend(a[1..], b);
    } else {
      assert a + b == b;
    }
  }

  lemma {:induction false} RemoveSpacesAppend(a: string, b: string)
    ensures RemoveSpaces(a + b) == RemoveSpaces(a) + RemoveSpaces(b)
    decreases |a|
  {
    if a != [] {
      assert (a + b)[0] == a[0] && (a + b)[1..] == a[1..] + b;
      RemoveSpacesAppend(a[1..], b);
    } else {
      assert a + b == b;
    }
  }

  lemma {:induction false} RemoveSpacesOfWordChars(s: string)
    requires AllWordChars(s)
    ensures RemoveSpaces(s) == s
    decreases |s|
  {
    if s != [] {
      RemoveSpacesOfWordChars(s[1..]);
    }
  }

  lemma {:induction false} RemoveSpacesIdempotent(s: string)
    ensures RemoveSpaces(RemoveSpaces(s)) == RemoveSpaces(s)
    decreases |s|
  {
    if s != [] {
      RemoveSpacesAppend(if IsSpace(s[0]) then [] else [s[0]], RemoveSpaces(s[1..]));
      RemoveSpacesIdempotent(s[1..]);
    }
  }

  lemma {:induction false} KeepTokensAppend(a: seq<string>, b: seq<string>)
    ensures KeepTokens(a + b) == KeepTokens(a) + KeepTokens(b)
    decreases |a|
  {
    if a != [] {
      assert (a + b)[0] == a[0] && (a + b)[1..] == a[1..] + b;
      KeepTokensAppend(a[1..], b);
    } else {
      assert a + b == b;
    }
  }

  lemma {:induction false} TrimStartOfSpaces(s: string)
    requires AllSpace(s)
    ensures TrimStart(s) == []
    decreases |s|
  {
    if s != [] {
      TrimStartOfSpaces(s[1..]);
    }
  }

  lemma {:induction false} WordLengthOfWordChars(s: string)
    requires AllWordChars(s)
    ensures WordLength(s) == |s|
    decreases |s|
  {
    if s != [] {
      WordLengthOfWordChars(s[1..]);
    }
  }

  /** A word run stops at the first separator. */
  lemma {:induction false} WordLengthBeforeSeparator(a: string, c: char, b: string)
    requires !IsWordChar(c)
    ensures WordLength(a + [c] + b) == WordLength(a)
    decreases |a|
  {
    if a != [] {
      assert (a + [c] + b)[1..] == a[1..] + [c] + b;
      WordLengthBeforeSeparator(a[1..], c, b);
    }
  }

  lemma {:induction false} ScanSkipsSpaces(sp: string, t: string)
    requires AllSpace(sp)
    ensures Scan(sp + t) == Scan(t)
    decreases |sp|
  {
    if sp != [] {
      assert (sp + t)[0] == sp[0] && (sp + t)[1..] == sp[1..] + t;
      ScanSkipsSpaces(sp[1..], t);
    } else {
      assert sp + t == t;
    }
  }

  /** A single word scans to itself. */
  lemma ScanWord(w: string)
    requires IsWord(w)
    ensures Scan(w) == [w]
  {
    WordLengthOfWordChars(w);
    assert w[..|w|] == w;
    assert w[|w|..] == [];
  }

  /** A separator character splits the text into independently scanned parts. */
  lemma {:induction false} ScanSeparator(a: string, c: char, b: string)
    requires !IsWordChar(c)
    ensures Scan(a + [c] + b) == Scan(a) + (if IsPunct(c) then [[c]] else []) + Scan(b)
    decreases |a|
  {
    var mid: seq<string> := if IsPunct(c) then [[c]] else [];
    var s := a + [c] + b;
    if a == [] {
      assert Scan(s) == mid + Scan(b) by {
        assert s[0] == c && s[1..] == b;
      }
      assert Scan(a) == [];
      assert Scan(a) + mid + Scan(b) == mid + Scan(b);
    } else if !IsWordChar(a[0]) {
      var h: seq<string> := if IsSpace(a[0]) then [] else [[a[0]]];
      assert Scan(s) == h + Scan(a[1..] + [c] + b) by {
        assert s[0] == a[0] && s[1..] == a[1..] + [c] + b;
      }
      assert Scan(a) == h + Scan(a[1..]);
      ScanSeparator(a[1..], c, b);
      Regroup(h, Scan(a[1..]), mid, Scan(b));
    } else {
      var n := WordLength(a);
      assert Scan(s) == [a[..n]] + Scan(a[n..] + [c] + b) by {
        WordLengthBeforeSeparator(a, c, b);
        assert s[..n] == a[..n] && s[n..] == a[n..] + [c] + b;
      }
      assert Scan(a) == [a[..n]] + Scan(a[n..]);
      ScanSeparator(a[n..], c, b);
      Regroup([a[..n]], Scan(a[n..]), mid, Scan(b));
    }
  }

  lemma Regroup<T>(h: seq<T>, x: seq<T>, y: seq<T>, z: seq<T>)
    ensures h + (x + y + z) == (h + x) + y + z
  {
  }

  lemma {:induction false} ScanOfSpaces(s: string)
    requires AllSpace(s)
    ensures Scan(s) == []
    decreases |s|
  {
    if s != [] {
      ScanOfSpaces(s[1..]);
    }
  }

  lemma {:induction false} ScanTrimStart(s: string)
    ensures Scan(TrimStart(s)) == Scan(s)
    decreases |s|
  {
    if s != [] && IsSpace(s[0]) {
      ScanTrimStart(s[1..]);
    }
  }

  lemma {:induction false} ScanTrimEnd(s: string)
    ensures Scan(TrimEnd(s)) == Scan(s)
    decreases |s|
  {
    if s != [] && IsSpace(s[|s| - 1]) {
      var init := s[..|s| - 1];
      assert s == init + [s[|s| - 1]] + [];
      ScanSeparator(init, s[|s| - 1], []);
      ScanTrimEnd(init);
    }
  }

  /** The last segment of the split survives the filter exactly when it is a word. */
  lemma KeepPiece(piece: string)
    requires AllWordChars(piece)
    ensures KeepTokens([piece]) == Scan(piece)
  {
    if piece != [] {
      ScanWord(piece);
      assert Trim(piece) == piece;
      assert [piece][1..] == [];
    }
  }

  lemma SplitOffHead(a: string, s: string)
    requires s != []
    ensures a + s == a + [s[0]] + s[1..]
  {
    assert s == [s[0]] + s[1..];
  }

  /** After a white-space run the split starts a fresh segment; the run itself is filtered out. */
  lemma SplitAtSpaces(s: string, piece: string)
    requires AllWordChars(piece) && s != [] && IsSpace(s[0])
    ensures KeepTokens(SplitFrom(s, piece))
            == KeepTokens([piece]) + KeepTokens(SplitFrom(s[LeadingSpaces(s)..], ""))
  {
    var n := LeadingSpaces(s);
    var run := s[..n];
    assert SplitFrom(s, piece) == [piece] + [run] + SplitFrom(s[n..], "");
    KeepTokensAppend([piece] + [run], SplitFrom(s[n..], ""));
    KeepTokensAppend([piece], [run]);
    TrimStartOfSpaces(run);
    assert KeepTokens([run]) == [];
  }

  /** Scanning skips a white-space run. */
  lemma ScanAtSpaces(s: string, piece: string)
    requires AllWordChars(piece) && s != [] && IsSpace(s[0])
    ensures Scan(piece + s) == Scan(piece) + Scan(s[LeadingSpaces(s)..])
  {
    var n := LeadingSpaces(s);
    var rest := s[1..];
    assert Scan(piece + s) == Scan(piece) + Scan(rest) by {
      SplitOffHead(piece, s);
      ScanSeparator(piece, s[0], rest);
    }
    assert Scan(rest) == Scan(s[n..]) by {
      RunTail(s);
      ScanSkipsSpaces(s[1..n], s[n..]);
    }
  }

  /** After its first character, a white-space run is still white space and
      is followed by the rest of the text. */
  lemma RunTail(s: string)
    requires s != [] && IsSpace(s[0])
    ensures 1 <= LeadingSpaces(s) && AllSpace(s[1..LeadingSpaces(s)])
    ensures s[1..] == s[1..LeadingSpaces(s)] + s[LeadingSpaces(s)..]
  {
    var n := LeadingSpaces(s);
    forall i | 0 <= i < n - 1 ensures IsSpace(s[1..n][i]) {
      assert s[1..n][i] == s[..n][i + 1];
    }
  }

  /** A punctuation character closes the segment and is kept as a token. */
  lemma SplitAtPunct(s: string, piece: string)
    requires s != [] && IsPunct(s[0])
    ensures KeepTokens(SplitFrom(s, piece))
            == KeepTokens([piece]) + [[s[0]]] + KeepTokens(SplitFrom(s[1..], ""))
  {
    var p := [s[0]];
    assert SplitFrom(s, piece) == [piece] + [p] + SplitFrom(s[1..], "");
    KeepTokensAppend([piece] + [p], SplitFrom(s[1..], ""));
    KeepTokensAppend([piece], [p]);
    KeepSingle(s[0]);
  }

  /** A single character that is not white space passes the filter. */
  lemma KeepSingle(c: char)
    requires !IsSpace(c)
    ensures KeepTokens([[c]]) == [[c]]
  {
    assert TrimStart([c]) == [c];
    assert TrimEnd([c]) == [c];
    assert [[c]][1..] == [];
  }

  /** Scanning keeps a punctuation character as a token of its own. */
  lemma ScanAtPunct(s: string, piece: string)
    requires s != [] && IsPunct(s[0])
    ensures Scan(piece + s) == Scan(piece) + [[s[0]]] + Scan(s[1..])
  {
    SplitOffHead(piece, s);
    ScanSeparator(piece, s[0], s[1..]);
  }

  lemma {:induction false} SplitFromIsScan(s: string, piece: string)
    requires AllWordChars(piece)
    ensures KeepTokens(SplitFrom(s, piece)) == Scan(piece + s)
    decreases |s|
  {
    if s == [] {
      KeepPiece(piece);
      assert piece + s == piece;
    } else if IsSpace(s[0]) {
      var n := LeadingSpaces(s);
      assert KeepTokens(SplitFrom(s[n..], "")) == Scan(s[n..]) by {
        SplitFromIsScan(s[n..], "");
        assert "" + s[n..] == s[n..];
      }
      SplitAtSpaces(s, piece);
      ScanAtSpaces(s, piece);
      KeepPiece(piece);
    } else if IsPunct(s[0]) {
      assert KeepTokens(SplitFrom(s[1..], "")) == Scan(s[1..]) by {
        SplitFromIsScan(s[1..], "");
        assert "" + s[1..] == s[1..];
      }
      SplitAtPunct(s, piece);
      ScanAtPunct(s, piece);
      KeepPiece(piece);
    } else {
      var longer := piece + [s[0]];
      assert AllWordChars(longer) by {
        forall i | 0 <= i < |longer| ensures IsWordChar(longer[i]) {
          if i < |piece| {
            assert longer[i] == piece[i];
          }
        }
      }
      assert SplitFrom(s, piece) == SplitFrom(s[1..], longer);
      assert longer + s[1..] == piece + s;
      SplitFromIsScan(s[1..], longer);
    }
  }

  /** The trim/split/filter pipeline computes the scanner. */
  lemma TokenizeIsScan(text: string)
    ensures KeepTokens(Split(Trim(text))) == Scan(text)
  {
    SplitFromIsScan(Trim(text), "");
    assert "" + Trim(text) == Trim(text);
    ScanTrimEnd(TrimStart(text));
    ScanTrimStart(text);
  }

  lemma {:induction false} ScanTokens(s: string)
    ensures forall i :: 0 <= i < |Scan(s)| ==> IsToken(Scan(s)[i])
    decreases |s|
  {
    if s != [] {
      if IsSpace(s[0]) || IsPunct(s[0]) {
        ScanTokens(s[1..]);
      } else {
        ScanTokens(s[WordLength(s)..]);
      }
    }
  }

  lemma {:induction false} ScanConcat(s: string)
    ensures Concat(Scan(s)) == RemoveSpaces(s)
    decreases |s|
  {
    if s != [] {
      if IsSpace(s[0]) || IsPunct(s[0]) {
        ScanConcat(s[1..]);
        if IsPunct(s[0]) {
          ConcatAppend([[s[0]]], Scan(s[1..]));
        }
      } else {
        var n := WordLength(s);
        ScanConcat(s[n..]);
        ConcatAppend([s[..n]], Scan(s[n..]));
        assert s == s[..n] + s[n..];
        RemoveSpacesAppend(s[..n], s[n..]);
        RemoveSpacesOfWordChars(s[..n]);
      }
    }
  }

  /** Tokenize on a single word yields that word. Together with
      TokenizeSeparator this determines Tokenize on every input: words are
      maximal runs, and only white space and punctuation separate them. */
  lemma TokenizeWord(w: string)
    requires IsWord(w)
    ensures Tokenize(w) == [w]
  {
    ScanWord(w);
  }

  lemma TokenizeSeparator(a: string, c: char, b: string)
    requires IsSpace(c) || IsPunct(c)
    ensures Tokenize(a + [c] + b) == Tokenize(a) + (if IsPunct(c) then [[c]] else []) + Tokenize(b)
  {
    ScanSeparator(a, c, b);
  }
}
