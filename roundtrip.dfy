/** What an encode action followed by decode gives back. The encode action of
    script.js runs `buildVocab(text)` and then `encode(text)`; decode maps the
    ids back and rebuilds the text with its spacing rule. The round trip is
    exact for text of the shape `w1 P1 ' ' w2 P2 ... ' ' wn Pn` (words, each
    followed by punctuation, separated by single spaces), and on every text it
    is exact up to white space. */
module RoundTrip {
  import opened Tokenizer
  import opened Codec
  import opened Vocabulary

  /** With every token known, looking up the encoded ids gives the tokens back. */
  lemma LookupEncode(s: Snapshot, text: string)
    requires Consistent(s) && Unk in s.vocab
    requires forall t :: t in Tokenize(text) ==> t in s.vocab
    ensures Lookup(s.reverseVocab, Encode(s.vocab, text)) == Tokenize(text)
  {
    var tokens := Tokenize(text);
    var ids := Encode(s.vocab, text);
    var back := Lookup(s.reverseVocab, ids);
    forall i | 0 <= i < |tokens| ensures back[i] == tokens[i] {
      assert tokens[i] in tokens;
      assert IsToken(tokens[i]);
    }
  }

  /** After buildVocab(text), every id encode(text) produces decodes to the
      token it came from: `reverseVocab[encode(text)[i]] == tokenize(text)[i]`. */
  lemma EncodeAfterBuild(s: Snapshot, text: string)
    requires Consistent(s) && Unk in s.vocab
    ensures var g := Grow(s, Tokenize(text));
            Unk in g.vocab && Lookup(g.reverseVocab, Encode(g.vocab, text)) == Tokenize(text)
  {
    var g := Grow(s, Tokenize(text));
    GrowConsistent(s, Tokenize(text));
    GrowPreserves(s, Tokenize(text));
    GrowKnowsAll(s, Tokenize(text));
    LookupEncode(g, text);
  }

  /** Running the encode action twice on the same text gives the same ids,
      and the second run adds nothing to the vocabulary. */
  lemma EncodeTwice(s: Snapshot, text: string)
    requires Unk in s.vocab
    ensures var g := Grow(s, Tokenize(text));
            Unk in g.vocab && Grow(g, Tokenize(text)) == g
            && Encode(Grow(g, Tokenize(text)).vocab, text) == Encode(g.vocab, text)
  {
    GrowPreserves(s, Tokenize(text));
    GrowIdempotent(s, Tokenize(text));
  }

  /** For any text, decode(encode(text)) after buildVocab equals the text
      once white space is deleted from both. */
  lemma RoundTripUpToSpaces(s: Snapshot, text: string)
    requires Consistent(s) && Unk in s.vocab
    ensures var g := Grow(s, Tokenize(text));
            Unk in g.vocab
            && RemoveSpaces(Render(Lookup(g.reverseVocab, Encode(g.vocab, text)))) == RemoveSpaces(text)
  {
    EncodeAfterBuild(s, text);
    RenderRemoveSpaces(Tokenize(text));
    RemoveSpacesIdempotent(text);
  }

  // ---------------------------------------------------------------------
  // Texts on which the round trip is exact

  /** A word followed by a (possibly empty) run of punctuation characters. */
  datatype Group = Group(word: string, punct: string)

  ghost predicate WellFormed(g: Group) {
    IsWord(g.word) && forall i :: 0 <= i < |g.punct| ==> IsPunct(g.punct[i])
  }

  ghost predicate AllWellFormed(groups: seq<Group>) {
    forall i :: 0 <= i < |groups| ==> WellFormed(groups[i])
  }

  /** The groups written out, separated by single spaces. */
  function Text(groups: seq<Group>): string
    requires |groups| > 0
    decreases |groups|
  {
    var g := groups[0];
    if |groups| == 1 then g.word + g.punct
    else g.word + g.punct + " " + Text(groups[1..])
  }

  /** The tokens such a text splits into: each word, then each punctuation character. */
  function Tokens(groups: seq<Group>): seq<string>
    decreases |groups|
  {
    if groups == [] then []
    else [groups[0].word] + Chars(groups[0].punct) + Tokens(groups[1..])
  }

  lemma {:induction false} ScanPunct(p: string)
    requires forall i :: 0 <= i < |p| ==> IsPunct(p[i])
    ensures Scan(p) == Chars(p)
    decreases |p|
  {
    if p != [] {
      ScanPunct(p[1..]);
      assert Chars(p) == [[p[0]]] + Chars(p[1..]);
    }
  }

  lemma ScanGroup(g: Group)
    requires WellFormed(g)
    ensures Scan(g.word + g.punct) == [g.word] + Chars(g.punct)
  {
    var w, p := g.word, g.punct;
    ScanWord(w);
    if p == [] {
      assert w + p == w;
      assert Chars(p) == [];
    } else {
      var c, tail := p[0], p[1..];
      assert Scan(w + p) == Scan(w) + [[c]] + Scan(tail) by {
        assert w + p == w + [c] + tail;
        ScanSeparator(w, c, tail);
      }
      assert Scan(tail) == Chars(tail) by {
        ScanPunct(tail);
      }
      assert Chars(p) == [[c]] + Chars(tail);
      Reassociate([w], [[c]], Chars(tail));
    }
  }

  lemma Reassociate<T>(a: seq<T>, b: seq<T>, c: seq<T>)
    ensures a + b + c == a + (b + c)
  {
  }

  /** Text written out one group at a time, right-associated. */
  lemma TextCons(groups: seq<Group>)
    requires |groups| > 0
    ensures Text(groups) == groups[0].word + (groups[0].punct + Rest(groups))
  {
  }

  /** What follows the first group: nothing, or a space and the remaining groups. */
  function Rest(groups: seq<Group>): string
    requires |groups| > 0
  {
    if |groups| == 1 then "" else " " + Text(groups[1..])
  }

  lemma TokensCons(groups: seq<Group>)
    requires |groups| > 0
    ensures Tokens(groups) == [groups[0].word] + (Chars(groups[0].punct) + Tokens(groups[1..]))
  {
  }

  lemma {:induction false} ScanText(groups: seq<Group>)
    requires |groups| > 0 && AllWellFormed(groups)
    ensures Scan(Text(groups)) == Tokens(groups)
    decreases |groups|
  {
    var g := groups[0];
    assert WellFormed(g);
    var head := g.word + g.punct;
    var first := [g.word] + Chars(g.punct);
    assert Scan(head) == first by {
      ScanGroup(g);
    }
    assert Tokens(groups) == first + Tokens(groups[1..]);
    if |groups| == 1 {
      assert Text(groups) == head;
      assert Tokens(groups[1..]) == [];
      assert first + [] == first;
    } else {
      var rest := Text(groups[1..]);
      assert Scan(rest) == Tokens(groups[1..]) by {
        assert AllWellFormed(groups[1..]) by {
          forall i | 0 <= i < |groups| - 1 ensures WellFormed(groups[1..][i]) {
            assert groups[1..][i] == groups[i + 1];
          }
        }
        ScanText(groups[1..]);
      }
      assert Scan(Text(groups)) == Scan(head) + Scan(rest) by {
        assert Text(groups) == head + [' '] + rest;
        ScanSeparator(head, ' ', rest);
        assert Scan(head) + [] == Scan(head);
      }
    }
  }

  /** Such a text tokenizes into each word followed by each of its punctuation characters. */
  lemma TokenizeText(groups: seq<Group>)
    requires |groups| > 0 && AllWellFormed(groups)
    ensures Tokenize(Text(groups)) == Tokens(groups)
  {
    ScanText(groups);
  }

  lemma GlueCons(t: string, rest: seq<string>)
    ensures Glue([t] + rest) == Attach(t) + Glue(rest)
  {
    assert ([t] + rest)[0] == t && ([t] + rest)[1..] == rest;
  }

  lemma GluePunct(p: string, rest: seq<string>)
    requires forall i :: 0 <= i < |p| ==> IsPunct(p[i])
    ensures Glue(Chars(p) + rest) == p + Glue(rest)
  {
    var ts := Chars(p);
    assert forall i :: 0 <= i < |ts| ==> IsPunctToken(ts[i]);
    GluePunctTokens(ts, rest);
    ConcatChars(p);
  }

  /** Punctuation tokens are glued on without spaces. */
  lemma {:induction false} GluePunctTokens(ts: seq<string>, rest: seq<string>)
    requires forall i :: 0 <= i < |ts| ==> IsPunctToken(ts[i])
    ensures Glue(ts + rest) == Concat(ts) + Glue(rest)
    decreases |ts|
  {
    if ts == [] {
      assert ts + rest == rest;
    } else {
      var t, more := ts[0], ts[1..];
      assert Glue(ts + rest) == t + Glue(more + rest) by {
        assert ts + rest == [t] + (more + rest);
        GlueCons(t, more + rest);
      }
      assert Glue(more + rest) == Concat(more) + Glue(rest) by {
        GluePunctTokens(more, rest);
      }
    }
  }

  lemma {:induction false} ConcatChars(s: string)
    ensures Concat(Chars(s)) == s
    decreases |s|
  {
    if s != [] {
      assert Chars(s)[1..] == Chars(s[1..]);
      ConcatChars(s[1..]);
      assert s == [s[0]] + s[1..];
    }
  }

  lemma AttachWord(w: string)
    requires IsWord(w)
    ensures Attach(w) == " " + w
  {
    assert w[0] != ' ';
  }

  lemma {:induction false} GlueTokens(groups: seq<Group>)
    requires |groups| > 0 && AllWellFormed(groups)
    ensures Glue(Tokens(groups)) == " " + Text(groups)
    decreases |groups|
  {
    var g := groups[0];
    assert WellFormed(g);
    var w, p, tail := g.word, g.punct, Tokens(groups[1..]);
    assert Glue(Tokens(groups)) == (" " + w) + Glue(Chars(p) + tail) by {
      TokensCons(groups);
      GlueCons(w, Chars(p) + tail);
      AttachWord(w);
    }
    assert Glue(Chars(p) + tail) == p + Rest(groups) by {
      GluePunct(p, tail);
      GlueRest(groups);
    }
    assert " " + Text(groups) == (" " + w) + (p + Rest(groups)) by {
      TextCons(groups);
    }
  }

  /** Gluing the tokens after the first group gives what follows it in the text. */
  lemma GlueRest(groups: seq<Group>)
    requires |groups| > 0 && AllWellFormed(groups)
    ensures Glue(Tokens(groups[1..])) == Rest(groups)
    decreases |groups|, 0
  {
    if |groups| > 1 {
      assert AllWellFormed(groups[1..]) by {
        forall i | 0 <= i < |groups| - 1 ensures WellFormed(groups[1..][i]) {
          assert groups[1..][i] == groups[i + 1];
        }
      }
      GlueTokens(groups[1..]);
    }
  }

  lemma RenderTokens(groups: seq<Group>)
    requires |groups| > 0 && AllWellFormed(groups)
    ensures Render(Tokens(groups)) == Text(groups)
  {
    var g := groups[0];
    var tail := Tokens(groups[1..]);
    assert WellFormed(g);
    TokensCons(groups);
    assert ([g.word] + (Chars(g.punct) + tail))[1..] == Chars(g.punct) + tail;
    GluePunct(g.punct, tail);
    GlueRest(groups);
    TextCons(groups);
  }

  /** The exact round trip: after buildVocab(text), decode(encode(text)) is
      the text itself when it is words with trailing punctuation separated
      by single spaces ("the cat sat", "Hello, world!"). */
  lemma RoundTrip(s: Snapshot, groups: seq<Group>)
    requires Consistent(s) && Unk in s.vocab
    requires |groups| > 0 && AllWellFormed(groups)
    ensures var text := Text(groups);
            var g := Grow(s, Tokenize(text));
            Unk in g.vocab && Render(Lookup(g.reverseVocab, Encode(g.vocab, text))) == text
  {
    EncodeAfterBuild(s, Text(groups));
    TokenizeText(groups);
    RenderTokens(groups);
  }

  lemma HelloWorld(s: Snapshot)
    requires Consistent(s) && Unk in s.vocab
    ensures var g := Grow(s, Tokenize("Hello, world!"));
            Unk in g.vocab && Render(Lookup(g.reverseVocab, Encode(g.vocab, "Hello, world!"))) == "Hello, world!"
  {
    var groups := [Group("Hello", ","), Group("world", "!")];
    assert WellFormed(groups[0]) && WellFormed(groups[1]);
    assert Text(groups) == "Hello, world!";
    RoundTrip(s, groups);
  }

  lemma TokenizeApostrophe()
    ensures Tokenize("don't") == ["don", "'", "t"]
  {
    ScanApostrophe();
  }

  lemma ScanApostrophe()
    ensures Scan("don't") == ["don", "'", "t"]
  {
    assert Scan("don") == ["don"] by {
      assert IsWord("don");
      ScanWord("don");
    }
    assert Scan("t") == ["t"] by {
      assert IsWord("t");
      ScanWord("t");
    }
    assert Scan("don't") == Scan("don") + ["'"] + Scan("t") by {
      assert "don't" == "don" + ['\''] + "t";
      ScanSeparator("don", '\'', "t");
    }
  }

  /** An apostrophe inside a word does not round-trip: "don't" comes back as "don' t". */
  lemma Apostrophe(s: Snapshot)
    requires Consistent(s) && Unk in s.vocab
    ensures var g := Grow(s, Tokenize("don't"));
            Unk in g.vocab && Render(Lookup(g.reverseVocab, Encode(g.vocab, "don't"))) == "don' t"
  {
    TokenizeApostrophe();
    EncodeAfterBuild(s, "don't");
    RenderApostrophe();
  }

  lemma RenderApostrophe()
    ensures Render(["don", "'", "t"]) == "don' t"
  {
    var ts := ["don", "'", "t"];
    assert ts[1..] == ["'"] + ["t"];
    GlueCons("'", ["t"]);
    assert ["t"] == ["t"] + [];
    GlueCons("t", []);
    assert Attach("'") == "'";
    assert Attach("t") == " t";
  }
}
