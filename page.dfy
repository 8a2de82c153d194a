/** The page's shared tokenizer state: the objects `vocab` and `reverseVocab`
    and the counter `nextId`, which script.js updates in place. The seeding
    loop, buildVocab, loadVocabFromStorage and the two actions of the
    process button (encode: buildVocab then encode; decode: load then
    decode) are methods on it, each proved against the value-level
    definitions of the Vocabulary and Codec modules. */
module Page {
  import opened Tokenizer
  import opened Codec
  import opened Vocabulary
  import opened RoundTrip

  class Store {
    var vocab: map<string, int>
    var reverseVocab: map<int, string>
    var nextId: int

    /** The three fields as one value. */
    function State(): Snapshot
      reads this
    {
      Snapshot(vocab, reverseVocab, nextId)
    }

    /** The seeding loop: token i of the fixed list gets id i in both maps,
        and the counter ends at 81. */
    constructor ()
      ensures State() == Initial()
      ensures Consistent(State())
      ensures Unk in vocab && vocab[Unk] == 1
    {
      vocab := map[];
      reverseVocab := map[];
      nextId := 0;
      new;
      var tokens := FixedTokens;
      FixedTokensDistinct();
      assert State() == Seeded(tokens, 0);
      for i := 0 to |tokens|
        invariant State() == Seeded(tokens, i)
      {
        var token := tokens[i];
        SeedStep(tokens, i);
        vocab := vocab[token := nextId];
        reverseVocab := reverseVocab[nextId := token];
        nextId := nextId + 1;
      }
      InitialConsistent();
      InitialSpecialIds();
    }

    /** buildVocab(text): every token of the text that is not yet a key gets
        the current counter in both maps, and the counter moves on. What it
        then saves is returned as `saved`. It keeps the maps mutual inverses
        with every id below the counter, never changes an existing entry,
        and gives the ids from the old counter on, one per distinct new
        token (Vocabulary.GrowAssigns). */
    method BuildVocab(text: string) returns (saved: Stored)
      modifies this
      ensures State() == Grow(old(State()), Tokenize(text))
      ensures saved == Save(State())
      ensures Consistent(old(State())) ==> Consistent(State()) && Extends(State(), old(State()))
      ensures nextId == old(nextId) + |set t | t in Tokenize(text) && t !in old(vocab)|
    {
      var tokens := Tokenize(text);
      AddAll(tokens);
      GrowFacts(old(State()), tokens);
      saved := Save(State());
    }

    /** buildVocab's loop over the tokens: a token that is not a key yet
        gets the counter in both maps, and the counter moves on. */
    method AddAll(tokens: seq<string>)
      modifies this
      ensures State() == Grow(old(State()), tokens)
    {
      for i := 0 to |tokens|
        invariant Grow(State(), tokens[i..]) == Grow(old(State()), tokens)
      {
        var token := tokens[i];
        assert Grow(State(), tokens[i..]) == Grow(Add(State(), token), tokens[i + 1..]) by {
          assert tokens[i..][0] == token && tokens[i..][1..] == tokens[i + 1..];
        }
        if token !in vocab {
          vocab := vocab[token := nextId];
          reverseVocab := reverseVocab[nextId := token];
          nextId := nextId + 1;
        }
      }
      assert tokens[|tokens|..] == [];
    }

    /** loadVocabFromStorage(stored): when all three items are present the
        saved entries are copied over the maps (Object.assign) and the
        counter is replaced; otherwise nothing changes. No key is lost. */
    method LoadFromStorage(stored: Stored)
      modifies this
      ensures State() == Overlay(old(State()), stored)
      ensures old(vocab).Keys <= vocab.Keys && old(reverseVocab).Keys <= reverseVocab.Keys
    {
      if stored.vocab.Some? && stored.reverseVocab.Some? && stored.nextId.Some? {
        vocab := vocab + stored.vocab.value;
        reverseVocab := reverseVocab + stored.reverseVocab.value;
        nextId := stored.nextId.value;
      }
    }

    /** The encode action: buildVocab(text), then encode(text). On a
        consistent state every id it returns maps back to the token it
        encodes, so the ids decode to exactly the tokens of the text. */
    method EncodeAction(text: string) returns (ids: seq<int>, saved: Stored)
      requires Unk in vocab
      modifies this
      ensures State() == Grow(old(State()), Tokenize(text)) && saved == Save(State())
      ensures Unk in vocab && ids == Encode(vocab, text)
      ensures Consistent(old(State())) ==> Lookup(reverseVocab, ids) == Tokenize(text)
    {
      saved := BuildVocab(text);
      GrowPreserves(old(State()), Tokenize(text));
      ids := Encode(vocab, text);
      if Consistent(old(State())) {
        EncodeAfterBuild(old(State()), text);
      }
    }

    /** The decode action: loadVocabFromStorage, then decode(ids). */
    method DecodeAction(stored: Stored, ids: seq<int>) returns (text: string)
      modifies this
      ensures State() == Overlay(old(State()), stored)
      ensures text == Render(Lookup(reverseVocab, ids))
    {
      LoadFromStorage(stored);
      text := Decode(reverseVocab, ids);
    }
  }

  /** What BuildVocab promises about the state it leaves, at the value level. */
  lemma GrowFacts(s: Snapshot, tokens: seq<string>)
    ensures Grow(s, tokens).nextId == s.nextId + |set t | t in tokens && t !in s.vocab|
    ensures Consistent(s) ==> Consistent(Grow(s, tokens)) && Extends(Grow(s, tokens), s)
  {
    GrowCount(s, tokens);
    if Consistent(s) {
      GrowConsistent(s, tokens);
      GrowExtends(s, tokens);
    }
  }
}
