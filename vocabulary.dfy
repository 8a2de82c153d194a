/** The vocabulary of script.js as a value: the token-to-id map `vocab`, the
    id-to-token map `reverseVocab` and the counter `nextId`; the fixed seed
    list; what `buildVocab` does to the three; and the overlay that
    `loadVocabFromStorage` applies from saved items. */
module Vocabulary {

  datatype Option<T> = None | Some(value: T)

  datatype Snapshot = Snapshot(vocab: map<string, int>, reverseVocab: map<int, string>, nextId: int)

  /** The two maps are inverse to each other, and every id is in 0..nextId-1. */
  ghost predicate Consistent(s: Snapshot) {
    && s.nextId >= 0
    && (forall t :: t in s.vocab ==> s.vocab[t] in s.reverseVocab && s.reverseVocab[s.vocab[t]] == t)
    && (forall id :: id in s.reverseVocab ==>
          0 <= id < s.nextId && s.reverseVocab[id] in s.vocab && s.vocab[s.reverseVocab[id]] == id)
  }

  /** Every entry of `base` is still in `s` with the same value. */
  ghost predicate Extends(s: Snapshot, base: Snapshot) {
    && (forall t :: t in base.vocab ==> t in s.vocab && s.vocab[t] == base.vocab[t])
    && (forall id :: id in base.reverseVocab ==> id in s.reverseVocab && s.reverseVocab[id] == base.reverseVocab[id])
  }

  // ---------------------------------------------------------------------
  // buildVocab

  /** One step of buildVocab's loop: an unknown token gets `nextId` in both
      maps and the counter moves on; a known token changes nothing. */
  function Add(s: Snapshot, token: string): Snapshot {
    if token in s.vocab then s
    else Snapshot(s.vocab[token := s.nextId], s.reverseVocab[s.nextId := token], s.nextId + 1)
  }

  /** buildVocab's loop over a token sequence. */
  function Grow(s: Snapshot, tokens: seq<string>): Snapshot
    decreases |tokens|
  {
    if tokens == [] then s else Grow(Add(s, tokens[0]), tokens[1..])
  }

  /** The distinct tokens of `tokens` that are not in `known`, in order of
      first occurrence. */
  function Fresh(known: set<string>, tokens: seq<string>): seq<string>
    decreases |tokens|
  {
    if tokens == [] then []
    else if tokens[0] in known then Fresh(known, tokens[1..])
    else [tokens[0]] + Fresh(known + {tokens[0]}, tokens[1..])
  }

  ghost predicate Distinct<T>(s: seq<T>) {
    forall i, j :: 0 <= i < j < |s| ==> s[i] != s[j]
  }

  /** Existing entries survive buildVocab; the counter never goes down; and
      only ids from the old counter on are (re)written in reverseVocab. */
  lemma {:induction false} GrowPreserves(s: Snapshot, tokens: seq<string>)
    ensures Grow(s, tokens).nextId >= s.nextId
    ensures forall t :: t in s.vocab ==> t in Grow(s, tokens).vocab && Grow(s, tokens).vocab[t] == s.vocab[t]
    ensures forall id :: id in s.reverseVocab && id < s.nextId ==>
              id in Grow(s, tokens).reverseVocab && Grow(s, tokens).reverseVocab[id] == s.reverseVocab[id]
    decreases |tokens|
  {
    if tokens != [] {
      GrowPreserves(Add(s, tokens[0]), tokens[1..]);
    }
  }

  lemma AddConsistent(s: Snapshot, token: string)
    requires Consistent(s)
    ensures Consistent(Add(s, token))
  {
    if token !in s.vocab {
      var r := Add(s, token);
      assert s.nextId !in s.reverseVocab;
      forall t | t in r.vocab
        ensures r.vocab[t] in r.reverseVocab && r.reverseVocab[r.vocab[t]] == t
      {
        if t != token {
          assert s.vocab[t] < s.nextId;
        }
      }
    }
  }

  /** buildVocab keeps the maps mutual inverses with every id below nextId. */
  lemma {:induction false} GrowConsistent(s: Snapshot, tokens: seq<string>)
    requires Consistent(s)
    ensures Consistent(Grow(s, tokens))
    decreases |tokens|
  {
    if tokens != [] {
      AddConsistent(s, tokens[0]);
      GrowConsistent(Add(s, tokens[0]), tokens[1..]);
    }
  }

  /** From a consistent state buildVocab only adds entries. */
  lemma GrowExtends(s: Snapshot, tokens: seq<string>)
    requires Consistent(s)
    ensures Extends(Grow(s, tokens), s)
  {
    GrowPreserves(s, tokens);
  }

  /** After buildVocab every token of the text is in the vocabulary. */
  lemma {:induction false} GrowKnowsAll(s: Snapshot, tokens: seq<string>)
    ensures forall t :: t in tokens ==> t in Grow(s, tokens).vocab
    decreases |tokens|
  {
    if tokens != [] {
      var s1 := Add(s, tokens[0]);
      GrowKnowsAll(s1, tokens[1..]);
      GrowPreserves(s1, tokens[1..]);
      assert tokens == [tokens[0]] + tokens[1..];
    }
  }

  /** Tokens that are all known leave the state as it is. */
  lemma {:induction false} GrowKnown(s: Snapshot, tokens: seq<string>)
    requires forall t :: t in tokens ==> t in s.vocab
    ensures Grow(s, tokens) == s
    decreases |tokens|
  {
    if tokens != [] {
      assert tokens[0] in tokens;
      GrowKnown(s, tokens[1..]);
    }
  }

  /** Running buildVocab a second time on the same text changes nothing. */
  lemma GrowIdempotent(s: Snapshot, tokens: seq<string>)
    ensures Grow(Grow(s, tokens), tokens) == Grow(s, tokens)
  {
    GrowKnowsAll(s, tokens);
    GrowKnown(Grow(s, tokens), tokens);
  }

  lemma {:induction false} FreshDistinct(known: set<string>, tokens: seq<string>)
    ensures Distinct(Fresh(known, tokens))
    ensures forall t :: t in Fresh(known, tokens) <==> t in tokens && t !in known
    decreases |tokens|
  {
    if tokens != [] {
      var t0 := tokens[0];
      FreshDistinct(known, tokens[1..]);
      FreshDistinct(known + {t0}, tokens[1..]);
      assert tokens == [t0] + tokens[1..];
    }
  }

  lemma {:induction false} DistinctCard<T>(s: seq<T>)
    requires Distinct(s)
    ensures |set x | x in s| == |s|
    decreases |s|
  {
    if s != [] {
      DistinctCard(s[1..]);
      assert (set x | x in s) == {s[0]} + (set x | x in s[1..]);
      assert s[0] !in (set x | x in s[1..]);
    }
  }

  /** Token `added[k]` has id `first + k` in both maps of `s`. */
  ghost predicate AssignedFrom(s: Snapshot, added: seq<string>, first: int) {
    forall k :: 0 <= k < |added| ==>
      && added[k] in s.vocab && s.vocab[added[k]] == first + k
      && first + k in s.reverseVocab && s.reverseVocab[first + k] == added[k]
  }

  /** buildVocab's id assignment: the previously unknown distinct tokens get
      the consecutive ids nextId, nextId+1, ... in order of first occurrence,
      in both maps, and the counter moves past them. */
  lemma GrowAssigns(s: Snapshot, tokens: seq<string>)
    ensures Grow(s, tokens).nextId == s.nextId + |Fresh(s.vocab.Keys, tokens)|
    ensures Grow(s, tokens).vocab.Keys == s.vocab.Keys + set t | t in tokens
    ensures AssignedFrom(Grow(s, tokens), Fresh(s.vocab.Keys, tokens), s.nextId)
  {
    GrowNextId(s, tokens);
    GrowKeys(s, tokens);
    GrowIds(s, tokens);
  }

  lemma {:induction false} GrowNextId(s: Snapshot, tokens: seq<string>)
    ensures Grow(s, tokens).nextId == s.nextId + |Fresh(s.vocab.Keys, tokens)|
    decreases |tokens|
  {
    if tokens != [] {
      var s1 := Add(s, tokens[0]);
      GrowNextId(s1, tokens[1..]);
      if tokens[0] !in s.vocab {
        assert s1.vocab.Keys == s.vocab.Keys + {tokens[0]};
      }
    }
  }

  lemma {:induction false} GrowKeys(s: Snapshot, tokens: seq<string>)
    ensures Grow(s, tokens).vocab.Keys == s.vocab.Keys + set t | t in tokens
    decreases |tokens|
  {
    if tokens != [] {
      var s1 := Add(s, tokens[0]);
      GrowKeys(s1, tokens[1..]);
      assert s1.vocab.Keys == s.vocab.Keys + {tokens[0]};
      assert (set t | t in tokens) == {tokens[0]} + set t | t in tokens[1..] by {
        assert tokens == [tokens[0]] + tokens[1..];
      }
    }
  }

  lemma {:induction false} GrowIds(s: Snapshot, tokens: seq<string>)
    ensures AssignedFrom(Grow(s, tokens), Fresh(s.vocab.Keys, tokens), s.nextId)
    decreases |tokens|
  {
    if tokens != [] && tokens[0] in s.vocab {
      assert Grow(s, tokens) == Grow(s, tokens[1..]);
      assert Fresh(s.vocab.Keys, tokens) == Fresh(s.vocab.Keys, tokens[1..]);
      GrowIds(s, tokens[1..]);
    } else if tokens != [] {
      var t0, rest := tokens[0], tokens[1..];
      var s1 := Add(s, t0);
      var g := Grow(s1, rest);
      assert Grow(s, tokens) == g;
      var f1 := Fresh(s1.vocab.Keys, rest);
      assert Fresh(s.vocab.Keys, tokens) == [t0] + f1 by {
        assert s1.vocab.Keys == s.vocab.Keys + {t0};
      }
      assert AssignedFrom(g, f1, s.nextId + 1) by {
        GrowIds(s1, rest);
      }
      assert t0 in g.vocab && g.vocab[t0] == s.nextId
             && s.nextId in g.reverseVocab && g.reverseVocab[s.nextId] == t0 by {
        GrowPreserves(s1, rest);
      }
      ShiftAssigned(g, t0, f1, s.nextId);
    }
  }

  /** Prepending a token with id `first` to tokens numbered from `first + 1`. */
  lemma ShiftAssigned(s: Snapshot, t: string, added: seq<string>, first: int)
    requires AssignedFrom(s, added, first + 1)
    requires t in s.vocab && s.vocab[t] == first && first in s.reverseVocab && s.reverseVocab[first] == t
    ensures AssignedFrom(s, [t] + added, first)
  {
    var all := [t] + added;
    forall k | 0 <= k < |all|
      ensures all[k] in s.vocab && s.vocab[all[k]] == first + k
      ensures first + k in s.reverseVocab && s.reverseVocab[first + k] == all[k]
    {
      if k > 0 {
        assert all[k] == added[k - 1];
      }
    }
  }

  /** The counter grows by exactly the number of distinct tokens of the text
      that were not yet in the vocabulary. */
  lemma GrowCount(s: Snapshot, tokens: seq<string>)
    ensures Grow(s, tokens).nextId == s.nextId + |set t | t in tokens && t !in s.vocab|
  {
    var f := Fresh(s.vocab.Keys, tokens);
    GrowAssigns(s, tokens);
    FreshDistinct(s.vocab.Keys, tokens);
    DistinctCard(f);
    assert (set x | x in f) == set t | t in tokens && t !in s.vocab;
  }

  // ---------------------------------------------------------------------
  // The fixed initial vocabulary

  const ControlTokens: seq<string> := ["[PAD]", "[UNK]", "[CLS]", "[SEP]"]
  const Lowercase: string := "abcdefghijklmnopqrstuvwxyz"
  const Uppercase: string := "ABCDEFGHIJKLMNOPQRSTUVWXYZ"
  const Digits: string := "0123456789"
  const SymbolTokens: seq<string> := [".", ",", "!", "?", "'", "\"", "-", " "]
  const CommonWords: seq<string> := ["the", "and", "is", "to", "of", "in", "it"]

  /** `s.split('')`: one single-character token per character. */
  function Chars(s: string): seq<string> {
    seq(|s|, i requires 0 <= i < |s| => [s[i]])
  }

  /** The one-character tokens of the list: letters, digits, punctuation and space. */
  const SingleCharTokens: seq<string> := Chars(Lowercase) + Chars(Uppercase) + Chars(Digits) + SymbolTokens

  /** `fixedTokens`, in list order. */
  const FixedTokens: seq<string> := ControlTokens + SingleCharTokens + CommonWords

  lemma DistinctAppend<T>(a: seq<T>, b: seq<T>)
    requires Distinct(a) && Distinct(b)
    requires forall i, j :: 0 <= i < |a| && 0 <= j < |b| ==> a[i] != b[j]
    ensures Distinct(a + b)
  {
  }

  lemma LetterCodes()
    ensures forall i :: 0 <= i < 26 ==> Lowercase[i] as int == 'a' as int + i
    ensures forall i :: 0 <= i < 26 ==> Uppercase[i] as int == 'A' as int + i
  {
  }

  lemma DigitCodes()
    ensures forall i :: 0 <= i < 10 ==> Digits[i] as int == '0' as int + i
  {
  }

  /** The characters of the punctuation and space tokens, in list order. */
  const SymbolChars: string := ".,!?'\"- "

  /** Those tokens are single characters, all below 'A' and outside
      '0'..'9', and pairwise different. */
  lemma SymbolCodes()
    ensures SymbolTokens == Chars(SymbolChars)
    ensures Distinct(SymbolChars)
    ensures forall i :: 0 <= i < |SymbolChars| ==> SymbolChars[i] < 'A' && !('0' <= SymbolChars[i] <= '9')
  {
  }

  lemma {:induction false} CharsAppend(a: string, b: string)
    ensures Chars(a + b) == Chars(a) + Chars(b)
  {
  }

  lemma SingleCharsDistinct()
    ensures SingleCharTokens == Chars(Lowercase + Uppercase + Digits + SymbolChars)
    ensures Distinct(SingleCharTokens)
  {
    var all := Lowercase + Uppercase + Digits + SymbolChars;
    SeedCharsDistinct();
    CharsDistinct(all);
    SymbolCodes();
    CharsAppend(Lowercase, Uppercase);
    CharsAppend(Lowercase + Uppercase, Digits);
    CharsAppend(Lowercase + Uppercase + Digits, SymbolChars);
  }

  /** The letters, digits and symbols of the seed list are pairwise different. */
  lemma SeedCharsDistinct()
    ensures Distinct(Lowercase + Uppercase + Digits + SymbolChars)
  {
    LetterCodes();
    DigitCodes();
    SymbolCodes();
    DistinctAppend(Lowercase, Uppercase);
    DistinctAppend(Lowercase + Uppercase, Digits);
    DistinctAppend(Lowercase + Uppercase + Digits, SymbolChars);
  }

  lemma CharsDistinct(s: string)
    requires Distinct(s)
    ensures Distinct(Chars(s))
  {
    forall i, j | 0 <= i < j < |s| ensures Chars(s)[i] != Chars(s)[j] {
      assert Chars(s)[i][0] == s[i];
    }
  }

  lemma MultiCharTokens()
    ensures Distinct(ControlTokens) && Distinct(CommonWords)
    ensures forall i :: 0 <= i < |ControlTokens| ==> |ControlTokens[i]| == 5
    ensures forall i :: 0 <= i < |CommonWords| ==> 2 <= |CommonWords[i]| <= 3
  {
  }

  /** The 81 seeded tokens are pairwise different, so the seeding loop never
      overwrites an entry. */
  lemma FixedTokensDistinct()
    ensures |FixedTokens| == 81
    ensures Distinct(FixedTokens)
  {
    var front := ControlTokens + SingleCharTokens;
    FrontDistinct();
    MultiCharTokens();
    forall i, j | 0 <= i < |front| && 0 <= j < |CommonWords|
      ensures front[i] != CommonWords[j]
    {
      assert |front[i]| == 1 || |front[i]| == 5;
    }
    DistinctAppend(front, CommonWords);
  }

  /** The control tokens followed by the single-character tokens are pairwise
      different; the first have five characters, the others one. */
  lemma FrontDistinct()
    ensures |SingleCharTokens| == 70
    ensures Distinct(ControlTokens + SingleCharTokens)
    ensures forall i :: 0 <= i < |ControlTokens + SingleCharTokens| ==>
              |(ControlTokens + SingleCharTokens)[i]| == 1 || |(ControlTokens + SingleCharTokens)[i]| == 5
  {
    SingleCharsDistinct();
    MultiCharTokens();
    forall i, j | 0 <= i < |ControlTokens| && 0 <= j < |SingleCharTokens|
      ensures ControlTokens[i] != SingleCharTokens[j]
    {
      assert |SingleCharTokens[j]| == 1;
    }
    DistinctAppend(ControlTokens, SingleCharTokens);
  }

  /** The state the seeding loop builds: token i of the list has id i. */
  function Initial(): (s: Snapshot)
    ensures |FixedTokens| == 81 && s.nextId == 81
    ensures forall i :: 0 <= i < 81 ==>
              FixedTokens[i] in s.vocab && s.vocab[FixedTokens[i]] == i
              && i in s.reverseVocab && s.reverseVocab[i] == FixedTokens[i]
    ensures s.vocab.Keys == set t | t in FixedTokens
    ensures forall id :: id in s.reverseVocab <==> 0 <= id < 81
  {
    FixedTokensDistinct();
    Seeded(FixedTokens, |FixedTokens|)
  }

  /** The state once the seeding loop has numbered the first `n` tokens of
      `list`: token k has id k in both maps and the counter is `n`. */
  function Seeded(list: seq<string>, n: nat): Snapshot
    requires Distinct(list) && n <= |list|
  {
    Snapshot(map k | 0 <= k < n :: list[k] := k,
             map k | 0 <= k < n :: list[k],
             n)
  }

  /** One turn of the seeding loop: the next token gets the counter as its
      id in both maps, and the counter moves on. */
  lemma SeedStep(list: seq<string>, n: nat)
    requires Distinct(list) && n < |list|
    ensures Seeded(list, n + 1) == Snapshot(Seeded(list, n).vocab[list[n] := n],
                                            Seeded(list, n).reverseVocab[n := list[n]], n + 1)
  {
    SeedVocabStep(list, n);
    var a, b := Seeded(list, n + 1).reverseVocab, Seeded(list, n).reverseVocab;
    assert a.Keys == b.Keys + {n};
  }

  lemma SeedVocabStep(list: seq<string>, n: nat)
    requires Distinct(list) && n < |list|
    ensures Seeded(list, n + 1).vocab == Seeded(list, n).vocab[list[n] := n]
  {
    var a, b := Seeded(list, n + 1).vocab, Seeded(list, n).vocab[list[n] := n];
    forall t | t in a ensures t in b && a[t] == b[t] {
      var k :| 0 <= k <= n && list[k] == t;
      if k < n {
        assert list[k] != list[n];
      }
    }
    assert a.Keys == b.Keys;
  }

  /** The seeded maps are mutual inverses with every id below 81. */
  lemma InitialConsistent()
    ensures Consistent(Initial())
  {
    var s := Initial();
    forall t | t in s.vocab
      ensures s.vocab[t] in s.reverseVocab && s.reverseVocab[s.vocab[t]] == t
    {
      var i :| 0 <= i < 81 && FixedTokens[i] == t;
    }
  }

  /** In the seeded vocabulary "[UNK]" has id 1 and the single space id 73. */
  lemma InitialSpecialIds()
    ensures "[UNK]" in Initial().vocab && Initial().vocab["[UNK]"] == 1
    ensures " " in Initial().vocab && Initial().vocab[" "] == 73
  {
    assert FixedTokens[1] == "[UNK]";
    assert FixedTokens[73] == " ";
  }

  // ---------------------------------------------------------------------
  // loadVocabFromStorage / saveVocabToStorage

  /** The three saved items, already decoded; None when an item is absent. */
  datatype Stored = Stored(vocab: Option<map<string, int>>,
                           reverseVocab: Option<map<int, string>>,
                           nextId: Option<int>)

  /** What saveVocabToStorage leaves in storage. */
  function Save(s: Snapshot): Stored {
    Stored(Some(s.vocab), Some(s.reverseVocab), Some(s.nextId))
  }

  /** loadVocabFromStorage: when all three items are present, every saved
      key overwrites (Object.assign) and all other entries stay, and the
      counter is replaced; if any item is missing nothing changes. */
  function Overlay(s: Snapshot, stored: Stored): (r: Snapshot)
    ensures !(stored.vocab.Some? && stored.reverseVocab.Some? && stored.nextId.Some?) ==> r == s
    ensures stored.vocab.Some? && stored.reverseVocab.Some? && stored.nextId.Some? ==>
              && r.nextId == stored.nextId.value
              && r.vocab.Keys == s.vocab.Keys + stored.vocab.value.Keys
              && r.reverseVocab.Keys == s.reverseVocab.Keys + stored.reverseVocab.value.Keys
              && (forall t :: t in stored.vocab.value ==> r.vocab[t] == stored.vocab.value[t])
              && (forall t :: t in s.vocab && t !in stored.vocab.value ==> r.vocab[t] == s.vocab[t])
              && (forall id :: id in stored.reverseVocab.value ==> r.reverseVocab[id] == stored.reverseVocab.value[id])
              && (forall id :: id in s.reverseVocab && id !in stored.reverseVocab.value ==>
                    r.reverseVocab[id] == s.reverseVocab[id])
  {
    if stored.vocab.Some? && stored.reverseVocab.Some? && stored.nextId.Some? then
      Snapshot(s.vocab + stored.vocab.value, s.reverseVocab + stored.reverseVocab.value, stored.nextId.value)
    else s
  }

  /** Reloading a saved state that extends the current one restores it exactly. */
  lemma OverlaySaved(s: Snapshot, saved: Snapshot)
    requires Extends(saved, s)
    ensures Overlay(s, Save(saved)) == saved
  {
    var r := Overlay(s, Save(saved));
    assert r.vocab == saved.vocab;
    forall id | id in s.reverseVocab ensures id in saved.reverseVocab {
      assert s.reverseVocab[id] == saved.reverseVocab[id];
    }
    assert r.reverseVocab.Keys == saved.reverseVocab.Keys;
    forall id | id in r.reverseVocab ensures r.reverseVocab[id] == saved.reverseVocab[id] {
    }
    assert r.reverseVocab == saved.reverseVocab;
  }

  /** Persistence survives a reload: the state a buildVocab left in storage,
      overlaid on the state it started from (a fresh page's seeded state,
      say), gives back every id that buildVocab assigned. */
  lemma ReloadAfterGrow(s: Snapshot, tokens: seq<string>)
    requires Consistent(s)
    ensures Overlay(s, Save(Grow(s, tokens))) == Grow(s, tokens)
  {
    GrowExtends(s, tokens);
    OverlaySaved(s, Grow(s, tokens));
  }
}
