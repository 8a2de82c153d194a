/** `encode` and `decode` of script.js, over the vocabulary maps they read.
    Neither changes the vocabulary: the maps are parameters here. */
module Codec {
  import opened Tokenizer

  /** The token unknown ids decode to, and whose id unknown tokens encode to. */
  const Unk: string := "[UNK]"

  /** `encode(text)`: the id of every token of the text, `vocab['[UNK]']` for
      a token the vocabulary does not know. Every id it returns is one the
      vocabulary has assigned, and a known token gets the id it was assigned. */
  function Encode(vocab: map<string, int>, text: string): (ids: seq<int>)
    requires Unk in vocab
    ensures |ids| == |Tokenize(text)|
    ensures forall i :: 0 <= i < |ids| ==> ids[i] in vocab.Values
    ensures forall i :: 0 <= i < |ids| && Tokenize(text)[i] in vocab ==> ids[i] == vocab[Tokenize(text)[i]]
    ensures forall i :: 0 <= i < |ids| && Tokenize(text)[i] !in vocab ==> ids[i] == vocab[Unk]
  {
    var tokens := Tokenize(text);
    seq(|tokens|, i requires 0 <= i < |tokens| =>
      if tokens[i] in vocab then vocab[tokens[i]] else vocab[Unk])
  }

  /** `tokenIds.map(id => reverseVocab[id] || '[UNK]')`: an id with no entry,
      or whose entry is the empty (falsy) string, becomes "[UNK]". The result
      never holds an empty token. */
  function Lookup(reverseVocab: map<int, string>, ids: seq<int>): (tokens: seq<string>)
    ensures |tokens| == |ids|
    ensures forall i :: 0 <= i < |ids| ==> tokens[i] != ""
    ensures forall i :: 0 <= i < |ids| && ids[i] !in reverseVocab ==> tokens[i] == Unk
    ensures forall i :: 0 <= i < |ids| && ids[i] in reverseVocab && reverseVocab[ids[i]] == "" ==>
              tokens[i] == Unk
    ensures forall i :: 0 <= i < |ids| && ids[i] in reverseVocab && reverseVocab[ids[i]] != "" ==>
              tokens[i] == reverseVocab[ids[i]]
  {
    seq(|ids|, i requires 0 <= i < |ids| =>
      if ids[i] in reverseVocab && reverseVocab[ids[i]] != "" then reverseVocab[ids[i]] else Unk)
  }

  /** How decode appends a token after the first: punctuation attaches, the
      single-space token is itself the separator, and any other token is
      preceded by one space. */
  function Attach(token: string): string {
    if IsPunctToken(token) then token
    else if token == " " then " "
    else " " + token
  }

  function Glue(tokens: seq<string>): string
    decreases |tokens|
  {
    if tokens == [] then "" else Attach(tokens[0]) + Glue(tokens[1..])
  }

  /** The text decode builds from its tokens: the first verbatim, the rest attached. */
  function Render(tokens: seq<string>): string {
    if tokens == [] then "" else tokens[0] + Glue(tokens[1..])
  }

  lemma {:induction false} GlueAppend(a: seq<string>, b: seq<string>)
    ensures Glue(a + b) == Glue(a) + Glue(b)
    decreases |a|
  {
    if a != [] {
      assert (a + b)[0] == a[0] && (a + b)[1..] == a[1..] + b;
      GlueAppend(a[1..], b);
    } else {
      assert a + b == b;
    }
  }

  /** decode's spacing rule, token by token: the first token is appended
      verbatim, a punctuation token with no space, the token " " as " ", and
      every other token after exactly one space. */
  lemma RenderAppend(tokens: seq<string>, t: string)
    ensures tokens == [] ==> Render(tokens + [t]) == t
    ensures tokens != [] && IsPunctToken(t) ==> Render(tokens + [t]) == Render(tokens) + t
    ensures tokens != [] && t == " " ==> Render(tokens + [t]) == Render(tokens) + " "
    ensures tokens != [] && !IsPunctToken(t) && t != " " ==>
              Render(tokens + [t]) == Render(tokens) + " " + t
  {
    if tokens == [] {
      assert tokens + [t] == [t];
    } else {
      RenderSnoc(tokens, t);
    }
  }

  lemma RenderSnoc(tokens: seq<string>, t: string)
    requires tokens != []
    ensures Render(tokens + [t]) == Render(tokens) + Attach(t)
  {
    assert Render(tokens + [t]) == tokens[0] + Glue(tokens[1..] + [t]) by {
      assert (tokens + [t])[0] == tokens[0];
      assert (tokens + [t])[1..] == tokens[1..] + [t];
    }
    assert Glue(tokens[1..] + [t]) == Glue(tokens[1..]) + Attach(t) by {
      GlueAppend(tokens[1..], [t]);
      assert Glue([t]) == Attach(t) + Glue([]);
    }
  }

  /** `decode(tokenIds)`: looks every id up and builds the text with decode's
      spacing rule. */
  method Decode(reverseVocab: map<int, string>, ids: seq<int>) returns (text: string)
    ensures text == Render(Lookup(reverseVocab, ids))
  {
    var tokens := Lookup(reverseVocab, ids);
    text := "";
    var i := 0;
    while i < |tokens|
      invariant 0 <= i <= |tokens|
      invariant text == Render(tokens[..i])
    {
      var token := tokens[i];
      RenderAppend(tokens[..i], token);
      assert tokens[..i + 1] == tokens[..i] + [token];
      if i == 0 {
        text := text + token;
      } else if IsPunctToken(token) {
        text := text + token;
      } else if token == " " {
        text := text + " ";
      } else {
        text := text + " " + token;
      }
      i := i + 1;
    }
    assert tokens[..i] == tokens;
  }

  /** Decoding one id gives its token, or "[UNK]" for an id never assigned. */
  lemma DecodeOne(reverseVocab: map<int, string>, id: int)
    ensures id !in reverseVocab ==> Render(Lookup(reverseVocab, [id])) == Unk
    ensures id in reverseVocab && reverseVocab[id] != "" ==>
              Render(Lookup(reverseVocab, [id])) == reverseVocab[id]
  {
    var tokens := Lookup(reverseVocab, [id]);
    assert tokens[1..] == [];
  }

  /** decode only inserts spaces: with white space deleted, the decoded text
      is the tokens glued together. */
  lemma {:induction false} GlueRemoveSpaces(tokens: seq<string>)
    ensures RemoveSpaces(Glue(tokens)) == RemoveSpaces(Concat(tokens))
    decreases |tokens|
  {
    if tokens != [] {
      var t, rest := tokens[0], tokens[1..];
      assert RemoveSpaces(Glue(tokens)) == RemoveSpaces(Attach(t)) + RemoveSpaces(Glue(rest)) by {
        RemoveSpacesAppend(Attach(t), Glue(rest));
      }
      assert RemoveSpaces(Concat(tokens)) == RemoveSpaces(t) + RemoveSpaces(Concat(rest)) by {
        RemoveSpacesAppend(t, Concat(rest));
      }
      RemoveSpacesAttach(t);
      GlueRemoveSpaces(rest);
    }
  }

  /** The space Attach may insert is the only thing it adds. */
  lemma RemoveSpacesAttach(t: string)
    ensures RemoveSpaces(Attach(t)) == RemoveSpaces(t)
  {
    if !IsPunctToken(t) && t != " " {
      RemoveSpacesAppend(" ", t);
      assert RemoveSpaces(" ") == [];
    }
  }

  lemma RenderRemoveSpaces(tokens: seq<string>)
    ensures RemoveSpaces(Render(tokens)) == RemoveSpaces(Concat(tokens))
  {
    if tokens != [] {
      GlueRemoveSpaces(tokens[1..]);
      RemoveSpacesAppend(tokens[0], Glue(tokens[1..]));
      RemoveSpacesAppend(tokens[0], Concat(tokens[1..]));
    }
  }
}
