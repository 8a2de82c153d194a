# Custom tokenizer: a Dafny model

This project models the vocabulary tokenizer of `script.js`, which is a
browser page that encodes text to token ids and decodes ids back to text.
It models the following parts:

- **Seeding.** 81 fixed tokens get ids 0..80 in both maps, and `nextId` is
  left at 81.
- **`tokenize`.** It trims the text, splits it on `\s+` and on the
  characters `. , ! ? ' " -` (keeping the separators), and drops the empty
  and white-space pieces.
- **`buildVocab`.** This is the only operation that grows the vocabulary.
  Each unknown token gets the current `nextId` in `vocab` and in
  `reverseVocab`, and the counter moves on.
- **`encode`.** Each token becomes its id, or the id of `[UNK]`.
- **`decode`.** Each id becomes its token, or `[UNK]`. The text is then
  rebuilt with a spacing rule.
- **`loadVocabFromStorage`.** The saved maps are laid over the current maps.
- **The button's two actions.** Encode runs `buildVocab` and then `encode`.
  Decode runs `loadVocabFromStorage` and then `decode`.

The project has five modules:

- `Tokenizer` models `tokenize` in three literal steps: `Trim`, then
  `SplitFrom`/`Split` (JavaScript `split` with a capture group), then
  `KeepTokens` (the filter). `Scan` is an independent left-to-right scanner,
  and the two are proved equal. White space is the fixed set of characters
  that JavaScript's `\s` and `trim()` match.
- `Codec` models `encode` as a function over a token→id map. It models
  decode's id lookup (`Lookup`) and its spacing rule (`Render`). `Decode` is
  decode's loop, proved to compute `Render`.
- `Vocabulary` treats the three variables as one value, `Snapshot`, and
  states what it means for them to agree (`Consistent`). It defines
  `buildVocab`'s loop as `Grow`, the seed list and seeded state, and the
  storage overlay.
- `Page` holds the page state as the class `Store`. The class has the fields `vocab`,
  `reverseVocab` and `nextId`. Its constructor is the seeding loop. Its
  methods are `buildVocab`, `loadVocabFromStorage` and the two button
  actions. Each method is proved against the `Vocabulary` and `Codec`
  definitions. The state the page starts from (script.js:144) is the
  constructor followed by `LoadFromStorage` of whatever storage holds.
- `RoundTrip` proves what an encode action followed by decode returns. For
  any text, this is the text up to white space. For text made of words with
  trailing punctuation, separated by single spaces, it is the text exactly.

Three points about what the code does, which the model follows:

- **Vocabulary growth.** `encode` only reads the vocabulary. `buildVocab`,
  which the encode button runs first, grows it.
- **White-space tokens.** The filter `token.trim().length > 0` drops every
  white-space piece, so `tokenize` never yields a white-space run or the
  seeded token `" "` (see `Tokenizer.Tokenize`). `"Hello, world!"` therefore tokenizes to
  `["Hello", ",", "world", "!"]`. It still decodes to the same text, because
  decode puts a space before every word.
- **Empty input.** Only the click handler rejects empty input, and the
  handler's input checks are not modelled. In the model, `Tokenize("")`
  is `[]` and decoding `[]` gives `""`.

## Model

| member | source | states |
|---|---|---|
| Tokenizer.IsSpace | script.js:46-48 | definition; no contract: the characters `\s` and `trim()` treat as white space |
| Tokenizer.IsPunct | script.js:47 | definition; no contract: the separator characters `[.,!?'"-]` of the split regex |
| Tokenizer.TrimStart | script.js:46 | definition; no contract: drops the leading white space, as the first half of `trim()` |
| Tokenizer.TrimEnd | script.js:46 | definition; no contract: drops the trailing white space, as the second half of `trim()` |
| Tokenizer.Trim | script.js:46 | definition; no contract: `trim()`, both ends |
| Tokenizer.SplitFrom | script.js:47 | definition; no contract: `split(/(\s+\|[.,!?'"-])/)` from a pending segment; each match closes the segment and is emitted itself |
| Tokenizer.Split | script.js:47 | definition; no contract: `split` from an empty pending segment |
| Tokenizer.KeepTokens | script.js:48 | definition; no contract: the filter `token && token.trim().length > 0` |
| Tokenizer.Tokenize | script.js:44-49 | tokenize equals the reference scanner `Scan`. Every token is a word (a non-empty run of non-space, non-punctuation characters) or exactly one of `. , ! ? ' " -`. The seeded `" "` is never produced. The tokens concatenate to the input with all white space deleted. |
| Tokenizer.TokenizeIsScan | script.js:44-49 | trim, then split with the separators kept, then the filter gives exactly the scanner's tokens |
| Tokenizer.SplitFromIsScan | script.js:47-48 | from any point in the text, splitting and filtering gives the scanner's tokens for the pending word followed by the rest of the text |
| Tokenizer.SplitAtSpaces | script.js:47-48 | a white-space run closes the pending piece, and the filter drops the run itself |
| Tokenizer.SplitAtPunct | script.js:47-48 | a punctuation character closes the pending piece and survives the filter as a token |
| Tokenizer.KeepSingle | script.js:48 | a one-character piece that is not white space passes the filter |
| Tokenizer.ScanTrimStart | script.js:46 | trimming leading white space does not change the tokens |
| Tokenizer.ScanTrimEnd | script.js:46 | trimming trailing white space does not change the tokens |
| Tokenizer.LeadingSpaces | script.js:47 | the greedy `\s+` match covers only white space and stops at the first other character |
| Tokenizer.ScanTokens | script.js:44-49 | every scanned token is a word or a single punctuation character |
| Tokenizer.ScanConcat | script.js:44-49 | the scanned tokens concatenate to the input with white space deleted |
| Tokenizer.TokenizeWord | script.js:44-49 | a single word tokenizes to itself |
| Tokenizer.TokenizeSeparator | script.js:47 | a white-space or punctuation character splits the text. Tokenizing around it gives the two sides' tokens, with the punctuation character kept between them. |
| Codec.Encode | script.js:66-69 | one id per token. A known token gets its own id and an unknown token gets `vocab['[UNK]']`. Every id is one the vocabulary assigned. |
| Codec.Lookup | script.js:73 | one token per id. An id with no entry, or with an empty (falsy) entry, becomes `[UNK]`. Any other id becomes its entry. No token is empty. |
| Codec.Attach | script.js:79-85 | definition; no contract: what decode appends for a token after the first |
| Codec.Glue | script.js:76-86 | definition; no contract: the tokens after the first, each attached |
| Codec.Render | script.js:74-86 | definition; no contract: the text decode builds, the first token verbatim and the rest attached; its behaviour is stated by RenderAppend, RenderSnoc and RenderRemoveSpaces |
| Codec.RenderAppend | script.js:75-86 | the spacing rule token by token. The first token is appended as is. A punctuation token is appended with no space. `" "` is appended as `" "`. Any other token gets exactly one leading space. |
| Codec.RenderSnoc | script.js:75-86 | appending one token after the first adds exactly what the spacing rule attaches for it |
| Codec.Decode | script.js:72-88 | decode's loop builds exactly the text the spacing rule gives for the looked-up tokens |
| Codec.DecodeOne | script.js:72-88 | decoding a single id that was never assigned gives `[UNK]`. Decoding an assigned id gives its token. |
| Codec.RenderRemoveSpaces | script.js:75-86 | decode only inserts spaces: with white space deleted, the decoded text is the tokens concatenated |
| Vocabulary.FixedTokens | script.js:2-9 | definition; no contract: the 81 seed tokens in order; FixedTokensDistinct states they are all different |
| Vocabulary.Seeded | script.js:17-21 | definition; no contract: the state after the seeding loop has numbered the first n tokens of a list |
| Vocabulary.Initial | script.js:2-21 | the seeded state: for every i < 81, `vocab[fixedTokens[i]] == i` and `reverseVocab[i] == fixedTokens[i]`. `nextId` is 81, and there are no other keys or ids. |
| Vocabulary.FixedTokensDistinct | script.js:2-9 | the seed list has 81 tokens, all different, so each keeps the id of its position |
| Vocabulary.SeedStep | script.js:17-21 | one turn of the seeding loop adds the next token under the counter in both maps and moves the counter on |
| Vocabulary.InitialConsistent | script.js:17-21 | after seeding, the two maps are mutual inverses with every id below `nextId` |
| Vocabulary.InitialSpecialIds | script.js:2-21 | `[UNK]` has id 1 and `" "` has id 73 |
| Vocabulary.Add | script.js:56-60 | definition; no contract: one turn of buildVocab's loop |
| Vocabulary.Grow | script.js:55-61 | definition; no contract: buildVocab's loop over the tokens; its behaviour is stated by the Grow lemmas below |
| Vocabulary.AddConsistent | script.js:56-60 | one step of buildVocab's loop keeps the maps mutual inverses with ids below `nextId` |
| Vocabulary.GrowConsistent | script.js:55-61 | buildVocab keeps the maps mutual inverses with every id below `nextId` |
| Vocabulary.GrowPreserves | script.js:55-61 | buildVocab never changes a `vocab` entry or a `reverseVocab` entry below the old `nextId`, and never lowers `nextId`. An entry at or above the old `nextId`, which only inconsistent saved maps can leave, may be overwritten. |
| Vocabulary.GrowExtends | script.js:55-61 | on a consistent state, every entry of both maps survives buildVocab unchanged |
| Vocabulary.GrowKnowsAll | script.js:55-61 | after buildVocab every token of the text is a key |
| Vocabulary.GrowKnown | script.js:56 | buildVocab changes nothing when every token is already known |
| Vocabulary.GrowIdempotent | script.js:55-61 | running buildVocab a second time with the same tokens changes nothing |
| Vocabulary.FreshDistinct | script.js:55-56 | the tokens buildVocab adds are the distinct unknown tokens of the text, in order of first occurrence |
| Vocabulary.GrowAssigns | script.js:55-61 | the new tokens get consecutive ids from the old `nextId`, in order of first occurrence. The keys become the old keys plus the text's tokens. `nextId` grows by the number of new tokens. |
| Vocabulary.GrowNextId | script.js:57-59 | `nextId` grows by one for each distinct unknown token of the text |
| Vocabulary.GrowKeys | script.js:56-57 | the keys after buildVocab are the old keys plus the tokens of the text |
| Vocabulary.GrowIds | script.js:56-59 | the k-th new token gets id `nextId + k` in both maps |
| Vocabulary.GrowCount | script.js:55-61 | `nextId` grows by exactly the number of distinct tokens of the text that were not known |
| Vocabulary.Save | script.js:37-41 | definition; no contract: what saveVocabToStorage leaves in the three storage items |
| Vocabulary.Overlay | script.js:29-33 | when all three saved items are present, exactly the saved keys are overwritten, every other entry stays, and `nextId` becomes the saved counter. If any item is missing, nothing changes. |
| Vocabulary.OverlaySaved | script.js:29-33 | loading a saved state that extends the current one restores the saved state exactly |
| Vocabulary.ReloadAfterGrow | script.js:29-33 | loading what buildVocab saved, over the state it started from, gives back every id buildVocab assigned |
| Page.Store.constructor | script.js:12-21 | the seeding loop leaves exactly the seeded state. That state is consistent, and `[UNK]` has id 1 in it. |
| Page.Store.BuildVocab | script.js:52-63 | the loop leaves `Grow` of the old state, and what it saves is the new state. From a consistent state it keeps the state consistent and keeps every old entry. `nextId` grows by the number of distinct new tokens. |
| Page.Store.AddAll | script.js:55-61 | buildVocab's loop leaves exactly `Grow` of the state it started from |
| Page.Store.LoadFromStorage | script.js:24-34 | the new state is the overlay of the saved items on the old one, and no key is lost |
| Page.Store.EncodeAction | script.js:131-134 | buildVocab then encode. On a consistent state, looking the returned ids up gives exactly the tokens of the text. |
| Page.Store.DecodeAction | script.js:126-137 | loadVocabFromStorage then decode. The text is the spacing rule applied to the looked-up tokens of the loaded state. |
| Page.GrowFacts | script.js:55-61 | the counter and consistency facts BuildVocab promises, stated on values |
| RoundTrip.LookupEncode | script.js:66-73 | when every token is known, looking the encoded ids up gives the tokens back |
| RoundTrip.EncodeAfterBuild | script.js:132-133 | after buildVocab(text), `reverseVocab[encode(text)[i]] == tokenize(text)[i]` for every i |
| RoundTrip.EncodeTwice | script.js:132-133 | a second encode action on the same text adds nothing and returns the same ids |
| RoundTrip.RoundTripUpToSpaces | script.js:44-88 | for any text, decode(encode(text)) after buildVocab equals the text once white space is deleted from both |
| RoundTrip.TokenizeText | script.js:44-49 | words with trailing punctuation, separated by single spaces, tokenize to each word followed by each of its punctuation characters |
| RoundTrip.RenderTokens | script.js:72-88 | decode's spacing rule rebuilds such a text exactly from those tokens |
| RoundTrip.GluePunctTokens | script.js:79-80 | punctuation tokens are appended with no space, so decode glues them on as they are |
| RoundTrip.RoundTrip | script.js:44-88 | after buildVocab, decode(encode(text)) == text for every text of the shape `w1P1 w2P2 ... wnPn` |
| RoundTrip.HelloWorld | script.js:44-88 | `"Hello, world!"` round-trips exactly |
| RoundTrip.TokenizeApostrophe | script.js:44-49 | `"don't"` tokenizes to `["don", "'", "t"]` |
| RoundTrip.Apostrophe | script.js:72-88 | `"don't"` does not round-trip: it decodes to `"don' t"` |

## Left out

- The page: DOM elements, event listeners, mode switching and the output
  formatting (script.js:90-141).
- Keystroke sanitising (script.js:111, script.js:113). Also the click
  handler's rejection of empty input.
- Parsing decode input with `split(/\s+/).map(Number)`, including `NaN` ids.
  Ids are given as a `seq<int>`.
- `localStorage` reads and writes, and the `JSON.parse`/`JSON.stringify`,
  `Number` and `toString` conversions. The three saved items are given as
  already-decoded `Option` values (`Vocabulary.Stored`). `Save` stands for
  what `saveVocabToStorage` writes. A storage failure is not modelled.
- Vocabulary.Overlay: a saved counter that is not an integer (`Number`
  giving `NaN` or a fraction) is not modelled. Neither is a saved item that
  is present but empty (falsy). The counter is an `int`.
- JavaScript object-key quirks. `token in vocab` is true for inherited names
  such as `"constructor"`. Ids are coerced to string keys. The maps are
  plain Dafny maps.
- Codec.Encode: requires `[UNK]` to be a key. On a vocabulary without it,
  JavaScript would emit `undefined`. Every state the page reaches has it:
  the seeding puts it there, and buildVocab and the overlay never remove a
  key.
- Tokenizer.IsSpace: the white-space set is the fixed list of characters
  that JavaScript's `\s` matches. Characters are UTF-16 code units in
  JavaScript and Unicode scalar values here. The two agree on every
  character in that list.
- Page.Store.EncodeAction: it promises that the ids map back to the text's
  tokens only when the old state is consistent. `loadVocabFromStorage` can
  install saved maps that break consistency, and the page then behaves as
  the saved data dictates.
