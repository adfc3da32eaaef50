# Text normalisation, corpus assembly and ranking of an LSI document search

This project models the non-numeric core of a small latent-semantic-indexing
search site (`LSI.py`). Uploaded documents are turned into a processed text
by `preprocess_text`. That function lower-cases the text, deletes ASCII
punctuation, tokenizes, drops stopwords, stems the remaining tokens and joins
the stems with single spaces. The processed text is stored next to the upload
as `name + ".processed"`.

A search lists the storage directory and keeps the files that end in
`.processed`. It builds an insertion-ordered dictionary keyed by the file name
with every `.processed` removed. When that dictionary is non-empty, it fits
TF-IDF and a truncated SVD with `min(100, V - 1)` components, where `V` is the
vocabulary size. It then scores each document against the processed query and
returns every (key, score) pair, sorted by descending score. The sort is
stable.

Modules:

- `Text` (`text.dfy`): ASCII case folding, deletion of `string.punctuation`,
  `' '.join`, `str.split(' ')`, and `str.split()`. The last one is the
  whitespace tokenizer used as the stand-in for the library tokenizer.
- `Preprocess` (`preprocess.dfy`): the `preprocess_text` pipeline. It is
  parameterised by a `Pipeline` value that holds a tokenizer, a stemmer and a
  stopword set.
- `Corpus` (`corpus.dfy`): artifact naming, key derivation with `str.replace`
  semantics, the insertion-ordered dictionary `Documents`, and the loading
  loop. The loop is `LoadCorpus`, a method proved against the specification
  function `CorpusOf`. `Corpus` also has the `view_document` lookup.
- `Ranking` (`ranking.dfy`): `zip`, the stable descending sort `Rank`, and a
  proof that a stable descending sort is unique. It also has the component
  rule `Components`.
- `Search` (`search.dfy`): the search request as a method. The library
  numerics are abstracted by a `Numerics` value.

The storage directory is modelled as a listing, in the order `os.listdir`
gives, plus a map from file name to content. Scores are `real` values and are
only compared.

What the code does and does not do, as modelled:

- `view_document` does not sanitise document names: it joins the name into
  a path unchecked (LSI.py:126).
- An upload writes only the `.processed` artifact next to the raw file
  (LSI.py:144-148); no other derived file is written.
- A search on a single document is not rejected as such. The outcome depends
  only on the vocabulary size (LSI.py:168-170): 0 terms or 1 term makes the
  numeric library raise, and 2 or more terms give a ranking.
- Library failures are not caught. They are exceptions, modelled as
  `Failed` outcomes.

Because raw uploads are stored in the same directory, a raw upload named
`x.processed` is itself loaded as a document. Its key is `x`. The model
covers this because the listing is arbitrary.

## Model

| member | source | states |
|---|---|---|
| `Text.PunctuationRanges` | LSI.py:96 | the four ASCII ranges used by `IsPunctuation` are exactly the characters of `string.punctuation` |
| `Text.LowerChar` | LSI.py:95 | the folded character is never an ASCII capital; a capital maps to its small letter, any other character is unchanged |
| `Text.Lower` | LSI.py:95 | lowering keeps the length, folds every position independently and leaves no ASCII capital |
| `Text.StripPunctuation` | LSI.py:96 | deleting punctuation never lengthens the text |
| `Text.StripPunctuationCounts` | LSI.py:96 | after `translate`, punctuation characters occur 0 times and every other character occurs as often as before, so nothing is added |
| `Text.StripPunctuationAppend` | LSI.py:96 | the deletion distributes over concatenation, so the surviving characters keep their order |
| `Text.StripPunctuationKeeps` | LSI.py:96 | text without punctuation passes through unchanged |
| `Text.StripPunctuationDrops` | LSI.py:96 | text made only of punctuation becomes "" |
| `Text.StripPunctuationIdempotent` | LSI.py:96 | deleting punctuation a second time changes nothing |
| `Text.LowerKeepsPunctuation` | LSI.py:95-96 | case folding neither creates nor removes a punctuation character |
| `Text.LowerStripCommute` | LSI.py:95-96 | lowering before or after the deletion gives the same string |
| `Text.SplitWhere` | LSI.py:98 | splitting always gives at least one piece, no piece contains a separator, and every character of a piece comes from the input |
| `Text.NonEmpty` | LSI.py:96 | dropping empty pieces keeps only non-empty pieces of the input |
| `Text.Words` | LSI.py:96 | the whitespace tokenizer yields only non-empty tokens without whitespace, made of characters of the input |
| `Text.SplitWherePrefix` | LSI.py:98 | a separator-free word is glued to the first piece of what follows it |
| `Text.Join` | LSI.py:98 | `' '.join` of no words is ""; otherwise the first word starts the result, and every character is a space or a character of one of the words |
| `Text.SplitWhereJoin` | LSI.py:98 | splitting the space-join of a non-empty list on any separator class that includes the space gives back the words, when no word contains a separator |
| `Text.SplitJoin` | LSI.py:98 | `' '.join(ws).split(' ') == ws` for a non-empty list of words without spaces |
| `Text.JoinConsFirst` | LSI.py:98 | prefixing the first word with a character prefixes the joined string with it |
| `Text.JoinSplit` | LSI.py:98 | `' '.join(s.split(' ')) == s` for every string |
| `Text.NonEmptyAll` | LSI.py:96 | a list without empty words is unchanged by dropping empty pieces |
| `Text.WordsJoin` | LSI.py:96-98 | whitespace tokenizing a space-join of non-empty, whitespace-free words gives the words back, also for the empty list |
| `Text.WordsOfEmpty` | LSI.py:96 | the whitespace tokenizer finds no token in "" |
| `Preprocess.Normalize` | LSI.py:95-96 | the text handed to the tokenizer has no punctuation and no ASCII capital, and is no longer than the input |
| `Preprocess.RemoveStopwords` | LSI.py:97 | every kept token comes from the input and is not a stopword |
| `Preprocess.RemoveStopwordsAppend` | LSI.py:97 | the stopword filter distributes over concatenation, so kept tokens stay in their original relative order |
| `Preprocess.RemoveStopwordsCounts` | LSI.py:97 | every stopword disappears and every other token keeps its multiplicity, so the output length is the number of non-stopword tokens |
| `Preprocess.RemoveStopwordsAll` | LSI.py:97 | a token list made only of stopwords filters to the empty list |
| `Preprocess.StemAll` | LSI.py:97 | the i-th output is the stem of the i-th kept token, and there is one per token |
| `Preprocess.Tokens` | LSI.py:96 | with the whitespace tokenizer, every token of the normalized text is non-empty and has no whitespace, punctuation or ASCII capital |
| `Preprocess.FilteredTokens` | LSI.py:97 | the i-th stem is the stem of the i-th non-stopword token, in token order, so there are no more stems than tokens |
| `Preprocess.PreprocessText` | LSI.py:94-98 | the processed text is "" when no stems remain; every character is a separating space or a character of one of the stems |
| `Preprocess.PreprocessSplit` | LSI.py:97-98 | the processed text is "" when no stems remain; otherwise `split(' ')` of it gives exactly the stems, when no stem contains a space |
| `Preprocess.PreprocessWords` | LSI.py:96-98 | with non-empty, whitespace-free stems, whitespace-splitting the processed text gives the stems, one per non-stopword token |
| `Preprocess.PreprocessAllStopwords` | LSI.py:97-98 | input whose tokens are all stopwords processes to "" |
| `Preprocess.PreprocessPunctuationOnly` | LSI.py:95-98 | empty or all-punctuation input normalizes to "" and processes to "" when the tokenizer finds nothing in "" |
| `Preprocess.StemMayBeStopword` | LSI.py:97 | the stopword test is applied before stemming: a token whose stem is a stopword still reaches the output |
| `Corpus.ArtifactName` | LSI.py:147 | the artifact name of an upload always ends in ".processed" |
| `Corpus.RemoveAll` | LSI.py:165 | `str.replace(pat, '')` never lengthens the name |
| `Corpus.RemoveAllShortens` | LSI.py:163-165 | a name ending in the pattern loses at least one whole occurrence of it |
| `Corpus.ArtifactNames` | LSI.py:163 | the `endswith('.processed')` filter keeps exactly the files named `name + ".processed"` for some upload name |
| `Corpus.KeyOf` | LSI.py:165 | the key is never longer than the file name, and at least the trailing ".processed" of a loaded file is deleted |
| `Corpus.RemoveAllAbsent` | LSI.py:165 | a name without the pattern is left unchanged by the replace |
| `Corpus.RemoveAllSkips` | LSI.py:165 | a ".processed" that follows a ".processed"-free prefix is deleted, and the prefix is kept whole |
| `Corpus.KeyOfArtifactName` | LSI.py:147 | an upload name without ".processed" gives an artifact that is loaded, and its key is the upload name again |
| `Corpus.ArtifactNameOfKey` | LSI.py:126 | a loaded file whose stem has no inner ".processed" is exactly the file `view_document` opens for its key |
| `Corpus.ViewDocument` | LSI.py:124-133 | `view_document` shows the content of the key's artifact when it exists, and "" otherwise |
| `Corpus.ViewShowsLoaded` | LSI.py:126-131 | for the last listed file with a key whose stem has no inner ".processed", `view_document` for that key shows exactly the text the search loaded under it |
| `Corpus.SaveProcessed` | LSI.py:147-148 | after an upload the artifact holds the processed text and every other file is unchanged |
| `Corpus.InnerSuffixLostInKey` | LSI.py:165 | "a.processed.txt" uploads to an artifact whose key is "a.txt", so the key no longer names the artifact |
| `Corpus.Documents.Put` | LSI.py:165 | dict assignment keeps the dictionary well formed: a new key goes last, an existing key keeps its place and takes the new text |
| `Corpus.Documents.Values` | LSI.py:169 | `documents.values()` lists the texts in key order |
| `Corpus.CorpusOf` | LSI.py:161-165 | the loaded dictionary is well formed (distinct keys, keys equal to the map's domain) and has at most one key per listed file |
| `Corpus.LoadCorpus` | LSI.py:161-165 | the loading loop builds exactly the dictionary of `CorpusOf` |
| `Corpus.CorpusMembership` | LSI.py:162-165 | a key is loaded exactly when some listed file ends in ".processed" and maps to that key |
| `Corpus.CorpusEmpty` | LSI.py:162-167 | the dictionary is empty exactly when no listed file ends in ".processed" |
| `Corpus.CorpusLastWins` | LSI.py:165 | among files with the same key, the text of the one listed last is stored |
| `Corpus.CorpusFirstSeenOrder` | LSI.py:165 | keys are ordered by first appearance in the listing: each key is loaded before any later key is |
| `Corpus.UploadThenLoad` | LSI.py:146-148 | after an upload whose name has no inner ".processed", a search that lists its artifact (and no other file with the same key) loads the processed text under the upload's name, and `view_document` shows that text |
| `Ranking.Zip` | LSI.py:178 | `zip` pairs keys and scores position by position, up to the shorter list |
| `Ranking.WithScoreMembers` | LSI.py:178 | the group of score v holds exactly the pairs scoring v |
| `Ranking.WithScoreAppend` | LSI.py:178 | grouping by score distributes over concatenation |
| `Ranking.WithScoreCons` | LSI.py:178 | grouping a list with one pair in front puts that pair in front of its own group |
| `Ranking.WithScoreNone` | LSI.py:178 | a list without a pair scoring v has an empty group for v |
| `Ranking.SortedHeadIsMax` | LSI.py:178 | the head of a descending list has the highest score |
| `Ranking.InsertBehind` | LSI.py:178 | putting the head in front of a sorted insertion into the tail keeps the list sorted and adds exactly the inserted pair |
| `Ranking.GroupsBehind` | LSI.py:178 | putting the head back in front keeps every score group in the order of the original list followed by the inserted pair |
| `Ranking.InsertInFront` | LSI.py:178 | a pair scoring more than the head goes first and keeps the list sorted and grouped |
| `Ranking.Insert` | LSI.py:178 | insertion into a descending list keeps it sorted, adds exactly the pair, and places it after all pairs with an equal score |
| `Ranking.Rank` | LSI.py:178 | the ranking is sorted by non-increasing score, is a permutation of the input, and keeps equal scores in input order |
| `Ranking.StableSortUnique` | LSI.py:178 | two descending lists with the same pairs in every score group are equal |
| `Ranking.RankIsTheStableSort` | LSI.py:178 | every stable descending sort of the pairs equals `Rank`, so `Rank` is what `sorted(..., reverse=True)` returns |
| `Ranking.Components` | LSI.py:170 | `min(100, V-1)` is at most 100 and below V, equals one of the two, and is at least 1 exactly when V >= 2 |
| `Search.Similarities` | LSI.py:177 | one similarity per document, and the i-th is the similarity of the query with document i |
| `Search.CorpusSimilarities` | LSI.py:168-177 | one score per loaded document; the i-th of `values()` is scored against the processed query in a projection with `min(100, V-1)` components |
| `Search.UploadedTextAsQuery` | LSI.py:173-177 | searching for an upload's own text gives a processed query equal to the text loaded for that upload, so that document is compared with an identical query |
| `Search.Search` | LSI.py:160-181 | no results exactly when no listed file ends in ".processed"; a library failure exactly when the vocabulary has 0 or 1 terms; otherwise the results are a stable descending sort of (key, score) over all loaded documents, with every key present once and nothing truncated |

## Left out

- The web layer is not modelled: settings, forms, URL routing, templates, rendering and the GET branches. The model starts from a cleaned query string.
- `read_file` (PDF, DOCX and UTF-8 decoding) is not modelled. It is library I/O; an upload enters the model as its extracted text.
- File-system access is not modelled: `os.listdir`, `os.path.isfile`, `open`, `FileSystemStorage.save` and its renaming of colliding names. The directory is an input listing and a map from name to content.
- The raw upload file written next to the artifact is not modelled. It matters only when its own name ends in ".processed", and the arbitrary listing covers that case.
- `nltk.word_tokenize`, `PorterStemmer.stem` and the Indonesian stopword list are not modelled. They are library code and enter as `Pipeline` parameters; `Text.Words` (whitespace splitting) is only a stand-in tokenizer.
- TF-IDF, the truncated SVD and the cosine similarity are not modelled. They are floating-point library numerics and enter as `Numerics`: a vocabulary size and one score per document.
- Scores are `real`, so NaN and floating-point rounding are not modelled.
- Text.Lower, Text.LowerChar: fold ASCII capitals only, because Python's full Unicode case mapping (which can change the length of a string) is not modelled.
- Text.Words: treats only ASCII whitespace as separators, because Python's Unicode whitespace classes are not modelled.
- Search.Search: models only two library failures, an empty vocabulary and zero components. Other exceptions, such as unreadable files or races with concurrent uploads, are not modelled.
