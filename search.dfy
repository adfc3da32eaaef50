/**
 * The search request: load the corpus, fit the vector space, process the
 * query, score every document and rank. The TF-IDF fit, the truncated SVD
 * and the cosine similarities are library numerics; they enter through
 * `Numerics` as the vocabulary size of a fit and one similarity per
 * document.
 */
module Search {
  import opened Preprocess
  import opened Corpus
  import opened Ranking

  /**
   * The numeric library calls: the vocabulary size the TF-IDF fit finds in
   * the corpus texts, and the similarity of the processed query with
   * document `i` after projecting both onto `k` latent components.
   */
  datatype Numerics = Numerics(
    vocabularySize: seq<string> -> nat,
    similarity: (seq<string>, string, int, nat) -> real)

  /** The library raising: no term in the corpus, or a single term (zero components). */
  datatype Failure = EmptyVocabulary | NoComponents

  datatype Outcome = NoResults | Ranked(hits: seq<Hit>) | Failed(failure: Failure)

  /** `cosine_similarity(query_lsi, lsi_matrix)[0]`: one score per document, in corpus order. */
  function Similarities(n: Numerics, texts: seq<string>, query: string, k: int): (sims: seq<real>)
    ensures |sims| == |texts|
    ensures forall i :: 0 <= i < |texts| ==> sims[i] == n.similarity(texts, query, k, i)
  {
    seq(|texts|, i requires 0 <= i < |texts| => n.similarity(texts, query, k, i))
  }

  /**
   * The scores a search computes for the loaded corpus: document `i` of
   * `values()` is scored against the processed query, in a projection with
   * `min(100, V - 1)` components.
   */
  function CorpusSimilarities(p: Pipeline, n: Numerics, docs: Documents, query: string): (sims: seq<real>)
    requires docs.Valid()
    ensures |sims| == |docs.keys|
    ensures forall i :: 0 <= i < |docs.keys| ==>
              sims[i] == n.similarity(docs.Values(), PreprocessText(p, query),
                                      Components(n.vocabularySize(docs.Values())), i)
  {
    var texts := docs.Values();
    Similarities(n, texts, PreprocessText(p, query), Components(n.vocabularySize(texts)))
  }

  /**
   * Searching for the text of an upload: the processed query is exactly the
   * processed text the search loaded for that upload, so the numerics compare
   * the document with a query identical to it.
   */
  lemma UploadedTextAsQuery(p: Pipeline, n: Numerics, name: string, text: string,
                            files: map<string, string>, listing: seq<string>, i: int)
    requires !Contains(name, Suffix)
    requires 0 <= i < |listing| && listing[i] == ArtifactName(name)
    requires forall f :: f in listing ==> f in SaveProcessed(files, name, PreprocessText(p, text))
    requires forall j :: 0 <= j < |listing| && j != i ==> !Loads(listing, j, name)
    ensures var docs := CorpusOf(listing, SaveProcessed(files, name, PreprocessText(p, text)));
      exists j :: 0 <= j < |docs.keys| && docs.keys[j] == name
        && docs.Values()[j] == PreprocessText(p, text)
        && CorpusSimilarities(p, n, docs, text)[j]
           == n.similarity(docs.Values(), docs.Values()[j], Components(n.vocabularySize(docs.Values())), j)
  {
    var docs := CorpusOf(listing, SaveProcessed(files, name, PreprocessText(p, text)));
    UploadThenLoad(p, name, text, files, listing, i);
    var j :| 0 <= j < |docs.keys| && docs.keys[j] == name;
    assert docs.Values()[j] == PreprocessText(p, text);
  }

  /** The POST branch of the search view with a valid form. */
  method Search(listing: seq<string>, files: map<string, string>, query: string, p: Pipeline, n: Numerics)
    returns (outcome: Outcome)
    requires forall f :: f in listing ==> f in files
    ensures outcome.NoResults? <==> forall i :: 0 <= i < |listing| ==> !IsArtifact(listing[i])
    ensures outcome == Failed(EmptyVocabulary) <==>
              CorpusOf(listing, files).keys != [] && n.vocabularySize(CorpusOf(listing, files).Values()) == 0
    ensures outcome == Failed(NoComponents) <==>
              CorpusOf(listing, files).keys != [] && n.vocabularySize(CorpusOf(listing, files).Values()) == 1
    ensures outcome.Ranked? ==>
              var docs := CorpusOf(listing, files);
              StableDescendingSortOf(outcome.hits, Zip(docs.keys, CorpusSimilarities(p, n, docs, query)))
    ensures outcome.Ranked? ==> |outcome.hits| == |CorpusOf(listing, files).keys|
    ensures outcome.Ranked? ==>
              forall key :: key in CorpusOf(listing, files).texts <==> exists h :: h in outcome.hits && h.key == key
  {
    var documents := LoadCorpus(listing, files);
    CorpusEmpty(listing, files);
    if documents.keys == [] {
      return NoResults;
    }
    var texts := documents.Values();
    var vocabulary := n.vocabularySize(texts);
    if vocabulary == 0 {
      return Failed(EmptyVocabulary);
    }
    var k := Components(vocabulary);
    if k < 1 {
      return Failed(NoComponents);
    }
    var queryProcessed := PreprocessText(p, query);
    var similarities := Similarities(n, texts, queryProcessed, k);
    var pairs := Zip(documents.keys, similarities);
    var results := Rank(pairs);
    assert |results| == |pairs| by {
      assert |multiset(results)| == |multiset(pairs)|;
    }
    forall key ensures key in documents.texts <==> exists h :: h in results && h.key == key {
      if key in documents.texts {
        var i :| 0 <= i < |documents.keys| && documents.keys[i] == key;
        assert pairs[i] in multiset(pairs);
        assert pairs[i] in results;
      }
      if h :| h in results && h.key == key {
        assert h in multiset(results);
        assert h in pairs;
      }
    }
    outcome := Ranked(results);
  }
}
