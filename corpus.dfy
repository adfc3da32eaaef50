/**
 * The document artifacts and the corpus a search loads from them.
 *
 * An upload `name` leaves its processed text in the file
 * `name + ".processed"`; a search lists the storage directory, keeps the
 * files whose name ends in ".processed", and fills an insertion-ordered
 * dictionary keyed by the file name with every ".processed" removed.
 * The directory is a listing (the order `os.listdir` returns) and a map
 * from file name to file content.
 */
module Corpus {
  import opened Preprocess

  /** The extension of a processed-text artifact. */
  const Suffix: string := ".processed"

  /** `s.endswith(suffix)`. */
  predicate EndsWith(s: string, suffix: string) {
    |suffix| <= |s| && s[|s| - |suffix|..] == suffix
  }

  /** `pat in s`. */
  predicate Contains(s: string, pat: string)
    decreases |s|
  {
    |pat| <= |s| && (s[..|pat|] == pat || Contains(s[1..], pat))
  }

  /**
   * `s.replace(pat, '')`: scanning left to right, every non-overlapping
   * occurrence of `pat` is deleted.
   */
  function RemoveAll(s: string, pat: string): (r: string)
    requires pat != ""
    ensures |r| <= |s|
    decreases |s|
  {
    if |s| < |pat| then s
    else if s[..|pat|] == pat then RemoveAll(s[|pat|..], pat)
    else [s[0]] + RemoveAll(s[1..], pat)
  }

  /** A string without an occurrence of `pat` is left as it is. */
  lemma {:induction false} RemoveAllAbsent(s: string, pat: string)
    requires pat != "" && !Contains(s, pat)
    ensures RemoveAll(s, pat) == s
    decreases |s|
  {
    if |s| >= |pat| {
      RemoveAllAbsent(s[1..], pat);
      assert [s[0]] + s[1..] == s;
    }
  }

  /** The artifact file written for an upload `name`. */
  function ArtifactName(name: string): (f: string)
    ensures EndsWith(f, Suffix)
  {
    name + Suffix
  }

  /** A listed file the search loads. */
  predicate IsArtifact(filename: string) {
    EndsWith(filename, Suffix)
  }

  /** The files a search loads are exactly the artifact names of uploads. */
  lemma ArtifactNames(filename: string)
    ensures IsArtifact(filename) <==> exists name :: filename == ArtifactName(name)
  {
    if IsArtifact(filename) {
      assert filename == ArtifactName(filename[..|filename| - |Suffix|]);
    }
  }

  /**
   * A string ending in `pat` loses at least one whole occurrence of it to
   * the replace.
   */
  lemma {:induction false} RemoveAllShortens(s: string, pat: string)
    requires pat != "" && EndsWith(s, pat)
    ensures |RemoveAll(s, pat)| <= |s| - |pat|
    decreases |s|
  {
    if s[..|pat|] != pat {
      assert |s| > |pat|;
      assert s[1..][|s| - 1 - |pat|..] == s[|s| - |pat|..];
      RemoveAllShortens(s[1..], pat);
    }
  }

  /**
   * The dictionary key a loaded file is stored under: `.replace('.processed',
   * '')` deletes at least the trailing ".processed" of a loaded file.
   */
  function KeyOf(filename: string): (k: string)
    ensures |k| <= |filename|
    ensures IsArtifact(filename) ==> |k| <= |filename| - |Suffix|
  {
    if IsArtifact(filename) then
      RemoveAllShortens(filename, Suffix);
      RemoveAll(filename, Suffix)
    else
      RemoveAll(filename, Suffix)
  }

  /** The only '.' of ".processed" is its first character. */
  lemma SuffixDot(j: int)
    requires 0 < j < |Suffix|
    ensures Suffix[j] != '.'
  {
  }

  /**
   * A ".processed" cannot start at the front of a non-empty string free of
   * it when a copy of it follows that string.
   */
  lemma NoSuffixAtFront(a: string, t: string)
    requires a != [] && !Contains(a, Suffix)
    ensures (a + Suffix + t)[..|Suffix|] != Suffix
  {
    var s := a + Suffix + t;
    if |a| >= |Suffix| {
      assert s[..|Suffix|] == a[..|Suffix|];
    } else {
      SuffixDot(|a|);
      assert s[..|Suffix|][|a|] == s[|a|] == '.';
    }
  }

  /**
   * ".processed" has no '.' after its first character, so an occurrence
   * of it cannot start inside a string free of it and end inside a
   * following copy of it.
   */
  lemma {:induction false} RemoveAllSkips(a: string, t: string)
    requires !Contains(a, Suffix)
    ensures RemoveAll(a + Suffix + t, Suffix) == a + RemoveAll(t, Suffix)
  {
    var s := a + Suffix + t;
    if a == [] {
      assert s == Suffix + t;
      assert s[..|Suffix|] == Suffix;
      assert s[|Suffix|..] == t;
    } else {
      NoSuffixAtFront(a, t);
      assert s[1..] == a[1..] + Suffix + t;
      RemoveAllSkips(a[1..], t);
      assert [a[0]] + a[1..] == a;
    }
  }

  /**
   * Naming round trip: for an upload name without ".processed" in it, the
   * artifact is loaded and its key is the upload name again.
   */
  lemma KeyOfArtifactName(name: string)
    requires !Contains(name, Suffix)
    ensures IsArtifact(ArtifactName(name))
    ensures KeyOf(ArtifactName(name)) == name
  {
    RemoveAllSkips(name, "");
    assert name + Suffix + "" == ArtifactName(name);
    assert name + "" == name;
  }

  /**
   * The other direction: a loaded file whose stem has no inner ".processed"
   * is exactly the artifact of its key.
   */
  lemma ArtifactNameOfKey(filename: string)
    requires IsArtifact(filename)
    requires !Contains(filename[..|filename| - |Suffix|], Suffix)
    ensures ArtifactName(KeyOf(filename)) == filename
  {
    var stem := filename[..|filename| - |Suffix|];
    assert filename == ArtifactName(stem);
    KeyOfArtifactName(stem);
  }

  /**
   * An upload whose name has ".processed" inside loses it in the key, so
   * the key no longer names its artifact.
   */
  lemma InnerSuffixLostInKey()
    ensures KeyOf(ArtifactName("a.processed.txt")) == "a.txt"
    ensures ArtifactName("a.txt") != ArtifactName("a.processed.txt")
  {
    assert ArtifactName("a.processed.txt") == "a" + Suffix + (".txt" + Suffix);
    RemoveAllSkips("a", ".txt" + Suffix);
    RemoveAllSkips(".txt", "");
    assert ".txt" + Suffix + "" == ".txt" + Suffix;
    assert RemoveAll("", Suffix) == "";
  }

  /** The text `view_document` shows for `docName`: its artifact's content, or "" when there is none. */
  function ViewDocument(files: map<string, string>, docName: string): (shown: string)
    ensures ArtifactName(docName) in files ==> shown == files[ArtifactName(docName)]
    ensures ArtifactName(docName) !in files ==> shown == ""
  {
    if ArtifactName(docName) in files then files[ArtifactName(docName)] else ""
  }

  /**
   * The directory after an upload's processed text is written: the artifact
   * holds the processed text and every other file is as it was.
   */
  function SaveProcessed(files: map<string, string>, name: string, processed: string): (saved: map<string, string>)
    ensures ArtifactName(name) in saved && saved[ArtifactName(name)] == processed
    ensures forall f :: f != ArtifactName(name) ==> (f in saved <==> f in files)
    ensures forall f :: f != ArtifactName(name) && f in files ==> saved[f] == files[f]
  {
    files[ArtifactName(name) := processed]
  }

  /**
   * An insertion-ordered dictionary from key to processed text, as Python's
   * `dict`: `keys` lists every key once, in the order of first insertion.
   */
  datatype Documents = Documents(keys: seq<string>, texts: map<string, string>) {

    ghost predicate Valid() {
      && (forall i, j :: 0 <= i < j < |keys| ==> keys[i] != keys[j])
      && (forall k :: k in texts <==> k in keys)
    }

    /** `d[key] = text`: a new key goes last, an existing key keeps its place and takes the new text. */
    function Put(key: string, text: string): (d: Documents)
      requires Valid()
      ensures d.Valid()
      ensures d.texts == texts[key := text]
      ensures d.keys == if key in texts then keys else keys + [key]
    {
      Documents(if key in texts then keys else keys + [key], texts[key := text])
    }

    /** `d.values()`: the texts in key order. */
    function Values(): (vs: seq<string>)
      requires Valid()
      ensures |vs| == |keys|
      ensures forall i :: 0 <= i < |keys| ==> vs[i] == texts[keys[i]]
    {
      seq(|keys|, i requires 0 <= i < |keys| => texts[keys[i]])
    }
  }

  /** The `i`-th listed file is loaded, under key `k`. */
  predicate Loads(listing: seq<string>, i: int, k: string) {
    0 <= i < |listing| && IsArtifact(listing[i]) && KeyOf(listing[i]) == k
  }

  /** The dictionary the loading loop builds, one listed file at a time. */
  function CorpusOf(listing: seq<string>, files: map<string, string>): (d: Documents)
    requires forall f :: f in listing ==> f in files
    ensures d.Valid()
    ensures |d.keys| <= |listing|
  {
    if listing == [] then Documents([], map[])
    else
      var init := listing[..|listing| - 1];
      var f := listing[|listing| - 1];
      assert forall g :: g in init ==> g in listing;
      var d := CorpusOf(init, files);
      if IsArtifact(f) then d.Put(KeyOf(f), files[f]) else d
  }

  /** The loading loop of the search. */
  method LoadCorpus(listing: seq<string>, files: map<string, string>) returns (documents: Documents)
    requires forall f :: f in listing ==> f in files
    ensures documents.Valid()
    ensures documents == CorpusOf(listing, files)
  {
    var keys: seq<string> := [];
    var texts: map<string, string> := map[];
    for i := 0 to |listing|
      invariant Documents(keys, texts) == CorpusOf(listing[..i], files)
    {
      assert listing[..i + 1][..i] == listing[..i];
      var filename := listing[i];
      if EndsWith(filename, Suffix) {
        var key := RemoveAll(filename, Suffix);
        if key !in texts {
          keys := keys + [key];
        }
        texts := texts[key := files[filename]];
      }
    }
    assert listing[..|listing|] == listing;
    documents := Documents(keys, texts);
  }

  /** A key is in the corpus exactly when some listed file is loaded under it. */
  lemma {:induction false} CorpusMembership(listing: seq<string>, files: map<string, string>, k: string)
    requires forall f :: f in listing ==> f in files
    ensures k in CorpusOf(listing, files).texts <==> exists i :: Loads(listing, i, k)
  {
    if listing != [] {
      var n := |listing| - 1;
      var init := listing[..n];
      assert forall g :: g in init ==> g in listing;
      CorpusMembership(init, files, k);
      if k in CorpusOf(listing, files).texts && !Loads(listing, n, k) {
        var i :| Loads(init, i, k);
        assert Loads(listing, i, k);
      }
      if i :| Loads(listing, i, k) {
        if i < n {
          assert Loads(init, i, k);
        }
      }
    }
  }

  /** The corpus is empty exactly when no listed file ends in ".processed". */
  lemma CorpusEmpty(listing: seq<string>, files: map<string, string>)
    requires forall f :: f in listing ==> f in files
    ensures CorpusOf(listing, files).keys == [] <==> forall i :: 0 <= i < |listing| ==> !IsArtifact(listing[i])
  {
    var d := CorpusOf(listing, files);
    if d.keys != [] {
      assert d.keys[0] in d.texts;
      CorpusMembership(listing, files, d.keys[0]);
    } else {
      forall i | 0 <= i < |listing| ensures !IsArtifact(listing[i]) {
        CorpusMembership(listing, files, KeyOf(listing[i]));
        if IsArtifact(listing[i]) {
          assert Loads(listing, i, KeyOf(listing[i]));
        }
      }
    }
  }

  /** Of several files with the same key, the one listed last supplies the text. */
  lemma {:induction false} CorpusLastWins(listing: seq<string>, files: map<string, string>, i: int)
    requires forall f :: f in listing ==> f in files
    requires 0 <= i < |listing| && IsArtifact(listing[i])
    requires forall j :: i < j < |listing| ==> !Loads(listing, j, KeyOf(listing[i]))
    ensures KeyOf(listing[i]) in CorpusOf(listing, files).texts
    ensures CorpusOf(listing, files).texts[KeyOf(listing[i])] == files[listing[i]]
  {
    var n := |listing| - 1;
    var init := listing[..n];
    assert forall g :: g in init ==> g in listing;
    if i < n {
      assert !Loads(listing, n, KeyOf(listing[i]));
      forall j | i < j < |init| ensures !Loads(init, j, KeyOf(init[i])) {
        assert !Loads(listing, j, KeyOf(listing[i]));
      }
      CorpusLastWins(init, files, i);
    }
  }

  /** Below the cut, a prefix of the listing loads what the listing loads. */
  lemma LoadsInit(listing: seq<string>, n: int, j: int, k: string)
    requires 0 <= n <= |listing| && j < n
    ensures Loads(listing[..n], j, k) <==> Loads(listing, j, k)
  {
    if 0 <= j {
      assert listing[..n][j] == listing[j];
    }
  }

  /** Keys are ordered by first appearance: `keys[a]` is loaded before `keys[b]` ever is. */
  lemma {:induction false} CorpusFirstSeenOrder(listing: seq<string>, files: map<string, string>, a: int, b: int)
    requires forall f :: f in listing ==> f in files
    requires 0 <= a < b < |CorpusOf(listing, files).keys|
    ensures exists i :: Loads(listing, i, CorpusOf(listing, files).keys[a])
                        && forall j :: 0 <= j <= i ==> !Loads(listing, j, CorpusOf(listing, files).keys[b])
  {
    var n := |listing| - 1;
    var init := listing[..n];
    assert forall g :: g in init ==> g in listing;
    var d0 := CorpusOf(init, files);
    var d := CorpusOf(listing, files);
    var ka, kb := d.keys[a], d.keys[b];
    var i;
    if b < |d0.keys| {
      assert d.keys[..|d0.keys|] == d0.keys;
      CorpusFirstSeenOrder(init, files, a, b);
      i :| Loads(init, i, ka) && forall j :: 0 <= j <= i ==> !Loads(init, j, kb);
    } else {
      assert kb !in d0.texts && ka in d0.texts by {
        assert d.keys == d0.keys + [kb];
      }
      CorpusMembership(init, files, ka);
      CorpusMembership(init, files, kb);
      i :| Loads(init, i, ka);
    }
    LoadsInit(listing, n, i, ka);
    forall j | 0 <= j <= i ensures !Loads(listing, j, kb) {
      LoadsInit(listing, n, j, kb);
    }
  }

  /**
   * Upload, then search: when no other listed file maps to the same key,
   * the search loads the upload's processed text under the upload's name,
   * and `view_document` shows the same text.
   */
  lemma UploadThenLoad(p: Pipeline, name: string, text: string, files: map<string, string>,
                       listing: seq<string>, i: int)
    requires !Contains(name, Suffix)
    requires 0 <= i < |listing| && listing[i] == ArtifactName(name)
    requires forall f :: f in listing ==> f in SaveProcessed(files, name, PreprocessText(p, text))
    requires forall j :: 0 <= j < |listing| && j != i ==> !Loads(listing, j, name)
    ensures var corpus := CorpusOf(listing, SaveProcessed(files, name, PreprocessText(p, text)));
      name in corpus.texts && corpus.texts[name] == PreprocessText(p, text)
    ensures ViewDocument(SaveProcessed(files, name, PreprocessText(p, text)), name) == PreprocessText(p, text)
  {
    KeyOfArtifactName(name);
    CorpusLastWins(listing, SaveProcessed(files, name, PreprocessText(p, text)), i);
  }

  /**
   * What a search scores is what `view_document` shows: for the last listed
   * file with a given key, whose stem has no inner ".processed", the page for
   * that key shows the text loaded under it.
   */
  lemma ViewShowsLoaded(listing: seq<string>, files: map<string, string>, i: int)
    requires forall f :: f in listing ==> f in files
    requires 0 <= i < |listing| && IsArtifact(listing[i])
    requires !Contains(listing[i][..|listing[i]| - |Suffix|], Suffix)
    requires forall j :: i < j < |listing| ==> !Loads(listing, j, KeyOf(listing[i]))
    ensures KeyOf(listing[i]) in CorpusOf(listing, files).texts
    ensures ViewDocument(files, KeyOf(listing[i])) == CorpusOf(listing, files).texts[KeyOf(listing[i])]
  {
    ArtifactNameOfKey(listing[i]);
    CorpusLastWins(listing, files, i);
  }
}
