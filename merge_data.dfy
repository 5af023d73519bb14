/** The corpus merger of components/search/mergeData.js: one denormalised
    record per verse of the Arabic (base) corpus, carrying the English,
    Pashto and Dari translations side by side. */
module MergeData {

  /** A verse of the base corpus, as stored under its key. */
  datatype BaseVerse = BaseVerse(id: int, surah: int, ayah: int, verse: string)

  /** An entry of a translation corpus. */
  datatype TranslationEntry = TranslationEntry(translation: string)

  /** One merged record (an element of `mergedData`). */
  datatype VerseRecord = VerseRecord(
    id: int, surah: int, ayah: int, verse: string,
    translationEn: string, translationPs: string, translationDr: string)

  /** The base corpus as `Object.entries` yields it: (key, verse) pairs in
      iteration order. */
  type BaseCorpus = seq<(string, BaseVerse)>

  /** A translation corpus, keyed like the base corpus. */
  type TranslationCorpus = map<string, TranslationEntry>

  /** `corpus[key] ? corpus[key].translation : ""`. */
  function TranslationFor(corpus: TranslationCorpus, key: string): string
  {
    if key in corpus then corpus[key].translation else ""
  }

  /** The record pushed for the base entry `key`, `verse`. */
  function MergeEntry(key: string, verse: BaseVerse,
                      english: TranslationCorpus, pashto: TranslationCorpus, dari: TranslationCorpus): VerseRecord
  {
    VerseRecord(verse.id, verse.surah, verse.ayah, verse.verse,
                TranslationFor(english, key), TranslationFor(pashto, key), TranslationFor(dari, key))
  }

  /** The merged array after the loop has pushed one record for every entry
      of `base`, in order. */
  function Merge(base: BaseCorpus,
                 english: TranslationCorpus, pashto: TranslationCorpus, dari: TranslationCorpus): seq<VerseRecord>
  {
    if base == [] then []
    else
      var last := base[|base| - 1];
      Merge(base[..|base| - 1], english, pashto, dari) + [MergeEntry(last.0, last.1, english, pashto, dari)]
  }

  /** The module's top-level `for...of` loop: `mergedData.push(...)` once per
      base entry. */
  method BuildMergedData(base: BaseCorpus,
                         english: TranslationCorpus, pashto: TranslationCorpus, dari: TranslationCorpus)
    returns (mergedData: seq<VerseRecord>)
    ensures mergedData == Merge(base, english, pashto, dari)
  {
    mergedData := [];
    var i := 0;
    while i < |base|
      invariant 0 <= i <= |base|
      invariant mergedData == Merge(base[..i], english, pashto, dari)
    {
      var (key, verse) := base[i];
      var en := TranslationFor(english, key);
      var ps := TranslationFor(pashto, key);
      var dr := TranslationFor(dari, key);
      mergedData := mergedData + [VerseRecord(verse.id, verse.surah, verse.ayah, verse.verse, en, ps, dr)];
      assert base[..i + 1][..i] == base[..i];
      i := i + 1;
    }
    assert base[..i] == base;
  }

  /** One record per base entry, at the same position: the base fields are
      copied from the verse object (the id from `verse.id`, not from the key)
      and each translation is that corpus's entry for the key, or "" when the
      corpus has none. */
  lemma {:induction false} MergeAt(base: BaseCorpus,
                                   english: TranslationCorpus, pashto: TranslationCorpus, dari: TranslationCorpus,
                                   i: int)
    requires 0 <= i < |base|
    ensures |Merge(base, english, pashto, dari)| == |base|
    ensures var r := Merge(base, english, pashto, dari)[i];
            var (key, verse) := base[i];
            && r.id == verse.id && r.surah == verse.surah && r.ayah == verse.ayah && r.verse == verse.verse
            && r.translationEn == (if key in english then english[key].translation else "")
            && r.translationPs == (if key in pashto then pashto[key].translation else "")
            && r.translationDr == (if key in dari then dari[key].translation else "")
  {
    MergeLength(base, english, pashto, dari);
    if i < |base| - 1 {
      MergeAt(base[..|base| - 1], english, pashto, dari, i);
    }
  }

  /** The merged array has exactly as many records as the base corpus has
      entries: a missing translation never drops a record. */
  lemma {:induction false} MergeLength(base: BaseCorpus,
                                       english: TranslationCorpus, pashto: TranslationCorpus, dari: TranslationCorpus)
    ensures |Merge(base, english, pashto, dari)| == |base|
  {
    if base != [] {
      MergeLength(base[..|base| - 1], english, pashto, dari);
    }
  }

  /** Merging more base entries only appends: the records for a prefix of
      the base corpus are a prefix of the records for the whole. */
  lemma {:induction false} MergePrefix(base: BaseCorpus, n: nat,
                                       english: TranslationCorpus, pashto: TranslationCorpus, dari: TranslationCorpus)
    requires n <= |base|
    ensures Merge(base[..n], english, pashto, dari) <= Merge(base, english, pashto, dari)
  {
    if n < |base| {
      assert base[..|base| - 1][..n] == base[..n];
      MergePrefix(base[..|base| - 1], n, english, pashto, dari);
    } else {
      assert base[..n] == base;
    }
  }

  /** The ids of the merged records are the ids of the base verses, in
      order; so distinct base ids give exactly one record per id. */
  lemma MergeIds(base: BaseCorpus,
                 english: TranslationCorpus, pashto: TranslationCorpus, dari: TranslationCorpus)
    requires forall i, j :: 0 <= i < j < |base| ==> base[i].1.id != base[j].1.id
    ensures var merged := Merge(base, english, pashto, dari);
            forall i, j :: 0 <= i < j < |merged| ==> merged[i].id != merged[j].id
    ensures var merged := Merge(base, english, pashto, dari);
            forall k :: 0 <= k < |base| ==> exists i :: 0 <= i < |merged| && merged[i].id == base[k].1.id
  {
    var merged := Merge(base, english, pashto, dari);
    MergeLength(base, english, pashto, dari);
    forall i | 0 <= i < |base| ensures merged[i].id == base[i].1.id {
      MergeAt(base, english, pashto, dari, i);
    }
  }
}
