/** The search index wrapper of components/search/searchIndex.js: a lunr
    index over the merged records, built on the first query and kept in the
    module variable `idx`, queried one translation field at a time.

    lunr itself (tokenising, stemming, scoring) is a parameter: a `Matcher`
    maps the built index and a query string to the refs of the matching
    documents, most relevant first. */
module SearchIndex {
  import opened Wrappers
  import opened Seqs
  import opened MergeData

  /** A field value as handed to lunr: the numeric fields stay numbers. */
  datatype FieldValue = Num(n: int) | Text(s: string)

  /** A document added to the index: its ref and its indexed fields. */
  datatype Document = Document(ref: int, fields: map<string, FieldValue>)

  /** A built lunr index: the ref field, the indexed field names and the
      documents, in the order they were added. */
  datatype Index = Index(refField: string, fieldNames: seq<string>, documents: seq<Document>)

  /** lunr's `idx.search`: the refs of the hits, most relevant first. */
  type Matcher = (Index, string) -> seq<int>

  /** The six fields declared with `this.field(...)`, in declaration order. */
  const IndexedFields: seq<string> :=
    ["surah", "ayah", "verse", "translation_en", "translation_ps", "translation_dr"]

  /** What `this.add(verse)` indexes for one merged record: the ref is the
      record's `id` (declared with `this.ref("id")`). */
  function DocumentOf(r: VerseRecord): Document
  {
    Document(r.id, map[
      "surah" := Num(r.surah), "ayah" := Num(r.ayah), "verse" := Text(r.verse),
      "translation_en" := Text(r.translationEn),
      "translation_ps" := Text(r.translationPs),
      "translation_dr" := Text(r.translationDr)])
  }

  /** The documents after `mergedData.forEach(verse => this.add(verse))`. */
  function Documents(records: seq<VerseRecord>): seq<Document>
  {
    if records == [] then []
    else Documents(records[..|records| - 1]) + [DocumentOf(records[|records| - 1])]
  }

  /** The index `createIndex` builds over `records`. */
  function IndexOf(records: seq<VerseRecord>): Index
  {
    Index("id", IndexedFields, Documents(records))
  }

  /** The field a query is scoped to: `translation_${language}`. */
  function SearchField(language: string): string
  {
    "translation_" + language
  }

  /** The query string handed to lunr: `${searchField}:${query}`. */
  function QueryString(language: string, query: string): string
  {
    SearchField(language) + ":" + query
  }

  /** `mergedData[ref]`: the ref is used as an array position, and a ref
      outside the array gives `undefined` (`None`). */
  function ResolveHit(mergedData: seq<VerseRecord>, ref: int): Option<VerseRecord>
  {
    if 0 <= ref < |mergedData| then Some(mergedData[ref]) else None
  }

  /** `.map((result) => mergedData[result.ref])` over the hits. */
  function ResolveHits(mergedData: seq<VerseRecord>, refs: seq<int>): (results: seq<Option<VerseRecord>>)
    ensures |results| == |refs|
    ensures forall k :: 0 <= k < |refs| ==> results[k] == ResolveHit(mergedData, refs[k])
  {
    if refs == [] then [] else [ResolveHit(mergedData, refs[0])] + ResolveHits(mergedData, refs[1..])
  }

  /** Every record's `id` equals its position in the merged array: the one
      condition under which a ref can serve as a position. */
  ghost predicate IdsArePositions(mergedData: seq<VerseRecord>)
  {
    forall i :: 0 <= i < |mergedData| ==> mergedData[i].id == i
  }

  /** No two merged records share an `id`. */
  ghost predicate UniqueIds(mergedData: seq<VerseRecord>)
  {
    forall i, j :: 0 <= i < j < |mergedData| ==> mergedData[i].id != mergedData[j].id
  }

  /** The lookup the result mapping evidently intends: the record whose `id`
      is the hit's ref. */
  function ResolveHitById(mergedData: seq<VerseRecord>, ref: int): Option<VerseRecord>
  {
    FindFirst(mergedData, (r: VerseRecord) => r.id == ref)
  }

  /** The result mapping with `ResolveHitById` in place of `mergedData[ref]`. */
  function ResolveHitsById(mergedData: seq<VerseRecord>, refs: seq<int>): (results: seq<Option<VerseRecord>>)
    ensures |results| == |refs|
    ensures forall k :: 0 <= k < |refs| ==> results[k] == ResolveHitById(mergedData, refs[k])
  {
    if refs == [] then [] else [ResolveHitById(mergedData, refs[0])] + ResolveHitsById(mergedData, refs[1..])
  }

  /** The module state: `mergedData` and the lazily built `idx`. The ghost
      `builds` counts the runs of `createIndex`. */
  class QuranSearch {
    const mergedData: seq<VerseRecord>
    var idx: Option<Index>
    ghost var builds: nat

    /** The index, once set, is the index of `mergedData`, and it was built
        exactly once; before that it was never built. */
    ghost predicate Valid()
      reads this
    {
      (idx.None? && builds == 0) || (idx == Some(IndexOf(mergedData)) && builds == 1)
    }

    /** Module load: the records exist, the index does not (`let idx;`). */
    constructor (mergedData: seq<VerseRecord>)
      ensures Valid()
      ensures this.mergedData == mergedData && idx.None? && builds == 0
    {
      this.mergedData := mergedData;
      idx := None;
      builds := 0;
    }

    /** `createIndex`: declares the ref and the six fields, then adds every
        merged record in order. Only called while `idx` is unset. */
    method CreateIndex()
      requires Valid() && idx.None?
      modifies this`idx, this`builds
      ensures Valid()
      ensures idx == Some(IndexOf(mergedData)) && builds == old(builds) + 1
    {
      var documents: seq<Document> := [];
      var i := 0;
      while i < |mergedData|
        invariant 0 <= i <= |mergedData|
        invariant documents == Documents(mergedData[..i])
      {
        documents := documents + [DocumentOf(mergedData[i])];
        assert mergedData[..i + 1][..i] == mergedData[..i];
        i := i + 1;
      }
      assert mergedData[..i] == mergedData;
      idx := Some(Index("id", IndexedFields, documents));
      builds := builds + 1;
    }

    /** `searchQuran(query, language)`: builds the index if `idx` is unset,
        asks lunr for `translation_${language}:${query}` and maps each hit's
        ref to `mergedData[ref]`, keeping the hit order. An index that was
        already built is reused, so the index is built at most once over any
        sequence of calls. */
    method SearchQuran(query: string, language: string, lunrSearch: Matcher)
      returns (results: seq<Option<VerseRecord>>)
      requires Valid()
      modifies this`idx, this`builds
      ensures Valid() && idx == Some(IndexOf(mergedData)) && builds == 1
      ensures old(idx).Some? ==> idx == old(idx) && builds == old(builds)
      ensures results == ResolveHits(mergedData, lunrSearch(IndexOf(mergedData), QueryString(language, query)))
      ensures IdsArePositions(mergedData) ==>
        results == ResolveHitsById(mergedData, lunrSearch(IndexOf(mergedData), QueryString(language, query)))
    {
      if idx.None? {
        CreateIndex();
      }
      var searchField := "translation_" + language;
      var hits := lunrSearch(idx.value, searchField + ":" + query);
      results := ResolveHits(mergedData, hits);
      if IdsArePositions(mergedData) {
        ResolveHitsAgree(mergedData, hits);
      }
    }
  }

  /** Every merged record is added exactly once, at its own position, under
      its `id` as ref, with exactly the six declared fields. */
  lemma {:induction false} DocumentsAt(records: seq<VerseRecord>, i: int)
    requires 0 <= i < |records|
    ensures |Documents(records)| == |records|
    ensures Documents(records)[i].ref == records[i].id
    ensures Documents(records)[i].fields.Keys == set f | f in IndexedFields
    ensures Documents(records)[i] == DocumentOf(records[i])
  {
    DocumentsLength(records);
    if i < |records| - 1 {
      DocumentsAt(records[..|records| - 1], i);
    }
  }

  /** One document per record. */
  lemma {:induction false} DocumentsLength(records: seq<VerseRecord>)
    ensures |Documents(records)| == |records|
  {
    if records != [] {
      DocumentsLength(records[..|records| - 1]);
    }
  }

  /** Exactly six distinct fields are indexed. */
  lemma IndexedFieldsDistinct()
    ensures |set f | f in IndexedFields| == 6
    ensures forall i, j :: 0 <= i < j < |IndexedFields| ==> IndexedFields[i] != IndexedFields[j]
  {
    assert (set f | f in IndexedFields) ==
      {"surah", "ayah", "verse", "translation_en", "translation_ps", "translation_dr"};
  }

  /** The query is scoped to an indexed field exactly for the languages
      "en", "ps" and "dr"; any other language names a field the index does
      not have. */
  lemma SearchFieldScope(language: string)
    ensures SearchField(language) in IndexedFields <==> language in {"en", "ps", "dr"}
  {
    var field := SearchField(language);
    assert field[12..] == language;
    if field == "translation_en" {
      assert language == "translation_en"[12..] == "en";
    } else if field == "translation_ps" {
      assert language == "translation_ps"[12..] == "ps";
    } else if field == "translation_dr" {
      assert language == "translation_dr"[12..] == "dr";
    } else {
      assert |field| >= 12;
    }
  }

  /** The query string starts with the scoped field and a colon, and the
      user's query follows unchanged. */
  lemma QueryStringShape(language: string, query: string)
    ensures var q := QueryString(language, query);
            && q[..12 + |language|] == SearchField(language)
            && q[12 + |language|] == ':'
            && q[13 + |language|..] == query
  {
  }

  /** When every record's `id` is its position, the result for the hit on
      document `p` is the record that document was built from. */
  lemma HitIsMatchedRecord(mergedData: seq<VerseRecord>, p: int)
    requires IdsArePositions(mergedData)
    requires 0 <= p < |mergedData|
    ensures |IndexOf(mergedData).documents| == |mergedData|
    ensures ResolveHit(mergedData, IndexOf(mergedData).documents[p].ref) == Some(mergedData[p])
  {
    DocumentsAt(mergedData, p);
  }

  /** With distinct ids, the hit on document `p` resolves to record `p`
      only when that record's id is its position. */
  lemma HitResolvesOnlyAtOwnPosition(mergedData: seq<VerseRecord>, p: int)
    requires UniqueIds(mergedData)
    requires 0 <= p < |mergedData|
    ensures |IndexOf(mergedData).documents| == |mergedData|
    ensures ResolveHit(mergedData, IndexOf(mergedData).documents[p].ref) == Some(mergedData[p]) ==>
            mergedData[p].id == p
  {
    DocumentsAt(mergedData, p);
    var id := mergedData[p].id;
    if ResolveHit(mergedData, id) == Some(mergedData[p]) {
      assert mergedData[id].id == mergedData[p].id;
    }
  }

  /** With distinct ids, the source's mapping returns every document's own
      record exactly when every record's id is its position. */
  lemma PositionalCorrectIffIdsArePositions(mergedData: seq<VerseRecord>)
    requires UniqueIds(mergedData)
    ensures |IndexOf(mergedData).documents| == |mergedData|
    ensures (forall p :: 0 <= p < |mergedData| ==>
               ResolveHit(mergedData, IndexOf(mergedData).documents[p].ref) == Some(mergedData[p]))
            <==> IdsArePositions(mergedData)
  {
    DocumentsLength(mergedData);
    forall p | 0 <= p < |mergedData|
      ensures ResolveHit(mergedData, IndexOf(mergedData).documents[p].ref) == Some(mergedData[p]) ==>
              mergedData[p].id == p
    {
      HitResolvesOnlyAtOwnPosition(mergedData, p);
    }
    if IdsArePositions(mergedData) {
      forall p | 0 <= p < |mergedData|
        ensures ResolveHit(mergedData, IndexOf(mergedData).documents[p].ref) == Some(mergedData[p])
      {
        HitIsMatchedRecord(mergedData, p);
      }
    }
  }

  /** With one-based ids (the first verse has id 1), the hit on the first
      record resolves to the second record, and the hit on the last record
      resolves to `undefined`. */
  lemma OneBasedIdsMisresolve()
    ensures var mergedData := [VerseRecord(1, 1, 1, "a", "", "", ""), VerseRecord(2, 1, 2, "b", "", "", "")];
            var documents := IndexOf(mergedData).documents;
            && ResolveHit(mergedData, documents[0].ref) == Some(mergedData[1])
            && ResolveHit(mergedData, documents[1].ref) == None
  {
    var mergedData := [VerseRecord(1, 1, 1, "a", "", "", ""), VerseRecord(2, 1, 2, "b", "", "", "")];
    DocumentsAt(mergedData, 0);
    DocumentsAt(mergedData, 1);
  }

  /** With distinct ids, looking a hit up by id yields the record its
      document was built from, whatever the ids are. */
  lemma HitByIdIsMatchedRecord(mergedData: seq<VerseRecord>, p: int)
    requires UniqueIds(mergedData)
    requires 0 <= p < |mergedData|
    ensures |IndexOf(mergedData).documents| == |mergedData|
    ensures ResolveHitById(mergedData, IndexOf(mergedData).documents[p].ref) == Some(mergedData[p])
  {
    DocumentsAt(mergedData, p);
    FindFirstById(mergedData, p, mergedData[p].id);
  }

  /** The first record with the id of record `p` is record `p` when ids are
      distinct. */
  lemma {:induction false} FindFirstById(mergedData: seq<VerseRecord>, p: int, ref: int)
    requires UniqueIds(mergedData)
    requires 0 <= p < |mergedData| && mergedData[p].id == ref
    ensures FindFirst(mergedData, (r: VerseRecord) => r.id == ref) == Some(mergedData[p])
  {
    if p > 0 {
      assert mergedData[0].id != ref;
      assert UniqueIds(mergedData[1..]) by {
        forall i, j | 0 <= i < j < |mergedData[1..]|
          ensures mergedData[1..][i].id != mergedData[1..][j].id
        {
          assert mergedData[1..][i] == mergedData[i + 1] && mergedData[1..][j] == mergedData[j + 1];
        }
      }
      FindFirstById(mergedData[1..], p - 1, ref);
    }
  }

  /** When ids are positions, the positional lookup and the lookup by id
      agree on every ref. */
  lemma PositionalAgreesWithId(mergedData: seq<VerseRecord>, ref: int)
    requires IdsArePositions(mergedData)
    ensures ResolveHit(mergedData, ref) == ResolveHitById(mergedData, ref)
  {
    assert UniqueIds(mergedData);
    if 0 <= ref < |mergedData| {
      FindFirstById(mergedData, ref, ref);
    } else {
      assert forall r :: r in mergedData ==> r.id != ref;
    }
  }

  /** When ids are positions, the source's result mapping and the id-based
      one give the same results for every list of hits. */
  lemma ResolveHitsAgree(mergedData: seq<VerseRecord>, refs: seq<int>)
    requires IdsArePositions(mergedData)
    ensures ResolveHits(mergedData, refs) == ResolveHitsById(mergedData, refs)
  {
    forall k | 0 <= k < |refs|
      ensures ResolveHits(mergedData, refs)[k] == ResolveHitsById(mergedData, refs)[k]
    {
      PositionalAgreesWithId(mergedData, refs[k]);
    }
  }

  /** Every record returned by the id-based mapping is a merged record whose
      id is the hit's ref; a ref no record carries gives `undefined`. */
  lemma ResolvedByIdIsRecord(mergedData: seq<VerseRecord>, refs: seq<int>, k: int)
    requires 0 <= k < |refs|
    ensures var r := ResolveHitsById(mergedData, refs)[k];
            && (r.Some? ==> r.value in mergedData && r.value.id == refs[k])
            && (r.None? <==> forall x :: x in mergedData ==> x.id != refs[k])
  {
  }
}
