/** The rules of the surah screen (app/SurahDetails/index.jsx): finding the
    surah, the previous/next header buttons, the verse lists, the choice of
    translation, the translation shown under a verse and bookmarking a verse
    from the long-press sheet. */
module SurahDetails {
  import opened Wrappers
  import opened Seqs
  import opened MergeData

  /** The first position of `name` in `names`, or -1 when it is absent
      (`findIndex(n => n === name)`, and likewise `indexOf(name)`). */
  function IndexOfName(names: seq<string>, name: string): (r: int)
    ensures -1 <= r < |names|
    ensures r == -1 <==> name !in names
    ensures r >= 0 ==> names[r] == name && forall j :: 0 <= j < r ==> names[j] != name
  {
    if names == [] then -1
    else if names[0] == name then 0
    else
      var k := IndexOfName(names[1..], name);
      if k == -1 then -1 else k + 1
  }

  /** The surah a header button leads to: `surahNames[current + direction]`
      when that element exists and is not empty, otherwise the current
      surah. `direction` is -1 for the left button and 1 for the right. */
  function NavigationTarget(names: seq<string>, surahName: string, direction: int): (target: string)
    requires direction == -1 || direction == 1
    ensures target == surahName || target in names
    ensures var k := IndexOfName(names, surahName) + direction;
            && (0 <= k < |names| && names[k] != "" ==> target == names[k])
            && (!(0 <= k < |names|) || names[k] == "" ==> target == surahName)
  {
    var k := IndexOfName(names, surahName) + direction;
    if 0 <= k < |names| && names[k] != "" then names[k] else surahName
  }

  /** Past either end the buttons stay put: "previous" on the first surah
      and "next" on the last one lead back to the same surah. */
  lemma NavigationStaysAtEnds(names: seq<string>, surahName: string)
    requires surahName in names
    ensures IndexOfName(names, surahName) == 0 ==> NavigationTarget(names, surahName, -1) == surahName
    ensures IndexOfName(names, surahName) == |names| - 1 ==> NavigationTarget(names, surahName, 1) == surahName
  {
  }

  /** A surah name that is not in the list has index -1, so "next" leads to
      the first surah and "previous" stays put. */
  lemma NavigationFromUnknownSurah(names: seq<string>, surahName: string)
    requires surahName !in names
    requires names != [] && names[0] != ""
    ensures NavigationTarget(names, surahName, 1) == names[0]
    ensures NavigationTarget(names, surahName, -1) == surahName
  {
  }

  /** With distinct, non-empty names, "next" then "previous" returns to the
      starting surah unless it is the last one, and "previous" then "next"
      does unless it is the first one. */
  lemma NavigationRoundTrip(names: seq<string>, surahName: string)
    requires forall i, j :: 0 <= i < j < |names| ==> names[i] != names[j]
    requires forall i :: 0 <= i < |names| ==> names[i] != ""
    requires surahName in names
    ensures IndexOfName(names, surahName) < |names| - 1 ==>
      NavigationTarget(names, NavigationTarget(names, surahName, 1), -1) == surahName
    ensures IndexOfName(names, surahName) > 0 ==>
      NavigationTarget(names, NavigationTarget(names, surahName, -1), 1) == surahName
  {
    var i := IndexOfName(names, surahName);
    if i + 1 < |names| {
      IndexOfDistinct(names, i + 1);
    }
    if i > 0 {
      IndexOfDistinct(names, i - 1);
    }
  }

  /** In a list of distinct names, each name's index is its position. */
  lemma IndexOfDistinct(names: seq<string>, i: int)
    requires forall a, b :: 0 <= a < b < |names| ==> names[a] != names[b]
    requires 0 <= i < |names|
    ensures IndexOfName(names, names[i]) == i
  {
  }

  /** The translation corpora the screen can show. */
  datatype Translation = Pashto | Dari | English

  /** `getTranslationData`: "pashto", "dari" and "english" pick their
      corpus; every other setting falls back to Pashto. */
  function SelectTranslation(language: string): (t: Translation)
    ensures t == Dari <==> language == "dari"
    ensures t == English <==> language == "english"
    ensures t == Pashto <==> language != "dari" && language != "english"
  {
    match language
    case "pashto" => Pashto
    case "dari" => Dari
    case "english" => English
    case _ => Pashto
  }

  /** The verses of `corpus` belonging to the surah named `surahName`
      (`surah === indexOf(surahName) + 1`); nothing when the name is empty. */
  function SurahVerses(corpus: seq<BaseVerse>, names: seq<string>, surahName: string): seq<BaseVerse>
  {
    if surahName == "" then []
    else
      var surahId := IndexOfName(names, surahName) + 1;
      Filter(corpus, (v: BaseVerse) => v.surah == surahId)
  }

  /** `verses` and `translationVerses` hold exactly the corpus verses whose
      surah number is the name's position plus one, each as often as the
      corpus holds it, in corpus order, and nothing when the surah name is
      empty. */
  lemma SurahVersesLaws(corpus: seq<BaseVerse>, names: seq<string>, surahName: string)
    ensures surahName == "" ==> SurahVerses(corpus, names, surahName) == []
    ensures forall v :: v in SurahVerses(corpus, names, surahName) <==>
      surahName != "" && v in corpus && v.surah == IndexOfName(names, surahName) + 1
    ensures forall v :: (multiset(SurahVerses(corpus, names, surahName))[v] ==
        if surahName != "" && v.surah == IndexOfName(names, surahName) + 1 then multiset(corpus)[v] else 0)
    ensures IsSubsequence(SurahVerses(corpus, names, surahName), corpus)
  {
    if surahName != "" {
      var surahId := IndexOfName(names, surahName) + 1;
      var keep := (v: BaseVerse) => v.surah == surahId;
      var verses := Filter(corpus, keep);
      assert SurahVerses(corpus, names, surahName) == verses;
      forall v ensures v in Filter(corpus, keep) <==> v in corpus && keep(v) {
        FilterMembership(corpus, keep, v);
      }
      forall v ensures multiset(Filter(corpus, keep))[v] == if keep(v) then multiset(corpus)[v] else 0 {
        FilterCount(corpus, keep, v);
      }
      FilterIsSubsequence(corpus, keep);
    }
  }

  /** `translationVerses`: the verses of the selected translation corpus for
      the current surah. */
  function TranslationVerses(language: string, pashto: seq<BaseVerse>, dari: seq<BaseVerse>, english: seq<BaseVerse>,
                             names: seq<string>, surahName: string): seq<BaseVerse>
  {
    var corpus := match SelectTranslation(language)
      case Pashto => pashto
      case Dari => dari
      case English => english;
    SurahVerses(corpus, names, surahName)
  }

  /** An unknown translation setting shows the Pashto verses. */
  lemma UnknownLanguageShowsPashto(language: string, pashto: seq<BaseVerse>, dari: seq<BaseVerse>,
                                   english: seq<BaseVerse>, names: seq<string>, surahName: string)
    requires language != "dari" && language != "english"
    ensures TranslationVerses(language, pashto, dari, english, names, surahName)
         == SurahVerses(pashto, names, surahName)
  {
  }

  const NotAvailable: string := "Translation not available"

  /** The translation shown under the verse with id `id`: the text of the
      first translation verse with that id (`find`), or "Translation not
      available" when there is none or that verse's text is empty. */
  function DisplayedTranslation(translationVerses: seq<BaseVerse>, id: int): (r: string)
    ensures (forall v :: v in translationVerses ==> v.id != id) ==> r == NotAvailable
    ensures r != NotAvailable ==> exists v :: v in translationVerses && v.id == id && v.verse == r
    ensures r != ""
    ensures forall i ::
              (0 <= i < |translationVerses| && translationVerses[i].id == id &&
               forall j :: 0 <= j < i ==> translationVerses[j].id != id) ==>
              r == (if translationVerses[i].verse != "" then translationVerses[i].verse else NotAvailable)
  {
    var hasId := (v: BaseVerse) => v.id == id;
    assert forall i ::
             (0 <= i < |translationVerses| && hasId(translationVerses[i]) &&
              forall j :: 0 <= j < i ==> !hasId(translationVerses[j])) ==>
             FindFirst(translationVerses, hasId) == Some(translationVerses[i]) by {
      forall i | 0 <= i < |translationVerses| && hasId(translationVerses[i]) &&
        (forall j :: 0 <= j < i ==> !hasId(translationVerses[j]))
      {
        FindFirstAt(translationVerses, hasId, i);
      }
    }
    match FindFirst(translationVerses, hasId)
    case Some(v) => if v.verse != "" then v.verse else NotAvailable
    case None => NotAvailable
  }

  /** When exactly one translation verse carries the id and its text is not
      empty, that text is shown. */
  lemma {:induction false} DisplayedTranslationOfUniqueId(translationVerses: seq<BaseVerse>, id: int, p: int)
    requires 0 <= p < |translationVerses| && translationVerses[p].id == id
    requires translationVerses[p].verse != ""
    requires forall q :: 0 <= q < |translationVerses| && q != p ==> translationVerses[q].id != id
    ensures DisplayedTranslation(translationVerses, id) == translationVerses[p].verse
  {
    var s := translationVerses;
    if p > 0 {
      assert s[0].id != id;
      DisplayedTranslationOfUniqueId(s[1..], id, p - 1);
    }
  }

  /** What a verse bookmark stores. */
  datatype VerseBookmark = VerseBookmark(id: int, verse: string, translationVerse: string)

  /** The long-press sheet's buttons, by index. */
  const BookmarkButton: int := 0

  /** Whether a bookmark with this verse's id is already stored. */
  predicate IsBookmarked(existing: seq<VerseBookmark>, verse: VerseBookmark)
  {
    Any(existing, (b: VerseBookmark) => b.id == verse.id)
  }

  /** No two bookmarks share an id. */
  ghost predicate UniqueBookmarkIds(bookmarks: seq<VerseBookmark>)
  {
    forall i, j :: 0 <= i < j < |bookmarks| ==> bookmarks[i].id != bookmarks[j].id
  }

  /** The stored bookmark list after a long press on `verse` and a choice of
      `button` on the sheet: a missing stored list reads as empty; an
      already bookmarked verse leaves storage alone (the sheet is not even
      shown); otherwise "Bookmark" stores the list with the verse appended,
      and every other button leaves storage alone. */
  function LongPressBookmarks(stored: Option<seq<VerseBookmark>>, verse: VerseBookmark, button: int)
    : (r: Option<seq<VerseBookmark>>)
    ensures IsBookmarked(stored.GetOr([]), verse) ==> r == stored
    ensures button != BookmarkButton ==> r == stored
    ensures !IsBookmarked(stored.GetOr([]), verse) && button == BookmarkButton ==>
      r == Some(stored.GetOr([]) + [verse])
  {
    var existing := stored.GetOr([]);
    if IsBookmarked(existing, verse) then stored
    else if button == BookmarkButton then Some(existing + [verse])
    else stored
  }

  /** Bookmarking keeps the earlier bookmarks in order, never creates a
      second bookmark for an id, and the stored list afterwards holds the
      verse's id. */
  lemma LongPressKeepsIdsUnique(stored: Option<seq<VerseBookmark>>, verse: VerseBookmark)
    requires UniqueBookmarkIds(stored.GetOr([]))
    ensures var r := LongPressBookmarks(stored, verse, BookmarkButton);
            && stored.GetOr([]) <= r.GetOr([])
            && UniqueBookmarkIds(r.GetOr([]))
            && IsBookmarked(r.GetOr([]), verse)
  {
    var existing := stored.GetOr([]);
    var r := LongPressBookmarks(stored, verse, BookmarkButton);
    if IsBookmarked(existing, verse) {
      assert r.GetOr([]) == existing;
    } else {
      var after := existing + [verse];
      assert r.GetOr([]) == after;
      assert after[|existing|].id == verse.id;
      forall i, j | 0 <= i < j < |after| ensures after[i].id != after[j].id {
        if j == |existing| {
          assert after[i] == existing[i];
        }
      }
    }
  }

  /** Pressing "Bookmark" twice for the same verse stores what pressing it
      once does. */
  lemma LongPressIdempotent(stored: Option<seq<VerseBookmark>>, verse: VerseBookmark)
    ensures var once := LongPressBookmarks(stored, verse, BookmarkButton);
            LongPressBookmarks(once, verse, BookmarkButton) == once
  {
    var once := LongPressBookmarks(stored, verse, BookmarkButton);
    if !IsBookmarked(stored.GetOr([]), verse) {
      var after := stored.GetOr([]) + [verse];
      assert after[|after| - 1] == verse;
      assert IsBookmarked(after, verse);
    }
  }
}
