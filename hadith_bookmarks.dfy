/** The hadith bookmark screen (app/Bookmarks/HadithBookmarks.jsx): loading
    the stored list, deleting a bookmark, the list key of a card and the
    text direction rule. */
module HadithBookmarks {
  import opened Wrappers
  import opened Seqs
  import opened Strings
  import opened Hadiths

  /** `JSON.parse(stored) || []`: a missing stored list loads as empty. */
  function LoadHadithBookmarks(stored: Option<seq<Hadith>>): (bookmarks: seq<Hadith>)
    ensures stored.None? ==> bookmarks == []
    ensures stored.Some? ==> bookmarks == stored.value
  {
    stored.GetOr([])
  }

  /** `deleteBookmark(id)`: the bookmarks whose `id` differs from `id`. The
      id is optional: a card whose hadith has no id passes `undefined`. */
  function DeleteBookmark(bookmarks: seq<Hadith>, id: Option<int>): seq<Hadith>
  {
    Filter(bookmarks, (b: Hadith) => b.id != id)
  }

  /** After deleting `id`, no bookmark with that id remains, every
      occurrence of every other bookmark is kept in its order, deleting an absent id changes nothing, and
      deleting twice is deleting once. */
  lemma DeleteBookmarkLaws(bookmarks: seq<Hadith>, id: Option<int>)
    ensures forall b :: b in DeleteBookmark(bookmarks, id) <==> b in bookmarks && b.id != id
    ensures forall b :: multiset(DeleteBookmark(bookmarks, id))[b] == if b.id != id then multiset(bookmarks)[b] else 0
    ensures IsSubsequence(DeleteBookmark(bookmarks, id), bookmarks)
    ensures (forall b :: b in bookmarks ==> b.id != id) ==> DeleteBookmark(bookmarks, id) == bookmarks
    ensures DeleteBookmark(DeleteBookmark(bookmarks, id), id) == DeleteBookmark(bookmarks, id)
  {
    var keep := (b: Hadith) => b.id != id;
    forall b ensures b in Filter(bookmarks, keep) <==> b in bookmarks && keep(b) {
      FilterMembership(bookmarks, keep, b);
    }
    forall b ensures multiset(Filter(bookmarks, keep))[b] == if keep(b) then multiset(bookmarks)[b] else 0 {
      FilterCount(bookmarks, keep, b);
    }
    FilterIsSubsequence(bookmarks, keep);
    if forall b :: b in bookmarks ==> b.id != id {
      FilterKeepsAll(bookmarks, keep);
    }
    FilterIdempotent(bookmarks, keep);
  }

  /** Deleting the card of an id-less bookmark passes `undefined`, which
      removes every id-less bookmark, not just the one on the card. */
  lemma DeleteIdlessRemovesAllIdless()
    ensures var h1 := Hadith(None, 1, Reference(1, 1), "first", Some("Revelation"));
            var h2 := Hadith(None, 2, Reference(1, 2), "second", Some("Revelation"));
            DeleteBookmark([h1, h2], h1.id) == []
  {
    var h1 := Hadith(None, 1, Reference(1, 1), "first", Some("Revelation"));
    var h2 := Hadith(None, 2, Reference(1, 2), "second", Some("Revelation"));
    assert [h1, h2][1..] == [h2];
  }

  /** Deleting the card at position `index` only: the evident intent of the
      delete button. */
  function DeleteBookmarkAt(bookmarks: seq<Hadith>, index: nat): (remaining: seq<Hadith>)
    requires index < |bookmarks|
    ensures |remaining| == |bookmarks| - 1
    ensures forall i :: 0 <= i < index ==> remaining[i] == bookmarks[i]
    ensures forall i :: index <= i < |remaining| ==> remaining[i] == bookmarks[i + 1]
  {
    bookmarks[..index] + bookmarks[index + 1..]
  }

  /** Deleting by position removes one card, keeps the others in order, and
      agrees with deleting by id whenever the card has an id no other card
      shares. */
  lemma DeleteBookmarkAtAgreesWithUniqueId(bookmarks: seq<Hadith>, index: nat)
    requires index < |bookmarks| && bookmarks[index].id.Some?
    requires forall i :: 0 <= i < |bookmarks| && i != index ==> bookmarks[i].id != bookmarks[index].id
    ensures DeleteBookmarkAt(bookmarks, index) == DeleteBookmark(bookmarks, bookmarks[index].id)
    ensures IsSubsequence(DeleteBookmarkAt(bookmarks, index), bookmarks)
  {
    var id := bookmarks[index].id;
    var keep := (b: Hadith) => b.id != id;
    FilterDropsOnly(bookmarks, index, keep);
    FilterIsSubsequence(bookmarks, keep);
  }

  /** `keyExtractor`: the id as a string when there is one; otherwise the
      hadith number when it is non-zero; otherwise the reference's hadith
      number when it is non-zero; otherwise the position. */
  function BookmarkKey(item: Hadith, idx: nat): (key: string)
    ensures item.id.Some? ==> key == IntToDecimal(item.id.value)
    ensures item.id.None? && item.hadithnumber != 0 ==> key == IntToDecimal(item.hadithnumber)
    ensures item.id.None? && item.hadithnumber == 0 && item.reference.hadith != 0 ==>
      key == IntToDecimal(item.reference.hadith)
    ensures item.id.None? && item.hadithnumber == 0 && item.reference.hadith == 0 ==> key == NatToDecimal(idx)
  {
    if item.id.Some? then IntToDecimal(item.id.value)
    else if item.hadithnumber != 0 then IntToDecimal(item.hadithnumber)
    else if item.reference.hadith != 0 then IntToDecimal(item.reference.hadith)
    else NatToDecimal(idx)
  }

  /** Bookmarks with different ids get different keys. */
  lemma BookmarkKeysDistinctByIds(h1: Hadith, i: nat, h2: Hadith, j: nat)
    requires h1.id.Some? && h2.id.Some? && h1.id != h2.id
    ensures BookmarkKey(h1, i) != BookmarkKey(h2, j)
  {
    if BookmarkKey(h1, i) == BookmarkKey(h2, j) {
      IntToDecimalInjective(h1.id.value, h2.id.value);
    }
  }

  /** The language the card text direction is chosen by:
      `t("translation_language") || t("language") || "en"`, given the two
      strings the lookups return. */
  function CardLanguage(translationLanguage: string, language: string): (lang: string)
    ensures lang != ""
    ensures translationLanguage != "" ==> lang == translationLanguage
    ensures translationLanguage == "" && language != "" ==> lang == language
    ensures translationLanguage == "" && language == "" ==> lang == "en"
  {
    if translationLanguage != "" then translationLanguage
    else if language != "" then language
    else "en"
  }

  /** `isEnglish`: the resolved language starts with "en"; when both
      lookups return empty strings it is English. */
  function IsEnglish(translationLanguage: string, language: string): (english: bool)
    ensures english <==> "en" <= CardLanguage(translationLanguage, language)
    ensures translationLanguage == "" && language == "" ==> english
  {
    "en" <= CardLanguage(translationLanguage, language)
  }
}
