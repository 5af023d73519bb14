/** The verse bookmark screen (app/Bookmarks/index.jsx): loading the stored
    list and deleting a bookmark by id. */
module Bookmarks {
  import opened Wrappers
  import opened Seqs
  import opened SurahDetails

  /** `JSON.parse(stored) || []`: a missing stored list loads as empty. */
  function LoadBookmarks(stored: Option<seq<VerseBookmark>>): (bookmarks: seq<VerseBookmark>)
    ensures stored.None? ==> bookmarks == []
    ensures stored.Some? ==> bookmarks == stored.value
  {
    stored.GetOr([])
  }

  /** `deleteBookmark(id)`: the bookmarks whose id is not `id`. */
  function DeleteBookmark(bookmarks: seq<VerseBookmark>, id: int): seq<VerseBookmark>
  {
    Filter(bookmarks, (b: VerseBookmark) => b.id != id)
  }

  /** After deleting `id`, no bookmark with that id remains, every
      occurrence of every other bookmark is kept in its original order, and deleting an id that is
      not present changes nothing. */
  lemma DeleteBookmarkLaws(bookmarks: seq<VerseBookmark>, id: int)
    ensures forall b :: b in DeleteBookmark(bookmarks, id) <==> b in bookmarks && b.id != id
    ensures forall b :: multiset(DeleteBookmark(bookmarks, id))[b] == if b.id != id then multiset(bookmarks)[b] else 0
    ensures IsSubsequence(DeleteBookmark(bookmarks, id), bookmarks)
    ensures (forall b :: b in bookmarks ==> b.id != id) ==> DeleteBookmark(bookmarks, id) == bookmarks
  {
    var keep := (b: VerseBookmark) => b.id != id;
    forall b ensures b in Filter(bookmarks, keep) <==> b in bookmarks && keep(b) {
      FilterMembership(bookmarks, keep, b);
    }
    forall b ensures multiset(Filter(bookmarks, keep))[b] == if keep(b) then multiset(bookmarks)[b] else 0 {
      FilterCount(bookmarks, keep, b);
    }
    FilterIsSubsequence(bookmarks, keep);
    if forall b :: b in bookmarks ==> b.id != id {
      FilterKeepsAll(bookmarks, keep);
    }
  }

  /** Deleting the same id twice gives what deleting it once does. */
  lemma DeleteBookmarkIdempotent(bookmarks: seq<VerseBookmark>, id: int)
    ensures DeleteBookmark(DeleteBookmark(bookmarks, id), id) == DeleteBookmark(bookmarks, id)
  {
    FilterIdempotent(bookmarks, (b: VerseBookmark) => b.id != id);
  }
}
