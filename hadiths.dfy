/** The rules of the hadith list screen (app/Hadiths/index.jsx): the hadiths
    of one book, bookmarking a hadith without duplicates, and the label and
    list key of a hadith card. */
module Hadiths {
  import opened Wrappers
  import opened Seqs
  import opened Strings

  /** Where a hadith sits: its book and its hadith number. */
  datatype Reference = Reference(book: int, hadith: int)

  /** A hadith as the dataset holds it; `id` is optional and `bookName` is
      only set on bookmarked copies. */
  datatype Hadith = Hadith(id: Option<int>, hadithnumber: int, reference: Reference, text: string,
                           bookName: Option<string>)

  /** Whether hadith `h` belongs to the book given by the route parameter:
      `String(h.reference.book) === String(bookNumber)`. */
  predicate InBook(h: Hadith, bookNumber: string)
  {
    IntToDecimal(h.reference.book) == bookNumber
  }

  /** `hadiths`: the hadiths of the selected book, in dataset order. */
  function HadithsOfBook(data: seq<Hadith>, bookNumber: string): seq<Hadith>
  {
    Filter(data, (h: Hadith) => InBook(h, bookNumber))
  }

  /** The list holds exactly the hadiths whose book, written in decimal, is
      the route parameter, each as often as the dataset holds it, as an
      order-preserving subsequence of the dataset; for a parameter that is the decimal form of `n`, those are
      exactly the hadiths of book `n`. */
  lemma HadithsOfBookLaws(data: seq<Hadith>, bookNumber: string)
    ensures forall h :: h in HadithsOfBook(data, bookNumber) <==> h in data && IntToDecimal(h.reference.book) == bookNumber
    ensures forall h :: (multiset(HadithsOfBook(data, bookNumber))[h] ==
        if IntToDecimal(h.reference.book) == bookNumber then multiset(data)[h] else 0)
    ensures IsSubsequence(HadithsOfBook(data, bookNumber), data)
    ensures forall n: int, h: Hadith :: bookNumber == IntToDecimal(n) ==>
      (h in HadithsOfBook(data, bookNumber) <==> h in data && h.reference.book == n)
  {
    var keep := (h: Hadith) => InBook(h, bookNumber);
    forall h ensures h in Filter(data, keep) <==> h in data && keep(h) {
      FilterMembership(data, keep, h);
    }
    forall h ensures multiset(Filter(data, keep))[h] == if keep(h) then multiset(data)[h] else 0 {
      FilterCount(data, keep, h);
    }
    FilterIsSubsequence(data, keep);
    forall n: int, h: Hadith | bookNumber == IntToDecimal(n) && IntToDecimal(h.reference.book) == bookNumber
      ensures h.reference.book == n
    {
      IntToDecimalInjective(h.reference.book, n);
    }
  }

  /** `b.reference?.hadith === item.reference?.hadith`: bookmarks are told
      apart by hadith number alone. */
  predicate SameHadith(b: Hadith, item: Hadith)
  {
    b.reference.hadith == item.reference.hadith
  }

  /** Whether some stored bookmark has the item's hadith number. */
  predicate HasHadith(bookmarks: seq<Hadith>, item: Hadith)
  {
    Any(bookmarks, (b: Hadith) => SameHadith(b, item))
  }

  /** The bookmark list after bookmarking `item` from the book `bookName`:
      the item, with `bookName` added, at the end, unless a bookmark with
      its hadith number exists. */
  function AddHadithBookmark(bookmarks: seq<Hadith>, item: Hadith, bookName: Option<string>): seq<Hadith>
  {
    if HasHadith(bookmarks, item) then bookmarks else bookmarks + [item.(bookName := bookName)]
  }

  /** `handleBookmark`: loads the stored list (a missing one reads as
      empty), pushes the item with its book name when no bookmark has the
      same hadith number, and reports whether it did. When nothing is
      added, storage is not written. */
  method HandleBookmark(stored: Option<seq<Hadith>>, item: Hadith, bookName: Option<string>)
    returns (saved: Option<seq<Hadith>>, added: bool)
    ensures added <==> !HasHadith(stored.GetOr([]), item)
    ensures added ==> saved == Some(AddHadithBookmark(stored.GetOr([]), item, bookName))
    ensures !added ==> saved == stored
  {
    var hadithBookmarks := if stored.Some? then stored.value else [];
    added := !HasHadith(hadithBookmarks, item);
    if added {
      var itemWithBookName := item.(bookName := bookName);
      hadithBookmarks := hadithBookmarks + [itemWithBookName];
      saved := Some(hadithBookmarks);
    } else {
      saved := stored;
    }
  }

  /** Bookmarking keeps the existing bookmarks unchanged and in order, and
      afterwards some bookmark has the item's hadith number. */
  lemma AddHadithBookmarkExtends(bookmarks: seq<Hadith>, item: Hadith, bookName: Option<string>)
    ensures bookmarks <= AddHadithBookmark(bookmarks, item, bookName)
    ensures |AddHadithBookmark(bookmarks, item, bookName)| <= |bookmarks| + 1
    ensures HasHadith(AddHadithBookmark(bookmarks, item, bookName), item)
  {
    if !HasHadith(bookmarks, item) {
      var after := bookmarks + [item.(bookName := bookName)];
      assert SameHadith(after[|bookmarks|], item);
    }
  }

  /** Adding the same hadith twice gives the list that adding it once does. */
  lemma AddHadithBookmarkIdempotent(bookmarks: seq<Hadith>, item: Hadith, bookName: Option<string>)
    ensures var once := AddHadithBookmark(bookmarks, item, bookName);
            AddHadithBookmark(once, item, bookName) == once
  {
    AddHadithBookmarkExtends(bookmarks, item, bookName);
  }

  /** No two bookmarks share a hadith number. */
  ghost predicate DistinctHadiths(bookmarks: seq<Hadith>)
  {
    forall i, j :: 0 <= i < j < |bookmarks| ==> bookmarks[i].reference.hadith != bookmarks[j].reference.hadith
  }

  /** Bookmarking never creates a second bookmark for a hadith number. */
  lemma AddHadithBookmarkKeepsDistinct(bookmarks: seq<Hadith>, item: Hadith, bookName: Option<string>)
    requires DistinctHadiths(bookmarks)
    ensures DistinctHadiths(AddHadithBookmark(bookmarks, item, bookName))
  {
    if !HasHadith(bookmarks, item) {
      var after := bookmarks + [item.(bookName := bookName)];
      forall i, j | 0 <= i < j < |after| ensures after[i].reference.hadith != after[j].reference.hadith {
        if j == |bookmarks| {
          assert after[i] == bookmarks[i];
          assert !SameHadith(bookmarks[i], item);
        }
      }
    }
  }

  /** The number on a hadith card: `reference?.hadith || hadithnumber`
      (a zero hadith number counts as missing). */
  function HadithLabel(h: Hadith): (number: int)
    ensures number == h.reference.hadith || number == h.hadithnumber
    ensures h.reference.hadith != 0 ==> number == h.reference.hadith
    ensures number != 0 <==> h.reference.hadith != 0 || h.hadithnumber != 0
  {
    if h.reference.hadith != 0 then h.reference.hadith else h.hadithnumber
  }

  /** The list key of the card at position `idx`: `${label}-${idx}`. */
  function HadithListKey(h: Hadith, idx: nat): string
  {
    IntToDecimal(HadithLabel(h)) + "-" + NatToDecimal(idx)
  }

  /** The part of `s` after its last '-' (all of `s` when it has none). */
  ghost function AfterLastDash(s: string): string
  {
    if s == [] || s[|s| - 1] == '-' then [] else AfterLastDash(s[..|s| - 1]) + [s[|s| - 1]]
  }

  /** Appending a dash and a dash-free tail: the tail is what follows the
      last dash. */
  lemma {:induction false} AfterLastDashOf(a: string, d: string)
    requires forall i :: 0 <= i < |d| ==> d[i] != '-'
    ensures AfterLastDash(a + "-" + d) == d
  {
    if d != [] {
      var last := d[|d| - 1];
      assert (a + "-" + d)[..|a + "-" + d| - 1] == a + "-" + d[..|d| - 1];
      AfterLastDashOf(a, d[..|d| - 1]);
      assert d == d[..|d| - 1] + [last];
    }
  }

  /** Cards at different positions get different keys, whatever their
      labels: the key ends in the position after the last '-'. */
  lemma HadithListKeysDistinct(h1: Hadith, i: nat, h2: Hadith, j: nat)
    requires HadithListKey(h1, i) == HadithListKey(h2, j)
    ensures i == j
  {
    var d1, d2 := NatToDecimal(i), NatToDecimal(j);
    NatToDecimalDigits(i);
    NatToDecimalDigits(j);
    AfterLastDashOf(IntToDecimal(HadithLabel(h1)), d1);
    AfterLastDashOf(IntToDecimal(HadithLabel(h2)), d2);
    NatToDecimalInjective(i, j);
  }
}
