/**
 * `merge_databases`: the output database starts as a copy of the LXX
 * database; SBLGNT books are given identifiers in the reserved New
 * Testament range, their verses are copied under those identifiers, and
 * two metadata rows are patched. The attached SBLGNT tables enter as the
 * rows their SELECT statements return.
 */
module Merge {
  import opened Wrappers
  import opened Tables
  import opened NtBooks
  import opened Collect

  const NtBookColor: string := "#FFD700"
  const DescriptionKey: string := "description"
  const TitleKey: string := "title"
  const MergedDescription: string := "LXX-Rahlfs-1935 + SBLGNT"
  const MergedTitle: string := "Complete Greek Bible (LXX + SBLGNT)"

  // ---------------------------------------------------------------------
  // The info table and the two SQL statements that patch it

  /** An SQL update of the row named `name`: it rewrites an existing row only. */
  function SqlUpdate(info: map<string, string>, name: string, value: string): (r: map<string, string>)
    ensures r.Keys == info.Keys
    ensures name in info ==> r[name] == value
    ensures forall k :: k in info && k != name ==> r[k] == info[k]
  {
    if name in info then info[name := value] else info
  }

  /** An SQL insert-or-replace of the row named `name`: the row exists afterwards. */
  function SqlInsertOrReplace(info: map<string, string>, name: string, value: string): (r: map<string, string>)
    ensures r.Keys == info.Keys + {name}
    ensures r[name] == value
    ensures forall k :: k in info && k != name ==> r[k] == info[k]
  {
    info[name := value]
  }

  /**
   * The info table after step 5: the title is always set, the description
   * is rewritten only when it was there, and every other row is untouched.
   */
  function PatchedInfo(info: map<string, string>): (r: map<string, string>)
    ensures TitleKey in r && r[TitleKey] == MergedTitle
    ensures DescriptionKey in r <==> DescriptionKey in info
    ensures DescriptionKey in info ==> r[DescriptionKey] == MergedDescription
    ensures forall k :: k != TitleKey && k != DescriptionKey ==> (k in r <==> k in info)
    ensures forall k :: k in info && k != TitleKey && k != DescriptionKey ==> r[k] == info[k]
  {
    SqlInsertOrReplace(SqlUpdate(info, DescriptionKey, MergedDescription), TitleKey, MergedTitle)
  }

  // ---------------------------------------------------------------------
  // Books: book_id_map and the inserted books rows

  /** The entry a matched SBLGNT book stores in the book id map. */
  function BookIdEntry(b: SblBook): Option<(int, int)>
  {
    match CanonIndex(b)
    case None => None
    case Some(i) => Some((b.bookNumber, TargetId(i)))
  }

  /** The books row a matched SBLGNT book inserts. */
  function NewBookRow(b: SblBook): Option<BookRow>
  {
    match CanonIndex(b)
    case None => None
    case Some(i) => Some(BookRow(TargetId(i), NtBookColor, b.shortName, b.longName))
  }

  /** `book_id_map` after the loop over `books`. */
  function BookIdMap(books: seq<SblBook>): (r: map<int, int>)
    ensures forall n :: n in r ==> IsNtId(r[n])
  {
    var r := LastWins(books, BookIdEntry);
    assert forall n :: n in r ==> IsNtId(r[n]) by {
      forall n | n in r ensures IsNtId(r[n]) {
        LastWinsValues(books, BookIdEntry, n);
      }
    }
    r
  }

  /** The books rows inserted by the loop over `books`, in insertion order. */
  function NewBookRows(books: seq<SblBook>): (r: seq<BookRow>)
    ensures |r| <= |books|
    ensures forall k :: 0 <= k < |r| ==> IsNtId(r[k].bookNumber) && r[k].bookColor == NtBookColor
  {
    var r := FilterMap(books, NewBookRow);
    assert forall k :: 0 <= k < |r| ==> IsNtId(r[k].bookNumber) && r[k].bookColor == NtBookColor by {
      forall k | 0 <= k < |r| ensures IsNtId(r[k].bookNumber) && r[k].bookColor == NtBookColor {
        FilterMapKept(books, NewBookRow, k);
      }
    }
    r
  }

  /**
   * An SBLGNT book number is in `book_id_map` exactly when some book with
   * that number matched a canonical name, and every value is a reserved
   * New Testament identifier.
   */
  lemma BookIdMapKeys(books: seq<SblBook>, n: int)
    ensures n in BookIdMap(books) <==>
      exists j :: 0 <= j < |books| && books[j].bookNumber == n && CanonIndex(books[j]).Some?
    ensures n in BookIdMap(books) ==> IsNtId(BookIdMap(books)[n])
  {
    LastWinsKeys(books, BookIdEntry, n);
    forall j ensures HasEntry(books, BookIdEntry, j, n) <==>
      (0 <= j < |books| && books[j].bookNumber == n && CanonIndex(books[j]).Some?)
    {
    }
    if n in BookIdMap(books) {
      LastWinsValues(books, BookIdEntry, n);
      var j :| HasEntry(books, BookIdEntry, j, n) && BookIdMap(books)[n] == BookIdEntry(books[j]).value.1;
    }
  }

  /**
   * The identifier stored for a book number is the one of the last matched
   * book with that number (the only one when book numbers are distinct).
   */
  lemma BookIdMapValue(books: seq<SblBook>, j: int)
    requires 0 <= j < |books| && CanonIndex(books[j]).Some?
    requires forall l :: j < l < |books| && CanonIndex(books[l]).Some? ==> books[l].bookNumber != books[j].bookNumber
    ensures books[j].bookNumber in BookIdMap(books)
    ensures BookIdMap(books)[books[j].bookNumber] == TargetId(CanonIndex(books[j]).value)
  {
    assert IsLastEntry(books, BookIdEntry, j);
    LastWinsValue(books, BookIdEntry, j);
  }

  /** `row` is the books row of matched SBLGNT book `b`. */
  ghost predicate IsRowOf(row: BookRow, b: SblBook)
  {
    && CanonIndex(b).Some?
    && row == BookRow(TargetId(CanonIndex(b).value), NtBookColor, b.shortName, b.longName)
  }

  /**
   * `idx` lists, in increasing order, exactly the positions of the matched
   * books, and `rows[k]` is the row of book `idx[k]`.
   */
  ghost predicate RowsFollowBooks(books: seq<SblBook>, rows: seq<BookRow>, idx: seq<nat>)
  {
    && |idx| == |rows|
    && (forall k, l :: 0 <= k < l < |idx| ==> idx[k] < idx[l])
    && (forall k :: 0 <= k < |idx| ==> idx[k] < |books| && IsRowOf(rows[k], books[idx[k]]))
    && (forall j :: 0 <= j < |books| && CanonIndex(books[j]).Some? ==> j in idx)
  }

  /**
   * Each matched book inserts exactly one row, in order, with colour
   * '#FFD700', its own short and long names and the identifier of its
   * canonical position; an unmatched book inserts none.
   */
  lemma NewBookRowsExact(books: seq<SblBook>)
    ensures exists idx: seq<nat> :: RowsFollowBooks(books, NewBookRows(books), idx)
  {
    var r := NewBookRows(books);
    FilterMapSelection(books, NewBookRow);
    var idx: seq<nat> :| IsSelection(books, NewBookRow, r, idx);
    forall k | 0 <= k < |idx| ensures idx[k] < |books| && IsRowOf(r[k], books[idx[k]]) {
      assert NewBookRow(books[idx[k]]) == Some(r[k]);
    }
    forall j | 0 <= j < |books| && CanonIndex(books[j]).Some? ensures j in idx {
      assert NewBookRow(books[j]).Some?;
    }
    assert RowsFollowBooks(books, r, idx);
  }

  // ---------------------------------------------------------------------
  // Verses

  /** An SBLGNT verse whose book was matched, renumbered; None for the others. */
  function RemapVerse(bookIdMap: map<int, int>, v: Verse): Option<Verse>
  {
    if v.bookNumber in bookIdMap then Some(v.(bookNumber := bookIdMap[v.bookNumber])) else None
  }

  function RemapWith(bookIdMap: map<int, int>): Verse -> Option<Verse>
  {
    v => RemapVerse(bookIdMap, v)
  }

  /** `verses_to_insert` after the loop over `verses`. */
  function RemappedVerses(verses: seq<Verse>, bookIdMap: map<int, int>): (r: seq<Verse>)
    ensures |r| <= |verses|
    ensures forall k :: 0 <= k < |r| ==> r[k].bookNumber in bookIdMap.Values
  {
    var f := RemapWith(bookIdMap);
    var r := FilterMap(verses, f);
    assert forall k :: 0 <= k < |r| ==> r[k].bookNumber in bookIdMap.Values by {
      forall k | 0 <= k < |r| ensures r[k].bookNumber in bookIdMap.Values {
        FilterMapKept(verses, f, k);
        var j :| 0 <= j < |verses| && f(verses[j]) == Some(r[k]);
        assert bookIdMap[verses[j].bookNumber] in bookIdMap.Values;
      }
    }
    r
  }

  /** The loop that fills `verses_to_insert`. */
  method RemapVerses(sblVerses: seq<Verse>, bookIdMap: map<int, int>) returns (versesToInsert: seq<Verse>)
    ensures versesToInsert == RemappedVerses(sblVerses, bookIdMap)
    ensures |versesToInsert| <= |sblVerses|
    ensures forall k :: 0 <= k < |versesToInsert| ==> versesToInsert[k].bookNumber in bookIdMap.Values
    ensures (forall n :: n in bookIdMap ==> IsNtId(bookIdMap[n])) ==>
      forall k :: 0 <= k < |versesToInsert| ==> IsNtId(versesToInsert[k].bookNumber)
  {
    versesToInsert := [];
    var n := 0;
    while n < |sblVerses|
      invariant 0 <= n <= |sblVerses|
      invariant versesToInsert == RemappedVerses(sblVerses[..n], bookIdMap)
      invariant forall k :: 0 <= k < |versesToInsert| ==> versesToInsert[k].bookNumber in bookIdMap.Values
      invariant (forall m :: m in bookIdMap ==> IsNtId(bookIdMap[m])) ==>
        forall k :: 0 <= k < |versesToInsert| ==> IsNtId(versesToInsert[k].bookNumber)
    {
      var v := sblVerses[n];
      if v.bookNumber in bookIdMap {
        var newBid := bookIdMap[v.bookNumber];
        versesToInsert := versesToInsert + [Verse(newBid, v.chapter, v.verse, v.text)];
      }
      assert sblVerses[..n + 1][..n] == sblVerses[..n];
      n := n + 1;
    }
    assert sblVerses[..n] == sblVerses;
  }

  /**
   * `idx` lists, in increasing order, exactly the positions of the verses
   * whose book number is mapped, and `out[k]` is verse `idx[k]` with its
   * mapped book number and its own chapter, verse and text.
   */
  ghost predicate VersesFollowSource(verses: seq<Verse>, bookIdMap: map<int, int>, out: seq<Verse>, idx: seq<nat>)
  {
    && |idx| == |out|
    && (forall k, l :: 0 <= k < l < |idx| ==> idx[k] < idx[l])
    && (forall k :: 0 <= k < |idx| ==>
          && idx[k] < |verses| && verses[idx[k]].bookNumber in bookIdMap
          && out[k] == Verse(bookIdMap[verses[idx[k]].bookNumber], verses[idx[k]].chapter,
                             verses[idx[k]].verse, verses[idx[k]].text))
    && (forall j :: 0 <= j < |verses| && verses[j].bookNumber in bookIdMap ==> j in idx)
  }

  /**
   * The inserted verses are exactly the SBLGNT verses whose book number is
   * in `book_id_map`, in source order, none dropped or repeated; each keeps
   * its chapter, verse and text and takes its mapped book number.
   */
  lemma RemappedVersesExact(verses: seq<Verse>, bookIdMap: map<int, int>)
    ensures exists idx: seq<nat> :: VersesFollowSource(verses, bookIdMap, RemappedVerses(verses, bookIdMap), idx)
  {
    var f := RemapWith(bookIdMap);
    var r := RemappedVerses(verses, bookIdMap);
    FilterMapSelection(verses, f);
    var idx: seq<nat> :| IsSelection(verses, f, r, idx);
    forall k | 0 <= k < |idx|
      ensures idx[k] < |verses| && verses[idx[k]].bookNumber in bookIdMap
      ensures r[k] == Verse(bookIdMap[verses[idx[k]].bookNumber], verses[idx[k]].chapter,
                            verses[idx[k]].verse, verses[idx[k]].text)
    {
      assert f(verses[idx[k]]) == Some(r[k]);
    }
    forall j | 0 <= j < |verses| && verses[j].bookNumber in bookIdMap ensures j in idx {
      assert f(verses[j]).Some?;
    }
    assert VersesFollowSource(verses, bookIdMap, r, idx);
  }

  /**
   * An SBLGNT verse reaches the output exactly when some SBLGNT book with
   * its book number matched a canonical name.
   */
  lemma VerseCarriedIffBookMatched(books: seq<SblBook>, verses: seq<Verse>, j: int)
    requires 0 <= j < |verses|
    ensures RemapVerse(BookIdMap(books), verses[j]).Some? <==>
      exists i :: 0 <= i < |books| && books[i].bookNumber == verses[j].bookNumber && CanonIndex(books[i]).Some?
    ensures RemapVerse(BookIdMap(books), verses[j]).Some? ==>
      IsNtId(RemapVerse(BookIdMap(books), verses[j]).value.bookNumber)
  {
    BookIdMapKeys(books, verses[j].bookNumber);
  }

  // ---------------------------------------------------------------------
  // The output database

  /** The output SQLite file, seen through its three tables. */
  class Database {
    var books: seq<BookRow>
    var verses: seq<Verse>
    var info: map<string, string>

    /** The output file starts as a copy of the LXX module's tables. */
    constructor (books: seq<BookRow>, verses: seq<Verse>, info: map<string, string>)
      ensures this.books == books && this.verses == verses && this.info == info
    {
      this.books := books;
      this.verses := verses;
      this.info := info;
    }

    /** Insert one row into the books table. */
    method InsertBook(row: BookRow)
      modifies this
      ensures books == old(books) + [row]
      ensures verses == old(verses) && info == old(info)
    {
      books := books + [row];
    }

    /** Insert a batch of rows into the verses table, in order. */
    method InsertVerses(rows: seq<Verse>)
      modifies this
      ensures verses == old(verses) + rows
      ensures books == old(books) && info == old(info)
    {
      verses := verses + rows;
    }

    /** SQL update of the value of an info name. */
    method UpdateInfo(name: string, value: string)
      modifies this
      ensures info == SqlUpdate(old(info), name, value)
      ensures books == old(books) && verses == old(verses)
    {
      info := SqlUpdate(info, name, value);
    }

    /** SQL insert-or-replace of an info name and value. */
    method InsertOrReplaceInfo(name: string, value: string)
      modifies this
      ensures info == SqlInsertOrReplace(old(info), name, value)
      ensures books == old(books) && verses == old(verses)
    {
      info := SqlInsertOrReplace(info, name, value);
    }
  }

  /**
   * Steps 3 to 5 of `merge_databases` on the output database `db`, given
   * the rows of `sbl.books` and of `sbl.verses`, in the order read.
   * No LXX row is removed or altered: the new rows follow the old ones.
   */
  method MergeDatabases(db: Database, sblBooks: seq<SblBook>, sblVerses: seq<Verse>)
    modifies db
    ensures db.books == old(db.books) + NewBookRows(sblBooks)
    ensures db.verses == old(db.verses) + RemappedVerses(sblVerses, BookIdMap(sblBooks))
    ensures db.info == PatchedInfo(old(db.info))
  {
    // 3. book_id_map and the books rows
    var bookIdMap: map<int, int> := map[];
    var n := 0;
    while n < |sblBooks|
      invariant 0 <= n <= |sblBooks|
      invariant bookIdMap == BookIdMap(sblBooks[..n])
      invariant db.books == old(db.books) + NewBookRows(sblBooks[..n])
      invariant db.verses == old(db.verses) && db.info == old(db.info)
    {
      var b := sblBooks[n];
      ghost var done := sblBooks[..n + 1];
      assert done[..n] == sblBooks[..n] && done[n] == b;
      var index := MatchBook(b);
      if index.Some? {
        var targetId := TargetId(index.value);
        bookIdMap := bookIdMap[b.bookNumber := targetId];
        db.InsertBook(BookRow(targetId, NtBookColor, b.shortName, b.longName));
        assert BookIdEntry(b) == Some((b.bookNumber, targetId));
      } else {
        assert BookIdEntry(b).None? && NewBookRow(b).None?;
      }
      n := n + 1;
    }
    assert sblBooks[..n] == sblBooks;

    // 4. verses
    var versesToInsert := RemapVerses(sblVerses, bookIdMap);
    db.InsertVerses(versesToInsert);

    // 5. metadata
    db.UpdateInfo(DescriptionKey, MergedDescription);
    db.InsertOrReplaceInfo(TitleKey, MergedTitle);
  }
}
