/**
 * The canonical New Testament order, the identifier every canonical book
 * receives, and the name test that decides which canonical book an SBLGNT
 * book is.
 */
module NtBooks {
  import opened Wrappers
  import opened Strings
  import opened Tables

  /** The 27 books in standard order; position `i` receives `TargetId(i)`. */
  const NtBooksOrder: seq<string> := [
    "Matthew", "Mark", "Luke", "John", "Acts", "Romans", "1 Corinthians", "2 Corinthians",
    "Galatians", "Ephesians", "Philippians", "Colossians", "1 Thessalonians", "2 Thessalonians",
    "1 Timothy", "2 Timothy", "Titus", "Philemon", "Hebrews", "James",
    "1 Peter", "2 Peter", "1 John", "2 John", "3 John", "Jude", "Revelation"
  ]
  const StartNtId: int := 470
  const IdStep: int := 10

  /** The identifiers reserved for New Testament books: 470, 480, ..., 730. */
  predicate IsNtId(id: int)
  {
    StartNtId <= id <= StartNtId + IdStep * (|NtBooksOrder| - 1) && id % IdStep == 0
  }

  /** The identifier of canonical position `i`: 470 plus ten per position. */
  function TargetId(i: nat): (id: int)
    requires i < |NtBooksOrder|
    ensures IsNtId(id)
    ensures (id - StartNtId) / IdStep == i
  {
    StartNtId + i * IdStep
  }

  /** Identifiers follow canonical order, so distinct positions get distinct identifiers. */
  lemma TargetIdOrder(i: nat, j: nat)
    requires i < |NtBooksOrder| && j < |NtBooksOrder|
    ensures i < j <==> TargetId(i) < TargetId(j)
    ensures i == j <==> TargetId(i) == TargetId(j)
  {
  }

  /** Every reserved identifier belongs to exactly one canonical position. */
  lemma TargetIdOnto(id: int)
    requires IsNtId(id)
    ensures exists i: nat :: i < |NtBooksOrder| && TargetId(i) == id
  {
    var i: nat := (id - StartNtId) / IdStep;
    assert TargetId(i) == id;
  }

  /**
   * A book matches a canonical name when, ignoring case, the canonical name
   * occurs in its long name, or its short name is present and non-empty and
   * occurs in the canonical name. An empty or NULL short name is false in
   * Python, so it never matches through the second test.
   */
  predicate Matches(canonName: string, b: SblBook)
    ensures Matches(canonName, b) ==>
      || |canonName| <= |b.longName|
      || (b.shortName.Some? && 0 < |b.shortName.value| <= |canonName|)
  {
    || Contains(Lower(b.longName), Lower(canonName))
    || (b.shortName.Some? && b.shortName.value != ""
        && Contains(Lower(canonName), Lower(b.shortName.value)))
  }

  /**
   * The empty string is in every string, so an empty short name would match
   * every canonical name; the truth test in front of it rules that out and
   * leaves only the long-name test.
   */
  lemma EmptyShortNameIgnored(canonName: string, b: SblBook)
    requires b.shortName == Some("") || b.shortName.None?
    ensures b.shortName.Some? ==> Contains(Lower(canonName), Lower(b.shortName.value))
    ensures Matches(canonName, b) <==> Contains(Lower(b.longName), Lower(canonName))
  {
  }

  /** The first canonical position at or after `from` whose name matches `b`. */
  function FirstMatchFrom(b: SblBook, from: nat): (r: Option<nat>)
    requires from <= |NtBooksOrder|
    ensures r.Some? ==> from <= r.value < |NtBooksOrder| && Matches(NtBooksOrder[r.value], b)
    ensures forall j :: from <= j < |NtBooksOrder| && (r.None? || j < r.value) ==> !Matches(NtBooksOrder[j], b)
    decreases |NtBooksOrder| - from
  {
    if from == |NtBooksOrder| then None
    else if Matches(NtBooksOrder[from], b) then Some(from)
    else FirstMatchFrom(b, from + 1)
  }

  /** The canonical position the merge gives `b`, or None when it is skipped. */
  function CanonIndex(b: SblBook): (r: Option<nat>)
    ensures r.Some? ==> r.value < |NtBooksOrder| && Matches(NtBooksOrder[r.value], b)
    ensures forall j :: 0 <= j < |NtBooksOrder| && (r.None? || j < r.value) ==> !Matches(NtBooksOrder[j], b)
  {
    FirstMatchFrom(b, 0)
  }

  /**
   * The inner loop over the canonical names, in list order, which stops at
   * the first match.
   */
  method MatchBook(b: SblBook) returns (index: Option<nat>)
    ensures index == CanonIndex(b)
    ensures index.Some? ==> index.value < |NtBooksOrder| && Matches(NtBooksOrder[index.value], b)
    ensures forall j :: 0 <= j < |NtBooksOrder| && (index.None? || j < index.value) ==> !Matches(NtBooksOrder[j], b)
  {
    index := None;
    var i := 0;
    while i < |NtBooksOrder|
      invariant 0 <= i <= |NtBooksOrder|
      invariant forall j :: 0 <= j < i ==> !Matches(NtBooksOrder[j], b)
      invariant CanonIndex(b) == FirstMatchFrom(b, i)
    {
      if Matches(NtBooksOrder[i], b) {
        index := Some(i);
        break;
      }
      i := i + 1;
    }
  }

  /** The first matching canonical position is the one the merge gives. */
  lemma CanonIndexIsFirstMatch(b: SblBook, i: nat)
    requires i < |NtBooksOrder| && Matches(NtBooksOrder[i], b)
    requires forall j :: 0 <= j < i ==> !Matches(NtBooksOrder[j], b)
    ensures CanonIndex(b) == Some(i)
  {
  }

  /** Only lower-cased names matter: the test is case-insensitive. */
  lemma MatchesIgnoresCase(canonName: string, b: SblBook)
    ensures Matches(canonName, b) <==> Matches(Lower(canonName), LowerNames(b))
  {
    LowerIdempotent(canonName);
    LowerIdempotent(b.longName);
    if b.shortName.Some? {
      LowerIdempotent(b.shortName.value);
    }
  }

  function LowerNames(b: SblBook): SblBook
  {
    b.(longName := Lower(b.longName),
       shortName := if b.shortName.Some? then Some(Lower(b.shortName.value)) else None)
  }

  /** A book whose long name spells a canonical name (in any case) is never skipped. */
  lemma LongNameOccurrenceMatches(b: SblBook, i: nat)
    requires i < |NtBooksOrder| && Contains(b.longName, NtBooksOrder[i])
    ensures Matches(NtBooksOrder[i], b)
    ensures CanonIndex(b).Some? && CanonIndex(b).value <= i
  {
    ContainsLower(b.longName, NtBooksOrder[i]);
  }

  /**
   * When canonical name `j` contains an earlier canonical name `i`, a long
   * name containing name `j` is claimed by position `i` or before, so position
   * `j` is never reached through the long-name test.
   */
  lemma ShadowedByEarlierName(b: SblBook, i: nat, j: nat)
    requires i < j < |NtBooksOrder|
    requires Contains(Lower(NtBooksOrder[j]), Lower(NtBooksOrder[i]))
    requires Contains(Lower(b.longName), Lower(NtBooksOrder[j]))
    ensures CanonIndex(b).Some? && CanonIndex(b).value <= i < j
  {
    ContainsTransitive(Lower(b.longName), Lower(NtBooksOrder[j]), Lower(NtBooksOrder[i]));
  }

  /**
   * A short name that occurs in a canonical name claims that position or an
   * earlier one, whatever the long name says.
   */
  lemma ShortNameClaimsPosition(b: SblBook, i: nat)
    requires i < |NtBooksOrder|
    requires b.shortName.Some? && b.shortName.value != ""
    requires Contains(Lower(NtBooksOrder[i]), Lower(b.shortName.value))
    ensures CanonIndex(b).Some? && CanonIndex(b).value <= i
  {
  }

  /**
   * "re" occurs in "hebrews", so a book "Revelation" abbreviated "Re" is
   * given Hebrews' position 18 or an earlier one, not its own position 26.
   */
  lemma RevelationAbbreviatedRe(b: SblBook)
    requires b.longName == "Revelation" && b.shortName == Some("Re")
    ensures CanonIndex(b).Some? && CanonIndex(b).value <= 18 < 26
  {
    var hebrews := Lower(NtBooksOrder[18]);
    assert hebrews == "hebrews";
    assert Lower("Re") == "re";
    assert OccursAt(hebrews, "re", 3);
    ContainsIff(hebrews, "re");
    ShortNameClaimsPosition(b, 18);
  }

  /**
   * "1 John", "2 John" and "3 John" all contain "John", so with no short
   * name each is given John's position 3 and identifier 500, not 690, 700
   * or 710.
   */
  lemma JohnineLettersTakeJohnsId(b: SblBook)
    requires b.longName == "1 John" || b.longName == "2 John" || b.longName == "3 John"
    requires b.shortName.None?
    ensures CanonIndex(b) == Some(3) && TargetId(3) == 500
  {
    LowerNumberedJohn(b.longName);
    NumberedJohnMatchesJohn(b, b.longName[0]);
  }

  lemma LowerNumberedJohn(s: string)
    requires |s| == 6 && s[1..] == " John" && !('A' <= s[0] <= 'Z')
    ensures Lower(s) == [s[0]] + " john"
  {
    var low := Lower(s);
    forall k | 1 <= k < 6 ensures low[k] == " john"[k - 1] {
      assert s[k] == " John"[k - 1];
    }
  }

  /** A long name "<c> john" with `c` neither 'm' nor 'l' is first matched by "John". */
  lemma NumberedJohnMatchesJohn(b: SblBook, c: char)
    requires Lower(b.longName) == [c] + " john" && c != 'm' && c != 'l'
    requires b.shortName.None?
    ensures CanonIndex(b) == Some(3)
  {
    var long := Lower(b.longName);
    FirstGospelsLower();
    JohnInNumberedJohn(long, c);
    LetterNotInNumberedJohn(long, c, 'm');
    LetterNotInNumberedJohn(long, c, 'l');
    NoMatchWithoutFirstLetter(NtBooksOrder[0], b);
    NoMatchWithoutFirstLetter(NtBooksOrder[1], b);
    NoMatchWithoutFirstLetter(NtBooksOrder[2], b);
    CanonIndexIsFirstMatch(b, 3);
  }

  lemma JohnInNumberedJohn(long: string, c: char)
    requires long == [c] + " john"
    ensures Contains(long, "john")
  {
    assert OccursAt(long, "john", 2);
    ContainsIff(long, "john");
  }

  lemma LetterNotInNumberedJohn(long: string, c: char, x: char)
    requires long == [c] + " john" && x != c && x !in " john"
    ensures x !in long
  {
    forall k | 0 <= k < |long| ensures long[k] != x {
      if k > 0 {
        assert long[k] == " john"[k - 1];
      }
    }
  }

  lemma FirstGospelsLower()
    ensures Lower(NtBooksOrder[0]) == "matthew" && Lower(NtBooksOrder[1]) == "mark"
    ensures Lower(NtBooksOrder[2]) == "luke" && Lower(NtBooksOrder[3]) == "john"
  {
  }

  /** Without a short name, a long name lacking the canonical name's first letter does not match. */
  lemma NoMatchWithoutFirstLetter(canonName: string, b: SblBook)
    requires b.shortName.None? && canonName != []
    requires Lower(canonName)[0] !in Lower(b.longName)
    ensures !Matches(canonName, b)
  {
    FirstCharAbsent(Lower(b.longName), Lower(canonName));
  }
}
