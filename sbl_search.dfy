/**
 * `find_sbl_database`: choosing the SBLGNT database among the files a
 * recursive glob found. The two glob results are parameters: `primaryFound`
 * for `end-user-modules/**/*.SQLite3`, `fallbackFound` for the whole
 * repository (only looked at when the first search leaves nothing).
 */
module SblSearch {
  import opened Wrappers
  import opened Strings
  import opened Collect

  /** Words whose presence marks a file as not a Bible in the first search. */
  const PrimaryExcluded: seq<string> := ["dictionary", "lexicon"]
  /** The fallback search only rules out dictionaries. */
  const FallbackExcluded: seq<string> := ["dictionary"]

  datatype SearchError = NoSblDatabase

  /** No excluded word occurs in the lower-cased path. */
  predicate Admissible(path: string, excluded: seq<string>)
  {
    forall w :: w in excluded ==> !Contains(Lower(path), w)
  }

  function KeepIfAdmissible(excluded: seq<string>, p: string): Option<string>
  {
    if Admissible(p, excluded) then Some(p) else None
  }

  function KeepAdmissible(excluded: seq<string>): string -> Option<string>
  {
    p => KeepIfAdmissible(excluded, p)
  }

  /** The found paths, in order, whose lower-cased form holds no excluded word. */
  function Candidates(found: seq<string>, excluded: seq<string>): (r: seq<string>)
    ensures |r| <= |found|
    ensures forall k :: 0 <= k < |r| ==> r[k] in found && Admissible(r[k], excluded)
  {
    var f := KeepAdmissible(excluded);
    var r := FilterMap(found, f);
    assert forall k :: 0 <= k < |r| ==> r[k] in found && Admissible(r[k], excluded) by {
      forall k | 0 <= k < |r| ensures r[k] in found && Admissible(r[k], excluded) {
        FilterMapKept(found, f, k);
        var j :| 0 <= j < |found| && f(found[j]) == Some(r[k]);
      }
    }
    r
  }

  /** The first candidate of the first search, else of the fallback, else an error. */
  function FindSblDatabase(primaryFound: seq<string>, fallbackFound: seq<string>): (r: Result<string, SearchError>)
    ensures r.Ok? ==>
      || (r.value in primaryFound && Admissible(r.value, PrimaryExcluded))
      || (r.value in fallbackFound && Admissible(r.value, FallbackExcluded))
    ensures r.Err? ==> forall p :: p in fallbackFound ==> !Admissible(p, FallbackExcluded)
  {
    var primary := Candidates(primaryFound, PrimaryExcluded);
    if primary != [] then Ok(primary[0])
    else
      var fallback := Candidates(fallbackFound, FallbackExcluded);
      if fallback != [] then Ok(fallback[0])
      else
        assert forall p :: p in fallbackFound ==> !Admissible(p, FallbackExcluded) by {
          forall p | p in fallbackFound ensures !Admissible(p, FallbackExcluded) {
            if Admissible(p, FallbackExcluded) {
              AdmissibleAreCandidates(fallbackFound, FallbackExcluded, p);
            }
          }
        }
        Err(NoSblDatabase)
  }

  ghost predicate AnyAdmissible(found: seq<string>, excluded: seq<string>)
  {
    exists j :: 0 <= j < |found| && Admissible(found[j], excluded)
  }

  /** `p` is the earliest admissible path of `found`. */
  ghost predicate IsFirstAdmissible(found: seq<string>, excluded: seq<string>, p: string)
  {
    exists j :: 0 <= j < |found| && found[j] == p && Admissible(p, excluded)
                && forall i :: 0 <= i < j ==> !Admissible(found[i], excluded)
  }

  /** Every candidate is a found path that mentions no excluded word. */
  lemma CandidatesAreAdmissible(found: seq<string>, excluded: seq<string>, p: string)
    requires p in Candidates(found, excluded)
    ensures p in found && Admissible(p, excluded)
  {
    var r := Candidates(found, excluded);
    var k :| 0 <= k < |r| && r[k] == p;
  }

  /** Every found path that mentions no excluded word is a candidate. */
  lemma AdmissibleAreCandidates(found: seq<string>, excluded: seq<string>, p: string)
    requires p in found && Admissible(p, excluded)
    ensures p in Candidates(found, excluded)
  {
    var f := KeepAdmissible(excluded);
    var r := Candidates(found, excluded);
    FilterMapSelection(found, f);
    var idx: seq<nat> :| IsSelection(found, f, r, idx);
    var j :| 0 <= j < |found| && found[j] == p;
    assert f(found[j]) == Some(p);
    var k :| 0 <= k < |idx| && idx[k] == j;
    assert r[k] == p;
  }

  /** The head of a candidate list is the first admissible path; the list is empty iff there is none. */
  lemma CandidatesHead(found: seq<string>, excluded: seq<string>)
    ensures Candidates(found, excluded) != [] <==> AnyAdmissible(found, excluded)
    ensures Candidates(found, excluded) != [] ==> IsFirstAdmissible(found, excluded, Candidates(found, excluded)[0])
  {
    var f := KeepAdmissible(excluded);
    var r := Candidates(found, excluded);
    FilterMapEmpty(found, f);
    assert forall j :: 0 <= j < |found| ==> (f(found[j]).None? <==> !Admissible(found[j], excluded));
    if r != [] {
      FilterMapSelection(found, f);
      var idx: seq<nat> :| IsSelection(found, f, r, idx);
      SelectionHead(found, f, r, idx);
      var j := idx[0];
      assert found[j] == r[0] && Admissible(r[0], excluded);
      assert forall i :: 0 <= i < j ==> f(found[i]).None?;
    }
  }

  /**
   * The first search wins whenever it leaves a candidate; only otherwise is
   * the fallback consulted; failure means neither search left one.
   */
  lemma FindSblDatabaseSpec(primaryFound: seq<string>, fallbackFound: seq<string>)
    ensures AnyAdmissible(primaryFound, PrimaryExcluded) ==>
      && FindSblDatabase(primaryFound, fallbackFound).Ok?
      && IsFirstAdmissible(primaryFound, PrimaryExcluded, FindSblDatabase(primaryFound, fallbackFound).value)
    ensures !AnyAdmissible(primaryFound, PrimaryExcluded) ==>
      && (FindSblDatabase(primaryFound, fallbackFound).Ok? <==> AnyAdmissible(fallbackFound, FallbackExcluded))
      && (FindSblDatabase(primaryFound, fallbackFound).Ok? ==>
            IsFirstAdmissible(fallbackFound, FallbackExcluded, FindSblDatabase(primaryFound, fallbackFound).value))
  {
    CandidatesHead(primaryFound, PrimaryExcluded);
    CandidatesHead(fallbackFound, FallbackExcluded);
  }
}
