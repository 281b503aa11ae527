/**
 * The two loop shapes of the merge script, stated once: a loop that appends
 * a transformed copy of the elements it keeps (`out.append(g(x))` under an
 * `if`), and a loop that stores one key/value pair per element it keeps into
 * a dict (`d[k] = v`, so a later element overwrites an earlier one).
 * Both are left folds, so a loop over `s[..i]` keeps `FilterMap(s[..i], f)`
 * or `LastWins(s[..i], f)` as its invariant.
 */
module Collect {
  import opened Wrappers

  /** The elements `y` with `f(x) == Some(y)`, in the order of `s`. */
  function FilterMap<A, B>(s: seq<A>, f: A -> Option<B>): (r: seq<B>)
    ensures |r| <= |s|
  {
    if s == [] then []
    else
      var init := FilterMap(s[..|s| - 1], f);
      match f(s[|s| - 1])
      case None => init
      case Some(y) => init + [y]
  }

  /**
   * `idx` lists, in increasing order, exactly the positions of `s` that
   * `f` keeps, and `r[k]` is what `f` makes of position `idx[k]`.
   */
  ghost predicate IsSelection<A, B>(s: seq<A>, f: A -> Option<B>, r: seq<B>, idx: seq<nat>)
  {
    && |idx| == |r|
    && (forall k :: 0 <= k < |idx| ==> idx[k] < |s| && f(s[idx[k]]) == Some(r[k]))
    && (forall k, l :: 0 <= k < l < |idx| ==> idx[k] < idx[l])
    && (forall j :: 0 <= j < |s| && f(s[j]).Some? ==> j in idx)
  }

  /** Nothing is dropped, nothing is duplicated and the order of `s` is kept. */
  lemma {:induction false} FilterMapSelection<A, B>(s: seq<A>, f: A -> Option<B>)
    ensures exists idx: seq<nat> :: IsSelection(s, f, FilterMap(s, f), idx)
  {
    if s == [] {
      var none: seq<nat> := [];
      assert IsSelection(s, f, FilterMap(s, f), none);
    } else {
      var init := s[..|s| - 1];
      FilterMapSelection(init, f);
      var idx0: seq<nat> :| IsSelection(init, f, FilterMap(init, f), idx0);
      var idx := SelectionStep(s, f, FilterMap(init, f), idx0);
    }
  }

  /** One more loop step keeps the selection property. */
  lemma SelectionStep<A, B>(s: seq<A>, f: A -> Option<B>, r: seq<B>, idx: seq<nat>) returns (idx': seq<nat>)
    requires s != [] && r == FilterMap(s[..|s| - 1], f)
    requires IsSelection(s[..|s| - 1], f, r, idx)
    ensures IsSelection(s, f, FilterMap(s, f), idx')
  {
    var n := |s| - 1;
    var init := s[..n];
    forall j | 0 <= j < n ensures init[j] == s[j] { }
    if f(s[n]).None? {
      idx' := idx;
      assert FilterMap(s, f) == r;
      forall j | 0 <= j < |s| && f(s[j]).Some? ensures j in idx {
        assert j < n && f(init[j]).Some?;
      }
    } else {
      idx' := idx + [n];
      var r' := r + [f(s[n]).value];
      assert FilterMap(s, f) == r';
      forall k | 0 <= k < |idx'| ensures idx'[k] < |s| && f(s[idx'[k]]) == Some(r'[k]) {
        if k < |idx| {
          assert idx'[k] == idx[k] && r'[k] == r[k] && idx[k] < n;
          assert f(init[idx[k]]) == Some(r[k]);
        }
      }
      forall k, l | 0 <= k < l < |idx'| ensures idx'[k] < idx'[l] {
        assert idx[k] < n;
        if l < |idx| {
          assert idx[k] < idx[l];
        }
      }
      forall j | 0 <= j < |s| && f(s[j]).Some? ensures j in idx' {
        if j < n {
          assert f(init[j]).Some? && j in idx;
        } else {
          assert idx'[|idx|] == j;
        }
      }
    }
  }

  /** Every element of the result is what `f` makes of some element of `s`. */
  lemma FilterMapKept<A, B>(s: seq<A>, f: A -> Option<B>, k: int)
    requires 0 <= k < |FilterMap(s, f)|
    ensures exists j :: 0 <= j < |s| && f(s[j]) == Some(FilterMap(s, f)[k])
  {
    FilterMapSelection(s, f);
    var idx: seq<nat> :| IsSelection(s, f, FilterMap(s, f), idx);
    assert f(s[idx[k]]) == Some(FilterMap(s, f)[k]);
  }

  /** The first element of a selection comes from the first position `f` keeps. */
  lemma SelectionHead<A, B>(s: seq<A>, f: A -> Option<B>, r: seq<B>, idx: seq<nat>)
    requires IsSelection(s, f, r, idx) && r != []
    ensures idx[0] < |s| && f(s[idx[0]]) == Some(r[0])
    ensures forall i :: 0 <= i < idx[0] ==> f(s[i]).None?
  {
    forall i | 0 <= i < idx[0] && f(s[i]).Some? ensures false {
    }
  }

  /** The result is empty exactly when `f` keeps nothing. */
  lemma FilterMapEmpty<A, B>(s: seq<A>, f: A -> Option<B>)
    ensures FilterMap(s, f) == [] <==> forall j :: 0 <= j < |s| ==> f(s[j]).None?
  {
    FilterMapSelection(s, f);
    var idx: seq<nat> :| IsSelection(s, f, FilterMap(s, f), idx);
    if FilterMap(s, f) != [] {
      assert f(s[idx[0]]).Some?;
    }
  }

  /** The dict built by `for x in s: if f(x) is (k, v): d[k] = v`. */
  function LastWins<A, K, V>(s: seq<A>, f: A -> Option<(K, V)>): map<K, V>
  {
    if s == [] then map[]
    else
      var init := LastWins(s[..|s| - 1], f);
      match f(s[|s| - 1])
      case None => init
      case Some(kv) => init[kv.0 := kv.1]
  }

  /** Position `j` of `s` yields an entry with key `k`. */
  ghost predicate HasEntry<A, K, V>(s: seq<A>, f: A -> Option<(K, V)>, j: int, k: K)
  {
    0 <= j < |s| && f(s[j]).Some? && f(s[j]).value.0 == k
  }

  /** Position `j` yields an entry and no later position yields one with the same key. */
  ghost predicate IsLastEntry<A, K, V>(s: seq<A>, f: A -> Option<(K, V)>, j: int)
  {
    && 0 <= j < |s| && f(s[j]).Some?
    && forall j' :: j < j' < |s| && f(s[j']).Some? ==> f(s[j']).value.0 != f(s[j]).value.0
  }

  /** A key is in the dict exactly when some element yields it. */
  lemma {:induction false} LastWinsKeys<A, K, V>(s: seq<A>, f: A -> Option<(K, V)>, k: K)
    ensures k in LastWins(s, f) <==> exists j :: HasEntry(s, f, j, k)
  {
    if s != [] {
      var init := s[..|s| - 1];
      LastWinsKeys(init, f, k);
      assert forall j :: HasEntry(init, f, j, k) ==> HasEntry(s, f, j, k);
      if k in LastWins(s, f) {
        if f(s[|s| - 1]).Some? && f(s[|s| - 1]).value.0 == k {
          assert HasEntry(s, f, |s| - 1, k);
        }
      } else {
        forall j | HasEntry(s, f, j, k) ensures false {
          if j < |init| {
            assert HasEntry(init, f, j, k);
          }
        }
      }
    }
  }

  /** The value stored under a key is the one its last element gave. */
  lemma {:induction false} LastWinsValue<A, K, V>(s: seq<A>, f: A -> Option<(K, V)>, j: int)
    requires IsLastEntry(s, f, j)
    ensures f(s[j]).value.0 in LastWins(s, f)
    ensures LastWins(s, f)[f(s[j]).value.0] == f(s[j]).value.1
  {
    if j < |s| - 1 {
      var init := s[..|s| - 1];
      assert init[j] == s[j];
      assert forall j' :: j < j' < |init| ==> init[j'] == s[j'];
      LastWinsValue(init, f, j);
    }
  }

  /** Every stored value was given, under its key, by some element. */
  lemma {:induction false} LastWinsValues<A, K, V>(s: seq<A>, f: A -> Option<(K, V)>, k: K)
    requires k in LastWins(s, f)
    ensures exists j :: HasEntry(s, f, j, k) && LastWins(s, f)[k] == f(s[j]).value.1
  {
    var n := |s| - 1;
    var init := s[..n];
    if f(s[n]).Some? && f(s[n]).value.0 == k {
      assert HasEntry(s, f, n, k);
    } else {
      LastWinsValues(init, f, k);
      var j :| HasEntry(init, f, j, k) && LastWins(init, f)[k] == f(init[j]).value.1;
      assert init[j] == s[j];
      assert HasEntry(s, f, j, k);
    }
  }
}
