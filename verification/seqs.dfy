/**
 * Searching sequences the way the site's code does: `Array.prototype.find` and a
 * document store's `findOne` return the FIRST element that matches, the store's
 * `find` returns every match in store order, and a `forEach` that keeps
 * overwriting one variable leaves the LAST match behind.
 */
module Seqs {

  datatype Option<T> = None | Some(value: T)

  /** Index of the first element satisfying `p`, or None when nothing does. */
  function First<T>(s: seq<T>, p: T -> bool): (r: Option<nat>)
    ensures r.Some? ==> r.value < |s| && p(s[r.value])
    ensures r.Some? ==> forall j :: 0 <= j < r.value ==> !p(s[j])
    ensures r.None? <==> forall j :: 0 <= j < |s| ==> !p(s[j])
  {
    if |s| == 0 then None
    else if p(s[0]) then Some(0)
    else match First(s[1..], p)
      case None => None
      case Some(k) => Some(k + 1)
  }

  /** Index of the last element satisfying `p`, or None when nothing does. */
  function Last<T>(s: seq<T>, p: T -> bool): (r: Option<nat>)
    ensures r.Some? ==> r.value < |s| && p(s[r.value])
    ensures r.Some? ==> forall j :: r.value < j < |s| ==> !p(s[j])
    ensures r.None? <==> forall j :: 0 <= j < |s| ==> !p(s[j])
  {
    if |s| == 0 then None
    else if p(s[|s| - 1]) then Some(|s| - 1)
    else Last(s[..|s| - 1], p)
  }

  /**
   * The elements satisfying `p`, in their order in `s`. `FilterCounts` fixes how
   * often each element occurs and `FilterConcat` fixes their order.
   */
  function Filter<T>(s: seq<T>, p: T -> bool): (r: seq<T>)
    ensures |r| <= |s|
    ensures forall i :: 0 <= i < |r| ==> p(r[i]) && r[i] in s
    ensures forall i :: 0 <= i < |s| && p(s[i]) ==> s[i] in r
  {
    if |s| == 0 then []
    else Filter(s[..|s| - 1], p) + (if p(s[|s| - 1]) then [s[|s| - 1]] else [])
  }

  /** `r` holds each element of `s` satisfying `p` as often as `s` does, and nothing outside `s`. */
  ghost predicate KeepsCounts<T>(s: seq<T>, r: seq<T>, p: T -> bool)
  {
    && multiset(r) <= multiset(s)
    && forall i :: 0 <= i < |s| && p(s[i]) ==> multiset(r)[s[i]] == multiset(s)[s[i]]
  }

  /** Each matching element occurs as often in the result as in `s`, and nothing else occurs. */
  lemma {:induction false} FilterCounts<T>(s: seq<T>, p: T -> bool)
    ensures multiset(Filter(s, p)) <= multiset(s)
    ensures forall i :: 0 <= i < |s| && p(s[i]) ==> multiset(Filter(s, p))[s[i]] == multiset(s)[s[i]]
  {
    if |s| > 0 {
      var init, x := s[..|s| - 1], s[|s| - 1];
      FilterCounts(init, p);
      assert s == init + [x];
      FilterSnoc(init, x, p);
      KeepsCountsSnoc(init, Filter(init, p), x, p);
    }
  }

  /** Appending `x` to the input, and to the result when it matches, keeps the counts. */
  lemma KeepsCountsSnoc<T>(s: seq<T>, r: seq<T>, x: T, p: T -> bool)
    requires KeepsCounts(s, r, p)
    ensures KeepsCounts(s + [x], r + (if p(x) then [x] else []), p)
  {
    var s', r' := s + [x], r + (if p(x) then [x] else []);
    assert multiset(s') == multiset(s) + multiset{x};
    assert multiset(r') == multiset(r) + multiset(if p(x) then [x] else []);
    forall i | 0 <= i < |s'| && p(s'[i])
      ensures multiset(r')[s'[i]] == multiset(s')[s'[i]]
    {
      if i < |s| {
        assert s'[i] == s[i];
      }
    }
  }

  /** Filtering distributes over concatenation, so the matches keep their order in `s`. */
  lemma {:induction false} FilterConcat<T>(a: seq<T>, b: seq<T>, p: T -> bool)
    ensures Filter(a + b, p) == Filter(a, p) + Filter(b, p)
  {
    if |b| == 0 {
      assert a + b == a;
    } else {
      var init, x := b[..|b| - 1], b[|b| - 1];
      FilterConcat(a, init, p);
      assert b == init + [x];
      assert a + b == (a + init) + [x];
      var tail := if p(x) then [x] else [];
      calc {
        Filter(a + b, p);
        { FilterSnoc(a + init, x, p); }
        Filter(a + init, p) + tail;
        Filter(a, p) + Filter(init, p) + tail;
        { FilterSnoc(init, x, p); }
        Filter(a, p) + Filter(b, p);
      }
    }
  }

  lemma FilterSnoc<T>(s: seq<T>, x: T, p: T -> bool)
    ensures Filter(s + [x], p) == Filter(s, p) + (if p(x) then [x] else [])
  {
    assert (s + [x])[..|s|] == s;
  }

  /** Appending an element never changes an existing first match. */
  lemma FirstAppend<T>(s: seq<T>, x: T, p: T -> bool)
    ensures First(s + [x], p) ==
              if First(s, p).Some? then First(s, p)
              else if p(x) then Some(|s|)
              else None
  {
    var t := s + [x];
    assert forall j :: 0 <= j < |s| ==> t[j] == s[j];
    assert t[|s|] == x;
  }

  /** The last element of the filtered sequence is the element at the last match. */
  lemma {:induction false} FilterLast<T>(s: seq<T>, p: T -> bool)
    ensures |Filter(s, p)| > 0 <==> Last(s, p).Some?
    ensures Last(s, p).Some? ==> Filter(s, p)[|Filter(s, p)| - 1] == s[Last(s, p).value]
  {
    if |s| > 0 && !p(s[|s| - 1]) {
      var init := s[..|s| - 1];
      FilterLast(init, p);
      assert Filter(s, p) == Filter(init, p) + [];
      if Last(init, p).Some? {
        assert init[Last(init, p).value] == s[Last(init, p).value];
      }
    }
  }
}
