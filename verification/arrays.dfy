/**
 * The two array primitives the component applies to its file list, as
 * functions on sequences: filtering out one position (`filter` with an
 * index test) and mapping with a callback that may throw (`map`, where the
 * first exception aborts the whole call).
 */
module Arrays {
  import opened Base

  /**
   * Keeping every element whose position differs from `index`. Inside the
   * range this deletes exactly that one element and keeps the rest in order;
   * outside it, nothing is deleted.
   */
  function RemoveAt<T>(xs: seq<T>, index: int): (r: seq<T>)
    ensures 0 <= index < |xs| ==> r == xs[..index] + xs[index + 1..]
    ensures !(0 <= index < |xs|) ==> r == xs
    decreases |xs|
  {
    if |xs| == 0 then []
    else
      var rest := RemoveAt(xs[1..], index - 1);
      assert xs == [xs[0]] + xs[1..];
      if index == 0 then rest else [xs[0]] + rest
  }

  /**
   * Deleting position `index` of a list of length n yields n - 1 entries:
   * those before `index` stay where they were and each later one moves down
   * by one place.
   */
  lemma RemoveAtShifts<T>(xs: seq<T>, index: int)
    requires 0 <= index < |xs|
    ensures |RemoveAt(xs, index)| == |xs| - 1
    ensures forall j :: 0 <= j < index ==> RemoveAt(xs, index)[j] == xs[j]
    ensures forall j :: index <= j < |xs| - 1 ==> RemoveAt(xs, index)[j] == xs[j + 1]
  {
    var r := RemoveAt(xs, index);
    forall j | index <= j < |xs| - 1 ensures r[j] == xs[j + 1] {
      assert r[j] == xs[index + 1..][j - index];
    }
  }

  /** Deleting an in-range position removes exactly that one element from the multiset. */
  lemma RemoveAtMultiset<T>(xs: seq<T>, index: int)
    requires 0 <= index < |xs|
    ensures multiset(RemoveAt(xs, index)) + multiset{xs[index]} == multiset(xs)
  {
    MultisetOfRemoval(xs, index, RemoveAt(xs, index));
  }

  /** A list with position `index` cut out holds one copy of `xs[index]` fewer than `xs`. */
  lemma MultisetOfRemoval<T>(xs: seq<T>, index: int, r: seq<T>)
    requires 0 <= index < |xs| && r == xs[..index] + xs[index + 1..]
    ensures multiset(r) + multiset{xs[index]} == multiset(xs)
  {
    var before, x, after := xs[..index], xs[index], xs[index + 1..];
    assert xs == before + [x] + after;
    MultisetOfSplice(before, x, after);
  }

  /** Splicing an element between two lists adds exactly that element to the multiset. */
  lemma MultisetOfSplice<T>(before: seq<T>, x: T, after: seq<T>)
    ensures multiset(before + after) + multiset{x} == multiset(before + [x] + after)
  {
    assert multiset(before + [x] + after) == multiset(before) + multiset([x]) + multiset(after);
  }

  /**
   * Mapping a callback over a list, first element first. Either every call
   * succeeds and the results come back one per element, in order, or the
   * first failing call's error aborts the whole map and no partial list is
   * produced.
   */
  function MapOrAbort<A, B, E>(xs: seq<A>, f: A -> Result<B, E>): (r: Result<seq<B>, E>)
    ensures r.Success? <==> forall i :: 0 <= i < |xs| ==> f(xs[i]).Success?
    ensures r.Success? ==> |r.value| == |xs| && forall i :: 0 <= i < |xs| ==> f(xs[i]) == Success(r.value[i])
    ensures r.Failure? ==>
              exists i :: 0 <= i < |xs| && f(xs[i]) == Failure(r.error)
                          && forall j :: 0 <= j < i ==> f(xs[j]).Success?
    decreases |xs|
  {
    if |xs| == 0 then Success([])
    else
      match f(xs[0])
      case Failure(e) => Failure(e)
      case Success(first) =>
        var rest := MapOrAbort(xs[1..], f);
        assert forall i :: 1 <= i < |xs| ==> xs[1..][i - 1] == xs[i];
        match rest
        case Failure(e) =>
          assert exists i :: 0 <= i < |xs| && f(xs[i]) == Failure(e)
                             && forall j :: 0 <= j < i ==> f(xs[j]).Success? by {
            var k :| 0 <= k < |xs| - 1 && f(xs[1..][k]) == Failure(e)
                     && forall j :: 0 <= j < k ==> f(xs[1..][j]).Success?;
            assert f(xs[k + 1]) == Failure(e);
          }
          Failure(e)
        case Success(tail) =>
          Success([first] + tail)
  }

  /**
   * Mapping a concatenation succeeds exactly when both parts do, and then
   * gives the concatenation of their results: each element is mapped on its
   * own, independent of its neighbours.
   */
  lemma MapOrAbortAppend<A, B, E>(a: seq<A>, b: seq<A>, f: A -> Result<B, E>)
    ensures MapOrAbort(a + b, f).Success? <==> MapOrAbort(a, f).Success? && MapOrAbort(b, f).Success?
    ensures MapOrAbort(a + b, f).Success? ==>
              MapOrAbort(a + b, f).value == MapOrAbort(a, f).value + MapOrAbort(b, f).value
  {
    var ab, ra, rb := MapOrAbort(a + b, f), MapOrAbort(a, f), MapOrAbort(b, f);
    if ab.Success? {
      forall i | 0 <= i < |a| ensures f(a[i]).Success? {
        assert (a + b)[i] == a[i];
      }
      forall i | 0 <= i < |b| ensures f(b[i]).Success? {
        assert (a + b)[|a| + i] == b[i];
      }
      var v := ra.value + rb.value;
      forall i | 0 <= i < |a + b| ensures ab.value[i] == v[i] {
        if i < |a| {
          assert (a + b)[i] == a[i];
        } else {
          assert (a + b)[i] == b[i - |a|];
        }
      }
    } else if ra.Success? && rb.Success? {
      forall i | 0 <= i < |a + b| ensures f((a + b)[i]).Success? {
        if i < |a| {
          assert (a + b)[i] == a[i];
        } else {
          assert (a + b)[i] == b[i - |a|];
        }
      }
    }
  }

  /** Mapping a slice of a list gives the same slice of the list's results. */
  lemma MapOrAbortSlice<A, B, E>(xs: seq<A>, lo: int, hi: int, f: A -> Result<B, E>)
    requires 0 <= lo <= hi <= |xs|
    requires MapOrAbort(xs, f).Success?
    ensures MapOrAbort(xs[lo..hi], f) == Success(MapOrAbort(xs, f).value[lo..hi])
  {
    var ys := MapOrAbort(xs, f).value;
    forall i | 0 <= i < hi - lo ensures f(xs[lo..hi][i]) == Success(ys[lo + i]) {
      assert xs[lo..hi][i] == xs[lo + i];
    }
    var r := MapOrAbort(xs[lo..hi], f);
    forall i | 0 <= i < hi - lo ensures r.value[i] == ys[lo..hi][i] {
      assert f(xs[lo..hi][i]) == Success(r.value[i]);
    }
    assert r.value == ys[lo..hi];
  }

  /**
   * Deleting a position and then mapping gives the full map's results with
   * that one position deleted.
   */
  lemma MapOrAbortRemoveAt<A, B, E>(xs: seq<A>, index: int, f: A -> Result<B, E>)
    requires MapOrAbort(xs, f).Success?
    ensures MapOrAbort(RemoveAt(xs, index), f) == Success(RemoveAt(MapOrAbort(xs, f).value, index))
  {
    if 0 <= index < |xs| {
      var ys := MapOrAbort(xs, f).value;
      var before, after := xs[..index], xs[index + 1..];
      assert MapOrAbort(before, f) == Success(ys[..index]) by {
        MapOrAbortSlice(xs, 0, index, f);
        assert xs[0..index] == before && ys[0..index] == ys[..index];
      }
      assert MapOrAbort(after, f) == Success(ys[index + 1..]) by {
        MapOrAbortSlice(xs, index + 1, |xs|, f);
        assert xs[index + 1..|xs|] == after && ys[index + 1..|ys|] == ys[index + 1..];
      }
      MapOrAbortAppend(before, after, f);
    }
  }
}
