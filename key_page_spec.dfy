/** Value-level specifications of the key page's search and delete: the binary search
    over the keys a page would load, and the left shift delete applies to each of its
    parallel arrays. The page's methods are proved against these functions. */
module KeyPageSpec {
  import opened Common

  /** TreeSearchResult: a slot index and whether the key there equals the target. */
  datatype SearchResult = SearchResult(index: int, atKey: bool)

  /** How the search loop ends: at an equal key, or with leftIndex past rightIndex,
      remembering leftIndex and the last probed middleIndex. */
  datatype Exit = Hit(at: int) | Miss(left: int, middle: int)

  /** A key as getKey delivers it: a stored key, null (`Ok(None)`), or a load failure. */
  type KeyLoad = Result<Option<int>>

  predicate AllPresent(ks: seq<KeyLoad>)
  {
    forall i :: 0 <= i < |ks| ==> ks[i].Ok? && ks[i].value.Some?
  }

  function KeyAt(ks: seq<KeyLoad>, i: int): int
    requires AllPresent(ks) && 0 <= i < |ks|
  {
    ks[i].value.value
  }

  /** The keys are all present and in non-decreasing order. */
  predicate Sorted(ks: seq<KeyLoad>)
  {
    AllPresent(ks) && forall i, j :: 0 <= i < j < |ks| ==> KeyAt(ks, i) <= KeyAt(ks, j)
  }

  /** The while loop of search from the state (left, right, middle): probe the middle
      key, compare it with the target, and narrow the range. A null key raises a
      NullPointerException in compareTo; a failed load propagates. */
  function Probe(ks: seq<KeyLoad>, t: int, left: int, right: int, middle: int): Result<Exit>
    requires 0 <= left <= right + 1 <= |ks|
    decreases right - left + 1
  {
    if left > right then Ok(Miss(left, middle))
    else
      var m := left + (right - left) / 2;
      match ks[m]
      case Err(f) => Err(f)
      case Ok(None) => Err(NullReference)
      case Ok(Some(k)) =>
        if k < t then Probe(ks, t, m + 1, right, m)
        else if k > t then Probe(ks, t, left, m - 1, m)
        else Ok(Hit(m))
  }

  /** One turn of the loop: the probe at the middle of a non-empty range decides the
      outcome from that key alone, or hands on to the narrowed range. */
  lemma ProbeStep(ks: seq<KeyLoad>, t: int, left: int, right: int, middle: int, m: int)
    requires 0 <= left <= right < |ks| && m == left + (right - left) / 2
    ensures ks[m].Err? ==> Probe(ks, t, left, right, middle) == Err(ks[m].fault)
    ensures ks[m] == Ok(None) ==> Probe(ks, t, left, right, middle) == Err(NullReference)
    ensures ks[m].Ok? && ks[m].value.Some? && ks[m].value.value < t ==>
      Probe(ks, t, left, right, middle) == Probe(ks, t, m + 1, right, m)
    ensures ks[m].Ok? && ks[m].value.Some? && ks[m].value.value > t ==>
      Probe(ks, t, left, right, middle) == Probe(ks, t, left, m - 1, m)
    ensures ks[m] == Ok(Some(t)) ==> Probe(ks, t, left, right, middle) == Ok(Hit(m))
  {
  }

  /** search as written: with no keys (0, false); otherwise the loop from (0, n-1, 1),
      returning the last probed index when the target is not found. */
  function SearchAsWritten(ks: seq<KeyLoad>, t: int): Result<SearchResult>
  {
    if |ks| == 0 then Ok(SearchResult(0, false))
    else match Probe(ks, t, 0, |ks| - 1, 1)
      case Err(f) => Err(f)
      case Ok(Hit(m)) => Ok(SearchResult(m, true))
      case Ok(Miss(l, m)) => Ok(SearchResult(m, false))
  }

  /** search as documented: the same loop, returning the insertion point leftIndex when
      the target is not found. */
  function Search(ks: seq<KeyLoad>, t: int): Result<SearchResult>
  {
    if |ks| == 0 then Ok(SearchResult(0, false))
    else match Probe(ks, t, 0, |ks| - 1, 1)
      case Err(f) => Err(f)
      case Ok(Hit(m)) => Ok(SearchResult(m, true))
      case Ok(Miss(l, m)) => Ok(SearchResult(l, false))
  }

  /** A hit is at an equal key inside the range; a failure comes from a key in the range
      that is null or could not be loaded. */
  lemma {:induction false} ProbeOutcome(ks: seq<KeyLoad>, t: int, left: int, right: int, middle: int)
    requires 0 <= left <= right + 1 <= |ks|
    ensures var r := Probe(ks, t, left, right, middle);
      (r.Ok? && r.value.Hit? ==> left <= r.value.at <= right && ks[r.value.at] == Ok(Some(t)))
      && (r.Err? ==> exists k :: left <= k <= right && !(ks[k].Ok? && ks[k].value.Some?))
    decreases right - left + 1
  {
    if left <= right {
      var m := left + (right - left) / 2;
      if ks[m].Ok? && ks[m].value.Some? {
        var k := ks[m].value.value;
        if k < t {
          ProbeOutcome(ks, t, m + 1, right, m);
        } else if k > t {
          ProbeOutcome(ks, t, left, m - 1, m);
        }
      }
    }
  }

  /** On sorted keys, given that everything left of the range is below the target and
      everything right of it above, the loop succeeds; a miss leaves leftIndex at the
      insertion point, and the last probe is that point or the slot just before it. */
  lemma {:induction false} ProbeSorted(ks: seq<KeyLoad>, t: int, left: int, right: int, middle: int)
    requires Sorted(ks) && 0 <= left <= right + 1 <= |ks|
    requires forall k :: 0 <= k < left ==> KeyAt(ks, k) < t
    requires forall k :: right < k < |ks| ==> t < KeyAt(ks, k)
    requires left > right ==> (middle == left || middle == left - 1) && 0 <= middle < |ks|
    ensures var r := Probe(ks, t, left, right, middle);
      r.Ok? &&
      (r.value.Miss? ==>
        && 0 <= r.value.left <= |ks|
        && (forall k :: 0 <= k < r.value.left ==> KeyAt(ks, k) < t)
        && (forall k :: r.value.left <= k < |ks| ==> t < KeyAt(ks, k))
        && (r.value.middle == r.value.left || r.value.middle == r.value.left - 1)
        && 0 <= r.value.middle < |ks|)
    decreases right - left + 1
  {
    if left <= right {
      var m := left + (right - left) / 2;
      var k := KeyAt(ks, m);
      if k < t {
        forall j | 0 <= j < m + 1 ensures KeyAt(ks, j) < t {
          assert j == m || KeyAt(ks, j) <= KeyAt(ks, m);
        }
        ProbeSorted(ks, t, m + 1, right, m);
      } else if k > t {
        forall j | m - 1 < j < |ks| ensures t < KeyAt(ks, j) {
          assert j == m || KeyAt(ks, m) <= KeyAt(ks, j);
        }
        ProbeSorted(ks, t, left, m - 1, m);
      }
    }
  }

  /** search as documented, on sorted keys: it finds the target exactly when some key
      equals it, and otherwise returns the insertion point, with every key before it
      below the target and every key from it on above. */
  lemma SearchSorted(ks: seq<KeyLoad>, t: int)
    requires Sorted(ks)
    ensures Search(ks, t).Ok?
    ensures var r := Search(ks, t).value;
      && 0 <= r.index <= |ks|
      && (r.atKey ==> r.index < |ks| && KeyAt(ks, r.index) == t)
      && (!r.atKey ==> (forall k :: 0 <= k < r.index ==> KeyAt(ks, k) < t)
                       && (forall k :: r.index <= k < |ks| ==> t < KeyAt(ks, k)))
    ensures Search(ks, t).value.atKey <==> exists k :: 0 <= k < |ks| && KeyAt(ks, k) == t
  {
    if |ks| > 0 {
      ProbeSorted(ks, t, 0, |ks| - 1, 1);
      ProbeOutcome(ks, t, 0, |ks| - 1, 1);
      var r := Search(ks, t).value;
      if !r.atKey {
        forall k | 0 <= k < |ks| ensures KeyAt(ks, k) != t {
          if k < r.index {
            assert KeyAt(ks, k) < t;
          } else {
            assert t < KeyAt(ks, k);
          }
        }
      }
    }
  }

  /** Whatever the keys, a found index holds a key equal to the target. */
  lemma SearchFound(ks: seq<KeyLoad>, t: int)
    ensures var r := Search(ks, t);
      r.Ok? && r.value.atKey ==> 0 <= r.value.index < |ks| && ks[r.value.index] == Ok(Some(t))
    ensures var r := SearchAsWritten(ks, t);
      r.Ok? && r.value.atKey ==> 0 <= r.value.index < |ks| && ks[r.value.index] == Ok(Some(t))
  {
    if |ks| > 0 {
      ProbeOutcome(ks, t, 0, |ks| - 1, 1);
    }
  }

  /** search as written, on sorted keys: it agrees with the documented search on whether
      the key is present and where it is, and on a miss returns a slot within the keys
      that is the insertion point or the slot just before it. */
  lemma AsWrittenNearInsertionPoint(ks: seq<KeyLoad>, t: int)
    requires Sorted(ks) && |ks| > 0
    ensures SearchAsWritten(ks, t).Ok? && Search(ks, t).Ok?
    ensures var w := SearchAsWritten(ks, t).value; var c := Search(ks, t).value;
      && w.atKey == c.atKey
      && (w.atKey ==> w.index == c.index)
      && (!w.atKey ==> 0 <= w.index < |ks|
                       && (w.index == c.index || w.index == c.index - 1)
                       && (w.index == c.index - 1 ==> KeyAt(ks, w.index) < t)
                       && (w.index == c.index ==> t < KeyAt(ks, w.index)))
  {
    ProbeSorted(ks, t, 0, |ks| - 1, 1);
    SearchSorted(ks, t);
  }

  /** The documented promise fails for the code as written: one key 10 and target 20
      give slot 0, whose key lies left of the target, while the insertion point is 1. */
  lemma AsWrittenLeftOfTarget()
    ensures SearchAsWritten([Ok(Some(10))], 20) == Ok(SearchResult(0, false))
    ensures Search([Ok(Some(10))], 20) == Ok(SearchResult(1, false))
  {
    assert Probe([Ok(Some(10))], 20, 1, 0, 0) == Ok(Miss(1, 0));
  }

  // ---------------------------------------------------------------------------
  // delete: the left shift applied to every parallel array

  /** One array after delete(index) on a page of n keys, for an array whose slot n-1
      is the last live one: slots index .. n-2 take their right neighbour, slot n-1 is
      cleared to fill, and every other slot is kept. The child arrays use index+1 and
      n+1, since child index+1 is the one removed. */
  function ShiftOut<T>(s: seq<T>, index: int, n: int, fill: T): (r: seq<T>)
    requires 0 <= index && 1 <= n <= |s|
    ensures |r| == |s|
  {
    seq(|s|, k requires 0 <= k < |s| => if k == n - 1 then fill else if index <= k < n - 1 then s[k + 1] else s[k])
  }

  /** The shape delete builds in two steps: slots index .. i-1 take their right
      neighbour (with i at least n-1 whenever index is left of it), then slot n-1 is
      set to fill. */
  lemma SlideThenClear<T>(s: seq<T>, mid: seq<T>, index: int, i: int, n: int, fill: T)
    requires |mid| == |s| && 0 <= index && 1 <= n <= |s| && 0 <= i <= n && i < |s|
    requires index < n - 1 ==> n - 1 <= i
    requires forall k {:trigger mid[k]} :: 0 <= k < |s| ==> mid[k] == if index <= k < i then s[k + 1] else s[k]
    ensures mid[n - 1 := fill] == ShiftOut(s, index, n, fill)
  {
    var r := ShiftOut(s, index, n, fill);
    forall k | 0 <= k < |s| ensures mid[n - 1 := fill][k] == r[k] {
      if k == n - 1 {
      } else if index <= k < n - 1 {
        assert mid[k] == s[k + 1];
      } else {
        assert mid[k] == s[k];
      }
    }
  }

  /** Deleting slot index of n: the live slots are the old ones without slot index, the
      freed slot n-1 holds fill, and the slots past the old live ones are untouched. */
  lemma ShiftOutRemoves<T>(s: seq<T>, index: int, n: int, fill: T)
    requires 0 <= index < n <= |s|
    ensures ShiftOut(s, index, n, fill)[..n - 1] == s[..index] + s[index + 1..n]
    ensures ShiftOut(s, index, n, fill)[n - 1] == fill
    ensures ShiftOut(s, index, n, fill)[n..] == s[n..]
  {
    var r := ShiftOut(s, index, n, fill);
    var w := s[..index] + s[index + 1..n];
    assert |r[..n - 1]| == |w|;
    forall k | 0 <= k < n - 1 ensures r[..n - 1][k] == w[k] {
      if k < index {
        assert w[k] == s[k];
      } else {
        assert w[k] == s[index + 1..n][k - index];
      }
    }
  }

  /** An index at or beyond the last live slot only clears that slot. */
  lemma ShiftOutLast<T>(s: seq<T>, index: int, n: int, fill: T)
    requires 1 <= n <= |s| && n - 1 <= index
    ensures ShiftOut(s, index, n, fill) == s[n - 1 := fill]
  {
  }

  /** Deleting a key keeps the live keys sorted. */
  lemma ShiftOutKeepsSorted(ks: seq<KeyLoad>, index: int, n: int, fill: KeyLoad)
    requires 0 <= index < n <= |ks| && Sorted(ks[..n])
    ensures Sorted(ShiftOut(ks, index, n, fill)[..n - 1])
  {
    ShiftOutRemoves(ks, index, n, fill);
    var live := ShiftOut(ks, index, n, fill)[..n - 1];
    forall i | 0 <= i < |live| ensures live[i] == ks[..n][if i < index then i else i + 1] {
    }
    forall i, j | 0 <= i < j < |live| ensures KeyAt(live, i) <= KeyAt(live, j) {
      var i' := if i < index then i else i + 1;
      var j' := if j < index then j else j + 1;
      assert KeyAt(ks[..n], i') <= KeyAt(ks[..n], j');
    }
  }
}
