/** The integer encoding of a sparse index: the logical length of an array
    and the strictly increasing positions that hold explicit values. */
module SparseIndex {
  import opened Elements

  predicate StrictlyIncreasing(s: seq<nat>) {
    forall i, j :: 0 <= i < j < |s| ==> s[i] < s[j]
  }

  datatype IntIndex = IntIndex(length: nat, indices: seq<nat>) {
    /** Positions are sorted, distinct and inside the array. */
    predicate Valid() {
      StrictlyIncreasing(indices) &&
      forall k :: 0 <= k < |indices| ==> indices[k] < length
    }
  }

  /** Binary search for `pos` among s[lo..hi]. */
  function Search(s: seq<nat>, pos: nat, lo: nat, hi: nat): (r: Option<nat>)
    requires StrictlyIncreasing(s) && lo <= hi <= |s|
    ensures r.Some? ==> lo <= r.value < hi && s[r.value] == pos
    ensures r.None? ==> forall k :: lo <= k < hi ==> s[k] != pos
    decreases hi - lo
  {
    if lo == hi then None
    else
      var mid := (lo + hi) / 2;
      if s[mid] == pos then Some(mid)
      else if s[mid] < pos then Search(s, pos, mid + 1, hi)
      else Search(s, pos, lo, mid)
  }

  /** The compact-buffer offset of a logical position, or None when the
      position is not explicitly stored. */
  function Lookup(ix: IntIndex, pos: nat): (r: Option<nat>)
    requires ix.Valid()
    ensures r.Some? ==> r.value < |ix.indices| && ix.indices[r.value] == pos
    ensures r.None? <==> pos !in ix.indices
  {
    Search(ix.indices, pos, 0, |ix.indices|)
  }

  lemma ConsIncreasing(h: nat, t: seq<nat>)
    requires StrictlyIncreasing(t)
    requires forall y :: y in t ==> h < y
    ensures StrictlyIncreasing([h] + t)
  {
    forall i, j | 0 <= i < j < |[h] + t| ensures ([h] + t)[i] < ([h] + t)[j] {
      if i > 0 {
        assert ([h] + t)[i] == t[i - 1] && ([h] + t)[j] == t[j - 1];
      } else {
        assert ([h] + t)[j] == t[j - 1] && t[j - 1] in t;
      }
    }
  }

  lemma HeadBelowTail(s: seq<nat>)
    requires StrictlyIncreasing(s) && |s| > 0
    ensures StrictlyIncreasing(s[1..])
    ensures forall y :: y in s[1..] ==> s[0] < y
  {
    forall y | y in s[1..] ensures s[0] < y {
      var k :| 0 <= k < |s[1..]| && s[1..][k] == y;
      assert s[k + 1] == y;
    }
  }

  /** The sorted union of two sorted position lists: the positions occupied
      in either input, each once. */
  function Merge(a: seq<nat>, b: seq<nat>): (r: seq<nat>)
    requires StrictlyIncreasing(a) && StrictlyIncreasing(b)
    ensures StrictlyIncreasing(r)
    ensures forall x :: x in r <==> x in a || x in b
    decreases |a| + |b|
  {
    if a == [] then b
    else if b == [] then a
    else
      HeadBelowTail(a);
      HeadBelowTail(b);
      if a[0] < b[0] then
        var t := Merge(a[1..], b);
        assert forall y :: y in b ==> a[0] < y by {
          forall y | y in b ensures a[0] < y {
            assert y == b[0] || y in b[1..];
          }
        }
        assert a == [a[0]] + a[1..];
        ConsIncreasing(a[0], t);
        [a[0]] + t
      else if b[0] < a[0] then
        var t := Merge(a, b[1..]);
        assert forall y :: y in a ==> b[0] < y by {
          forall y | y in a ensures b[0] < y {
            assert y == a[0] || y in a[1..];
          }
        }
        assert b == [b[0]] + b[1..];
        ConsIncreasing(b[0], t);
        [b[0]] + t
      else
        var t := Merge(a[1..], b[1..]);
        assert a == [a[0]] + a[1..] && b == [b[0]] + b[1..];
        ConsIncreasing(a[0], t);
        [a[0]] + t
  }

  /** The index of the positions stored in either of two indices of one length. */
  function Union(ix: IntIndex, other: IntIndex): (u: IntIndex)
    requires ix.Valid() && other.Valid() && ix.length == other.length
    ensures u.Valid() && u.length == ix.length
    ensures forall p :: p in u.indices <==> p in ix.indices || p in other.indices
  {
    var m := Merge(ix.indices, other.indices);
    assert forall k :: 0 <= k < |m| ==> m[k] < ix.length by {
      forall k | 0 <= k < |m| ensures m[k] < ix.length {
        assert m[k] in m;
      }
    }
    IntIndex(ix.length, m)
  }

  /** The first element of a non-empty list is one of its members. */
  lemma HeadIsMember(s: seq<nat>)
    ensures |s| > 0 ==> s[0] in s
  {
  }

  /** Two sorted lists with the same members are the same list. */
  lemma {:induction false} IncreasingDeterminedByMembers(a: seq<nat>, b: seq<nat>)
    requires StrictlyIncreasing(a) && StrictlyIncreasing(b)
    requires forall x :: x in a <==> x in b
    ensures a == b
    decreases |a|
  {
    if a == [] {
      HeadIsMember(b);
    } else {
      assert a[0] in a;
      assert b != [];
      assert b[0] in b;
      var i :| 0 <= i < |b| && b[i] == a[0];
      var j :| 0 <= j < |a| && a[j] == b[0];
      assert a[0] <= a[j] && b[0] <= b[i];
      HeadBelowTail(a);
      HeadBelowTail(b);
      forall x ensures x in a[1..] <==> x in b[1..] {
        assert a == [a[0]] + a[1..] && b == [b[0]] + b[1..];
        assert x in a <==> x == a[0] || x in a[1..];
        assert x in b <==> x == b[0] || x in b[1..];
        if x in a[1..] {
          assert a[0] < x;
        }
        if x in b[1..] {
          assert b[0] < x;
        }
      }
      IncreasingDeterminedByMembers(a[1..], b[1..]);
      assert a == [a[0]] + a[1..] && b == [b[0]] + b[1..];
    }
  }

  /** How many of the sorted positions lie strictly below `bound`: the
      compact-buffer offset where a slice starting at `bound` begins. */
  function CountBelow(s: seq<nat>, bound: nat): (k: nat)
    requires StrictlyIncreasing(s)
    ensures k <= |s|
    ensures forall j :: 0 <= j < k ==> s[j] < bound
    ensures forall j :: k <= j < |s| ==> bound <= s[j]
  {
    if s == [] || bound <= s[0] then 0
    else
      HeadBelowTail(s);
      1 + CountBelow(s[1..], bound)
  }

  /** The positions of `ix` inside [lo, hi), renumbered to start at 0, and
      the contiguous range [first, last) of the original compact buffer that
      holds their values. */
  datatype SlicedIndex = SlicedIndex(index: IntIndex, first: nat, last: nat)

  function SliceIndex(ix: IntIndex, lo: nat, hi: nat): (r: SlicedIndex)
    requires ix.Valid() && lo <= hi <= ix.length
    ensures r.index.Valid() && r.index.length == hi - lo
    ensures r.first <= r.last <= |ix.indices|
    ensures |r.index.indices| == r.last - r.first
    ensures forall j :: 0 <= j < |r.index.indices| ==> r.index.indices[j] + lo == ix.indices[r.first + j]
    ensures forall p :: 0 <= p < hi - lo ==> (p in r.index.indices <==> p + lo in ix.indices)
  {
    var first := CountBelow(ix.indices, lo);
    var last := CountBelow(ix.indices, hi);
    assert first <= last by {
      if first > 0 {
        assert ix.indices[first - 1] < hi;
      }
    }
    var shifted := seq(last - first, j requires 0 <= j < last - first => ix.indices[first + j] - lo);
    ShiftedWindow(ix, lo, hi, first, last, shifted);
    SlicedIndex(IntIndex(hi - lo, shifted), first, last)
  }

  lemma ShiftedWindow(ix: IntIndex, lo: nat, hi: nat, first: nat, last: nat, shifted: seq<nat>)
    requires ix.Valid() && lo <= hi <= ix.length
    requires first <= last <= |ix.indices|
    requires forall j :: 0 <= j < first ==> ix.indices[j] < lo
    requires forall j :: first <= j < |ix.indices| ==> lo <= ix.indices[j]
    requires forall j :: 0 <= j < last ==> ix.indices[j] < hi
    requires forall j :: last <= j < |ix.indices| ==> hi <= ix.indices[j]
    requires |shifted| == last - first
    requires forall j :: 0 <= j < |shifted| ==> shifted[j] + lo == ix.indices[first + j]
    ensures IntIndex(hi - lo, shifted).Valid()
    ensures forall p :: 0 <= p < hi - lo ==> (p in shifted <==> p + lo in ix.indices)
  {
    forall i, j | 0 <= i < j < |shifted| ensures shifted[i] < shifted[j] {
      assert ix.indices[first + i] < ix.indices[first + j];
    }
    forall k | 0 <= k < |shifted| ensures shifted[k] < hi - lo {
      assert ix.indices[first + k] < hi;
    }
    forall p | 0 <= p < hi - lo ensures p in shifted <==> p + lo in ix.indices {
      if p + lo in ix.indices {
        var k :| 0 <= k < |ix.indices| && ix.indices[k] == p + lo;
        assert first <= k < last;
        assert shifted[k - first] == p;
      }
    }
  }
}
