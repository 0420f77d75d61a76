/** Masks of per-row flags: the selection set of the result screens.
    Select is rejectUnselectedRows, CountTrue is num*SelectedEntries and
    Toggle flips one flag. */
module Seqs {

  /** The elements of s whose flag in mask is set, in their original order. */
  function Select<T>(s: seq<T>, mask: seq<bool>): seq<T>
    requires |mask| >= |s|
    decreases |s|
  {
    if s == [] then []
    else Select(s[..|s| - 1], mask) + (if mask[|s| - 1] then [s[|s| - 1]] else [])
  }

  /** The number of set flags. */
  function CountTrue(mask: seq<bool>): nat
    decreases |mask|
  {
    if mask == [] then 0
    else CountTrue(mask[..|mask| - 1]) + (if mask[|mask| - 1] then 1 else 0)
  }

  function AllFalse(n: nat): (r: seq<bool>)
    ensures |r| == n && forall i :: 0 <= i < n ==> !r[i]
  {
    seq(n, _ => false)
  }

  /** Flip the flag at index i and leave every other flag as it was. */
  function Toggle(mask: seq<bool>, i: nat): (r: seq<bool>)
    requires i < |mask|
    ensures |r| == |mask| && r[i] == !mask[i]
    ensures forall j :: 0 <= j < |mask| && j != i ==> r[j] == mask[j]
  {
    mask[i := !mask[i]]
  }

  function Zip<A, B>(a: seq<A>, b: seq<B>): (r: seq<(A, B)>)
    requires |a| == |b|
    ensures |r| == |a| && forall i :: 0 <= i < |a| ==> r[i] == (a[i], b[i])
  {
    seq(|a|, i requires 0 <= i < |a| => (a[i], b[i]))
  }

  /** Select keeps exactly as many elements as there are set flags. */
  lemma {:induction false} SelectLength<T>(s: seq<T>, mask: seq<bool>)
    requires |mask| >= |s|
    ensures |Select(s, mask)| == CountTrue(mask[..|s|])
    decreases |s|
  {
    if s != [] {
      SelectLength(s[..|s| - 1], mask);
      assert mask[..|s|][..|s| - 1] == mask[..|s| - 1];
    }
  }

  /** Every kept element sits at a selected index, and every selected
      element is kept. */
  lemma {:induction false} SelectMembers<T>(s: seq<T>, mask: seq<bool>, x: T)
    requires |mask| >= |s|
    ensures x in Select(s, mask) <==> exists i :: 0 <= i < |s| && mask[i] && s[i] == x
    decreases |s|
  {
    if s != [] {
      var n := |s| - 1;
      SelectMembers(s[..n], mask, x);
      if x in Select(s, mask) && !(x in Select(s[..n], mask)) {
        assert mask[n] && s[n] == x;
      }
      if exists i :: 0 <= i < |s| && mask[i] && s[i] == x {
        var i :| 0 <= i < |s| && mask[i] && s[i] == x;
        if i < n {
          assert s[..n][i] == x;
        }
      }
    }
  }

  /** Filtering two aligned lists by one mask keeps them aligned: the k-th
      survivor of each comes from the same row. */
  lemma {:induction false} SelectZip<A, B>(a: seq<A>, b: seq<B>, mask: seq<bool>)
    requires |a| == |b| && |mask| >= |a|
    ensures |Select(a, mask)| == |Select(b, mask)|
    ensures Select(Zip(a, b), mask) == Zip(Select(a, mask), Select(b, mask))
    decreases |a|
  {
    SelectLength(a, mask);
    SelectLength(b, mask);
    if a != [] {
      var n := |a| - 1;
      SelectZip(a[..n], b[..n], mask);
      assert Zip(a, b)[..n] == Zip(a[..n], b[..n]);
    }
  }

  /** The k-th survivors of two aligned lists filtered by one mask come
      from the same selected index r. */
  lemma SelectPairs<A, B>(a: seq<A>, b: seq<B>, mask: seq<bool>, k: nat) returns (r: nat)
    requires |a| == |b| && |mask| >= |a| && k < |Select(a, mask)|
    ensures k < |Select(b, mask)|
    ensures r < |a| && mask[r] && Select(a, mask)[k] == a[r] && Select(b, mask)[k] == b[r]
  {
    SelectZip(a, b, mask);
    var zipped := Select(Zip(a, b), mask);
    assert zipped[k] == (Select(a, mask)[k], Select(b, mask)[k]);
    SelectMembers(Zip(a, b), mask, zipped[k]);
    r :| 0 <= r < |a| && mask[r] && Zip(a, b)[r] == zipped[k];
  }

  /** One more element of xs after a prefix of xs is a longer prefix. */
  lemma PrefixSnoc<T>(p: seq<T>, xs: seq<T>, x: T)
    requires |p| < |xs| && p == xs[..|p|] && x == xs[|p|]
    ensures p + [x] == xs[..|p| + 1]
  {
  }

  /** Setting the next element of g to that of xs extends the prefix on
      which g and xs agree. */
  lemma AgreeStep<T>(g: seq<T>, xs: seq<T>, row: nat, x: T)
    requires row < |g| == |xs| && x == xs[row]
    requires forall r :: 0 <= r < row ==> g[r] == xs[r]
    ensures forall r :: 0 <= r < row + 1 ==> g[row := x][r] == xs[r]
  {
  }

  /** With no flag set nothing is selected. */
  lemma {:induction false} SelectNone<T>(s: seq<T>, mask: seq<bool>)
    requires |mask| >= |s|
    requires forall i :: 0 <= i < |mask| ==> !mask[i]
    ensures Select(s, mask) == []
    decreases |s|
  {
    if s != [] {
      SelectNone(s[..|s| - 1], mask);
    }
  }

  lemma {:induction false} CountTrueBounds(mask: seq<bool>)
    ensures CountTrue(mask) <= |mask|
    ensures CountTrue(mask) > 0 <==> exists i :: 0 <= i < |mask| && mask[i]
    decreases |mask|
  {
    if mask != [] {
      var n := |mask| - 1;
      CountTrueBounds(mask[..n]);
      if exists i :: 0 <= i < |mask| && mask[i] {
        var i :| 0 <= i < |mask| && mask[i];
        if i < n {
          assert mask[..n][i];
        }
      }
    }
  }

  /** Toggling a flag twice restores the mask. */
  lemma ToggleTwice(mask: seq<bool>, i: nat)
    requires i < |mask|
    ensures Toggle(Toggle(mask, i), i) == mask
  {
  }

  /** Toggling a flag moves the count of set flags by exactly one. */
  lemma {:induction false} ToggleCount(mask: seq<bool>, i: nat)
    requires i < |mask|
    ensures CountTrue(Toggle(mask, i)) == if mask[i] then CountTrue(mask) - 1 else CountTrue(mask) + 1
    decreases |mask|
  {
    var n := |mask| - 1;
    var t := Toggle(mask, i);
    if i < n {
      ToggleCount(mask[..n], i);
      assert t[..n] == Toggle(mask[..n], i);
    } else {
      assert t[..n] == mask[..n];
    }
  }

  /** A freshly made mask has no set flag. */
  lemma {:induction false} CountAllFalse(n: nat)
    ensures CountTrue(AllFalse(n)) == 0
    decreases n
  {
    if n > 0 {
      CountAllFalse(n - 1);
      assert AllFalse(n)[..n - 1] == AllFalse(n - 1);
    }
  }
}
