/** set/set.go: a set is a slice kept in strictly ascending order; every
    operation of the protocol is written with these few functions. Sets are
    values here; `Slice` and `RemoveInPlace` model the one place where Go's
    sharing of backing arrays changes what a caller observes. */
module SortedSet {
  import opened StringOrder
  import Utils

  /** The representation invariant of set.Set: strictly ascending, hence
      free of duplicates. */
  predicate Strict(s: seq<string>)
  {
    forall i, j :: 0 <= i < j < |s| ==> Less(s[i], s[j])
  }

  /** The elements a slice holds, as a mathematical set. */
  function Elems(s: seq<string>): set<string>
  {
    set x | x in s
  }

  /** A strictly ascending sequence has no duplicates. */
  lemma StrictDistinct(s: seq<string>)
    requires Strict(s)
    ensures Utils.Distinct(s)
  {
    forall i, j | 0 <= i < j < |s|
      ensures s[i] != s[j]
    {
      Irreflexive(s[i]);
    }
  }

  /** Filtering a set keeps it a set (utils.Filter on a sorted slice). */
  lemma FilterKeepsStrict(s: seq<string>, f: string -> bool)
    requires Strict(s)
    ensures Strict(Utils.Filter(s, f))
  {
    Utils.FilterKeepsOrder(s, f, (a, b) => Less(a, b));
  }

  /** set.New */
  function New(): (r: seq<string>)
    ensures Strict(r) && Elems(r) == {}
  {
    []
  }

  /** The index `slices.BinarySearch` reports: the first position whose
      element is not below `val` (the insertion point). */
  function LowerBound(s: seq<string>, val: string): (i: nat)
    ensures i <= |s|
    ensures forall k :: 0 <= k < i ==> Less(s[k], val)
    ensures Strict(s) ==> forall k :: i <= k < |s| ==> !Less(s[k], val)
  {
    StrictTotalOrder();
    if s == [] || !Less(s[0], val) then 0 else 1 + LowerBound(s[1..], val)
  }

  /** The insertion point is the only index that splits a slice into a part
      below `val` and a part not below it. */
  lemma {:induction false} LowerBoundUnique(s: seq<string>, val: string, i: nat)
    requires i <= |s|
    requires forall k :: 0 <= k < i ==> Less(s[k], val)
    requires forall k :: i <= k < |s| ==> !Less(s[k], val)
    ensures LowerBound(s, val) == i
  {
    if s != [] && Less(s[0], val) {
      LowerBoundUnique(s[1..], val, i - 1);
    }
  }

  /** On a strict slice the insertion point holds `val` exactly when `val`
      is an element. */
  lemma LowerBoundFinds(s: seq<string>, val: string)
    requires Strict(s)
    ensures var i := LowerBound(s, val); (i < |s| && s[i] == val) <==> val in s
  {
    StrictTotalOrder();
    var i := LowerBound(s, val);
    forall k | 0 <= k < |s| && k != i ensures s[k] != val {
      if k < i {
        assert Less(s[k], val);
      } else {
        assert Less(s[i], s[k]) && !Less(s[i], val);
      }
    }
  }

  /** slices.BinarySearch, the loop the Go library runs: it halves the
      window [i, j) until the insertion point is pinned down. */
  method BinarySearch(s: seq<string>, val: string) returns (i: nat, found: bool)
    requires Strict(s)
    ensures i == LowerBound(s, val)
    ensures found <==> val in s
    ensures found ==> i < |s| && s[i] == val
  {
    StrictTotalOrder();
    var j := |s|;
    i := 0;
    while i < j
      invariant 0 <= i <= j <= |s|
      invariant forall k :: 0 <= k < i ==> Less(s[k], val)
      invariant forall k :: j <= k < |s| ==> !Less(s[k], val)
      decreases j - i
    {
      var h := (i + j) / 2;
      if Less(s[h], val) {
        i := h + 1;
      } else {
        j := h;
      }
    }
    LowerBoundUnique(s, val, i);
    LowerBoundFinds(s, val);
    found := i < |s| && s[i] == val;
  }

  /** set.Has */
  function Has(s: seq<string>, val: string): (b: bool)
    requires Strict(s)
    ensures b <==> val in s
  {
    LowerBoundFinds(s, val);
    var i := LowerBound(s, val);
    i < |s| && s[i] == val
  }

  /** Inserting `val` at its insertion point keeps a strict slice strict. */
  lemma InsertKeepsStrict(s: seq<string>, val: string)
    requires Strict(s) && val !in s
    ensures var i := LowerBound(s, val); Strict(s[..i] + [val] + s[i..])
  {
    StrictTotalOrder();
    var i := LowerBound(s, val);
    var r := s[..i] + [val] + s[i..];
    assert forall k :: 0 <= k < i ==> r[k] == s[k];
    assert r[i] == val;
    assert forall k :: i < k < |r| ==> r[k] == s[k - 1];
    forall p, q | 0 <= p < q < |r| ensures Less(r[p], r[q]) {
      if q < i {
        assert Less(s[p], s[q]);
      } else if q == i {
        assert Less(s[p], val);
      } else if p < i {
        assert Less(s[p], s[q - 1]);
      } else if p == i {
        assert !Less(s[q - 1], val) && s[q - 1] != val;
      } else {
        assert Less(s[p - 1], s[q - 1]);
      }
    }
  }

  /** set.Add: insert at the binary-search position unless already present. */
  function Add(s: seq<string>, val: string): (r: seq<string>)
    requires Strict(s)
    ensures Strict(r)
    ensures Elems(r) == Elems(s) + {val}
    ensures val in s ==> r == s
    ensures val !in s ==> |r| == |s| + 1
  {
    LowerBoundFinds(s, val);
    var i := LowerBound(s, val);
    if i < |s| && s[i] == val then s
    else
      InsertKeepsStrict(s, val);
      assert Elems(s[..i] + [val] + s[i..]) == Elems(s) + {val} by {
        assert s == s[..i] + s[i..];
      }
      s[..i] + [val] + s[i..]
  }

  /** Cutting out the element at index `i` keeps a strict slice strict and
      removes exactly that element. */
  lemma CutKeepsStrict(s: seq<string>, i: nat)
    requires Strict(s) && i < |s|
    ensures Strict(s[..i] + s[i + 1..])
    ensures Elems(s[..i] + s[i + 1..]) == Elems(s) - {s[i]}
  {
    StrictTotalOrder();
    var r := s[..i] + s[i + 1..];
    assert forall k :: 0 <= k < i ==> r[k] == s[k];
    assert forall k :: i <= k < |r| ==> r[k] == s[k + 1];
    forall p, q | 0 <= p < q < |r| ensures Less(r[p], r[q]) {
      if q < i {
        assert Less(s[p], s[q]);
      } else if p < i {
        assert Less(s[p], s[q + 1]);
      } else {
        assert Less(s[p + 1], s[q + 1]);
      }
    }
    forall k | 0 <= k < |r| ensures r[k] != s[i] {
      if k < i { assert Less(s[k], s[i]); } else { assert Less(s[i], s[k + 1]); }
    }
    assert s == s[..i] + [s[i]] + s[i + 1..];
  }

  /** set.Remove: cut out the element at the binary-search position, if it
      is there (as a value; see RemoveInPlace for what Go does to the caller). */
  function Remove(s: seq<string>, val: string): (r: seq<string>)
    requires Strict(s)
    ensures Strict(r)
    ensures Elems(r) == Elems(s) - {val}
    ensures val !in s ==> r == s
    ensures val in s ==> |r| == |s| - 1
  {
    LowerBoundFinds(s, val);
    var i := LowerBound(s, val);
    if i < |s| && s[i] == val then
      CutKeepsStrict(s, i);
      s[..i] + s[i + 1..]
    else s
  }

  /** set.Union: add every element of `o` (sorted or not) to `s`. */
  function Union(s: seq<string>, o: seq<string>): (r: seq<string>)
    requires Strict(s)
    ensures Strict(r)
    ensures Elems(r) == Elems(s) + Elems(o)
    decreases |o|
  {
    if o == [] then s
    else
      assert Elems(o) == {o[0]} + Elems(o[1..]) by { assert o == [o[0]] + o[1..]; }
      Union(Add(s, o[0]), o[1..])
  }

  /** set.Diff: remove every element of `o` (sorted or not) from `s`. */
  function Diff(s: seq<string>, o: seq<string>): (r: seq<string>)
    requires Strict(s)
    ensures Strict(r)
    ensures Elems(r) == Elems(s) - Elems(o)
    decreases |o|
  {
    if o == [] then s
    else
      assert Elems(o) == {o[0]} + Elems(o[1..]) by { assert o == [o[0]] + o[1..]; }
      Diff(Remove(s, o[0]), o[1..])
  }

  /** set.FromSlice: the distinct elements of `xs` in ascending order. Go
      collects them in a map and sorts the keys; any construction gives the
      same slice (see StrictUnique). */
  function FromSlice(xs: seq<string>): (r: seq<string>)
    ensures Strict(r)
    ensures Elems(r) == Elems(xs)
  {
    Union(New(), xs)
  }

  /** Membership in set.FromSlice, element by element. */
  lemma MembersOfFromSlice(xs: seq<string>)
    ensures forall x :: x in FromSlice(xs) <==> x in xs
  {
    forall x ensures x in FromSlice(xs) <==> x in Elems(xs) {
      assert x in FromSlice(xs) <==> x in Elems(FromSlice(xs));
    }
  }

  /** Membership in set.Union, element by element. */
  lemma MembersOfUnion(s: seq<string>, o: seq<string>)
    requires Strict(s)
    ensures forall x :: x in Union(s, o) <==> x in s || x in o
  {
    forall x ensures x in Union(s, o) <==> x in Elems(s) + Elems(o) {
      assert x in Union(s, o) <==> x in Elems(Union(s, o));
    }
  }

  /** set.Intersect: the sorted elements of `s` that also occur in `o`;
      neither argument needs to be sorted. */
  function Intersect(s: seq<string>, o: seq<string>): (r: seq<string>)
    ensures Strict(r)
    ensures Elems(r) == Elems(s) * Elems(o)
  {
    FromSlice(Utils.Filter(s, x => x in o))
  }

  /** The first element of a strict slice is its least element. */
  lemma FirstIsLeast(a: seq<string>)
    requires Strict(a) && a != []
    ensures forall x :: x in a ==> x == a[0] || Less(a[0], x)
    ensures Elems(a[1..]) == Elems(a) - {a[0]}
  {
    StrictTotalOrder();
    assert a == [a[0]] + a[1..];
    forall k | 1 <= k < |a| ensures a[k] != a[0] && Less(a[0], a[k]) {
      assert Less(a[0], a[k]);
    }
  }

  /** A strict slice is determined by its elements: the sorted form of a set
      is unique, so FromSlice's result does not depend on how it is built. */
  lemma {:induction false} StrictUnique(a: seq<string>, b: seq<string>)
    requires Strict(a) && Strict(b) && Elems(a) == Elems(b)
    ensures a == b
    decreases |a|
  {
    StrictTotalOrder();
    assert a == [] <==> b == [] by {
      if a != [] { assert a[0] in Elems(b); }
      if b != [] { assert b[0] in Elems(a); }
    }
    if a != [] {
      FirstIsLeast(a);
      FirstIsLeast(b);
      assert a[0] in Elems(b) && b[0] in Elems(a);
      assert a[0] == b[0];
      assert Strict(a[1..]) && Strict(b[1..]);
      StrictUnique(a[1..], b[1..]);
      assert a == [a[0]] + a[1..] && b == [b[0]] + b[1..];
    }
  }

  /** The sorted-set tests: FromSlice([3 1 2 3 2]) is [1 2 3], and the union,
      difference and intersection of {1,2,3} with {3,4} are {1,2,3,4}, {1,2}
      and {3}, here over one-digit strings. */
  lemma FromSliceExample()
    ensures FromSlice(["3", "1", "2", "3", "2"]) == ["1", "2", "3"]
  {
    var xs: seq<string> := ["3", "1", "2", "3", "2"];
    var sorted: seq<string> := ["1", "2", "3"];
    assert Less("1", "2") && Less("2", "3") && Less("1", "3");
    assert Strict(sorted);
    assert Elems(xs) == {"1", "2", "3"} == Elems(sorted) by {
      assert forall x :: x in xs <==> x == "1" || x == "2" || x == "3";
      assert forall x :: x in sorted <==> x == "1" || x == "2" || x == "3";
    }
    var r := FromSlice(xs);
    StrictUnique(r, sorted);
  }

  lemma UnionExample()
    ensures Union(["1", "2", "3"], ["3", "4"]) == ["1", "2", "3", "4"]
  {
    StrictTotalOrder();
    assert Less("1", "2") && Less("2", "3") && Less("3", "4");
    assert Strict(["1", "2", "3"]) && Strict(["1", "2", "3", "4"]);
    assert Elems(["1", "2", "3"]) + Elems(["3", "4"]) == Elems(["1", "2", "3", "4"]);
    StrictUnique(Union(["1", "2", "3"], ["3", "4"]), ["1", "2", "3", "4"]);
  }

  lemma DiffExample()
    ensures Diff(["1", "2", "3"], ["3", "4"]) == ["1", "2"]
  {
    assert Less("1", "2") && Less("2", "3") && Less("1", "3");
    assert Strict(["1", "2", "3"]) && Strict(["1", "2"]);
    assert Elems(["1", "2", "3"]) - Elems(["3", "4"]) == Elems(["1", "2"]);
    StrictUnique(Diff(["1", "2", "3"], ["3", "4"]), ["1", "2"]);
  }

  lemma IntersectExample()
    ensures Intersect(["1", "2", "3"], ["3", "4"]) == ["3"]
  {
    assert Elems(["1", "2", "3"]) * Elems(["3", "4"]) == Elems(["3"]);
    StrictUnique(Intersect(["1", "2", "3"], ["3", "4"]), ["3"]);
  }

  // ---------------------------------------------------------------------
  // Go slice sharing

  /** A Go slice header: a window of `len` elements at the start of a backing
      array that other headers may share. */
  datatype Slice = Slice(backing: seq<string>, len: nat)
  {
    predicate Valid() { len <= |backing| }
    function View(): seq<string> requires Valid() { backing[..len] }
  }

  /** set.Remove as Go runs it: `append(s[:i], s[i+1:]...)` shifts the tail
      one place left inside the SAME backing array, so every other header on
      that array (the caller's own `s` among them) sees the shift, and the
      last slot keeps its old value. */
  function RemoveInPlace(sl: Slice, val: string): (r: Slice)
    requires sl.Valid() && Strict(sl.View())
    ensures r.Valid() && |r.backing| == |sl.backing|
    ensures r.View() == Remove(sl.View(), val)
  {
    var s := sl.View();
    var i := LowerBound(s, val);
    if i < |s| && s[i] == val then
      var r := Slice(sl.backing[..i] + sl.backing[i + 1..sl.len] + sl.backing[sl.len - 1..], sl.len - 1);
      assert r.View() == s[..i] + s[i + 1..];
      r
    else sl
  }

  /** set.Diff as Go runs it: the fold of RemoveInPlace over `o`. */
  function DiffInPlace(sl: Slice, o: seq<string>): (r: Slice)
    requires sl.Valid() && Strict(sl.View())
    ensures r.Valid() && |r.backing| == |sl.backing|
    ensures r.View() == Diff(sl.View(), o)
    decreases |o|
  {
    if o == [] then sl else DiffInPlace(RemoveInPlace(sl, o[0]), o[1..])
  }

  /** The set tests expect Diff to leave its first argument alone. It does for
      the tested {1,2,3} - {3,4}, where the removed element is the last one. */
  lemma DiffInPlaceTestedCase()
    ensures DiffInPlace(Slice(["1", "2", "3"], 3), ["3", "4"]).backing[..3] == ["1", "2", "3"]
  {
    assert Less("1", "2") && Less("2", "3") && Less("1", "3");
    var s0 := Slice(["1", "2", "3"], 3);
    assert Strict(s0.View());
    LowerBoundUnique(s0.View(), "3", 2);
    var s1 := RemoveInPlace(s0, "3");
    assert s1 == Slice(["1", "2", "3"], 2);
    LowerBoundUnique(s1.View(), "4", 2);
    var s2 := RemoveInPlace(s1, "4");
    assert s2 == s1;
    assert DiffInPlace(s0, ["3", "4"]) == DiffInPlace(s1, ["4"]) == DiffInPlace(s2, []);
  }

  /** Removing an earlier element rewrites the caller's slice: after
      Diff([a b c], [a]) the caller's three-element `s` reads [b c c], which
      lost `a`, repeats `c` and is no longer a set. */
  lemma DiffInPlaceClobbersArgument()
    ensures var r := DiffInPlace(Slice(["a", "b", "c"], 3), ["a"]);
      r.View() == ["b", "c"] && r.backing[..3] == ["b", "c", "c"] && !Strict(r.backing[..3])
  {
    assert Less("a", "b") && Less("b", "c") && Less("a", "c");
    var s0 := Slice(["a", "b", "c"], 3);
    assert Strict(s0.View());
    LowerBoundUnique(s0.View(), "a", 0);
    var s1 := RemoveInPlace(s0, "a");
    assert s1 == Slice(["b", "c", "c"], 2);
    assert DiffInPlace(s0, ["a"]) == DiffInPlace(s1, []);
    StringOrder.Irreflexive("c");
    var bad: seq<string> := ["b", "c", "c"];
    assert !Less(bad[1], bad[2]);
  }
}
