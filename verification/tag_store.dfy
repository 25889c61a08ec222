/**
 * The tag store of the tag-input widget: an insertion-ordered,
 * duplicate-free list of strings, with the merge and removal operations
 * that the widget performs through JavaScript's `Set` and `filter`.
 */
module TagStore {
  import opened Seqs

  /**
   * Adding the values of `ys`, in order, to an insertion-ordered set whose
   * contents are `acc`: a value already present is skipped, a new one goes
   * at the end. This is what `new Set(...)` does while it is being filled.
   */
  function AppendNew(acc: seq<string>, ys: seq<string>): (r: seq<string>)
    ensures acc <= r
    ensures forall x :: x in r ==> x in acc || x in ys
    ensures forall x :: x in acc || x in ys ==> x in r
    ensures forall i :: |acc| <= i < |r| ==> r[i] !in acc && r[i] in ys
    ensures NoDup(acc) ==> NoDup(r)
    decreases |ys|
  {
    if ys == [] then acc
    else
      var acc' := if ys[0] in acc then acc else acc + [ys[0]];
      assert forall x :: x in ys ==> x == ys[0] || x in ys[1..];
      AppendNew(acc', ys[1..])
  }

  /** `Array.from(new Set(s))`: the first occurrence of every value, in order. */
  function Dedup(s: seq<string>): (r: seq<string>)
    ensures NoDup(r)
    ensures forall x :: x in r <==> x in s
  {
    AppendNew([], s)
  }

  /** `Array.from(new Set([...tags, ...items]))`: the ordered set union the widget commits. */
  function Union(tags: seq<string>, items: seq<string>): (r: seq<string>)
    ensures NoDup(r)
    ensures forall x :: x in r <==> x in tags || x in items
  {
    Dedup(tags + items)
  }

  /** Filling the set from a concatenation is filling it from each part in turn. */
  lemma {:induction false} AppendNewConcat(acc: seq<string>, xs: seq<string>, ys: seq<string>)
    ensures AppendNew(acc, xs + ys) == AppendNew(AppendNew(acc, xs), ys)
    decreases |xs|
  {
    if xs == [] {
      assert xs + ys == ys;
    } else {
      assert (xs + ys)[0] == xs[0];
      assert (xs + ys)[1..] == xs[1..] + ys;
      var acc' := if xs[0] in acc then acc else acc + [xs[0]];
      AppendNewConcat(acc', xs[1..], ys);
    }
  }

  /** Values that are all new and distinct are appended unchanged, in order. */
  lemma {:induction false} AppendNewFresh(acc: seq<string>, ys: seq<string>)
    requires NoDup(acc + ys)
    ensures AppendNew(acc, ys) == acc + ys
    decreases |ys|
  {
    if ys == [] {
      assert acc + ys == acc;
    } else {
      var k := |acc|;
      assert (acc + ys)[k] == ys[0];
      assert ys[0] !in acc by {
        forall i | 0 <= i < |acc| ensures acc[i] != ys[0] {
          assert (acc + ys)[i] == acc[i];
        }
      }
      assert acc + ys == (acc + [ys[0]]) + ys[1..];
      AppendNewFresh(acc + [ys[0]], ys[1..]);
    }
  }

  /** A duplicate-free sequence is its own deduplication. */
  lemma DedupNoDup(s: seq<string>)
    requires NoDup(s)
    ensures Dedup(s) == s
  {
    assert [] + s == s;
    AppendNewFresh([], s);
  }

  /**
   * For a duplicate-free store the union keeps the store as a prefix and
   * appends the items that are not yet present.
   */
  lemma UnionExtends(tags: seq<string>, items: seq<string>)
    requires NoDup(tags)
    ensures Union(tags, items) == AppendNew(tags, items)
    ensures tags <= Union(tags, items)
  {
    AppendNewConcat([], tags, items);
    DedupNoDup(tags);
  }

  /** A duplicate-free store is a prefix of its union with any batch. */
  lemma UnionKeepsStore(tags: seq<string>, items: seq<string>)
    ensures NoDup(tags) ==> tags <= Union(tags, items)
  {
    if NoDup(tags) {
      UnionExtends(tags, items);
    }
  }

  /** Distinct new items are appended exactly as given. */
  lemma UnionFresh(tags: seq<string>, items: seq<string>)
    requires NoDup(tags + items)
    ensures Union(tags, items) == tags + items
  {
    DedupNoDup(tags + items);
  }

  /** Merging the same batch again changes nothing. */
  lemma UnionIdempotent(tags: seq<string>, items: seq<string>)
    ensures Union(Union(tags, items), items) == Union(tags, items)
  {
    var u := Union(tags, items);
    UnionExtends(u, items);
    AppendNewPresent(u, items);
  }

  /** Values already present add nothing. */
  lemma {:induction false} AppendNewPresent(acc: seq<string>, ys: seq<string>)
    requires forall y :: y in ys ==> y in acc
    ensures AppendNew(acc, ys) == acc
    decreases |ys|
  {
    if ys != [] {
      assert forall y :: y in ys[1..] ==> y in ys;
      AppendNewPresent(acc, ys[1..]);
    }
  }

  /** The position of the first occurrence of `x` in `s`. */
  function IndexOf(s: seq<string>, x: string): (i: nat)
    requires x in s
    ensures i < |s| && s[i] == x
    ensures forall j :: 0 <= j < i ==> s[j] != x
  {
    if s[0] == x then 0 else 1 + IndexOf(s[1..], x)
  }

  /**
   * The values appended after `acc` appear in the order of their first
   * occurrence in `ys`.
   */
  lemma {:induction false} AppendNewOrder(acc: seq<string>, ys: seq<string>)
    ensures var r := AppendNew(acc, ys);
      forall i, j :: |acc| <= i < j < |r| ==> IndexOf(ys, r[i]) < IndexOf(ys, r[j])
    decreases |ys|
  {
    if ys != [] {
      var r := AppendNew(acc, ys);
      var acc' := if ys[0] in acc then acc else acc + [ys[0]];
      assert r == AppendNew(acc', ys[1..]);
      AppendNewOrder(acc', ys[1..]);
      forall i, j | |acc| <= i < j < |r| ensures IndexOf(ys, r[i]) < IndexOf(ys, r[j]) {
        assert r[j] !in acc' && r[j] in ys[1..];
        assert r[j] != ys[0] by {
          if ys[0] !in acc { assert acc' == acc + [ys[0]]; assert ys[0] in acc'; }
        }
        assert IndexOf(ys, r[j]) == 1 + IndexOf(ys[1..], r[j]);
        if i >= |acc'| {
          assert r[i] in ys[1..] && r[i] != ys[0] by {
            if ys[0] !in acc { assert acc' == acc + [ys[0]]; assert ys[0] in acc'; }
          }
          assert IndexOf(ys, r[i]) == 1 + IndexOf(ys[1..], r[i]);
        } else {
          assert ys[0] !in acc && i == |acc|;
          assert r[i] == acc'[i] == ys[0];
        }
      }
    }
  }

  /** `tags.filter((t) => t !== x)`: every occurrence of `x` is dropped. */
  function Remove(tags: seq<string>, x: string): (r: seq<string>)
    ensures x !in r
    ensures forall y :: y in tags && y != x ==> y in r
    ensures forall y :: y in r ==> y in tags
    ensures IsSubsequence(r, tags)
  {
    Filter(tags, y => y != x)
  }

  /** Removal unfolded by one element. */
  lemma RemoveCons(tags: seq<string>, x: string)
    requires tags != []
    ensures Remove(tags, x) == (if tags[0] == x then [] else [tags[0]]) + Remove(tags[1..], x)
  {
  }

  /** Removing an absent value changes nothing. */
  lemma RemoveAbsent(tags: seq<string>, x: string)
    requires x !in tags
    ensures Remove(tags, x) == tags
  {
    FilterAll(tags, y => y != x);
  }

  /** The tail of a duplicate-free sequence is duplicate-free and lacks the head. */
  lemma NoDupTail(tags: seq<string>)
    requires NoDup(tags) && tags != []
    ensures NoDup(tags[1..]) && tags[0] !in tags[1..]
  {
    forall i, j | 0 <= i < j < |tags[1..]| ensures tags[1..][i] != tags[1..][j] {
      assert tags[1..][i] == tags[i + 1];
    }
    forall i | 0 <= i < |tags[1..]| ensures tags[1..][i] != tags[0] {
      assert tags[1..][i] == tags[i + 1];
    }
  }

  /** Slicing the tail of `s` around position `k` and putting the head back. */
  lemma HeadSlices(s: seq<string>, k: nat)
    requires 1 <= k < |s|
    ensures [s[0]] + s[1..][..k - 1] == s[..k]
    ensures s[1..][k..] == s[k + 1..]
  {
  }

  /** Removing a value that occurs only at position `k` deletes that position. */
  lemma {:induction false} RemoveOnlyAt(tags: seq<string>, k: nat, x: string)
    requires k < |tags| && tags[k] == x
    requires x !in tags[..k] && x !in tags[k + 1..]
    ensures Remove(tags, x) == tags[..k] + tags[k + 1..]
    decreases k
  {
    if k == 0 {
      RemoveCons(tags, x);
      RemoveAbsent(tags[1..], x);
    } else {
      var rest := tags[1..];
      assert x !in rest[..k - 1] && x !in rest[k..] by {
        HeadSlices(tags, k);
        assert forall y :: y in rest[..k - 1] ==> y in tags[..k];
      }
      RemoveOnlyAt(rest, k - 1, x);
      RemoveStep(tags, k, x);
    }
  }

  /** Removal past a kept head, given the removal in the tail. */
  lemma RemoveStep(tags: seq<string>, k: nat, x: string)
    requires 1 <= k < |tags| && tags[0] != x
    requires Remove(tags[1..], x) == tags[1..][..k - 1] + tags[1..][k..]
    ensures Remove(tags, x) == tags[..k] + tags[k + 1..]
  {
    calc {
      Remove(tags, x);
      { RemoveCons(tags, x); }
      [tags[0]] + Remove(tags[1..], x);
      [tags[0]] + (tags[1..][..k - 1] + tags[1..][k..]);
      { ConsSlices(tags, k); }
      tags[..k] + tags[k + 1..];
    }
  }

  /** Putting the head back in front of the tail with one position cut out. */
  lemma ConsSlices(s: seq<string>, k: nat)
    requires 1 <= k < |s|
    ensures [s[0]] + (s[1..][..k - 1] + s[1..][k..]) == s[..k] + s[k + 1..]
  {
    HeadSlices(s, k);
    assert [s[0]] + (s[1..][..k - 1] + s[1..][k..]) == ([s[0]] + s[1..][..k - 1]) + s[1..][k..];
  }

  /** Removing from a duplicate-free store deletes exactly the one position holding the value. */
  lemma RemoveAt(tags: seq<string>, k: nat)
    requires NoDup(tags) && k < |tags|
    ensures Remove(tags, tags[k]) == tags[..k] + tags[k + 1..]
  {
    var x := tags[k];
    assert x !in tags[..k] by {
      forall i | 0 <= i < k ensures tags[..k][i] != x { assert tags[..k][i] == tags[i]; }
    }
    assert x !in tags[k + 1..] by {
      var suffix := tags[k + 1..];
      forall i | 0 <= i < |suffix| ensures suffix[i] != x {
        assert suffix[i] == tags[k + 1 + i];
      }
    }
    RemoveOnlyAt(tags, k, x);
  }

  /** Removing a value keeps the store duplicate-free. */
  lemma RemoveNoDup(tags: seq<string>, x: string)
    requires NoDup(tags)
    ensures NoDup(Remove(tags, x))
  {
    FilterNoDup(tags, y => y != x);
  }
}
