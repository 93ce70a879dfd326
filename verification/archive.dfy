/** The zip archive an export streams to the response: an ordered list of
    named entries that is appended to one entry at a time and then finalized.
    Compression and the byte-level zip format are not modelled. */
module Archive {
  import opened Common

  datatype Entry = Entry(name: string, data: Bytes)

  class ZipArchive {
    var entries: seq<Entry>
    var finalized: bool

    constructor ()
      ensures entries == [] && !finalized
    {
      entries, finalized := [], false;
    }

    /** `archive.append(buffer, { name })`. */
    method Append(name: string, data: Bytes)
      requires !finalized
      modifies this
      ensures entries == old(entries) + [Entry(name, data)]
      ensures !finalized
    {
      entries := entries + [Entry(name, data)];
    }

    /** `archive.finalize()`: closes the archive without changing its entries. */
    method Finalize()
      modifies this
      ensures finalized && entries == old(entries)
    {
      finalized := true;
    }
  }

  /** What one item contributes: its entry, or nothing when it failed. */
  function Produced(o: Option<Entry>): seq<Entry> {
    match o
    case Some(e) => [e]
    case None => []
  }

  /** The entries a best-effort batch appends: each item, in order, contributes
      the entry it produced, and an item that failed contributes nothing. */
  function Collect<X>(items: seq<X>, produce: X -> Option<Entry>): (r: seq<Entry>)
    ensures |r| <= |items|
    decreases |items|
  {
    if items == [] then []
    else Collect(items[..|items| - 1], produce) + Produced(produce(items[|items| - 1]))
  }

  /** One more item extends the batch by that item's own result. */
  lemma CollectStep<X>(items: seq<X>, i: nat, produce: X -> Option<Entry>)
    requires i < |items|
    ensures Collect(items[..i + 1], produce) == Collect(items[..i], produce) + Produced(produce(items[i]))
  {
    assert items[..i + 1][..i] == items[..i];
  }

  /** Batches compose: the entries of two consecutive runs are the entries of
      the first followed by those of the second. */
  lemma {:induction false} CollectAppend<X>(a: seq<X>, b: seq<X>, produce: X -> Option<Entry>)
    ensures Collect(a + b, produce) == Collect(a, produce) + Collect(b, produce)
    decreases |b|
  {
    if b == [] {
      assert a + b == a;
    } else {
      var n := |b| - 1;
      assert (a + b)[..|a + b| - 1] == a + b[..n];
      assert (a + b)[|a + b| - 1] == b[n];
      CollectAppend(a, b[..n], produce);
    }
  }

  /** Failure isolation: the outcome of item k changes only item k's part of
      the archive; everything before and after it is what it would have been. */
  lemma {:induction false} CollectIsolates<X>(items: seq<X>, k: nat, produce: X -> Option<Entry>)
    requires k < |items|
    ensures Collect(items, produce)
         == Collect(items[..k], produce) + Produced(produce(items[k])) + Collect(items[k + 1..], produce)
  {
    var pre, mid, post := items[..k], [items[k]], items[k + 1..];
    assert items == (pre + mid) + post;
    CollectAppend(pre + mid, post, produce);
    CollectAppend(pre, mid, produce);
    assert mid[..0] == [];
    assert Collect(mid, produce) == Produced(produce(items[k]));
  }

  /** An item that failed leaves no trace: the archive is the entries of the
      items before it followed by those of the items after it. */
  lemma CollectSkipsFailure<X>(items: seq<X>, k: nat, produce: X -> Option<Entry>)
    requires k < |items| && produce(items[k]).None?
    ensures Collect(items, produce) == Collect(items[..k], produce) + Collect(items[k + 1..], produce)
  {
    CollectIsolates(items, k, produce);
    var before := Collect(items[..k], produce);
    assert Produced(produce(items[k])) == [];
    assert before + [] == before;
  }

  /** When no item fails, the archive has exactly one entry per item, and
      entry i is item i's. */
  lemma {:induction false} CollectAllProduced<X>(items: seq<X>, produce: X -> Option<Entry>)
    requires forall i :: 0 <= i < |items| ==> produce(items[i]).Some?
    ensures |Collect(items, produce)| == |items|
    ensures forall i :: 0 <= i < |items| ==> Collect(items, produce)[i] == produce(items[i]).value
    decreases |items|
  {
    if items != [] {
      var n := |items| - 1;
      assert forall i :: 0 <= i < n ==> items[..n][i] == items[i];
      CollectAllProduced(items[..n], produce);
    }
  }

  /** A batch appends nothing exactly when every item failed. */
  lemma {:induction false} CollectEmptyIff<X>(items: seq<X>, produce: X -> Option<Entry>)
    ensures Collect(items, produce) == [] <==> forall i :: 0 <= i < |items| ==> produce(items[i]).None?
    decreases |items|
  {
    if items != [] {
      var n := |items| - 1;
      CollectEmptyIff(items[..n], produce);
      assert forall i :: 0 <= i < n ==> items[..n][i] == items[i];
    }
  }

  /** Every entry comes from some item that produced it, and every item that
      produced an entry has it in the archive. */
  lemma {:induction false} CollectMembers<X>(items: seq<X>, produce: X -> Option<Entry>, e: Entry)
    ensures e in Collect(items, produce) <==> exists i :: 0 <= i < |items| && produce(items[i]) == Some(e)
    decreases |items|
  {
    if items != [] {
      var n := |items| - 1;
      var init, x := items[..n], items[n];
      CollectMembers(init, produce, e);
      assert Collect(items, produce) == Collect(init, produce) + Produced(produce(x));
      assert e in Produced(produce(x)) <==> produce(x) == Some(e);
      if i :| 0 <= i < |items| && produce(items[i]) == Some(e) {
        if i < n {
          assert init[i] == items[i];
        }
      }
      if produce(x) == Some(e) {
        assert 0 <= n < |items| && produce(items[n]) == Some(e);
      }
      if j :| 0 <= j < |init| && produce(init[j]) == Some(e) {
        assert 0 <= j < |items| && produce(items[j]) == Some(e);
      }
    }
  }
}
