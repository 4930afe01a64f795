/**
 The in-memory height index: a vector kept sorted by height and searched by bisection. It behaves
 as a finite map from heights to block hashes.
 */
module BlockIndex {
  import opened Options
  import opened Bytes

  datatype IndexEntry = IndexEntry(height: nat, blockHash: Hash)

  ghost predicate Sorted(es: seq<IndexEntry>) {
    forall i, j :: 0 <= i < j < |es| ==> es[i].height < es[j].height
  }

  ghost function Meaning(es: seq<IndexEntry>): map<nat, Hash>
    requires Sorted(es)
  {
    map i | 0 <= i < |es| :: es[i].height := es[i].blockHash
  }

  class Index {
    var entries: seq<IndexEntry>

    ghost predicate Valid()
      reads this
    {
      Sorted(entries)
    }

    ghost function Contents(): map<nat, Hash>
      requires Valid()
      reads this
    {
      Meaning(entries)
    }

    constructor ()
      ensures Valid() && Contents() == map[]
    {
      entries := [];
    }

    /** The position of a height, or the position where it belongs. */
    method BinarySearch(height: nat) returns (found: bool, pos: nat)
      requires Valid()
      ensures pos <= |entries|
      ensures found ==> pos < |entries| && entries[pos].height == height
      ensures !found ==> (forall i :: 0 <= i < pos ==> entries[i].height < height)
                         && (forall i :: pos <= i < |entries| ==> entries[i].height > height)
    {
      var lo, hi := 0, |entries|;
      while lo < hi
        invariant 0 <= lo <= hi <= |entries|
        invariant forall i :: 0 <= i < lo ==> entries[i].height < height
        invariant forall i :: hi <= i < |entries| ==> entries[i].height > height
      {
        var mid := lo + (hi - lo) / 2;
        if entries[mid].height == height {
          return true, mid;
        } else if entries[mid].height < height {
          lo := mid + 1;
        } else {
          hi := mid;
        }
      }
      return false, lo;
    }

    method Insert(height: nat, hash: Hash)
      requires Valid()
      modifies this
      ensures Valid() && Contents() == old(Contents())[height := hash]
    {
      var found, pos := BinarySearch(height);
      var entry := IndexEntry(height, hash);
      if found {
        ReplaceAt(entries, pos, entry);
        entries := entries[pos := entry];
      } else {
        InsertAt(entries, pos, entry);
        entries := entries[..pos] + [entry] + entries[pos..];
      }
    }

    method Get(height: nat) returns (r: Option<Hash>)
      requires Valid()
      ensures r == if height in Contents() then Some(Contents()[height]) else None
    {
      var found, pos := BinarySearch(height);
      r := if found then Some(entries[pos].blockHash) else None;
    }

    /** The largest height present. */
    function LatestHeight(): (r: Option<nat>)
      requires Valid()
      reads this
      ensures r.None? <==> Contents() == map[]
      ensures r.Some? ==> r.value in Contents() && forall h :: h in Contents() ==> h <= r.value
    {
      assert entries != [] ==> entries[0].height in Contents();
      if entries == [] then None else Some(entries[|entries| - 1].height)
    }
  }

  lemma ReplaceAt(es: seq<IndexEntry>, pos: nat, e: IndexEntry)
    requires Sorted(es) && pos < |es| && es[pos].height == e.height
    ensures Sorted(es[pos := e]) && Meaning(es[pos := e]) == Meaning(es)[e.height := e.blockHash]
  {
    var after := es[pos := e];
    assert forall i :: 0 <= i < |es| ==> after[i].height == es[i].height;
  }

  /** The map holds exactly the entries of the vector. */
  lemma MeaningOf(es: seq<IndexEntry>)
    requires Sorted(es)
    ensures forall e :: e in es <==> e.height in Meaning(es) && Meaning(es)[e.height] == e.blockHash
    ensures forall h :: h in Meaning(es) ==> IndexEntry(h, Meaning(es)[h]) in es
  {
    forall h | h in Meaning(es)
      ensures IndexEntry(h, Meaning(es)[h]) in es
    {
      var i :| 0 <= i < |es| && es[i].height == h;
      assert es[i] == IndexEntry(h, Meaning(es)[h]);
    }
  }

  lemma InsertSorted(es: seq<IndexEntry>, pos: nat, e: IndexEntry)
    requires Sorted(es) && pos <= |es|
    requires forall i :: 0 <= i < pos ==> es[i].height < e.height
    requires forall i :: pos <= i < |es| ==> es[i].height > e.height
    ensures Sorted(es[..pos] + [e] + es[pos..])
  {
    var after := es[..pos] + [e] + es[pos..];
    assert forall i :: 0 <= i < pos ==> after[i] == es[i];
    assert forall i :: pos < i < |after| ==> after[i] == es[i - 1];
  }

  lemma InsertAt(es: seq<IndexEntry>, pos: nat, e: IndexEntry)
    requires Sorted(es) && pos <= |es|
    requires forall i :: 0 <= i < pos ==> es[i].height < e.height
    requires forall i :: pos <= i < |es| ==> es[i].height > e.height
    ensures Sorted(es[..pos] + [e] + es[pos..])
    ensures Meaning(es[..pos] + [e] + es[pos..]) == Meaning(es)[e.height := e.blockHash]
  {
    var after := es[..pos] + [e] + es[pos..];
    InsertSorted(es, pos, e);
    InsertMembers(es, pos, e);
    MeaningUpdate(es, after, e);
  }

  lemma InsertMembers<T>(es: seq<T>, pos: nat, e: T)
    requires pos <= |es|
    ensures forall x :: x in es[..pos] + [e] + es[pos..] <==> x in es || x == e
  {
    assert es == es[..pos] + es[pos..];
  }

  lemma MeaningUpdate(es: seq<IndexEntry>, after: seq<IndexEntry>, e: IndexEntry)
    requires Sorted(es) && Sorted(after)
    requires forall x :: x in after <==> x in es || x == e
    ensures Meaning(after) == Meaning(es)[e.height := e.blockHash]
  {
    MeaningOf(es);
    MeaningOf(after);
    hide Meaning, Sorted;
    var m, w := Meaning(after), Meaning(es)[e.height := e.blockHash];
    forall h
      ensures h in m <==> h in w
      ensures h in m ==> m[h] == w[h]
    {
      if h in w {
        assert IndexEntry(h, w[h]) in after;
      }
      if h in m {
        assert IndexEntry(h, m[h]) in after;
      }
    }
  }
}
