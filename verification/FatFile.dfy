/** Writing and reading file data in fs/FAT/FAT1x.c, cluster by cluster. The next
    cluster is searched before the current one is marked in the table, so each
    new cluster is found twice and every other block overwritten. */
module FatFile {
  import opened Words
  import opened Fat12
  import opened Sets

  type Block = seq<Byte>

  predicate IsFree(t: seq<Byte>, c: nat)
    requires |t| >= TABLE_BYTES
  {
    c < CLUSTER_EOF && Entry(t, c) == CLUSTER_FREE
  }

  /** c is the lowest free cluster below the limit. */
  ghost predicate FirstFree(t: seq<Byte>, limit: nat, c: nat)
    requires |t| >= TABLE_BYTES
  {
    2 <= c < limit && IsFree(t, c) && forall d: nat :: 2 <= d < c ==> !IsFree(t, d)
  }

  lemma FirstFreeUnique(t: seq<Byte>, limit: nat, c: nat, d: nat)
    requires |t| >= TABLE_BYTES && FirstFree(t, limit, c) && FirstFree(t, limit, d)
    ensures c == d
  {
  }

  /** Which block ends up in the j-th cluster of the chain. */
  function Survivor(n: nat, j: nat): (k: nat)
    requires 2 * j < n
    ensures k < n
  {
    if 2 * j + 1 < n then 2 * j + 1 else n - 1
  }

  /** The first i blocks have been written: the clusters so far are linked in
      order, and each holds the later of the two blocks written to it. The last
      one is free in the table after an even number of blocks and linked to
      itself after an odd number. */
  ghost predicate Writing(t0: seq<Byte>, t: seq<Byte>, data: seq<Block>, limit: nat, blocks: seq<Block>,
                          i: nat, chain: seq<nat>)
  {
    && |t0| >= TABLE_BYTES && |t| >= TABLE_BYTES && |data| == 4096 && i < |blocks| && |chain| == i / 2 + 1
    && (forall j :: 0 <= j < |chain| ==> 2 <= chain[j] < limit && IsFree(t0, chain[j]))
    && (forall j, k :: 0 <= j < k < |chain| ==> chain[j] != chain[k])
    && (forall j :: 0 <= j < i / 2 ==> Entry(t, chain[j]) == chain[j + 1])
    && (forall j :: 0 <= j < i / 2 ==> data[chain[j]] == blocks[2 * j + 1])
    && (if i % 2 == 0 then FirstFree(t, limit, chain[i / 2])
        else Entry(t, chain[i / 2]) == chain[i / 2])
    && (forall d: Cluster :: d !in chain ==> Entry(t, d) == Entry(t0, d))
  }

  /** The finished file: the chain in order, ended, with the surviving blocks. */
  ghost predicate Written(t0: seq<Byte>, t: seq<Byte>, data: seq<Block>, blocks: seq<Block>, chain: seq<nat>)
  {
    && |t0| >= TABLE_BYTES && |t| >= TABLE_BYTES && |data| == 4096 && |blocks| >= 1 && |chain| == (|blocks| + 1) / 2
    && (forall j :: 0 <= j < |chain| ==> 2 <= chain[j] < CLUSTER_EOF && IsFree(t0, chain[j]))
    && (forall j, k :: 0 <= j < k < |chain| ==> chain[j] != chain[k])
    && (forall j :: 0 <= j < |chain| ==> Entry(t, chain[j]) == if j + 1 < |chain| then chain[j + 1] else CLUSTER_EOF)
    && (forall j :: 0 <= j < |chain| ==> data[chain[j]] == blocks[Survivor(|blocks|, j)])
    && (forall d: Cluster :: d !in chain ==> Entry(t, d) == Entry(t0, d))
  }

  /** The table differs in one entry. */
  ghost predicate EntryChanged(t: seq<Byte>, t': seq<Byte>, c: Cluster, value: Cluster)
  {
    && |t| >= TABLE_BYTES && |t'| >= TABLE_BYTES && Entry(t', c) == value
    && forall d: Cluster :: d != c ==> Entry(t', d) == Entry(t, d)
  }

  /** An even block: the search finds the current cluster again and links it to itself. */
  lemma EvenStep(t0: seq<Byte>, t: seq<Byte>, data: seq<Block>, limit: nat, blocks: seq<Block>, i: nat, chain: seq<nat>,
                 next: nat, t': seq<Byte>)
    requires Writing(t0, t, data, limit, blocks, i, chain) && i % 2 == 0 && i + 1 < |blocks|
    requires FirstFree(t, limit, next) && next < CLUSTER_EOF && EntryChanged(t, t', chain[i / 2], next)
    ensures next == chain[i / 2]
    ensures Writing(t0, t', data[next := blocks[i]], limit, blocks, i + 1, chain)
  {
    FirstFreeUnique(t, limit, next, chain[i / 2]);
    hide Entry;
    assert (i + 1) / 2 == i / 2;
  }

  /** An odd block: a new cluster is found and linked. */
  lemma OddStep(t0: seq<Byte>, t: seq<Byte>, data: seq<Block>, limit: nat, blocks: seq<Block>, i: nat, chain: seq<nat>,
                next: nat, t': seq<Byte>)
    requires Writing(t0, t, data, limit, blocks, i, chain) && i % 2 == 1 && i + 1 < |blocks|
    requires FirstFree(t, limit, next) && next < CLUSTER_EOF && EntryChanged(t, t', chain[i / 2], next)
    ensures Writing(t0, t', data[chain[i / 2] := blocks[i]], limit, blocks, i + 1, chain + [next])
  {
    hide Entry;
    NewInChain(t0, t, data, limit, blocks, i, chain, next);
    var h, chain', data' := i / 2, chain + [next], data[chain[i / 2] := blocks[i]];
    assert (i + 1) / 2 == h + 1 && i == 2 * h + 1;
    forall j | 0 <= j < h + 1 ensures Entry(t', chain'[j]) == chain'[j + 1] && data'[chain'[j]] == blocks[2 * j + 1] {
      if j < h { assert chain[j] != chain[h]; }
    }
    forall d: nat | 2 <= d < next ensures !IsFree(t', d) {
      assert !IsFree(t, d);
    }
  }

  /** A cluster that is free now is not in the chain, and was free before. */
  lemma NewInChain(t0: seq<Byte>, t: seq<Byte>, data: seq<Block>, limit: nat, blocks: seq<Block>, i: nat,
                   chain: seq<nat>, c: nat)
    requires Writing(t0, t, data, limit, blocks, i, chain) && i % 2 == 1 && IsFree(t, c)
    ensures c !in chain && IsFree(t0, c)
  {
    hide Entry;
    forall j | 0 <= j < |chain| ensures chain[j] != c {
      assert Entry(t, chain[j]) == chain[if j < i / 2 then j + 1 else j];
    }
  }

  lemma LastStep(t0: seq<Byte>, t: seq<Byte>, data: seq<Block>, limit: nat, blocks: seq<Block>, i: nat, chain: seq<nat>,
                 t': seq<Byte>)
    requires Writing(t0, t, data, limit, blocks, i, chain) && i + 1 == |blocks|
    requires EntryChanged(t, t', chain[i / 2], CLUSTER_EOF)
    ensures Written(t0, t', data[chain[i / 2] := blocks[i]], blocks, chain)
  {
    hide Entry;
  }

  /** The blocks met along a chain, at most n. */
  function Follow(t: seq<Byte>, data: seq<Block>, c: nat, n: nat): seq<Block>
    requires |t| >= TABLE_BYTES && |data| == 4096
    decreases n
  {
    if n == 0 || c >= CLUSTER_EOF then [] else [data[c]] + Follow(t, data, Next(t, c), n - 1)
  }

  lemma FollowEnds(t: seq<Byte>, data: seq<Block>, n: nat)
    requires |t| >= TABLE_BYTES && |data| == 4096
    ensures Follow(t, data, CLUSTER_EOF, n) == []
  {
  }

  lemma {:induction false} FollowWritten(t0: seq<Byte>, t: seq<Byte>, data: seq<Block>, blocks: seq<Block>,
                                         chain: seq<nat>, j: nat, n: nat)
    requires Written(t0, t, data, blocks, chain) && j < |chain| && n >= |chain| - j
    ensures |Follow(t, data, chain[j], n)| == |chain| - j
    ensures forall k :: 0 <= k < |chain| - j ==>
              Follow(t, data, chain[j], n)[k] == blocks[Survivor(|blocks|, j + k)]
    decreases |chain| - j
  {
    hide Entry;
    var rest := Follow(t, data, Next(t, chain[j]), n - 1);
    if j + 1 < |chain| {
      FollowWritten(t0, t, data, blocks, chain, j + 1, n - 1);
      forall k | 0 <= k < |chain| - j ensures ([data[chain[j]]] + rest)[k] == blocks[Survivor(|blocks|, j + k)] {
        if k > 0 { assert rest[k - 1] == blocks[Survivor(|blocks|, j + 1 + (k - 1))]; }
      }
    } else {
      assert Next(t, chain[j]) == Entry(t, chain[j]) == CLUSTER_EOF;
      FollowEnds(t, data, n - 1);
    }
  }

  // ----- when the volume is full

  ghost function FreeClusters(t: seq<Byte>, limit: nat): set<nat>
    requires |t| >= TABLE_BYTES
  {
    set c: nat | c < limit && 2 <= c && IsFree(t, c)
  }

  ghost function MembersOf(chain: seq<nat>): set<nat> { set c | c in chain }

  lemma {:induction false} Members(chain: seq<nat>)
    requires forall j, k :: 0 <= j < k < |chain| ==> chain[j] != chain[k]
    ensures |MembersOf(chain)| == |chain|
  {
    if chain != [] {
      var front, last := chain[..|chain| - 1], chain[|chain| - 1];
      Members(front);
      assert chain == front + [last];
      assert MembersOf(chain) == MembersOf(front) + {last};
      assert last !in front;
    }
  }

  /** The search failed: every cluster free at the start is in the chain. */
  lemma FullVolume(t0: seq<Byte>, t: seq<Byte>, data: seq<Block>, limit: nat, blocks: seq<Block>,
                   i: nat, chain: seq<nat>)
    requires Writing(t0, t, data, limit, blocks, i, chain) && i + 1 < |blocks|
    requires forall d: nat :: 2 <= d < limit ==> !IsFree(t, d)
    ensures |FreeClusters(t0, limit)| < (|blocks| + 1) / 2
  {
    hide Entry;
    assert i % 2 == 0 ==> FirstFree(t, limit, chain[i / 2]);
    assert i % 2 == 1;
    forall c | c in FreeClusters(t0, limit) ensures c in chain {
      assert !IsFree(t, c);
    }
    Members(chain);
    SubsetSize(FreeClusters(t0, limit), MembersOf(chain));
  }

  /** What a failing write leaves: every cluster that was free is now in one chain, whose last
      cluster is linked to itself; all other entries are as before. */
  ghost predicate Lost(t0: seq<Byte>, t: seq<Byte>, limit: nat, chain: seq<nat>)
  {
    && |t0| >= TABLE_BYTES && |t| >= TABLE_BYTES
    && MembersOf(chain) == FreeClusters(t0, limit) && FreeClusters(t, limit) == {}
    && (forall j, k :: 0 <= j < k < |chain| ==> chain[j] != chain[k])
    && (forall j :: 0 <= j < |chain| ==>
          chain[j] < CLUSTER_EOF && Entry(t, chain[j]) == if j + 1 < |chain| then chain[j + 1] else chain[j])
    && (forall d: Cluster :: d !in chain ==> Entry(t, d) == Entry(t0, d))
  }

  lemma FailureLoses(t0: seq<Byte>, t: seq<Byte>, data: seq<Block>, limit: nat, blocks: seq<Block>,
                     i: nat, chain: seq<nat>)
    requires Writing(t0, t, data, limit, blocks, i, chain)
    requires forall d: nat :: 2 <= d < limit ==> !IsFree(t, d)
    ensures Lost(t0, t, limit, chain)
  {
    hide Entry;
    assert i % 2 == 0 ==> FirstFree(t, limit, chain[i / 2]);
    forall c | c in FreeClusters(t0, limit) ensures c in chain {
      assert !IsFree(t, c);
    }
    forall c | c in chain ensures c in FreeClusters(t0, limit) {
      var j :| 0 <= j < |chain| && chain[j] == c;
    }
    assert MembersOf(chain) == FreeClusters(t0, limit);
  }

  lemma EnoughClusters(t0: seq<Byte>, t: seq<Byte>, data: seq<Block>, limit: nat, blocks: seq<Block>, chain: seq<nat>)
    requires Written(t0, t, data, blocks, chain) && forall j :: 0 <= j < |chain| ==> chain[j] < limit
    ensures |FreeClusters(t0, limit)| >= (|blocks| + 1) / 2
  {
    hide Entry;
    Members(chain);
    SubsetSize(MembersOf(chain), FreeClusters(t0, limit));
  }

  lemma ChainBelow(t0: seq<Byte>, t: seq<Byte>, data: seq<Block>, limit: nat, blocks: seq<Block>,
                   i: nat, chain: seq<nat>)
    requires Writing(t0, t, data, limit, blocks, i, chain)
    ensures forall j :: 0 <= j < |chain| ==> chain[j] < limit
  {
  }

  class FileVolume {
    const table: Volume
    /** The data clusters, by number. */
    const data: array<Block>
    /** One past the last cluster of the volume. */
    const limit: nat

    ghost predicate Valid()
      reads this, table, table.fat, data
    {
      table.Valid() && data.Length == 4096
    }

    constructor (table: Volume, data: array<Block>, limit: nat)
      requires table.Valid() && data.Length == 4096
      ensures Valid() && this.table == table && this.data == data && this.limit == limit
    {
      this.table, this.data, this.limit := table, data, limit;
    }

    /** The lowest free cluster, 0 if there is none. */
    method FindFreeCluster() returns (c: nat)
      requires Valid()
      ensures c == 0 ==> forall d: nat :: 2 <= d < limit ==> !IsFree(table.fat[..], d)
      ensures c != 0 ==> c < CLUSTER_EOF && FirstFree(table.fat[..], limit, c)
    {
      hide Entry;
      c := 2;
      while c < limit
        invariant 2 <= c && forall d: nat :: 2 <= d < c ==> !IsFree(table.fat[..], d)
      {
        var next := table.GetNextCluster(c);
        if next == CLUSTER_FREE { return; }
        c := c + 1;
      }
      c := 0;
    }

    /** The allocation loop of Fat1xWriteFile for a non-empty file; 0 when the volume is full. */
    method WriteBlocks(blocks: seq<Block>) returns (start: nat, ghost chain: seq<nat>)
      requires Valid() && |blocks| >= 1
      modifies table.fat, data
      ensures Valid() && table.fat == old(table.fat)
      ensures start == 0 <==> |FreeClusters(old(table.fat[..]), limit)| < (|blocks| + 1) / 2
      ensures start != 0 ==> Written(old(table.fat[..]), table.fat[..], data[..], blocks, chain) && start == chain[0]
      ensures start == 0 ==> Lost(old(table.fat[..]), table.fat[..], limit, chain)
    {
      hide Entry, Writing, Written, Lost;
      ghost var t0 := table.fat[..];
      var current := FindFreeCluster();
      assert table.fat[..] == t0;
      if current == 0 {
        assert FreeClusters(t0, limit) == {};
        NothingLost(t0, limit);
        return 0, [];
      }
      start, chain := current, [current];
      StartWriting(t0, data[..], limit, blocks, current);
      for i := 0 to |blocks|
        invariant Valid() && table.fat == old(table.fat) && |chain| >= 1 && chain[0] == start && start != 0
        invariant i < |blocks| ==> Writing(t0, table.fat[..], data[..], limit, blocks, i, chain)
        invariant i < |blocks| ==> i / 2 + 1 == |chain| && current == chain[i / 2] < CLUSTER_EOF
        invariant i == |blocks| ==> Written(t0, table.fat[..], data[..], blocks, chain)
        invariant i == |blocks| ==> |FreeClusters(t0, limit)| >= (|blocks| + 1) / 2
      {
        ghost var t, d := table.fat[..], data[..];
        data[current] := blocks[i];
        assert data[..] == d[current := blocks[i]];
        if i < |blocks| - 1 {
          var next := FindFreeCluster();
          assert table.fat[..] == t;
          if next == 0 {
            FullVolume(t0, t, d, limit, blocks, i, chain);
            FailureLoses(t0, t, d, limit, blocks, i, chain);
            return 0, chain;
          }
          table.SetFatEntry(current, next);
          if i % 2 == 0 {
            EvenStep(t0, t, d, limit, blocks, i, chain, next, table.fat[..]);
          } else {
            OddStep(t0, t, d, limit, blocks, i, chain, next, table.fat[..]);
            chain := chain + [next];
          }
          current := next;
        } else {
          table.SetFatEntry(current, CLUSTER_EOF);
          LastStep(t0, t, d, limit, blocks, i, chain, table.fat[..]);
          ChainBelow(t0, t, d, limit, blocks, i, chain);
          EnoughClusters(t0, table.fat[..], data[..], limit, blocks, chain);
        }
      }
    }

    /** The loop of Fat1xReadFile over whole clusters. */
    method ReadBlocks(start: nat, n: nat) returns (back: seq<Block>)
      requires Valid()
      ensures back == Follow(table.fat[..], data[..], start, n)
    {
      back := [];
      var cluster: nat, left: nat := start, n;
      while cluster < CLUSTER_EOF && left > 0
        invariant Follow(table.fat[..], data[..], start, n) == back + Follow(table.fat[..], data[..], cluster, left)
        decreases left
      {
        back := back + [data[cluster]];
        cluster := table.GetNextCluster(cluster);
        left := left - 1;
      }
    }

    /** Deleting a file just written gives back every entry of the table. */
    method WriteThenDelete(blocks: seq<Block>) returns (start: nat)
      requires Valid() && |blocks| >= 1
      modifies table.fat, data
      ensures start != 0 ==> forall d: Cluster :: Entry(table.fat[..], d) == old(Entry(table.fat[..], d))
    {
      hide Entry, Written, Lost;
      ghost var t0 := table.fat[..];
      ghost var chain;
      start, chain := WriteBlocks(blocks);
      if start == 0 { return; }
      ghost var t := table.fat[..];
      table.FreeChain(start);
      FreedIsRestored(t0, t, table.fat[..], data[..], blocks, chain);
    }

    /** Writing and reading back: of n blocks only every second one survives, so the
        data comes back exactly when one cluster is enough. */
    method WriteThenRead(blocks: seq<Block>) returns (ok: bool, back: seq<Block>)
      requires Valid()
      modifies table.fat, data
      ensures ok <==> |FreeClusters(old(table.fat[..]), limit)| >= (|blocks| + 1) / 2
      ensures ok ==> |back| == (|blocks| + 1) / 2
      ensures ok ==> forall j :: 0 <= j < |back| ==> back[j] == blocks[Survivor(|blocks|, j)]
      ensures ok ==> (back == blocks <==> |blocks| <= 1)
    {
      if |blocks| == 0 { return true, []; }
      hide Entry, Follow;
      var start;
      ghost var chain;
      ghost var t0 := table.fat[..];
      start, chain := WriteBlocks(blocks);
      if start == 0 { return false, []; }
      back := ReadBlocks(start, |blocks|);
      FollowWritten(t0, table.fat[..], data[..], blocks, chain, 0, |blocks|);
      ok := true;
    }
  }

  /** The clusters met along a written chain are the chain itself. */
  lemma {:induction false} ChainOfWritten(t0: seq<Byte>, t: seq<Byte>, data: seq<Block>, blocks: seq<Block>,
                                          chain: seq<nat>, j: nat)
    requires Written(t0, t, data, blocks, chain) && j < |chain|
    ensures Chain(t, chain[j], MembersOf(chain[..j])) == MembersOf(chain[j..])
    decreases |chain| - j
  {
    hide Entry;
    var c, seen := chain[j], MembersOf(chain[..j]);
    assert c !in seen;
    assert chain[j..] == [c] + chain[j + 1..];
    assert MembersOf(chain[j..]) == {c} + MembersOf(chain[j + 1..]);
    assert chain[..j + 1] == chain[..j] + [c];
    assert seen + {c} == MembersOf(chain[..j + 1]);
    if j + 1 < |chain| {
      assert Next(t, c) == chain[j + 1];
      ChainOfWritten(t0, t, data, blocks, chain, j + 1);
    } else {
      assert Next(t, c) == CLUSTER_EOF && MembersOf(chain[j + 1..]) == {};
    }
  }

  /** Freeing it restores the table. */
  lemma FreedIsRestored(t0: seq<Byte>, t: seq<Byte>, t': seq<Byte>, data: seq<Block>, blocks: seq<Block>,
                        chain: seq<nat>)
    requires Written(t0, t, data, blocks, chain) && |t'| >= TABLE_BYTES
    requires forall d: Cluster :: Entry(t', d) == if d in Chain(t, chain[0], {}) then CLUSTER_FREE else Entry(t, d)
    ensures forall d: Cluster :: Entry(t', d) == Entry(t0, d)
  {
    hide Entry;
    assert MembersOf(chain[..0]) == {} && chain[0..] == chain;
    ChainOfWritten(t0, t, data, blocks, chain, 0);
    forall d: Cluster ensures Entry(t', d) == Entry(t0, d) {
      if d in chain {
        var j :| 0 <= j < |chain| && chain[j] == d;
        assert IsFree(t0, chain[j]);
      }
    }
  }

  lemma NothingLost(t: seq<Byte>, limit: nat)
    requires |t| >= TABLE_BYTES && FreeClusters(t, limit) == {}
    ensures Lost(t, t, limit, [])
  {
  }

  lemma StartWriting(t: seq<Byte>, data: seq<Block>, limit: nat, blocks: seq<Block>, c: nat)
    requires |t| >= TABLE_BYTES && |data| == 4096 && |blocks| >= 1 && FirstFree(t, limit, c)
    ensures Writing(t, t, data, limit, blocks, 0, [c])
  {
  }
}
