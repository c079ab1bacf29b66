/** A FAT12 table, packed as in fs/FAT/FAT1x.c: two entries share every third byte. */
module Fat12 {
  import opened Words

  const CLUSTER_FREE: nat := 0x000
  const CLUSTER_EOF: nat := 0xFF8
  /** Bytes that hold an entry for every 12-bit cluster number. */
  const TABLE_BYTES: nat := 6144

  type Cluster = c: nat | c < 4096

  function Offset(c: Cluster): nat { c + c / 2 }

  /** The little-endian 16-bit load at an entry. */
  function Load16(t: seq<Byte>, o: nat): nat
    requires o + 1 < |t|
  {
    (t[o] as nat) + (t[o + 1] as nat) * 256
  }

  function Store16(t: seq<Byte>, o: nat, w: nat): (r: seq<Byte>)
    requires o + 1 < |t| && w < 0x1_0000
    ensures |r| == |t|
  {
    t[o := w % 256][o + 1 := w / 256]
  }

  /** The 12-bit entry of a cluster. */
  function Entry(t: seq<Byte>, c: Cluster): (e: Cluster)
    requires |t| >= TABLE_BYTES
  {
    var w := Load16(t, Offset(c));
    if c % 2 == 1 then w / 16 % 4096 else w % 4096
  }

  /** The table with a cluster's entry replaced. */
  function WithEntry(t: seq<Byte>, c: Cluster, value: nat): (r: seq<Byte>)
    requires |t| >= TABLE_BYTES
    ensures |r| == |t|
  {
    var w := Load16(t, Offset(c));
    Store16(t, Offset(c), if c % 2 == 1 then w % 16 + value % 4096 * 16 else w / 4096 * 4096 + value % 4096)
  }

  /** The entry is replaced. */
  lemma EntrySet(t: seq<Byte>, c: Cluster, value: nat)
    requires |t| >= TABLE_BYTES
    ensures Entry(WithEntry(t, c, value), c) == value % 4096
  {
    var w := Load16(t, Offset(c));
    NewWord(w, value % 4096);
    assert Load16(WithEntry(t, c, value), Offset(c)) ==
           if c % 2 == 1 then w % 16 + value % 4096 * 16 else w / 4096 * 4096 + value % 4096;
  }

  lemma NewWord(w: nat, v: Cluster)
    requires w < 0x1_0000
    ensures (w % 16 + v * 16) / 16 % 4096 == v && w % 16 + v * 16 < 0x1_0000
    ensures (w / 4096 * 4096 + v) % 4096 == v && w / 4096 * 4096 + v < 0x1_0000
  {
  }

  /** The nibbles an entry is made of. */
  lemma EntryNibbles(t: seq<Byte>, c: Cluster)
    requires |t| >= TABLE_BYTES
    ensures var o := Offset(c);
            Entry(t, c) == if c % 2 == 1 then t[o] / 16 + (t[o + 1] as nat) * 16
                           else (t[o] as nat) + (t[o + 1] as nat) % 16 * 256
  {
    var o := Offset(c);
    WordNibbles(t[o], t[o + 1]);
  }

  lemma WordNibbles(lo: Byte, hi: Byte)
    ensures ((lo as nat) + (hi as nat) * 256) / 16 % 4096 == lo / 16 + (hi as nat) * 16
    ensures ((lo as nat) + (hi as nat) * 256) % 4096 == (lo as nat) + (hi as nat) % 16 * 256
  {
  }

  /** What a store leaves in the byte it shares with a neighbour. */
  lemma SharedByte(t: seq<Byte>, c: Cluster, value: nat)
    requires |t| >= TABLE_BYTES
    ensures var o, t' := Offset(c), WithEntry(t, c, value);
            && (c % 2 == 1 ==> (t'[o] as nat) % 16 == (t[o] as nat) % 16)
            && (c % 2 == 0 ==> t'[o + 1] / 16 == t[o + 1] / 16)
            && (forall k :: 0 <= k < |t| && k != o && k != o + 1 ==> t'[k] == t[k])
  {
    var o := Offset(c);
    OddWord(t[o], t[o + 1], value % 4096);
    EvenWord(t[o], t[o + 1], value % 4096);
  }

  lemma OddWord(lo: Byte, hi: Byte, v: Cluster)
    ensures (((lo as nat) + (hi as nat) * 256) % 16 + v * 16) % 256 % 16 == (lo as nat) % 16
  {
    var r := (lo as nat) % 16;
    assert ((lo as nat) + (hi as nat) * 256) % 16 == r;
    assert v * 16 == v / 16 * 256 + v % 16 * 16;
    assert (r + v * 16) % 256 == r + v % 16 * 16;
  }

  lemma EvenWord(lo: Byte, hi: Byte, v: Cluster)
    ensures (((lo as nat) + (hi as nat) * 256) / 4096 * 4096 + v) / 256 / 16 == hi / 16
  {
  }

  /** No other entry changes, not even the one that shares a byte. */
  lemma EntryKept(t: seq<Byte>, c: Cluster, value: nat, d: Cluster)
    requires |t| >= TABLE_BYTES && d != c
    ensures Entry(WithEntry(t, c, value), d) == Entry(t, d)
  {
    var t' := WithEntry(t, c, value);
    hide Entry, WithEntry;
    EntryNibbles(t, d);
    EntryNibbles(t', d);
    SharedByte(t, c, value);
    Apart(c, d);
  }

  lemma Apart(c: Cluster, d: Cluster)
    requires c != d
    ensures var o, p := Offset(c), Offset(d);
            if c % 2 == 1 && d == c - 1 then p + 1 == o
            else if c % 2 == 0 && d == c + 1 then o + 1 == p
            else p + 1 < o || o + 1 < p
  {
  }

  /** The first bytes of a table, F8 FF FF 03 40 00, hold the entries FF8, FFF, 003 and 004. */
  lemma HeadOfTable(t: seq<Byte>)
    requires |t| >= TABLE_BYTES && t[..6] == [0xF8, 0xFF, 0xFF, 0x03, 0x40, 0x00]
    ensures Entry(t, 0) == 0xFF8 && Entry(t, 1) == 0xFFF && Entry(t, 2) == 3 && Entry(t, 3) == 4
  {
    assert forall k :: 0 <= k < 6 ==> t[k] == t[..6][k];
  }

  // ----- chains

  predicate InChain(c: nat) { 2 <= c < CLUSTER_EOF }

  /** The next cluster, `Fat12GetNextCluster`. */
  function Next(t: seq<Byte>, c: nat): (n: nat)
    requires |t| >= TABLE_BYTES
  {
    if c >= CLUSTER_EOF then CLUSTER_EOF else Entry(t, c)
  }

  ghost function Clusters(): set<nat> { set c: nat | c < 4096 && InChain(c) }

  /** The clusters met from c on, stopping at the first repetition. */
  ghost function Chain(t: seq<Byte>, c: nat, seen: set<nat>): set<nat>
    requires |t| >= TABLE_BYTES
    decreases Clusters() - seen
  {
    if !InChain(c) || c in seen then {} else {c} + Chain(t, Next(t, c), seen + {c})
  }

  /** d is met after n links, all clusters up to it being in range. */
  ghost predicate Reaches(t: seq<Byte>, c: nat, d: nat, n: nat)
    requires |t| >= TABLE_BYTES
    decreases n
  {
    InChain(c) && if n == 0 then c == d else Reaches(t, Next(t, c), d, n - 1)
  }

  lemma {:induction false} ChainIsReached(t: seq<Byte>, c: nat, seen: set<nat>, d: nat)
    requires |t| >= TABLE_BYTES && d in Chain(t, c, seen)
    ensures exists n: nat :: Reaches(t, c, d, n)
    decreases Clusters() - seen
  {
    if d == c {
      assert Reaches(t, c, d, 0);
    } else {
      ChainIsReached(t, Next(t, c), seen + {c}, d);
      var n: nat :| Reaches(t, Next(t, c), d, n);
      assert Reaches(t, c, d, n + 1);
    }
  }

  /** Where a link leads from inside the chain: out of range, into the chain, or back to what was seen. */
  lemma {:induction false} ChainIsClosed(t: seq<Byte>, c: nat, seen: set<nat>, x: nat)
    requires |t| >= TABLE_BYTES && x in Chain(t, c, seen)
    ensures InChain(x) && (InChain(Next(t, x)) ==> Next(t, x) in Chain(t, c, seen) + seen)
    decreases Clusters() - seen
  {
    if x != c {
      ChainIsClosed(t, Next(t, c), seen + {c}, x);
    }
  }

  lemma {:induction false} ReachedStaysInside(t: seq<Byte>, c: nat, x: nat, d: nat, n: nat)
    requires |t| >= TABLE_BYTES && x in Chain(t, c, {}) && Reaches(t, x, d, n)
    ensures d in Chain(t, c, {})
    decreases n
  {
    if n > 0 {
      ChainIsClosed(t, c, {}, x);
      ReachedStaysInside(t, c, Next(t, x), d, n - 1);
    }
  }

  /** The chain is exactly what following links reaches. */
  lemma ChainMeaning(t: seq<Byte>, c: nat, d: nat)
    requires |t| >= TABLE_BYTES
    ensures d in Chain(t, c, {}) <==> exists n: nat :: Reaches(t, c, d, n)
  {
    if d in Chain(t, c, {}) {
      ChainIsReached(t, c, {}, d);
    }
    if exists n: nat :: Reaches(t, c, d, n) {
      var n: nat :| Reaches(t, c, d, n);
      ReachedStaysInside(t, c, c, d, n);
    }
  }

  class Volume {
    var fat: array<Byte>

    ghost predicate Valid()
      reads this, fat
    {
      fat.Length >= TABLE_BYTES
    }

    constructor (fat: array<Byte>)
      requires fat.Length >= TABLE_BYTES
      ensures Valid() && this.fat == fat
    {
      this.fat := fat;
    }

    method GetNextCluster(c: nat) returns (n: nat)
      requires Valid()
      ensures n == Next(fat[..], c) < 4096
    {
      if c >= CLUSTER_EOF { return CLUSTER_EOF; }
      var o := c + c / 2;
      var w := (fat[o] as nat) + (fat[o + 1] as nat) * 256;
      n := if c % 2 == 1 then w / 16 % 4096 else w % 4096;
    }

    method SetFatEntry(c: Cluster, value: nat)
      requires Valid()
      modifies fat
      ensures Entry(fat[..], c) == value % 4096
      ensures forall d: Cluster :: d != c ==> Entry(fat[..], d) == old(Entry(fat[..], d))
    {
      ghost var t := fat[..];
      var o := c + c / 2;
      var w := (fat[o] as nat) + (fat[o + 1] as nat) * 256;
      var w' := if c % 2 == 1 then w % 16 + value % 4096 * 16 else w / 4096 * 4096 + value % 4096;
      fat[o] := w' % 256;
      fat[o + 1] := w' / 256;
      assert fat[..] == WithEntry(t, c, value);
      EntrySet(t, c, value);
      forall d: Cluster | d != c ensures Entry(fat[..], d) == Entry(t, d) {
        EntryKept(t, c, value, d);
      }
    }

    /** Free the chain from `start`, whatever the table holds: the loop ends,
        clears the clusters it meets and touches no other entry. */
    method FreeChain(start: nat)
      requires Valid()
      modifies fat
      ensures forall d: Cluster ::
                Entry(fat[..], d) ==
                  if d in Chain(old(fat[..]), start, {}) then CLUSTER_FREE else old(Entry(fat[..], d))
    {
      hide Entry;
      ghost var t, visited := fat[..], {};
      var cluster := start;
      while InChain(cluster)
        invariant Chain(t, start, {}) == visited + Chain(t, cluster, visited)
        invariant forall d: Cluster :: Entry(fat[..], d) == if d in visited then CLUSTER_FREE else Entry(t, d)
        decreases Clusters() - visited, if InChain(cluster) then 1 else 0
      {
        var next := GetNextCluster(cluster);
        SetFatEntry(cluster, CLUSTER_FREE);
        visited := visited + {cluster};
        cluster := next;
      }
    }
  }
}
