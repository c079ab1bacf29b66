/** Directory blocks of fs/EXT/Ext2.c: records of variable length that tile a
    block, split by insertion and merged by deletion. */
module Ext2Block {
  import opened Words

  const HEADER: nat := 8
  const NAME_MAX: nat := 255
  const DIRECT_BLOCKS: nat := 12

  // ----- records in a block

  function U16(b: seq<Byte>, o: nat): (w: nat)
    requires o + 2 <= |b|
    ensures w < 0x1_0000
  {
    (b[o] as nat) + (b[o + 1] as nat) * 256
  }

  function U32(b: seq<Byte>, o: nat): nat
    requires o + 4 <= |b|
  {
    U16(b, o) + U16(b, o + 2) * 0x1_0000
  }

  /** A record: inode number (0 when unused), record length, file type, name. */
  datatype Record = Record(inode: nat, len: nat, kind: Byte, name: seq<Byte>)

  /** A record starts at o, ends by e, is a multiple of four long and holds its name. */
  predicate RecordFits(b: seq<Byte>, o: nat, e: nat)
  {
    && o + HEADER <= e <= |b|
    && HEADER + b[o + 6] <= U16(b, o + 4) && U16(b, o + 4) % 4 == 0
    && o + U16(b, o + 4) <= e
  }

  function RecordAt(b: seq<Byte>, o: nat): Record
    requires RecordFits(b, o, |b|)
  {
    Record(U32(b, o), U16(b, o + 4), b[o + 7], b[o + HEADER..o + HEADER + b[o + 6]])
  }

  /** The bytes from o to e are exactly tiled by records. */
  predicate Tiled(b: seq<Byte>, o: nat, e: nat)
    decreases e - o
  {
    o == e || (RecordFits(b, o, e) && Tiled(b, o + U16(b, o + 4), e))
  }

  function Records(b: seq<Byte>, o: nat, e: nat): seq<Record>
    requires Tiled(b, o, e)
    decreases e - o
  {
    if o == e then [] else [RecordAt(b, o)] + Records(b, o + U16(b, o + 4), e)
  }

  lemma {:induction false} TiledJoin(b: seq<Byte>, o: nat, p: nat, e: nat)
    requires o <= p <= e && Tiled(b, o, p) && Tiled(b, p, e)
    ensures Tiled(b, o, e) && Records(b, o, e) == Records(b, o, p) + Records(b, p, e)
    decreases p - o
  {
    hide U16, U32, RecordAt;
    if o < p {
      TiledJoin(b, o + U16(b, o + 4), p, e);
    }
  }

  lemma OneRecord(b: seq<Byte>, o: nat)
    requires RecordFits(b, o, |b|)
    ensures var e := o + U16(b, o + 4); Tiled(b, o, e) && Records(b, o, e) == [RecordAt(b, o)]
  {
    var e := o + U16(b, o + 4);
    assert Tiled(b, e, e) && RecordFits(b, o, e);
    assert Records(b, e, e) == [];
  }

  /** The blocks hold the same bytes from o to e. */
  ghost predicate Agree(b: seq<Byte>, b': seq<Byte>, o: nat, e: nat)
  {
    e <= |b| && e <= |b'| && forall i :: o <= i < e ==> b[i] == b'[i]
  }

  lemma SameRecord(b: seq<Byte>, b': seq<Byte>, o: nat, e: nat)
    requires Agree(b, b', o, e) && RecordFits(b, o, e)
    ensures RecordFits(b', o, e) && RecordAt(b', o) == RecordAt(b, o) && U16(b', o + 4) == U16(b, o + 4)
    ensures o + 8 <= o + U16(b, o + 4) <= e
  {
    assert RecordAt(b', o).name == RecordAt(b, o).name;
  }

  /** Records depend on their own bytes only. */
  lemma {:induction false} SameRecords(b: seq<Byte>, b': seq<Byte>, o: nat, e: nat)
    requires o <= e && Agree(b, b', o, e) && Tiled(b, o, e)
    ensures Tiled(b', o, e) && Records(b', o, e) == Records(b, o, e)
    decreases e - o
  {
    if o < e {
      SameRecord(b, b', o, e);
      hide U16, U32, RecordAt, RecordFits;
      SameRecords(b, b', o + U16(b, o + 4), e);
    }
  }

  // ----- what a directory means

  /** A name in use and its inode. */
  datatype Link = Link(name: seq<Byte>, inode: nat)

  function Live(rs: seq<Record>): seq<Link>
  {
    if rs == [] then []
    else (if rs[0].inode != 0 then [Link(rs[0].name, rs[0].inode)] else []) + Live(rs[1..])
  }

  /** The inode of the first link with the name, 0 when there is none. */
  function Lookup(links: seq<Link>, name: seq<Byte>): nat
  {
    if links == [] then 0
    else if links[0].name == name then links[0].inode
    else Lookup(links[1..], name)
  }

  function RemoveFirst(links: seq<Link>, inode: nat): seq<Link>
  {
    if links == [] then []
    else if links[0].inode == inode then links[1..]
    else [links[0]] + RemoveFirst(links[1..], inode)
  }

  ghost predicate HasInode(links: seq<Link>, inode: nat)
  {
    exists i :: 0 <= i < |links| && links[i].inode == inode
  }

  lemma {:induction false} LiveJoin(r: seq<Record>, s: seq<Record>)
    ensures Live(r + s) == Live(r) + Live(s)
  {
    if r == [] {
      assert r + s == s;
    } else {
      assert (r + s)[1..] == r[1..] + s;
      LiveJoin(r[1..], s);
    }
  }

  lemma {:induction false} LookupJoin(x: seq<Link>, y: seq<Link>, name: seq<Byte>)
    requires forall i :: 0 <= i < |x| ==> x[i].inode != 0
    ensures Lookup(x + y, name) == if Lookup(x, name) != 0 then Lookup(x, name) else Lookup(y, name)
  {
    if x == [] {
      assert x + y == y;
    } else {
      assert (x + y)[1..] == x[1..] + y;
      LookupJoin(x[1..], y, name);
    }
  }

  lemma {:induction false} LiveNonzero(rs: seq<Record>)
    ensures forall i :: 0 <= i < |Live(rs)| ==> Live(rs)[i].inode != 0
  {
    if rs != [] { LiveNonzero(rs[1..]); }
  }

  lemma {:induction false} RemoveJoin(x: seq<Link>, y: seq<Link>, inode: nat)
    ensures HasInode(x, inode) ==> RemoveFirst(x + y, inode) == RemoveFirst(x, inode) + y
    ensures !HasInode(x, inode) ==> RemoveFirst(x + y, inode) == x + RemoveFirst(y, inode)
  {
    if x == [] {
      assert x + y == y;
    } else {
      assert (x + y)[1..] == x[1..] + y;
      RemoveJoin(x[1..], y, inode);
      if x[0].inode != inode {
        assert HasInode(x, inode) == HasInode(x[1..], inode) by {
          if HasInode(x, inode) {
            var i :| 0 <= i < |x| && x[i].inode == inode;
            assert x[1..][i - 1].inode == inode;
          }
          if HasInode(x[1..], inode) {
            var i :| 0 <= i < |x[1..]| && x[1..][i].inode == inode;
            assert x[i + 1].inode == inode;
          }
        }
      }
    }
  }

  // ----- walking a block

  /** The walk has tiled the bytes before o, and the rest is tiled too. */
  ghost predicate Boundary(b: seq<Byte>, o: nat)
  {
    o <= |b| && Tiled(b, 0, o) && Tiled(b, o, |b|)
  }

  lemma NextBoundary(b: seq<Byte>, o: nat)
    requires Boundary(b, o) && o < |b|
    ensures RecordFits(b, o, |b|)
    ensures var n := o + U16(b, o + 4);
            && o + HEADER <= n && Boundary(b, n) && Tiled(b, 0, |b|)
            && Records(b, 0, n) == Records(b, 0, o) + [RecordAt(b, o)]
            && Records(b, 0, |b|) == Records(b, 0, o) + ([RecordAt(b, o)] + Records(b, n, |b|))
  {
    var n := o + U16(b, o + 4);
    OneRecord(b, o);
    hide U16, RecordAt;
    TiledJoin(b, 0, o, n);
    TiledJoin(b, 0, o, |b|);
  }

  /** The links of a block; no bytes stand for a block that is missing or unreadable. */
  function BlockLinks(b: seq<Byte>): seq<Link>
    requires Tiled(b, 0, |b|)
  {
    Live(Records(b, 0, |b|))
  }

  /** Names are compared by their first 255 bytes, `FastStrlen(name, 255)`. */
  function Clip(name: seq<Byte>): seq<Byte>
  {
    if |name| <= NAME_MAX then name else name[..NAME_MAX]
  }

  lemma LookupStep(b: seq<Byte>, o: nat, name: seq<Byte>)
    requires Boundary(b, o) && o < |b| && Lookup(Live(Records(b, 0, o)), name) == 0
    ensures Boundary(b, o) && RecordFits(b, o, |b|)
    ensures var r := RecordAt(b, o); var n := o + U16(b, o + 4);
            && Boundary(b, n) && Tiled(b, 0, |b|)
            && (r.inode != 0 && r.name == name ==> BlockLinks(b) != [] && Lookup(BlockLinks(b), name) == r.inode)
            && (!(r.inode != 0 && r.name == name) ==> Lookup(Live(Records(b, 0, n)), name) == 0)
  {
    NextBoundary(b, o);
    var r := RecordAt(b, o);
    var n := o + U16(b, o + 4);
    hide U16, RecordAt, RecordFits, Tiled;
    LiveNonzero(Records(b, 0, o));
    LiveJoin(Records(b, 0, o), [r]);
    LiveJoin(Records(b, 0, o), [r] + Records(b, n, |b|));
    assert ([r] + Records(b, n, |b|))[1..] == Records(b, n, |b|);
    assert [r][1..] == [];
    LookupJoin(Live(Records(b, 0, o)), Live([r]), name);
    LookupJoin(Live(Records(b, 0, o)), Live([r] + Records(b, n, |b|)), name);
  }

  // ----- the bytes on disk

  /** A directory entry, packed and little-endian. */
  ghost predicate OnDisk(b: seq<Byte>, o: nat, inode: nat, len: nat, kind: Byte, name: seq<Byte>)
  {
    && o + 8 + |name| <= |b|
    && inode == (b[o] as int) + 256 * (b[o + 1] as int) + 65536 * (b[o + 2] as int) + 16777216 * (b[o + 3] as int)
    && len == (b[o + 4] as int) + 256 * (b[o + 5] as int)
    && b[o + 6] == |name| && b[o + 7] == kind && b[o + 8..o + 8 + |name|] == name
  }

  /** A record is what its bytes say, and nothing else is. */
  lemma RecordBytes(b: seq<Byte>, o: nat, inode: nat, len: nat, kind: Byte, name: seq<Byte>)
    requires RecordFits(b, o, |b|)
    ensures RecordAt(b, o) == Record(inode, len, kind, name) <==> OnDisk(b, o, inode, len, kind, name)
  {
    var k := b[o + 6] as nat;
    assert |b[o + 8..o + 8 + k]| == k;
  }

  /** A live record with the name starts at o. */
  ghost predicate NamedAt(b: seq<Byte>, o: nat, name: seq<Byte>)
  {
    && Boundary(b, o) && o < |b|
    && exists inode: nat, len: nat, kind: Byte :: inode != 0 && OnDisk(b, o, inode, len, kind, name)
  }

  /** The lookup returns the four inode bytes of the first live record with the name. */
  lemma LookupBytes(b: seq<Byte>, o: nat, inode: nat, len: nat, kind: Byte, name: seq<Byte>)
    requires Boundary(b, o) && o < |b| && inode != 0 && OnDisk(b, o, inode, len, kind, name)
    requires forall p: nat :: p < o ==> !NamedAt(b, p, name)
    ensures Tiled(b, 0, |b|) && Lookup(BlockLinks(b), name) == inode
  {
    hide Records, Live, Lookup, OnDisk, NamedAt;
    WholeBlock(b, o, name);
    NoneBefore(b, 0, o, name);
    LookupStep(b, o, name);
    RecordBytes(b, o, inode, len, kind, name);
  }

  lemma WholeBlock(b: seq<Byte>, o: nat, name: seq<Byte>)
    requires Boundary(b, o)
    ensures Boundary(b, 0) && Tiled(b, 0, o) && Lookup(Live(Records(b, 0, 0)), name) == 0
  {
    TiledJoin(b, 0, o, |b|);
  }

  /** The search from q reaches o without a match. */
  lemma {:induction false} NoneBefore(b: seq<Byte>, q: nat, o: nat, name: seq<Byte>)
    requires Boundary(b, q) && q <= o <= |b| && Tiled(b, q, o) && Lookup(Live(Records(b, 0, q)), name) == 0
    requires forall p: nat :: p < o ==> !NamedAt(b, p, name)
    ensures Boundary(b, o) && Lookup(Live(Records(b, 0, o)), name) == 0
    decreases o - q
  {
    if q < o {
      LookupStep(b, q, name);
      NotNamed(b, q, name);
      NoneBefore(b, q + U16(b, q + 4), o, name);
    }
  }

  lemma NotNamed(b: seq<Byte>, o: nat, name: seq<Byte>)
    requires Boundary(b, o) && o < |b| && RecordFits(b, o, |b|) && !NamedAt(b, o, name)
    ensures !(RecordAt(b, o).inode != 0 && RecordAt(b, o).name == name)
  {
    var r := RecordAt(b, o);
    RecordBytes(b, o, r.inode, r.len, r.kind, r.name);
  }

  /** A block of 1024 bytes whose one record is 0C 00 00 00 00 04 01 01 'f'. */
  function OneEntry(): (b: seq<Byte>)
    ensures |b| == 1024
  {
    [0x0C, 0, 0, 0, 0, 4, 1, 1, 0x66] + seq(1015, _ => 0)
  }

  lemma OneEntryFound()
    ensures Tiled(OneEntry(), 0, 1024) && Lookup(BlockLinks(OneEntry()), [0x66]) == 12
  {
    var b := OneEntry();
    assert b[8..9] == [0x66];
    assert Tiled(b, 0, 0) && Tiled(b, 1024, 1024);
    assert Boundary(b, 0);
    LookupBytes(b, 0, 12, 1024, 1, [0x66]);
  }

  /** One block of Ext2FindInDir. */
  method FindInBlock(buffer: array<Byte>, name: seq<Byte>) returns (inode: nat)
    requires Tiled(buffer[..], 0, buffer.Length)
    ensures inode == Lookup(BlockLinks(buffer[..]), Clip(name))
  {
    hide Tiled, Records, RecordFits, U16, U32, Live, Lookup;
    ghost var b := buffer[..];
    var nameLen := if |name| <= NAME_MAX then |name| else NAME_MAX;
    var offset := 0;
    StartOfBlock(b, Clip(name));
    while offset < buffer.Length
      invariant offset <= |b| && Boundary(b, offset)
      invariant Lookup(Live(Records(b, 0, offset)), Clip(name)) == 0
    {
      LookupStep(b, offset, Clip(name));
      StepForward(b, offset);
      if U32(buffer[..], offset) != 0 && buffer[offset + 6] == nameLen {
        if buffer[offset + HEADER..offset + HEADER + nameLen] == name[..nameLen] {
          return U32(buffer[..], offset);
        }
      }
      offset := offset + U16(buffer[..], offset + 4);
    }
    inode := 0;
  }

  lemma StartOfBlock(b: seq<Byte>, name: seq<Byte>)
    requires Tiled(b, 0, |b|)
    ensures Boundary(b, 0) && Records(b, 0, 0) == [] && Live([]) == [] && Lookup([], name) == 0
  {
  }

  lemma StepForward(b: seq<Byte>, o: nat)
    requires RecordFits(b, o, |b|)
    ensures o + HEADER <= o + U16(b, o + 4) <= |b| && o + HEADER + b[o + 6] <= o + U16(b, o + 4)
  {
  }

  // ----- inserting into a block

  function Aligned(n: nat): (r: nat)
    ensures r % 4 == 0 && n <= r < n + 4
  {
    if n % 4 != 0 then n + (4 - n % 4) else n
  }

  /** The bytes the last record can give up. */
  function Room(r: Record): int { r.len - Aligned(HEADER + |r.name|) }

  /** A record header and name written at q. */
  ghost predicate Written(b: seq<Byte>, q: nat, r: Record)
  {
    && q + HEADER + |r.name| <= |b| && |r.name| <= NAME_MAX
    && U32(b, q) == r.inode && U16(b, q + 4) == r.len && b[q + 6] == |r.name| && b[q + 7] == r.kind
    && b[q + HEADER..q + HEADER + |r.name|] == r.name
  }

  lemma WrittenRecord(b: seq<Byte>, q: nat, r: Record)
    requires Written(b, q, r) && HEADER + |r.name| <= r.len && r.len % 4 == 0 && q + r.len == |b|
    ensures RecordFits(b, q, |b|) && RecordAt(b, q) == r && Boundary(b, |b|) == Tiled(b, 0, |b|)
    ensures Tiled(b, q, |b|) && Records(b, q, |b|) == [r]
  {
    OneRecord(b, q);
  }

  /** The record at p shortened or lengthened, its header and name kept. */
  lemma Resized(b: seq<Byte>, b': seq<Byte>, p: nat, n: nat)
    requires RecordFits(b, p, |b|) && |b'| == |b| && p + n <= |b| && n % 4 == 0 && HEADER + b[p + 6] <= n
    requires Agree(b, b', p, p + 4) && U16(b', p + 4) == n && Agree(b, b', p + 6, p + HEADER + b[p + 6])
    ensures RecordFits(b', p, |b'|) && RecordAt(b', p) == RecordAt(b, p).(len := n)
    ensures Tiled(b', p, p + n) && Records(b', p, p + n) == [RecordAt(b, p).(len := n)]
  {
    assert b'[p + HEADER..p + HEADER + b[p + 6]] == b[p + HEADER..p + HEADER + b[p + 6]];
    OneRecord(b', p);
  }

  lemma Remainder(len: nat, n: nat)
    requires len % 4 == 0 && n <= len
    ensures Aligned(n) <= len && (len - Aligned(n)) % 4 == 0
  {
  }

  lemma SameU16(b: seq<Byte>, b': seq<Byte>, o: nat)
    requires Agree(b, b', o, o + 2)
    ensures U16(b, o) == U16(b', o)
  {
  }

  /** The last record, at p, has given its bytes from q on to the record r. */
  ghost predicate Split(b: seq<Byte>, b': seq<Byte>, p: nat, q: nat, r: Record)
  {
    && Boundary(b, p) && RecordFits(b, p, |b|) && p + U16(b, p + 4) == |b| == |b'|
    && q == p + Aligned(HEADER + b[p + 6]) && q + r.len == |b| && HEADER + |r.name| <= r.len
    && Agree(b, b', 0, p + 4) && U16(b', p + 4) == q - p && Agree(b, b', p + 6, q) && Written(b', q, r)
  }

  lemma SplitTail(b: seq<Byte>, b': seq<Byte>, p: nat, q: nat, r: Record)
    requires Split(b, b', p, q, r)
    ensures p + HEADER <= q <= |b'| == |b| && Tiled(b, 0, p) && Agree(b, b', 0, p)
    ensures Tiled(b, p, |b|) && Records(b, p, |b|) == [RecordAt(b, p)]
    ensures Tiled(b', p, q) && Records(b', p, q) == [RecordAt(b, p).(len := q - p)]
    ensures Tiled(b', q, |b'|) && Records(b', q, |b'|) == [r]
  {
    hide Tiled, Records;
    OneRecord(b, p);
    Remainder(U16(b, p + 4), HEADER + b[p + 6]);
    hide Aligned;
    WrittenRecord(b', q, r);
    Resized(b, b', p, q - p);
  }

  /** Splitting the last record keeps the tiling and adds one record. */
  lemma SplitLast(b: seq<Byte>, b': seq<Byte>, p: nat, q: nat, r: Record)
    requires Split(b, b', p, q, r)
    ensures Tiled(b, 0, |b|) && Records(b, 0, |b|) == Records(b, 0, p) + [RecordAt(b, p)]
    ensures Tiled(b', 0, |b'|)
    ensures Records(b', 0, |b'|) == Records(b, 0, p) + [RecordAt(b, p).(len := q - p)] + [r]
  {
    SplitTail(b, b', p, q, r);
    hide Tiled, Records, U16, RecordAt, RecordFits, Written, Aligned, Split;
    TiledJoin(b, 0, p, |b|);
    SameRecords(b, b', 0, p);
    TiledJoin(b', 0, p, q);
    TiledJoin(b', 0, q, |b'|);
  }

  function NewLinks(name: seq<Byte>, inode: nat): seq<Link>
  {
    if inode != 0 then [Link(name, inode)] else []
  }

  lemma OneLive(r: Record)
    ensures Live([r]) == NewLinks(r.name, r.inode)
  {
    assert [r][1..] == [];
  }

  /** The links after a split: the new one comes last. */
  lemma SplitLinks(front: seq<Record>, last: Record, n: nat, r: Record)
    ensures Live(front + [last.(len := n)] + [r]) == Live(front + [last]) + NewLinks(r.name, r.inode)
  {
    LiveJoin(front + [last.(len := n)], [r]);
    LiveJoin(front, [last.(len := n)]);
    LiveJoin(front, [last]);
    OneLive(last);
    OneLive(last.(len := n));
    OneLive(r);
  }

  method Put16(buffer: array<Byte>, o: nat, v: nat)
    requires o + 2 <= buffer.Length && v < 0x1_0000
    modifies buffer
    ensures U16(buffer[..], o) == v
    ensures forall i :: 0 <= i < buffer.Length && !(o <= i < o + 2) ==> buffer[i] == old(buffer[i])
  {
    buffer[o] := v % 256;
    buffer[o + 1] := v / 256;
  }

  method PutRecord(buffer: array<Byte>, q: nat, inode: Word32, len: nat, kind: Byte, name: seq<Byte>)
    requires q + HEADER + |name| <= buffer.Length && |name| <= NAME_MAX && len < 0x1_0000
    modifies buffer
    ensures Written(buffer[..], q, Record(inode, len, kind, name))
    ensures forall i :: 0 <= i < q ==> buffer[i] == old(buffer[i])
  {
    Put16(buffer, q, inode % 0x1_0000);
    Put16(buffer, q + 2, inode / 0x1_0000);
    Put16(buffer, q + 4, len);
    buffer[q + 6] := |name|;
    buffer[q + 7] := kind;
    for k := 0 to |name|
      invariant forall i :: 0 <= i < q ==> buffer[i] == old(buffer[i])
      invariant U32(buffer[..], q) == inode && U16(buffer[..], q + 4) == len
      invariant buffer[q + 6] == |name| && buffer[q + 7] == kind
      invariant forall i :: 0 <= i < k ==> buffer[q + HEADER + i] == name[i]
    {
      buffer[q + HEADER + k] := name[k];
    }
    assert buffer[..][q + HEADER..q + HEADER + |name|] == name;
  }

  /** The offset of a block's last record. */
  method FindLast(buffer: array<Byte>) returns (last: nat)
    requires buffer.Length > 0 && Tiled(buffer[..], 0, buffer.Length)
    ensures Boundary(buffer[..], last) && RecordFits(buffer[..], last, buffer.Length)
    ensures last + U16(buffer[..], last + 4) == buffer.Length
  {
    hide Tiled, Records, RecordFits, U16, U32;
    ghost var b := buffer[..];
    var offset := 0;
    last := 0;
    StartOfBlock(b, []);
    while offset < buffer.Length
      invariant offset <= |b| && Boundary(b, offset)
      invariant offset > 0 ==> last + HEADER <= |b| && Boundary(b, last) && RecordFits(b, last, |b|)
      invariant offset > 0 ==> last + U16(b, last + 4) == offset
    {
      NextBoundary(b, offset);
      StepForward(b, offset);
      last := offset;
      offset := offset + U16(buffer[..], offset + 4);
    }
  }

  /** One block of Ext2AddDirEntry: the last record gives its unused tail to the new one. */
  method InsertInBlock(buffer: array<Byte>, name: seq<Byte>, inode: Word32, kind: Byte) returns (done: bool)
    requires 0 < buffer.Length < 0x1_0000 && Tiled(buffer[..], 0, buffer.Length)
    modifies buffer
    ensures Tiled(buffer[..], 0, buffer.Length)
    ensures done <==> HasRoom(old(buffer[..]), Clip(name))
    ensures done ==> BlockLinks(buffer[..]) == BlockLinks(old(buffer[..])) + NewLinks(Clip(name), inode)
    // the new entry is written out last; the others stay, the one before it shorter
    ensures done ==> LastEntry(buffer[..], inode, kind, Clip(name))
    ensures done ==> Shortened(Records(old(buffer[..]), 0, buffer.Length), Records(buffer[..], 0, buffer.Length))
    ensures !done ==> buffer[..] == old(buffer[..])
  {
    hide Tiled, Records, RecordFits, U16, U32, Live;
    var nameLen := if |name| <= NAME_MAX then |name| else NAME_MAX;
    var required := Aligned(HEADER + nameLen);
    var last := FindLast(buffer);
    ghost var b := buffer[..];
    LastIs(b, last);
    StepForward(b, last);
    var actual := Aligned(HEADER + buffer[last + 6]);
    var available := U16(buffer[..], last + 4) - actual;
    hide Aligned;
    done := available >= required;
    if done {
      SplitRecord(buffer, last, actual, Record(inode, available, kind, Clip(name)));
    }
  }

  /** The last record of the block, on its bytes. */
  ghost predicate LastEntry(b: seq<Byte>, inode: nat, kind: Byte, name: seq<Byte>)
  {
    exists q: nat :: Boundary(b, q) && q < |b| && OnDisk(b, q, inode, |b| - q, kind, name)
  }

  lemma WrittenIsLast(b: seq<Byte>, q: nat, r: Record)
    requires Boundary(b, q) && q < |b| && Written(b, q, r) && q + r.len == |b|
    ensures LastEntry(b, r.inode, r.kind, r.name)
  {
    hide Tiled;
    assert OnDisk(b, q, r.inode, |b| - q, r.kind, r.name);
  }

  method SplitRecord(buffer: array<Byte>, last: nat, actual: nat, r: Record)
    requires Boundary(buffer[..], last) && RecordFits(buffer[..], last, buffer.Length)
    requires last + U16(buffer[..], last + 4) == buffer.Length < 0x1_0000 && r.inode < 0x1_0000_0000
    requires actual == Aligned(HEADER + buffer[last + 6]) && last + actual + r.len == buffer.Length
    requires HEADER + |r.name| <= r.len && |r.name| <= NAME_MAX
    modifies buffer
    ensures Tiled(old(buffer[..]), 0, buffer.Length) && Tiled(buffer[..], 0, buffer.Length)
    ensures BlockLinks(buffer[..]) == BlockLinks(old(buffer[..])) + NewLinks(r.name, r.inode)
    ensures LastEntry(buffer[..], r.inode, r.kind, r.name)
    ensures Shortened(Records(old(buffer[..]), 0, buffer.Length), Records(buffer[..], 0, buffer.Length))
  {
    hide Tiled, Records, RecordFits, U16, U32, Live, Written, LastEntry;
    ghost var b := buffer[..];
    StepForward(b, last);
    Put16(buffer, last + 4, actual);
    ghost var b1 := buffer[..];
    PutRecord(buffer, last + actual, r.inode, r.len, r.kind, r.name);
    hide Aligned;
    SameU16(b1, buffer[..], last + 4);
    SplitLast(b, buffer[..], last, last + actual, r);
    SplitLinks(Records(b, 0, last), RecordAt(b, last), actual, r);
    SplitBoundary(b, buffer[..], last, last + actual, r);
    WrittenIsLast(buffer[..], last + actual, r);
    ShortenedBy(Records(b, 0, last), RecordAt(b, last), actual, r);
  }

  /** One record more, the last of the old ones shorter, everything else as it was. */
  ghost predicate Shortened(rs: seq<Record>, rs': seq<Record>)
  {
    && |rs'| == |rs| + 1 >= 2 && rs'[..|rs| - 1] == rs[..|rs| - 1]
    && rs'[|rs| - 1] == rs[|rs| - 1].(len := rs'[|rs| - 1].len)
    && rs'[|rs| - 1].len + rs'[|rs|].len == rs[|rs| - 1].len
  }

  lemma ShortenedBy(front: seq<Record>, last: Record, n: nat, r: Record)
    requires n + r.len == last.len
    ensures Shortened(front + [last], front + [last.(len := n)] + [r])
  {
    var rs, rs' := front + [last], front + [last.(len := n)] + [r];
    assert rs'[..|rs| - 1] == front == rs[..|rs| - 1];
  }

  lemma SplitBoundary(b: seq<Byte>, b': seq<Byte>, p: nat, q: nat, r: Record)
    requires Split(b, b', p, q, r)
    ensures Boundary(b', q) && q < |b'| && RecordAt(b, p).len == q - p + r.len
  {
    SplitTail(b, b', p, q, r);
    assert RecordAt(b, p).len == U16(b, p + 4);
    hide Tiled, Records, U16, RecordFits, Written, Aligned, RecordAt;
    SameRecords(b, b', 0, p);
    TiledJoin(b', 0, p, q);
  }

  /** The last record of the block can give up enough bytes for a record with the name. */
  ghost predicate HasRoom(b: seq<Byte>, name: seq<Byte>)
    requires Tiled(b, 0, |b|)
  {
    var rs := Records(b, 0, |b|);
    rs != [] && Room(rs[|rs| - 1]) >= Aligned(HEADER + |name|)
  }

  lemma LastIs(b: seq<Byte>, p: nat)
    requires Boundary(b, p) && RecordFits(b, p, |b|) && p + U16(b, p + 4) == |b|
    ensures Tiled(b, 0, |b|) && Records(b, 0, |b|) == Records(b, 0, p) + [RecordAt(b, p)]
    ensures Room(RecordAt(b, p)) == U16(b, p + 4) - Aligned(HEADER + b[p + 6]) >= 0
  {
    hide Tiled, Records;
    OneRecord(b, p);
    Remainder(U16(b, p + 4), HEADER + b[p + 6]);
    hide Aligned, U16, RecordFits;
    TiledJoin(b, 0, p, |b|);
  }

  /** The first record of a new directory block. */
  method FillBlock(buffer: array<Byte>, name: seq<Byte>, inode: Word32, kind: Byte)
    requires HEADER + NAME_MAX < buffer.Length < 0x1_0000 && buffer.Length % 4 == 0
    modifies buffer
    ensures Tiled(buffer[..], 0, buffer.Length)
    ensures BlockLinks(buffer[..]) == NewLinks(Clip(name), inode)
    ensures LastEntry(buffer[..], inode, kind, Clip(name))
  {
    hide Live;
    forall i | 0 <= i < buffer.Length { buffer[i] := 0; }
    PutRecord(buffer, 0, inode, buffer.Length, kind, Clip(name));
    hide Tiled, Records, RecordFits;
    ghost var r := Record(inode, buffer.Length, kind, Clip(name));
    WrittenRecord(buffer[..], 0, r);
    OneLive(r);
    FirstBoundary(buffer[..]);
    WrittenIsLast(buffer[..], 0, r);
  }

  lemma FirstBoundary(b: seq<Byte>)
    requires Tiled(b, 0, |b|)
    ensures Boundary(b, 0)
  {
  }

  // ----- removing from a block

  /** The record at p has taken in the record at o that follows it. */
  ghost predicate Merged(b: seq<Byte>, b': seq<Byte>, p: nat, o: nat)
  {
    && Boundary(b, p) && p < |b| && RecordFits(b, p, |b|) && o == p + U16(b, p + 4) < |b| == |b'|
    && RecordFits(b, o, |b|) && Boundary(b, o + U16(b, o + 4))
    && Agree(b, b', 0, p + 4) && Agree(b, b', p + 6, |b|) && U16(b', p + 4) == U16(b, p + 4) + U16(b, o + 4)
  }

  lemma MultiplesAdd(a: nat, b: nat)
    requires a % 4 == 0 && b % 4 == 0
    ensures (a + b) % 4 == 0
  {
  }

  lemma MergedParts(b: seq<Byte>, b': seq<Byte>, p: nat, o: nat)
    requires Merged(b, b', p, o)
    ensures Boundary(b, p) && p < o && p + HEADER <= |b| && o == p + U16(b, p + 4) && o + HEADER <= |b| == |b'|
    ensures RecordFits(b, p, |b|) && o < o + U16(b, o + 4) <= |b| && Boundary(b, o + U16(b, o + 4))
  {
    hide U16, Tiled;
  }

  lemma MergedRecord(b: seq<Byte>, b': seq<Byte>, p: nat, o: nat)
    requires Merged(b, b', p, o)
    ensures var n := o + U16(b, o + 4);
            && 0 <= p <= n <= |b'| == |b| && Tiled(b, 0, p) && Tiled(b, n, |b|)
            && Agree(b, b', 0, p) && Agree(b, b', n, |b|)
            && Tiled(b', p, n) && Records(b', p, n) == [RecordAt(b, p).(len := n - p)]
  {
    hide Tiled, Records;
    MultiplesAdd(U16(b, p + 4), U16(b, o + 4));
    Resized(b, b', p, U16(b, p + 4) + U16(b, o + 4));
  }

  /** The merge keeps the tiling and drops one record. */
  lemma MergeNext(b: seq<Byte>, b': seq<Byte>, p: nat, o: nat)
    requires Merged(b, b', p, o)
    ensures var n := o + U16(b, o + 4);
            && Tiled(b', 0, |b'|) && Tiled(b, 0, p) && Tiled(b, n, |b|)
            && Records(b', 0, |b'|) == Records(b, 0, p) + [RecordAt(b, p).(len := n - p)] + Records(b, n, |b|)
  {
    hide Tiled, Records, U16, RecordAt, RecordFits, Merged;
    MergedParts(b, b', p, o);
    MergedRecord(b, b', p, o);
    var n := o + U16(b, o + 4);
    SameRecords(b, b', 0, p);
    SameRecords(b, b', n, |b|);
    TiledJoin(b', 0, p, n);
    TiledJoin(b', 0, n, |b'|);
  }

  /** The first record marked unused. */
  lemma ClearFirst(b: seq<Byte>, b': seq<Byte>)
    requires 0 < |b| == |b'| && RecordFits(b, 0, |b|) && Boundary(b, U16(b, 4))
    requires Agree(b, b', 4, |b|) && U32(b', 0) == 0
    ensures var n := U16(b, 4);
            && Tiled(b', 0, |b'|)
            && Records(b', 0, |b'|) == [RecordAt(b, 0).(inode := 0)] + Records(b, n, |b|)
  {
    var n := U16(b, 4);
    assert U16(b', 4) == n;
    assert RecordAt(b', 0).name == RecordAt(b, 0).name;
    OneRecord(b', 0);
    hide Tiled, Records, U16, RecordAt, RecordFits;
    SameRecords(b, b', n, |b|);
    TiledJoin(b', 0, n, |b'|);
  }

  /** One block of the entry-removal loop of Ext2Delete. */
  method RemoveFromBlock(buffer: array<Byte>, inode: nat) returns (found: bool)
    requires inode != 0 && buffer.Length < 0x1_0000 && Tiled(buffer[..], 0, buffer.Length)
    modifies buffer
    ensures Tiled(buffer[..], 0, buffer.Length)
    ensures found <==> HasInode(BlockLinks(old(buffer[..])), inode)
    ensures BlockLinks(buffer[..]) == RemoveFirst(BlockLinks(old(buffer[..])), inode)
    ensures !found ==> buffer[..] == old(buffer[..])
  {
    hide Tiled, Records, RecordFits, U16, U32, Live, HasInode, RemoveFirst;
    ghost var b := buffer[..];
    var offset, prev := 0, -1;
    StartOfBlock(b, []);
    NoLinks(inode);
    while offset < buffer.Length
      invariant buffer[..] == b && offset <= |b| && Boundary(b, offset)
      invariant offset == 0 <==> prev == -1
      invariant prev != -1 ==> 0 <= prev && prev + HEADER <= |b| && Boundary(b, prev) && RecordFits(b, prev, |b|)
      invariant prev != -1 ==> prev + U16(b, prev + 4) == offset
      invariant !HasInode(Live(Records(b, 0, offset)), inode)
    {
      NextBoundary(b, offset);
      StepForward(b, offset);
      RemoveStep(b, offset, inode);
      if U32(buffer[..], offset) == inode {
        if prev != -1 {
          Put16(buffer, prev + 4, U16(buffer[..], prev + 4) + U16(buffer[..], offset + 4));
          MergeLinks(b, buffer[..], prev, offset);
        } else {
          Put16(buffer, offset, 0);
          ghost var b1 := buffer[..];
          Put16(buffer, offset + 2, 0);
          SameU16(b1, buffer[..], offset);
          ClearLinks(b, buffer[..]);
        }
        return true;
      }
      prev := offset;
      offset := offset + U16(buffer[..], offset + 4);
    }
    NothingRemoved(BlockLinks(b), inode);
    found := false;
  }

  lemma NoLinks(inode: nat)
    ensures !HasInode([], inode)
  {
  }

  lemma {:induction false} NothingRemoved(links: seq<Link>, inode: nat)
    requires !HasInode(links, inode)
    ensures RemoveFirst(links, inode) == links
  {
    RemoveJoin(links, [], inode);
    assert links + [] == links;
  }

  /** The record at o as the next link to inspect. */
  lemma RemoveStep(b: seq<Byte>, o: nat, inode: nat)
    requires Boundary(b, o) && o < |b| && inode != 0 && !HasInode(Live(Records(b, 0, o)), inode)
    ensures RecordFits(b, o, |b|)
    ensures var n := o + U16(b, o + 4);
            && Boundary(b, n) && Tiled(b, 0, |b|)
            && (U32(b, o) != inode ==> !HasInode(Live(Records(b, 0, n)), inode))
            && (U32(b, o) == inode ==> HasInode(BlockLinks(b), inode))
            && (U32(b, o) == inode ==> RemoveFirst(BlockLinks(b), inode)
                                       == Live(Records(b, 0, o)) + Live(Records(b, n, |b|)))
  {
    NextBoundary(b, o);
    var r, n := RecordAt(b, o), o + U16(b, o + 4);
    assert r.inode == U32(b, o);
    hide U16, U32, RecordAt, RecordFits, Tiled, Records;
    var x, y := Live(Records(b, 0, o)), Live(Records(b, n, |b|));
    OneLive(r);
    LiveJoin(Records(b, 0, o), [r]);
    LiveJoin(Records(b, 0, o), [r] + Records(b, n, |b|));
    LiveJoin([r], Records(b, n, |b|));
    if r.inode == inode {
      var l := Link(r.name, r.inode);
      assert Live([r]) == [l];
      assert BlockLinks(b) == x + ([l] + y);
      assert (x + ([l] + y))[|x|].inode == inode;
      RemoveJoin(x, [l] + y, inode);
      assert ([l] + y)[1..] == y;
    }
  }

  lemma MergeLinks(b: seq<Byte>, b': seq<Byte>, p: nat, o: nat)
    requires Merged(b, b', p, o)
    ensures Boundary(b, o) && Tiled(b', 0, |b'|) && Tiled(b, o + U16(b, o + 4), |b|)
    ensures BlockLinks(b') == Live(Records(b, 0, o)) + Live(Records(b, o + U16(b, o + 4), |b|))
  {
    hide U16, U32, RecordAt, RecordFits, Tiled, Records, Merged, Live, Agree;
    MergedParts(b, b', p, o);
    NextBoundary(b, p);
    MergeNext(b, b', p, o);
    var r, n := RecordAt(b, p), o + U16(b, o + 4);
    MergedLive(Records(b, 0, p), r, n - p, Records(b, n, |b|));
  }

  lemma MergedLive(x: seq<Record>, r: Record, n: nat, y: seq<Record>)
    ensures Live(x + [r.(len := n)] + y) == Live(x + [r]) + Live(y)
  {
    OneLive(r);
    OneLive(r.(len := n));
    LiveJoin(x, [r]);
    LiveJoin(x, [r.(len := n)]);
    LiveJoin(x + [r.(len := n)], y);
  }

  lemma ClearLinks(b: seq<Byte>, b': seq<Byte>)
    requires 0 < |b| == |b'| && RecordFits(b, 0, |b|) && Boundary(b, U16(b, 4))
    requires Agree(b, b', 4, |b|) && U16(b', 0) == 0 && U16(b', 2) == 0
    ensures Tiled(b', 0, |b'|) && BlockLinks(b') == Live(Records(b, 0, 0)) + Live(Records(b, U16(b, 4), |b|))
  {
    assert U32(b', 0) == 0;
    ClearFirst(b, b');
    var r, n := RecordAt(b, 0), U16(b, 4);
    hide U16, U32, RecordAt, RecordFits, Tiled;
    OneLive(r.(inode := 0));
    LiveJoin([r.(inode := 0)], Records(b, n, |b|));
  }
}
