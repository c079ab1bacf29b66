/** A directory of fs/EXT/Ext2.c: up to twelve directory blocks on a device. */
module Ext2 {
  import opened Words
  import opened Ext2Block

  // ----- the links of a directory

  /** The blocks in order; a missing or unreadable one has no bytes. */
  function View(iBlock: seq<nat>, disk: map<nat, seq<Byte>>): seq<seq<Byte>>
  {
    seq(|iBlock|, i requires 0 <= i < |iBlock| =>
      if iBlock[i] != 0 && iBlock[i] in disk then disk[iBlock[i]] else [])
  }

  predicate AllTiled(bs: seq<seq<Byte>>)
  {
    forall i :: 0 <= i < |bs| ==> Tiled(bs[i], 0, |bs[i]|)
  }

  function Links(bs: seq<seq<Byte>>): seq<Link>
    requires AllTiled(bs)
  {
    if bs == [] then [] else BlockLinks(bs[0]) + Links(bs[1..])
  }

  lemma {:induction false} LinksJoin(x: seq<seq<Byte>>, y: seq<seq<Byte>>)
    requires AllTiled(x) && AllTiled(y)
    ensures AllTiled(x + y) && Links(x + y) == Links(x) + Links(y)
  {
    hide Tiled, BlockLinks;
    if x == [] {
      assert x + y == y;
    } else {
      assert (x + y)[1..] == x[1..] + y;
      LinksJoin(x[1..], y);
    }
  }

  lemma OneBlock(b: seq<Byte>)
    requires Tiled(b, 0, |b|)
    ensures AllTiled([b]) && Links([b]) == BlockLinks(b)
  {
    hide Tiled, BlockLinks;
    var none: seq<seq<Byte>> := [];
    assert [b][1..] == none;
  }

  lemma LinksAt(bs: seq<seq<Byte>>, i: nat)
    requires AllTiled(bs) && i < |bs|
    ensures AllTiled(bs[..i]) && AllTiled(bs[..i + 1]) && AllTiled(bs[i + 1..])
    ensures Links(bs[..i + 1]) == Links(bs[..i]) + BlockLinks(bs[i])
    ensures Links(bs) == Links(bs[..i]) + BlockLinks(bs[i]) + Links(bs[i + 1..])
  {
    hide Tiled, BlockLinks, Links;
    assert bs[..i + 1] == bs[..i] + [bs[i]];
    assert bs == bs[..i + 1] + bs[i + 1..];
    OneBlock(bs[i]);
    LinksJoin(bs[..i], [bs[i]]);
    LinksJoin(bs[..i + 1], bs[i + 1..]);
  }

  /** Replacing one block replaces its links. */
  lemma LinksUpdate(bs: seq<seq<Byte>>, i: nat, b: seq<Byte>)
    requires AllTiled(bs) && i < |bs| && Tiled(b, 0, |b|)
    ensures AllTiled(bs[i := b]) && AllTiled(bs[..i]) && AllTiled(bs[i + 1..])
    ensures Links(bs[i := b]) == Links(bs[..i]) + BlockLinks(b) + Links(bs[i + 1..])
  {
    hide Tiled, BlockLinks;
    LinksAt(bs[i := b], i);
    assert bs[i := b][..i] == bs[..i] && bs[i := b][i + 1..] == bs[i + 1..];
  }

  lemma {:induction false} LinksNonzero(bs: seq<seq<Byte>>)
    requires AllTiled(bs)
    ensures AllNonzero(Links(bs))
  {
    hide Tiled;
    if bs != [] {
      LiveNonzero(Records(bs[0], 0, |bs[0]|));
      LinksNonzero(bs[1..]);
    }
  }

  ghost predicate AllNonzero(links: seq<Link>)
  {
    forall i :: 0 <= i < |links| ==> links[i].inode != 0
  }

  // ----- insertion and removal as seen by lookups

  /** A link added somewhere; an unused inode number adds none. */
  ghost predicate Inserted(links: seq<Link>, links': seq<Link>, name: seq<Byte>, inode: nat)
  {
    exists k :: 0 <= k <= |links| && links' == links[..k] + NewLinks(name, inode) + links[k..]
  }

  /** A name that was absent is found, and no other lookup changes. */
  lemma InsertLookup(links: seq<Link>, links': seq<Link>, name: seq<Byte>, inode: nat, m: seq<Byte>)
    requires AllNonzero(links) && Inserted(links, links', name, inode)
    ensures Lookup(links, name) == 0 ==> Lookup(links', name) == inode
    ensures m != name ==> Lookup(links', m) == Lookup(links, m)
  {
    hide Lookup, NewLinks;
    var k :| 0 <= k <= |links| && links' == links[..k] + NewLinks(name, inode) + links[k..];
    assert links == links[..k] + links[k..];
    assert links' == links[..k] + (NewLinks(name, inode) + links[k..]);
    LookupJoin(links[..k], links[k..], m);
    LookupJoin(links[..k], NewLinks(name, inode) + links[k..], m);
    NewLookup(name, inode, links[k..], m);
    LookupJoin(links[..k], links[k..], name);
    LookupJoin(links[..k], NewLinks(name, inode) + links[k..], name);
    NewLookup(name, inode, links[k..], name);
  }

  lemma NewLookup(name: seq<Byte>, inode: nat, rest: seq<Link>, m: seq<Byte>)
    ensures Lookup(NewLinks(name, inode) + rest, m) == if inode != 0 && m == name then inode else Lookup(rest, m)
  {
    if inode != 0 {
      assert ([Link(name, inode)] + rest)[1..] == rest;
    } else {
      assert NewLinks(name, inode) + rest == rest;
    }
  }

  /** Removing the inode just inserted, when no other link had it, restores the links and so every lookup. */
  lemma InsertThenRemove(links: seq<Link>, links': seq<Link>, name: seq<Byte>, inode: nat)
    requires inode != 0 && Inserted(links, links', name, inode) && !HasInode(links, inode)
    ensures RemoveFirst(links', inode) == links
  {
    var k :| 0 <= k <= |links| && links' == links[..k] + NewLinks(name, inode) + links[k..];
    var y := [Link(name, inode)] + links[k..];
    assert links' == links[..k] + y;
    RemoveJoin(links[..k], y, inode);
    assert y[1..] == links[k..];
    assert links == links[..k] + links[k..];
  }

  /** k is the first link with its inode, the one a removal by inode takes. */
  ghost predicate FirstLink(links: seq<Link>, k: nat)
  {
    k < |links| && forall i :: 0 <= i < k ==> links[i].inode != links[k].inode
  }

  lemma RemovedAt(links: seq<Link>, k: nat)
    requires FirstLink(links, k)
    ensures RemoveFirst(links, links[k].inode) == links[..k] + links[k + 1..]
  {
    var l, x, y := links[k], links[..k], links[k + 1..];
    assert links == x + ([l] + y);
    RemoveJoin(x, [l] + y, l.inode);
    assert ([l] + y)[1..] == y;
  }

  /** Deleting by inode takes the first link with it: no other name's lookup changes,
      and its own name becomes absent exactly when no other link has it. */
  lemma RemoveLookup(links: seq<Link>, k: nat, other: seq<Byte>)
    requires AllNonzero(links) && FirstLink(links, k)
    ensures other != links[k].name ==> Lookup(RemoveFirst(links, links[k].inode), other) == Lookup(links, other)
    ensures Lookup(RemoveFirst(links, links[k].inode), links[k].name) == 0
            <==> Absent(links[..k], links[k].name) && Absent(links[k + 1..], links[k].name)
  {
    hide Lookup, RemoveFirst, Absent;
    RemovedAt(links, k);
    LookupJoin(links[..k], links[k + 1..], links[k].name);
    AbsentMeans(links[..k], links[k].name);
    AbsentMeans(links[k + 1..], links[k].name);
    if other != links[k].name { LookupWithout(links, k, other); }
  }

  lemma LookupWithout(links: seq<Link>, k: nat, other: seq<Byte>)
    requires AllNonzero(links) && k < |links| && other != links[k].name
    ensures Lookup(links[..k] + links[k + 1..], other) == Lookup(links, other)
  {
    var l, x, y := links[k], links[..k], links[k + 1..];
    assert links == x + ([l] + y);
    LookupJoin(x, y, other);
    LookupJoin(x, [l] + y, other);
    assert ([l] + y)[1..] == y;
  }

  /** No link has the name. */
  ghost predicate Absent(links: seq<Link>, name: seq<Byte>)
  {
    forall l :: l in links ==> l.name != name
  }

  lemma {:induction false} AbsentMeans(links: seq<Link>, name: seq<Byte>)
    requires AllNonzero(links)
    ensures Lookup(links, name) == 0 <==> Absent(links, name)
  {
    if links != [] {
      AbsentMeans(links[1..], name);
      assert links == [links[0]] + links[1..];
    }
  }

  /** Deleting a path whose inode is linked earlier under another name leaves the path's
      own name in place: the other name loses its link. */
  lemma OtherNameIsRemoved(links: seq<Link>, k: nat, name: seq<Byte>)
    requires AllNonzero(links) && FirstLink(links, k)
    requires Lookup(links, name) == links[k].inode && links[k].name != name
    ensures Lookup(RemoveFirst(links, links[k].inode), name) == links[k].inode
    ensures RemoveFirst(links, links[k].inode) == links[..k] + links[k + 1..]
  {
    RemoveLookup(links, k, name);
    RemovedAt(links, k);
  }

  /** Deleting a name: what is removed is the first link with the inode the name leads to.
      Afterwards the name is absent exactly when that link was its own and its only one. */
  lemma DeleteName(links: seq<Link>, name: seq<Byte>) returns (k: nat)
    requires AllNonzero(links) && Lookup(links, name) != 0
    ensures FirstLink(links, k) && links[k].inode == Lookup(links, name)
    ensures Lookup(RemoveFirst(links, Lookup(links, name)), name) == 0
            <==> links[k].name == name && Absent(links[..k], name) && Absent(links[k + 1..], name)
  {
    hide Lookup, RemoveFirst, Absent;
    k := FoundHasFirst(links, name);
    RemoveLookup(links, k, name);
  }

  /** For every name found there is such a link. */
  lemma {:induction false} FoundHasFirst(links: seq<Link>, name: seq<Byte>) returns (k: nat)
    requires AllNonzero(links) && Lookup(links, name) != 0
    ensures FirstLink(links, k) && links[k].inode == Lookup(links, name)
  {
    if links[0].inode == Lookup(links, name) {
      k := 0;
    } else {
      k := FoundHasFirst(links[1..], name);
      k := k + 1;
      assert forall i :: 0 < i < |links| ==> links[i] == links[1..][i - 1];
    }
  }

  /** Two names of one inode: deleting the second removes the first. */
  lemma SecondNameStays()
    ensures var links := [Link([97], 5), Link([98], 5)];
            var links' := RemoveFirst(links, Lookup(links, [98]));
            Lookup(links, [98]) == Lookup(links', [98]) == 5 && Lookup(links, [97]) == 5 && Lookup(links', [97]) == 0
  {
    var links := [Link([97], 5), Link([98], 5)];
    assert links[1..] == [Link([98], 5)];
  }

  // ----- the directory

  class Directory {
    const blockSize: nat
    /** The blocks the device can transfer, by number. */
    var disk: map<nat, seq<Byte>>
    /** The inode's direct block numbers, 0 where there is none. */
    var iBlock: seq<nat>

    constructor (blockSize: nat, disk: map<nat, seq<Byte>>, iBlock: seq<nat>)
      requires HEADER + NAME_MAX < blockSize < 0x1_0000 && blockSize % 4 == 0 && |iBlock| == DIRECT_BLOCKS
      requires forall i, j :: 0 <= i < j < |iBlock| && iBlock[i] != 0 ==> iBlock[i] != iBlock[j]
      requires (forall n :: n in disk ==> |disk[n]| == blockSize) && AllTiled(View(iBlock, disk))
      ensures Valid() && Entries() == Links(View(iBlock, disk))
    {
      this.blockSize, this.disk, this.iBlock := blockSize, disk, iBlock;
    }

    ghost predicate Valid()
      reads this
    {
      && HEADER + NAME_MAX < blockSize < 0x1_0000 && blockSize % 4 == 0
      && |iBlock| == DIRECT_BLOCKS
      && (forall i, j :: 0 <= i < j < |iBlock| && iBlock[i] != 0 ==> iBlock[i] != iBlock[j])
      && (forall n :: n in disk ==> |disk[n]| == blockSize)
      && AllTiled(View(iBlock, disk))
    }

    ghost function Entries(): seq<Link>
      requires Valid()
      reads this
    {
      Links(View(iBlock, disk))
    }

    method ReadBlock(n: nat, buffer: array<Byte>) returns (ok: bool)
      requires buffer.Length == blockSize && (n in disk ==> |disk[n]| == blockSize)
      modifies buffer
      ensures ok == (n in disk) && (ok ==> buffer[..] == disk[n])
    {
      ok := n in disk;
      if ok {
        forall i | 0 <= i < buffer.Length { buffer[i] := disk[n][i]; }
      }
    }

    /** Ext2FindInDir on an inode that is a directory. */
    method FindInDir(name: seq<Byte>) returns (inode: nat)
      requires Valid()
      ensures inode == Lookup(Entries(), Clip(name))
    {
      hide Tiled, BlockLinks, Links, Lookup;
      ghost var bs := View(iBlock, disk);
      var buffer := new Byte[blockSize];
      EmptyPrefix(bs, Clip(name));
      for i := 0 to DIRECT_BLOCKS
        invariant AllTiled(bs[..i]) && Lookup(Links(bs[..i]), Clip(name)) == 0
      {
        LinksAt(bs, i);
        LookupBlock(bs, i, Clip(name));
        if iBlock[i] == 0 { continue; }
        var ok := ReadBlock(iBlock[i], buffer);
        if !ok { continue; }
        assert buffer[..] == bs[i];
        inode := FindInBlock(buffer, name);
        if inode != 0 { return; }
      }
      assert bs[..DIRECT_BLOCKS] == bs;
      inode := 0;
    }

    /** Ext2AddDirEntry on an inode that is a directory; newBlock is what the block
        allocator would supply, 0 when it has none. */
    method AddDirEntry(name: seq<Byte>, inode: Word32, kind: Byte, newBlock: nat) returns (rc: int)
      requires Valid() && (newBlock != 0 ==> newBlock !in iBlock)
      modifies this
      ensures Valid() && disk.Keys == old(disk.Keys)
      ensures rc == 0 || rc == -1
      ensures rc == 0 <==> || AnyRoom(View(old(iBlock), old(disk)), Clip(name))
                           || (0 in old(iBlock) && newBlock != 0 && newBlock in disk)
      ensures rc == 0 ==> Inserted(old(Entries()), Entries(), Clip(name), inode)
      // on disk the entry ends one of the blocks
      ensures rc == 0 ==> exists i :: 0 <= i < DIRECT_BLOCKS && iBlock[i] in disk
                                      && LastEntry(disk[iBlock[i]], inode, kind, Clip(name))
      ensures rc == -1 ==> disk == old(disk) && iBlock == old(iBlock)
      ensures forall n :: n in disk && n !in iBlock ==> disk[n] == old(disk)[n]
    {
      hide Tiled, BlockLinks, Links, HasRoom, LastEntry, Shortened;
      ghost var bs := View(iBlock, disk);
      var buffer := new Byte[blockSize];
      for i := 0 to DIRECT_BLOCKS
        invariant Valid() && disk == old(disk) && iBlock == old(iBlock)
        invariant forall j :: 0 <= j < i ==> !HasRoom(bs[j], Clip(name))
      {
        NoBlockNoRoom(Clip(name));
        if iBlock[i] == 0 { continue; }
        var ok := ReadBlock(iBlock[i], buffer);
        if !ok { continue; }
        assert buffer[..] == bs[i];
        var done := InsertInBlock(buffer, name, inode, kind);
        if done {
          disk := disk[iBlock[i] := buffer[..]];
          assert View(iBlock, disk) == bs[i := buffer[..]];
          InsertedInBlock(bs, i, buffer[..], Clip(name), inode);
          assert LastEntry(disk[iBlock[i]], inode, kind, Clip(name));
          return 0;
        }
      }
      rc := GrowDirectory(buffer, name, inode, kind, newBlock);
    }

    /** The tail of Ext2AddDirEntry: a first record in a new block. */
    method GrowDirectory(buffer: array<Byte>, name: seq<Byte>, inode: Word32, kind: Byte, newBlock: nat)
      returns (rc: int)
      requires Valid() && (newBlock != 0 ==> newBlock !in iBlock) && buffer.Length == blockSize
      modifies this, buffer
      ensures Valid() && disk.Keys == old(disk.Keys)
      ensures rc == 0 || rc == -1
      ensures rc == 0 <==> 0 in old(iBlock) && newBlock != 0 && newBlock in disk
      ensures rc == 0 ==> Inserted(old(Entries()), Entries(), Clip(name), inode)
      // on disk the entry ends one of the blocks
      ensures rc == 0 ==> exists i :: 0 <= i < DIRECT_BLOCKS && iBlock[i] in disk
                                      && LastEntry(disk[iBlock[i]], inode, kind, Clip(name))
      ensures rc == -1 ==> disk == old(disk) && iBlock == old(iBlock)
      ensures forall n :: n in disk && n !in iBlock ==> disk[n] == old(disk)[n]
    {
      hide Tiled, BlockLinks, Links, LastEntry;
      ghost var bs := View(iBlock, disk);
      for i := 0 to DIRECT_BLOCKS
        invariant Valid() && disk == old(disk) && iBlock == old(iBlock)
        invariant forall j :: 0 <= j < i ==> iBlock[j] != 0
      {
        if iBlock[i] == 0 {
          if newBlock == 0 { return -1; }
          FillBlock(buffer, name, inode, kind);
          if newBlock !in disk { return -1; }
          disk := disk[newBlock := buffer[..]];
          iBlock := iBlock[i := newBlock];
          assert iBlock[i] == newBlock;
          assert View(iBlock, disk) == bs[i := buffer[..]];
          EmptyBlock();
          InsertedInBlock(bs, i, buffer[..], Clip(name), inode);
          assert LastEntry(disk[iBlock[i]], inode, kind, Clip(name));
          return 0;
        }
      }
      rc := -1;
    }

    /** The loop of Ext2Delete that removes the directory entry. */
    method RemoveEntry(inode: nat) returns (res: int)
      requires Valid() && inode != 0
      modifies this
      ensures Valid() && disk.Keys == old(disk.Keys) && iBlock == old(iBlock)
      ensures res == if HasInode(old(Entries()), inode) then 0 else -1
      ensures Entries() == RemoveFirst(old(Entries()), inode)
      ensures forall n :: n in disk && n !in iBlock ==> disk[n] == old(disk)[n]
    {
      hide Tiled, BlockLinks, Links, RemoveFirst, HasInode;
      ghost var bs := View(iBlock, disk);
      var buffer := new Byte[blockSize];
      NoLinks(inode);
      EmptyPrefix(bs, []);
      for i := 0 to DIRECT_BLOCKS
        invariant Valid() && disk == old(disk) && iBlock == old(iBlock)
        invariant AllTiled(bs[..i]) && !HasInode(Links(bs[..i]), inode)
      {
        LinksAt(bs, i);
        SearchBlock(bs, i, inode);
        if iBlock[i] == 0 { continue; }
        var ok := ReadBlock(iBlock[i], buffer);
        if !ok { continue; }
        assert buffer[..] == bs[i];
        var found := RemoveFromBlock(buffer, inode);
        if found {
          disk := disk[iBlock[i] := buffer[..]];
          assert View(iBlock, disk) == bs[i := buffer[..]];
          RemovedInBlock(bs, i, buffer[..], inode);
          return 0;
        }
      }
      assert bs[..DIRECT_BLOCKS] == bs;
      NothingRemoved(Links(bs), inode);
      res := -1;
    }
  }

  ghost predicate AnyRoom(bs: seq<seq<Byte>>, name: seq<Byte>)
    requires AllTiled(bs)
  {
    exists i :: 0 <= i < |bs| && HasRoom(bs[i], name)
  }

  lemma NoBlockNoRoom(name: seq<Byte>)
    ensures Tiled([], 0, 0) && !HasRoom([], name)
  {
  }

  lemma EmptyBlock()
    ensures Tiled([], 0, 0) && BlockLinks([]) == []
  {
  }

  lemma EmptyPrefix(bs: seq<seq<Byte>>, name: seq<Byte>)
    ensures AllTiled(bs[..0]) && Links(bs[..0]) == [] && Lookup(Links(bs[..0]), name) == 0
  {
  }

  lemma LookupBlock(bs: seq<seq<Byte>>, i: nat, name: seq<Byte>)
    requires AllTiled(bs) && i < |bs| && AllTiled(bs[..i]) && Lookup(Links(bs[..i]), name) == 0
    ensures AllTiled(bs[..i + 1]) && (bs[i] == [] ==> Lookup(BlockLinks(bs[i]), name) == 0)
    ensures var l := Lookup(BlockLinks(bs[i]), name);
            if l != 0 then Lookup(Links(bs), name) == l else Lookup(Links(bs[..i + 1]), name) == 0
  {
    hide Tiled;
    LinksAt(bs, i);
    EmptyBlock();
    LinksNonzero(bs[..i]);
    LiveNonzero(Records(bs[i], 0, |bs[i]|));
    hide BlockLinks, Links;
    LookupJoin(Links(bs[..i]), BlockLinks(bs[i]), name);
    assert AllNonzero(Links(bs[..i]) + BlockLinks(bs[i]));
    LookupJoin(Links(bs[..i]) + BlockLinks(bs[i]), Links(bs[i + 1..]), name);
  }

  lemma InsertedInBlock(bs: seq<seq<Byte>>, i: nat, b: seq<Byte>, name: seq<Byte>, inode: nat)
    requires AllTiled(bs) && i < |bs| && Tiled(b, 0, |b|)
    requires BlockLinks(b) == BlockLinks(bs[i]) + NewLinks(name, inode)
    ensures AllTiled(bs[i := b]) && Inserted(Links(bs), Links(bs[i := b]), name, inode)
  {
    hide Tiled, BlockLinks, Links;
    LinksAt(bs, i);
    LinksUpdate(bs, i, b);
    var x, y := Links(bs[..i]) + BlockLinks(bs[i]), Links(bs[i + 1..]);
    assert Links(bs) == x + y;
    assert (x + y)[..|x|] == x && (x + y)[|x|..] == y;
    assert Links(bs[i := b]) == x + NewLinks(name, inode) + y;
  }

  lemma SearchBlock(bs: seq<seq<Byte>>, i: nat, inode: nat)
    requires AllTiled(bs) && i < |bs| && AllTiled(bs[..i]) && !HasInode(Links(bs[..i]), inode)
    ensures AllTiled(bs[..i + 1]) && (bs[i] == [] ==> !HasInode(BlockLinks(bs[i]), inode))
    ensures HasInode(BlockLinks(bs[i]), inode) ==> HasInode(Links(bs), inode)
    ensures !HasInode(BlockLinks(bs[i]), inode) ==> !HasInode(Links(bs[..i + 1]), inode)
  {
    hide Tiled;
    LinksAt(bs, i);
    EmptyBlock();
    NoLinks(inode);
    hide BlockLinks, Links, HasInode;
    var x, y, z := Links(bs[..i]), BlockLinks(bs[i]), Links(bs[i + 1..]);
    HasInodeJoin(x, y, inode);
    HasInodeJoin(x + y, z, inode);
  }

  lemma HasInodeJoin(x: seq<Link>, y: seq<Link>, inode: nat)
    ensures HasInode(x + y, inode) <==> HasInode(x, inode) || HasInode(y, inode)
  {
    if k :| 0 <= k < |x| && x[k].inode == inode {
      assert (x + y)[k].inode == inode;
    }
    if k :| 0 <= k < |y| && y[k].inode == inode {
      assert (x + y)[|x| + k].inode == inode;
    }
  }

  lemma RemovedInBlock(bs: seq<seq<Byte>>, i: nat, b: seq<Byte>, inode: nat)
    requires AllTiled(bs) && i < |bs| && AllTiled(bs[..i]) && !HasInode(Links(bs[..i]), inode) && Tiled(b, 0, |b|)
    requires HasInode(BlockLinks(bs[i]), inode) && BlockLinks(b) == RemoveFirst(BlockLinks(bs[i]), inode)
    ensures AllTiled(bs[i := b]) && Links(bs[i := b]) == RemoveFirst(Links(bs), inode)
  {
    hide Tiled, BlockLinks, Links, RemoveFirst, HasInode;
    LinksAt(bs, i);
    LinksUpdate(bs, i, b);
    var x, y, z := Links(bs[..i]), BlockLinks(bs[i]), Links(bs[i + 1..]);
    assert x + y + z == x + (y + z);
    RemoveJoin(x, y + z, inode);
    RemoveJoin(y, z, inode);
  }
}
