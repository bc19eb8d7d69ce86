/** Clients of the archive view: what a caller can conclude from the
    contracts of `Node` and `Reader` alone. */
module Scenarios {
  import opened Archive

  /** Looking a name up twice on one node: once the first lookup gives a
      dataset, the second gives the same dataset object and decodes nothing
      more. */
  method LookUpTwice(node: Node, key: string) returns (first: Lookup, second: Lookup)
    requires node.Valid()
    modifies node.cache, node.tar`decodeCalls
    ensures first.Table? ==> second == first
    ensures first.Table? ==> node.tar.decodeCalls <= old(node.tar.decodeCalls) + 1
  {
    first := node.Get(key);
    ghost var calls := node.tar.decodeCalls;
    second := node.Get(key);
    assert first.Table? ==> node.tar.decodeCalls == calls;
  }

  /** `reader[dir][file]` evaluated twice on a reader whose root cache is
      still empty: each `reader[dir]` is a new node with a new, empty cache,
      so the file is decoded twice into two different dataset objects. */
  method RepeatedPathLookup(reader: Reader, dir: string, file: string) returns (a: Lookup, b: Lookup)
    requires reader.Valid() && reader.root.cache.entries == map[]
    modifies reader.root.cache, reader.tar`decodeCalls
    ensures Classify(reader.members, reader.rootPrefix + dir) == DirectoryKind && a.Table? && b.Table? ==>
      a.data != b.data && reader.tar.decodeCalls == old(reader.tar.decodeCalls) + 2
  {
    var first := reader.Get(dir);
    if first.Subdirectory? {
      a := first.node.Get(file);
    } else {
      a := first;
    }
    var second := reader.Get(dir);
    if second.Subdirectory? {
      b := second.node.Get(file);
    } else {
      b := second;
    }
  }

  /** `reader[key]`, then `reader.close()`, then `reader[key]` again: a
      dataset cached by the first lookup is still returned after closing,
      while a leaf that was not cached now fails to read. */
  method LookUpAcrossClose(reader: Reader, key: string) returns (before: Lookup, after: Lookup)
    requires reader.Valid()
    modifies reader.root.cache, reader.tar`decodeCalls, reader.tar`closed, reader.cache
    ensures before.Table? ==> after == before
    ensures Classify(reader.members, reader.rootPrefix + key) == LeafKind && !before.Table? ==> after == ReadError
  {
    before := reader.Get(key);
    reader.Close();
    after := reader.Get(key);
  }
}
