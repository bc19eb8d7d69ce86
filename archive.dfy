/** The virtual archive view of a vgosDB `.tgz`: the member index built
    from the tar table of contents, root-prefix detection, nodes that
    resolve names as directories or NetCDF leaves, the decode cache, and the
    listings (`Node` and `VgosDBReader` in baseline/reader/core.py). */
module Archive {
  import opened Text
  import opened Order
  import opened Stations

  /** The kinds of tar entry; `TarInfo.isfile()` holds for regular files only. */
  datatype EntryKind = RegularFile | Directory | Link | Device

  /** One table-of-contents entry (a `TarInfo`). The member's bytes are
      abstracted to whether the NetCDF decoder accepts them. */
  datatype TarEntry = TarEntry(name: string, kind: EntryKind, size: nat, decodable: bool)

  const NcSuffix: string := ".nc"

  /** The member index: entry name to entry. */
  type MemberIndex = map<string, TarEntry>

  /** An entry the index keeps: a regular file whose name ends in `.nc`. */
  predicate Indexed(e: TarEntry) {
    e.kind == RegularFile && EndsWith(e.name, NcSuffix)
  }

  /** Entry `i` is kept in the index under the name `n`. */
  ghost predicate KeptAs(entries: seq<TarEntry>, i: int, n: string) {
    0 <= i < |entries| && Indexed(entries[i]) && entries[i].name == n
  }

  /** No entry after `i` and before `k` is kept under the same name. */
  ghost predicate LastKept(entries: seq<TarEntry>, i: int, k: int)
    requires 0 <= i < |entries|
  {
    forall j :: i < j < k ==> !KeptAs(entries, j, entries[i].name)
  }

  /** `index` is the dict comprehension over the first `k` entries: its keys
      are the names of the kept entries, and each name maps to the last kept
      entry of that name. */
  ghost predicate IndexOfFirst(entries: seq<TarEntry>, k: int, index: MemberIndex) {
    && 0 <= k <= |entries|
    && (forall n :: n in index <==> exists i :: 0 <= i < k && KeptAs(entries, i, n))
    && (forall n :: n in index ==>
          exists i :: 0 <= i < k && KeptAs(entries, i, n) && entries[i] == index[n] && LastKept(entries, i, k))
  }

  ghost predicate IsIndexOf(entries: seq<TarEntry>, index: MemberIndex) {
    IndexOfFirst(entries, |entries|, index)
  }

  /** Every name in the index ends in `.nc`. */
  predicate NcNames(index: MemberIndex) {
    forall n :: n in index ==> EndsWith(n, NcSuffix)
  }

  /** Builds the member index from `getmembers()`: regular `.nc` files only,
      a later entry of the same name replacing an earlier one. */
  method BuildIndex(entries: seq<TarEntry>) returns (index: MemberIndex)
    ensures IsIndexOf(entries, index)
    ensures forall n :: n in index ==> index[n].name == n && Indexed(index[n])
  {
    index := map[];
    for k := 0 to |entries|
      invariant IndexOfFirst(entries, k, index)
    {
      var e := entries[k];
      IndexStep(entries, k, index);
      if e.kind == RegularFile && EndsWith(e.name, NcSuffix) {
        index := index[e.name := e];
      }
    }
    forall n | n in index
      ensures index[n].name == n && Indexed(index[n])
    {
      var i :| 0 <= i < |entries| && KeptAs(entries, i, n) && entries[i] == index[n] && LastKept(entries, i, |entries|);
    }
  }

  /** One more entry of the comprehension. */
  lemma IndexStep(entries: seq<TarEntry>, k: int, index: MemberIndex)
    requires IndexOfFirst(entries, k, index) && k < |entries|
    ensures IndexOfFirst(entries, k + 1,
              if Indexed(entries[k]) then index[entries[k].name := entries[k]] else index)
  {
    var e := entries[k];
    var next := if Indexed(e) then index[e.name := e] else index;
    forall n
      ensures n in next <==> exists i :: 0 <= i < k + 1 && KeptAs(entries, i, n)
    {
      if n in index {
        var i :| 0 <= i < k && KeptAs(entries, i, n);
        assert 0 <= i < k + 1 && KeptAs(entries, i, n);
      }
      if Indexed(e) && n == e.name {
        assert KeptAs(entries, k, n);
      }
      if exists i :: 0 <= i < k + 1 && KeptAs(entries, i, n) {
        var i :| 0 <= i < k + 1 && KeptAs(entries, i, n);
        if i < k {
          assert n in index;
        }
      }
    }
    forall n | n in next
      ensures exists i :: 0 <= i < k + 1 && KeptAs(entries, i, n) && entries[i] == next[n] && LastKept(entries, i, k + 1)
    {
      if Indexed(e) && n == e.name {
        assert KeptAs(entries, k, n) && entries[k] == next[n] && LastKept(entries, k, k + 1);
      } else {
        var i :| 0 <= i < k && KeptAs(entries, i, n) && entries[i] == index[n] && LastKept(entries, i, k);
        assert !KeptAs(entries, k, n);
        assert LastKept(entries, i, k + 1);
      }
    }
  }

  /** What the root scan records for one member path: its first segment when
      it holds a `/`, otherwise "". */
  function RootDir(path: string): string {
    if '/' in path then FirstSegment(path) else ""
  }

  /** The recorded root directory is the text before the first `/`, or ""
      for a top-level file. */
  lemma RootDirShape(path: string)
    ensures RootDir(path) <= path && '/' !in RootDir(path)
    ensures '/' in path ==> path[|RootDir(path)|] == '/'
    ensures '/' !in path ==> RootDir(path) == ""
  {
  }

  /** The index is non-empty and every member lies under one non-empty
      first segment. */
  ghost predicate HasSingleRoot(index: MemberIndex) {
    exists m0 :: m0 in index && RootDir(m0) != "" && forall m :: m in index ==> RootDir(m) == RootDir(m0)
  }

  /** `rootPrefix` is the detected root: that single first segment and a
      `/` when there is one, "" otherwise. */
  ghost predicate RootPrefixOf(index: MemberIndex, rootPrefix: string) {
    && (rootPrefix != "" <==> HasSingleRoot(index))
    && forall m :: m in index && rootPrefix != "" ==> rootPrefix == RootDir(m) + "/"
  }

  /** Detects a redundant single top-level directory. */
  method DetectRootPrefix(index: MemberIndex) returns (rootPrefix: string)
    ensures RootPrefixOf(index, rootPrefix)
  {
    var rootDirs: set<string> := {};
    var todo := index.Keys;
    while todo != {}
      invariant todo <= index.Keys
      invariant forall d :: d in rootDirs <==> exists m :: m in index.Keys - todo && RootDir(m) == d
      decreases todo
    {
      var memberPath :| memberPath in todo;
      ghost var before := rootDirs;
      if '/' in memberPath {
        rootDirs := rootDirs + {FirstSegment(memberPath)};
      } else {
        rootDirs := rootDirs + {""};  // a file at top level
      }
      assert rootDirs == before + {RootDir(memberPath)};
      todo := todo - {memberPath};
    }
    RootDecision(index, rootDirs);
    if |rootDirs| == 1 && "" !in rootDirs {
      var dir :| dir in rootDirs;
      rootPrefix := dir + "/";
    } else {
      rootPrefix := "";
    }
  }

  /** The decision taken on the set of recorded root directories. */
  lemma RootDecision(index: MemberIndex, rootDirs: set<string>)
    requires forall d :: d in rootDirs <==> exists m :: m in index && RootDir(m) == d
    ensures HasSingleRoot(index) <==> |rootDirs| == 1 && "" !in rootDirs
    ensures |rootDirs| == 1 && "" !in rootDirs ==>
      forall dir :: dir in rootDirs ==> forall m :: m in index ==> dir == RootDir(m)
  {
    if HasSingleRoot(index) {
      SingleRootRecorded(index, rootDirs);
    }
    if |rootDirs| == 1 && "" !in rootDirs {
      var dir :| dir in rootDirs;
      OneRecorded(index, rootDirs, dir);
    }
  }

  lemma SingleRootRecorded(index: MemberIndex, rootDirs: set<string>)
    requires forall d :: d in rootDirs <==> exists m :: m in index && RootDir(m) == d
    requires HasSingleRoot(index)
    ensures |rootDirs| == 1 && "" !in rootDirs
  {
    var m0 :| m0 in index && RootDir(m0) != "" && forall m :: m in index ==> RootDir(m) == RootDir(m0);
    var dir := RootDir(m0);
    assert dir in rootDirs;
    forall d | d in rootDirs
      ensures d == dir
    {
      var m :| m in index && RootDir(m) == d;
    }
    assert rootDirs == {dir};
  }

  lemma OneRecorded(index: MemberIndex, rootDirs: set<string>, dir: string)
    requires forall d :: d in rootDirs <==> exists m :: m in index && RootDir(m) == d
    requires |rootDirs| == 1 && "" !in rootDirs && dir in rootDirs
    ensures HasSingleRoot(index)
    ensures forall m :: m in index ==> dir == RootDir(m)
  {
    Singleton(rootDirs, dir);
    var m0 :| m0 in index && RootDir(m0) == dir;
    forall m | m in index
      ensures RootDir(m) == dir
    {
      assert RootDir(m) in rootDirs;
    }
    assert RootDir(m0) != "";
  }

  lemma Singleton(s: set<string>, x: string)
    requires |s| == 1 && x in s
    ensures s == {x}
  {
    assert |s - {x}| == 0;
  }

  /** The detected root prefix is "" or a segment and one `/`; every member
      starts with it, and a node keeps it unchanged as its prefix. */
  lemma RootPrefixShape(index: MemberIndex, rootPrefix: string)
    requires RootPrefixOf(index, rootPrefix)
    ensures IsPrefixForm(rootPrefix) && NormalizePrefix(rootPrefix) == rootPrefix
    ensures forall m :: m in index ==> StartsWith(m, rootPrefix)
  {
    if rootPrefix != "" {
      var m0 :| m0 in index && RootDir(m0) != "";
      var dir := RootDir(m0);
      RootDirShape(m0);
      assert rootPrefix == dir + "/";
      SegmentKept(dir);
      forall m | m in index
        ensures StartsWith(m, rootPrefix)
      {
        MemberUnderRoot(m, dir);
      }
    }
  }

  /** A member whose recorded root directory is `dir` lies under `dir/`. */
  lemma MemberUnderRoot(m: string, dir: string)
    requires dir != "" && RootDir(m) == dir
    ensures StartsWith(m, dir + "/")
  {
    RootDirShape(m);
    assert m[..|dir| + 1] == dir + "/";
  }

  /** A member under `dir/` has `dir` as its first segment. */
  lemma RootDirUnder(m: string, dir: string)
    requires '/' !in dir && StartsWith(m, dir + "/")
    ensures RootDir(m) == dir
  {
    var rest := m[|dir| + 1..];
    assert m == dir + "/" + rest;
    assert m[|dir|] == '/';
    FirstSegmentBeforeSlash(dir, rest);
  }

  /** When every member lies under one directory `dir`, that directory is
      the one skipped. */
  lemma SingleTopDirectory(index: MemberIndex, rootPrefix: string, dir: string)
    requires RootPrefixOf(index, rootPrefix)
    requires dir != "" && '/' !in dir
    requires index != map[] && forall m :: m in index ==> StartsWith(m, dir + "/")
    ensures rootPrefix == dir + "/"
  {
    var m0 :| m0 in index;
    RootDirUnder(m0, dir);
    forall m | m in index
      ensures RootDir(m) == RootDir(m0)
    {
      RootDirUnder(m, dir);
    }
    assert HasSingleRoot(index);
  }

  /** A file at the top level, or two members under different top-level
      directories, mean no directory is skipped. */
  lemma NoSingleTopDirectory(index: MemberIndex, rootPrefix: string, m1: string, m2: string)
    requires RootPrefixOf(index, rootPrefix)
    requires m1 in index && m2 in index
    requires '/' !in m1 || RootDir(m1) != RootDir(m2)
    ensures rootPrefix == ""
  {
  }

  /** A node prefix: "" or ending in `/`. */
  predicate IsPrefixForm(p: string) {
    p == "" || p[|p| - 1] == '/'
  }

  /** `"" if prefix in ("", "/") else prefix.rstrip('/') + '/'` */
  function NormalizePrefix(prefix: string): (p: string)
    ensures IsPrefixForm(p)
    ensures p == "" <==> prefix == "" || prefix == "/"
    ensures p != "" ==> |p| == 1 || p[|p| - 2] != '/'
    ensures p != "" ==> p[..|p| - 1] <= prefix && forall i :: |p| - 1 <= i < |prefix| ==> prefix[i] == '/'
  {
    if prefix == "" || prefix == "/" then "" else RStrip(prefix, '/') + "/"
  }

  /** A segment and one `/` is already normal. */
  lemma SegmentKept(dir: string)
    requires dir != "" && '/' !in dir
    ensures NormalizePrefix(dir + "/") == dir + "/"
  {
    var p := dir + "/";
    assert p[..|p| - 1] == dir;
    assert RStrip(p, '/') == RStrip(dir, '/');
  }

  /** The prefix of the node for subdirectory `key`: the path and one `/`. */
  lemma ChildPrefix(prefix: string, key: string)
    requires key != "" && key[|key| - 1] != '/'
    ensures NormalizePrefix(prefix + key) == prefix + key + "/"
  {
    var path := prefix + key;
    assert path[|path| - 1] == key[|key| - 1];
  }

  /** How a path resolves against the index. */
  datatype Kind = DirectoryKind | LeafKind | Absent

  /** A directory when some member lies under `path + "/"`; otherwise a leaf
      when `path` is a member; otherwise absent. */
  function Classify(members: MemberIndex, path: string): (k: Kind)
    ensures k == DirectoryKind <==> exists m :: m in members && StartsWith(m, path + "/")
    ensures k == LeafKind <==> path in members && k != DirectoryKind
  {
    if path + "/" in members || exists m :: m in members && StartsWith(m, path + "/") then DirectoryKind
    else if path in members then LeafKind
    else Absent
  }

  /** A decoded NetCDF dataset; each decode yields a new object. */
  class Dataset {
    const member: TarEntry

    constructor (member: TarEntry)
      ensures this.member == member
    {
      this.member := member;
    }
  }

  /** The dict from full member path to decoded dataset. */
  class Cache {
    var entries: map<string, Dataset>

    constructor ()
      ensures entries == map[]
    {
      entries := map[];
    }
  }

  /** Every cached path is a member and holds that member's dataset. */
  ghost predicate Coherent(entries: map<string, Dataset>, members: MemberIndex) {
    forall p :: p in entries ==> p in members && entries[p].member == members[p]
  }

  /** The result of `node[key]`: a node, a dataset, or the exception raised. */
  datatype Lookup =
    | Subdirectory(node: Node)
    | Table(data: Dataset)
    | KeyError(key: string)
    | ReadError
    | DecodeError

  /** The opened tar file. Only what the view uses of it is modelled: its
      table of contents, whether it is closed, and how often a member has
      been extracted and decoded. */
  class TarArchive {
    const entries: seq<TarEntry>
    var closed: bool
    ghost var decodeCalls: nat

    constructor (entries: seq<TarEntry>)
      ensures this.entries == entries && !closed && decodeCalls == 0
    {
      this.entries := entries;
      closed := false;
      decodeCalls := 0;
    }

    /** `xr.open_dataset(io.BytesIO(tar.extractfile(e).read()))`: fails when
        the archive is closed, otherwise decodes once, giving a new dataset
        or a decode error. */
    method ReadDataset(e: TarEntry) returns (r: Lookup)
      modifies this`decodeCalls
      ensures closed ==> r == ReadError && decodeCalls == old(decodeCalls)
      ensures !closed ==> decodeCalls == old(decodeCalls) + 1
      ensures !closed && e.decodable ==> r.Table? && fresh(r.data) && r.data.member == e
      ensures !closed && !e.decodable ==> r == DecodeError
    {
      if closed {
        r := ReadError;
      } else {
        decodeCalls := decodeCalls + 1;
        if e.decodable {
          var d := new Dataset(e);
          r := Table(d);
        } else {
          r := DecodeError;
        }
      }
    }

    method Close()
      modifies this`closed
      ensures closed
    {
      closed := true;
    }
  }

  /** `Node`: a path prefix with the shared tar file, member index and a
      decode cache. */
  class Node {
    const tar: TarArchive
    const members: MemberIndex
    const prefix: string
    const cache: Cache

    ghost predicate Valid()
      reads cache
    {
      IsPrefixForm(prefix) && NcNames(members) && Coherent(cache.entries, members)
    }

    /** `Node(tar, members, prefix, cache)`: the prefix is normalised, and
        `cache or {}` keeps the given cache only when it is non-empty. */
    constructor (tar: TarArchive, members: MemberIndex, prefix: string, cache: Cache?)
      ensures this.tar == tar && this.members == members
      ensures this.prefix == NormalizePrefix(prefix)
      ensures cache != null && cache.entries != map[] ==> this.cache == cache
      ensures cache == null || cache.entries == map[] ==> fresh(this.cache) && this.cache.entries == map[]
      ensures NcNames(members) && (cache != null ==> Coherent(cache.entries, members)) ==> Valid()
    {
      this.tar := tar;
      this.members := members;
      this.prefix := NormalizePrefix(prefix);
      if cache != null && cache.entries != map[] {
        this.cache := cache;
      } else {
        this.cache := new Cache();
      }
    }

    /** What `node[key]` returns and does, in terms of the state before it. */
    twostate predicate Answers(key: string, new r: Lookup)
      reads cache, tar, if r.Subdirectory? then {r.node.cache} else {}
    {
      var path := prefix + key;
      match Classify(members, path)
      case DirectoryKind =>
        && r.Subdirectory? && fresh(r.node)
        && r.node.tar == tar && r.node.members == members
        && r.node.prefix == NormalizePrefix(path)
        && (if old(cache.entries) != map[] then r.node.cache == cache
            else fresh(r.node.cache) && r.node.cache.entries == map[])
        && cache.entries == old(cache.entries) && tar.decodeCalls == old(tar.decodeCalls)
      case LeafKind =>
        if path in old(cache.entries) then
          && r == Table(old(cache.entries)[path])
          && cache.entries == old(cache.entries) && tar.decodeCalls == old(tar.decodeCalls)
        else if tar.closed then
          && r == ReadError
          && cache.entries == old(cache.entries) && tar.decodeCalls == old(tar.decodeCalls)
        else
          && tar.decodeCalls == old(tar.decodeCalls) + 1
          && if members[path].decodable then
               && r.Table? && fresh(r.data) && r.data.member == members[path]
               && cache.entries == old(cache.entries)[path := r.data]
             else
               r == DecodeError && cache.entries == old(cache.entries)
      case Absent =>
        r == KeyError(key) && cache.entries == old(cache.entries) && tar.decodeCalls == old(tar.decodeCalls)
    }

    /** `node[key]` */
    method Get(key: string) returns (r: Lookup)
      requires Valid()
      modifies cache, tar`decodeCalls
      ensures Valid()
      ensures r.Subdirectory? ==> r.node.Valid()
      ensures Answers(key, r)
    {
      var path := prefix + key;
      var kind := Classify(members, path);
      if kind == DirectoryKind {
        var child := new Node(tar, members, path, cache);
        r := Subdirectory(child);
      } else if kind == LeafKind {
        if path in cache.entries {
          r := Table(cache.entries[path]);
        } else {
          r := tar.ReadDataset(members[path]);
          if r.Table? {
            cache.entries := cache.entries[path := r.data];
          }
        }
      } else {
        r := KeyError(key);
      }
    }

    /** `node.keys()`: the first `/`-segment of what follows the prefix in
        each member under it, empty segments skipped. */
    method Keys() returns (children: set<string>)
      ensures forall c :: c in children ==> c != "" && '/' !in c
      ensures forall c :: c in children <==>
        c != "" && exists m :: m in members && StartsWith(m, prefix) && FirstSegment(m[|prefix|..]) == c
    {
      children := {};
      var prefixLen := |prefix|;
      var todo := members.Keys;
      while todo != {}
        invariant todo <= members.Keys
        invariant forall c :: c in children <==>
          c != "" && exists m :: m in members.Keys - todo && StartsWith(m, prefix) && FirstSegment(m[|prefix|..]) == c
        decreases todo
      {
        var name :| name in todo;
        if StartsWith(name, prefix) {
          var rest := name[prefixLen..];
          var child := if '/' in rest then FirstSegment(rest) else rest;
          if child != "" {
            children := children + {child};
          }
        }
        todo := todo - {name};
      }
    }

    /** `node.find_files(pattern)`, with the regular expression search taken
        as a predicate on the relative path. */
    method FindFiles(pattern: string -> bool) returns (found: seq<string>)
      ensures StrictlySorted(found)
      ensures forall x :: x in found <==> prefix + x in members && pattern(x)
    {
      var matches: seq<string> := [];
      var todo := members.Keys;
      while todo != {}
        invariant todo <= members.Keys
        invariant Distinct(matches)
        invariant forall x :: x in matches <==> prefix + x in members.Keys - todo && pattern(x)
        decreases todo
      {
        var path :| path in todo;
        if StartsWith(path, prefix) {
          var relativePath := path[|prefix|..];
          assert prefix + relativePath == path;
          if pattern(relativePath) {
            matches := matches + [relativePath];
          }
        }
        todo := todo - {path};
      }
      found := Sort(matches);
      forall x
        ensures x in found <==> x in matches
      {
        assert x in found <==> x in multiset(found);
      }
    }

    /** `node.list_nc_files()`: every member under the prefix, relative to
        it, sorted. */
    method ListNcFiles() returns (found: seq<string>)
      requires Valid()
      ensures StrictlySorted(found)
      ensures forall x :: x in found <==> prefix + x in members
    {
      found := FindFiles(NcSearch);
      forall x | prefix + x in members
        ensures NcSearch(x)
      {
        SuffixBelowPrefix(prefix, x);
      }
    }
  }

  /** `re.search(r'\.nc$', x)`: `x` ends in `.nc`, or in `.nc` and a newline. */
  predicate NcSearch(x: string) {
    EndsWith(x, NcSuffix) || EndsWith(x, ".nc\n")
  }

  /** A `.nc` name under a node prefix leaves a `.nc` name once the prefix
      is stripped. */
  lemma SuffixBelowPrefix(prefix: string, x: string)
    requires IsPrefixForm(prefix) && EndsWith(prefix + x, NcSuffix)
    ensures EndsWith(x, NcSuffix)
  {
    var s := prefix + x;
    if prefix != "" {
      // the closing `/` of the prefix is not among the last three characters
      assert s[|prefix| - 1] == '/';
      assert forall i :: |s| - 3 <= i < |s| ==> s[i] == NcSuffix[i - (|s| - 3)];
      assert |x| >= 3;
    }
    assert s[|s| - 3..] == x[|x| - 3..];
  }

  /** `path` with the root prefix removed when it starts with it. */
  function StripRoot(path: string, rootPrefix: string): (r: string)
    ensures StartsWith(path, rootPrefix) ==> rootPrefix + r == path
    ensures !StartsWith(path, rootPrefix) ==> r == path
  {
    if StartsWith(path, rootPrefix) then path[|rootPrefix|..] else path
  }

  /** Adding the codes of one more member path to those already found. */
  lemma CodesStep(done: set<string>, path: string, rootPrefix: string, before: set<string>, after: set<string>)
    requires forall t :: t in before <==> exists m :: m in done && t in PathCodes(StripRoot(m, rootPrefix))
    requires after == before + PathCodes(StripRoot(path, rootPrefix))
    ensures forall t :: t in after <==> exists m :: m in done + {path} && t in PathCodes(StripRoot(m, rootPrefix))
  {
  }

  /** `VgosDBReader`: the opened archive, its member index, its own cache
      dict, the detected root prefix and the root node. */
  class Reader {
    const tar: TarArchive
    const members: MemberIndex
    const cache: Cache
    const rootPrefix: string
    const root: Node

    ghost predicate Valid()
      reads cache, root.cache
    {
      && IsIndexOf(tar.entries, members)
      && RootPrefixOf(members, rootPrefix)
      && root.tar == tar && root.members == members && root.prefix == rootPrefix
      && root.cache != cache
      && root.Valid()
    }

    /** `VgosDBReader(path)` for an archive whose table of contents is
        `contents`. The reader's own cache is empty when the root node is
        made, so the root node gets a cache of its own. */
    constructor (contents: seq<TarEntry>)
      ensures Valid()
      ensures fresh(tar) && tar.entries == contents && !tar.closed && tar.decodeCalls == 0
      ensures fresh(cache) && cache.entries == map[]
      ensures fresh(root.cache) && root.cache.entries == map[]
    {
      var t := new TarArchive(contents);
      var index := BuildIndex(t.entries);
      var c := new Cache();
      var rp := DetectRootPrefix(index);
      RootPrefixShape(index, rp);
      var r := new Node(t, index, rp, c);
      tar, members, cache, rootPrefix, root := t, index, c, rp, r;
    }

    /** `reader[key]`, answered by the root node. */
    method Get(key: string) returns (r: Lookup)
      requires Valid()
      modifies root.cache, tar`decodeCalls
      ensures Valid()
      ensures r.Subdirectory? ==> r.node.Valid()
      ensures root.Answers(key, r)
    {
      r := root.Get(key);
    }

    /** `reader.close()`: closes the tar file and clears the reader's own
        cache dict, which is not the one the nodes use. */
    method Close()
      requires Valid()
      modifies tar`closed, cache
      ensures Valid()
      ensures tar.closed && cache.entries == map[]
      ensures root.cache.entries == old(root.cache.entries)
    {
      tar.Close();
      cache.entries := map[];
    }

    /** `reader.find_files(pattern)` */
    method FindFiles(pattern: string -> bool) returns (found: seq<string>)
      requires Valid()
      ensures StrictlySorted(found)
      ensures forall x :: x in found <==> rootPrefix + x in members && pattern(x)
    {
      found := root.FindFiles(pattern);
    }

    /** `reader.list_nc_files()`: every member, relative to the root prefix. */
    method ListNcFiles() returns (found: seq<string>)
      requires Valid()
      ensures StrictlySorted(found)
      ensures forall x :: x in found <==> rootPrefix + x in members
      ensures forall m :: m in members ==> StartsWith(m, rootPrefix) && m[|rootPrefix|..] in found
    {
      found := root.ListNcFiles();
      RootPrefixShape(members, rootPrefix);
      forall m | m in members
        ensures m[|rootPrefix|..] in found
      {
        assert rootPrefix + m[|rootPrefix|..] == m;
      }
    }

    /** `reader.get_stations()`: the station codes found in the parts of the
        member paths, root prefix stripped, sorted. */
    method GetStations() returns (stations: seq<string>)
      ensures StrictlySorted(stations)
      ensures forall t :: t in stations <==> exists m :: m in members && t in PathCodes(StripRoot(m, rootPrefix))
      ensures forall t :: t in stations ==> IsStationCode(t)
      ensures forall m, t :: m in members && RunInPath(StripRoot(m, rootPrefix), t) ==> t in stations
    {
      var found: set<string> := {};
      var todo := members.Keys;
      while todo != {}
        invariant todo <= members.Keys
        invariant forall t :: t in found <==>
          exists m :: m in members.Keys - todo && t in PathCodes(StripRoot(m, rootPrefix))
        decreases todo
      {
        var path :| path in todo;
        var cleanPath := if StartsWith(path, rootPrefix) then path[|rootPrefix|..] else path;
        ghost var before := found;
        found := AddPathCodes(found, cleanPath);
        CodesStep(members.Keys - todo, path, rootPrefix, before, found);
        assert members.Keys - (todo - {path}) == (members.Keys - todo) + {path};
        todo := todo - {path};
      }
      var listed := ListOf(found);
      stations := Sort(listed);
      forall t | t in stations
        ensures t in found
      {
        assert t in multiset(stations);
      }
      forall t | t in found
        ensures t in stations && IsStationCode(t)
      {
        assert t in multiset(listed);
        var m :| m in members && t in PathCodes(StripRoot(m, rootPrefix));
        PathCodesSpec(StripRoot(m, rootPrefix), t);
      }
      forall m, t | m in members && RunInPath(StripRoot(m, rootPrefix), t)
        ensures t in stations
      {
        PathReportsRuns(StripRoot(m, rootPrefix), t);
        assert t in found;
      }
    }
  }
}
