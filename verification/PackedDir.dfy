/**
 Directory listings of the packed file system. A directory's entries are read off the sorted paths
 in one pass that drops an entry equal to the one before it, and then sorted by name.
 */
module PackedDir {
  import opened Text
  import opened PackedMeta
  import opened PackWriter

  datatype DirEntry = DirEntry(name: string, isDir: bool)

  /** The entry for what follows the directory's prefix in a path. */
  function EntryOf(remainder: string): DirEntry {
    var child := Before(remainder, '/');
    DirEntry(child, |remainder| > |child| + 1)
  }

  /** The pass over the entries of the pack, from index i on; it stops at the first path without the prefix. */
  function ListFrom(nameAt: nat -> Option<string>, count: nat, prefix: string, i: nat, seen: string): seq<DirEntry>
    decreases count - i
  {
    if i >= count then []
    else
      var fullName := nameAt(i);
      if fullName.None? || !(prefix <= fullName.value) then []
      else
        var entry := EntryOf(fullName.value[|prefix|..]);
        if entry.name == seen then ListFrom(nameAt, count, prefix, i + 1, seen)
        else [entry] + ListFrom(nameAt, count, prefix, i + 1, entry.name)
  }

  method ListChildren(nameAt: nat -> Option<string>, count: nat, prefix: string, start: nat) returns (entries: seq<DirEntry>)
    ensures entries == ListFrom(nameAt, count, prefix, start, "")
  {
    entries := [];
    var seen := "";
    var i := start;
    while i < count
      invariant start <= i
      invariant entries + ListFrom(nameAt, count, prefix, i, seen) == ListFrom(nameAt, count, prefix, start, "")
      decreases count - i
    {
      var fullName := nameAt(i);
      if fullName.None? || !(prefix <= fullName.value) {
        break;
      }
      var entry := EntryOf(fullName.value[|prefix|..]);
      if entry.name != seen {
        seen := entry.name;
        entries := entries + [entry];
      }
      i := i + 1;
    }
  }

  function NameReader(layout: Layout): nat -> Option<string> {
    (index: nat) => EntryName(layout, index)
  }

  function EntryKey(entry: DirEntry): string {
    entry.name
  }

  function Listing(layout: Result<Layout>, name: string): Result<seq<DirEntry>> {
    if name == "." then Ok([DirEntry("canonical", true), DirEntry("metadatas", true)])
    else if layout.Err? then Err(layout.error)
    else if !IsDir(layout, name) then Err(NotExist)
    else
      var l, prefix := layout.value, name + "/";
      Ok(SortBy(ListFrom(NameReader(l), l.count, prefix, LowerBound(l, prefix), ""), EntryKey))
  }

  /** What is not a directory cannot be listed, a file neither. */
  lemma MissingIffNoDir(layout: Layout, names: seq<string>, name: string)
    requires IsValidPack(layout, names)
    ensures Listing(Ok(layout), name) == Err(NotExist) <==> name != "." && name != "canonical" && !HasBelow(names, name)
    ensures Listing(Ok(layout), name).Ok? || Listing(Ok(layout), name) == Err(NotExist)
  {
    IsDirIffSomethingBelow(layout, names, name);
  }

  class PackedMetadataFS {
    const packData: seq<Byte>
    var loaded: bool
    var layout: Result<Layout>

    /** The layout is parsed once and never changes. */
    ghost predicate Valid()
      reads this
    {
      loaded ==> layout == ParseLayout(packData)
    }

    constructor (packData: seq<Byte>)
      ensures Valid() && this.packData == packData
    {
      this.packData, loaded, layout := packData, false, Err(InvalidHeader);
    }

    method LoadLayout() returns (r: Result<Layout>)
      requires Valid()
      modifies this
      ensures Valid() && loaded && r == layout == ParseLayout(packData)
      ensures old(loaded) ==> unchanged(this)
    {
      if !loaded {
        layout, loaded := ParseLayout(packData), true;
      }
      r := layout;
    }

    method ReadDir(name: string) returns (r: Result<seq<DirEntry>>)
      requires Valid()
      modifies this
      ensures Valid() && r == Listing(ParseLayout(packData), name)
    {
      if name == "." {
        return Ok([DirEntry("canonical", true), DirEntry("metadatas", true)]);
      }
      var loadedLayout := LoadLayout();
      if loadedLayout.Err? {
        return Err(loadedLayout.error);
      }
      if !IsDir(loadedLayout, name) {
        return Err(NotExist);
      }
      var l, prefix := loadedLayout.value, name + "/";
      var entries := ListChildren(NameReader(l), l.count, prefix, LowerBound(l, prefix));
      r := Ok(SortBy(entries, EntryKey));
    }
  }

  /** An open directory, read in pages. */
  class OpenDir {
    const entries: seq<DirEntry>
    var offset: nat

    ghost predicate Valid()
      reads this
    {
      offset <= |entries|
    }

    constructor (entries: seq<DirEntry>)
      ensures Valid() && this.entries == entries && offset == 0
    {
      this.entries, offset := entries, 0;
    }

    /** A page continues where the last one ended. Only a positive n can run into the end of the directory. */
    method ReadDir(n: int) returns (page: seq<DirEntry>, eof: bool)
      requires Valid()
      modifies this
      ensures Valid() && entries[..offset] == entries[..old(offset)] + page
      ensures eof <==> n > 0 && old(offset) == |entries|
      ensures n <= 0 ==> offset == |entries|
      ensures n > 0 ==> offset == if old(offset) + n <= |entries| then old(offset) + n else |entries|
    {
      if offset >= |entries| && n > 0 {
        return [], true;
      }
      var size := if n <= 0 || offset + n > |entries| then |entries| - offset else n;
      page, eof := entries[offset..offset + size], false;
      offset := offset + size;
    }
  }

  // ----- The pass over a sorted list of names -----

  ghost predicate Below(names: seq<string>, prefix: string, i: int) {
    0 <= i < |names| && prefix <= names[i]
  }

  ghost function ChildAt(names: seq<string>, prefix: string, i: int): string
    requires Below(names, prefix, i)
  {
    Before(names[i][|prefix|..], '/')
  }

  ghost function EntryAt(names: seq<string>, prefix: string, i: int): DirEntry
    requires Below(names, prefix, i)
  {
    EntryOf(names[i][|prefix|..])
  }

  /** The paths below a prefix are one block of the sorted names that starts at the boundary. */
  lemma BelowIsABlock(names: seq<string>, prefix: string, i: int, j: int, k: int)
    requires StrictlySorted(names)
    requires 0 <= i <= j <= k < |names| && LessEq(prefix, names[i]) && prefix <= names[k]
    ensures prefix <= names[j]
  {
    if j < k {
      SortedAt(names, j, k);
      if i < j {
        SortedAt(names, i, j);
        LessEqIsTransitive(prefix, names[i], names[j]);
      }
      PrefixIsContiguous(prefix, names[j], names[k]);
    }
  }

  ghost predicate IsBlock(names: seq<string>, prefix: string, i: int) {
    forall j, k :: i <= j <= k && Below(names, prefix, k) && 0 <= j ==> Below(names, prefix, j)
  }

  /** From s to k the child stays the same. */
  ghost predicate SameChild(names: seq<string>, prefix: string, s: int, k: int) {
    s <= k && Below(names, prefix, s) && forall t :: s <= t <= k ==>
      Below(names, prefix, t) && ChildAt(names, prefix, t) == ChildAt(names, prefix, s)
  }

  /** The child at t differs from the one before it. */
  ghost predicate StartsRun(names: seq<string>, prefix: string, i: nat, seen: string, t: int) {
    && Below(names, prefix, t)
    && (t == i ==> ChildAt(names, prefix, t) != seen)
    && (t > i ==> Below(names, prefix, t - 1) && ChildAt(names, prefix, t) != ChildAt(names, prefix, t - 1))
  }

  /** Where the entries of a pass come from: `ks` are the indices at which it adds one. */
  ghost predicate Traces(names: seq<string>, prefix: string, i: nat, seen: string, list: seq<DirEntry>, ks: seq<int>) {
    && |ks| == |list|
    && (forall m :: 0 <= m < |ks| ==> i <= ks[m] && Below(names, prefix, ks[m]) && list[m] == EntryAt(names, prefix, ks[m]))
    && (forall m :: 0 <= m < |ks| ==> StartsRun(names, prefix, i, seen, ks[m]))
    && (forall m, n :: 0 <= m < n < |ks| ==> ks[m] < ks[n])
  }

  /** Every path of the block belongs to a run whose start was added, or continues the child seen before. */
  ghost predicate Covers(names: seq<string>, prefix: string, i: nat, seen: string, ks: seq<int>) {
    forall k :: i <= k && Below(names, prefix, k) ==>
      || (exists m :: 0 <= m < |ks| && SameChild(names, prefix, ks[m], k))
      || (SameChild(names, prefix, i, k) && ChildAt(names, prefix, i) == seen)
  }

  lemma {:induction false} TracePass(nameAt: nat -> Option<string>, names: seq<string>, prefix: string, i: nat, seen: string)
    returns (ks: seq<int>)
    requires forall k :: 0 <= k < |names| ==> nameAt(k) == Some(names[k])
    requires i <= |names| && IsBlock(names, prefix, i)
    ensures Traces(names, prefix, i, seen, ListFrom(nameAt, |names|, prefix, i, seen), ks)
    ensures Covers(names, prefix, i, seen, ks)
    decreases |names| - i
  {
    if i < |names| && Below(names, prefix, i) {
      var child := ChildAt(names, prefix, i);
      var rest := TracePass(nameAt, names, prefix, i + 1, child);
      var list := ListFrom(nameAt, |names|, prefix, i + 1, child);
      ks := if child == seen then rest else [i] + rest;
      CoverOneMore(names, prefix, i, seen, rest);
      TraceOneMore(names, prefix, i, seen, list, rest);
      assert ListFrom(nameAt, |names|, prefix, i, seen) == if child == seen then list else [EntryAt(names, prefix, i)] + list;
    } else {
      ks := [];
    }
  }

  lemma TraceOneMore(names: seq<string>, prefix: string, i: nat, seen: string, list: seq<DirEntry>, ks: seq<int>)
    requires Below(names, prefix, i) && Traces(names, prefix, i + 1, ChildAt(names, prefix, i), list, ks)
    ensures ChildAt(names, prefix, i) == seen ==> Traces(names, prefix, i, seen, list, ks)
    ensures ChildAt(names, prefix, i) != seen ==> Traces(names, prefix, i, seen, [EntryAt(names, prefix, i)] + list, [i] + ks)
  {
    forall m | 0 <= m < |ks|
      ensures StartsRun(names, prefix, i, seen, ks[m])
    {
      assert StartsRun(names, prefix, i + 1, ChildAt(names, prefix, i), ks[m]);
    }
  }

  lemma CoverOneMore(names: seq<string>, prefix: string, i: nat, seen: string, rest: seq<int>)
    requires Below(names, prefix, i)
    requires Covers(names, prefix, i + 1, ChildAt(names, prefix, i), rest)
    ensures Covers(names, prefix, i, seen, if ChildAt(names, prefix, i) == seen then rest else [i] + rest)
  {
    var child := ChildAt(names, prefix, i);
    var ks := if child == seen then rest else [i] + rest;
    forall k | i <= k && Below(names, prefix, k)
      ensures (exists m :: 0 <= m < |ks| && SameChild(names, prefix, ks[m], k))
        || (SameChild(names, prefix, i, k) && child == seen)
    {
      if k > i && exists m :: 0 <= m < |rest| && SameChild(names, prefix, rest[m], k) {
        var m :| 0 <= m < |rest| && SameChild(names, prefix, rest[m], k);
        assert ks[if child == seen then m else m + 1] == rest[m];
      } else {
        if k > i {
          SameChildFromOneEarlier(names, prefix, i, k);
        }
        assert SameChild(names, prefix, i, k);
        if child != seen {
          assert ks[0] == i;
        }
      }
    }
  }

  lemma SameChildFromOneEarlier(names: seq<string>, prefix: string, i: int, k: int)
    requires Below(names, prefix, i) && SameChild(names, prefix, i + 1, k)
    requires ChildAt(names, prefix, i + 1) == ChildAt(names, prefix, i)
    ensures SameChild(names, prefix, i, k)
  {
  }

  // ----- Which listings are right -----

  /** No empty segment: no slash at either end and no two in a row. */
  ghost predicate IsCleanPath(s: string) {
    s != [] && forall i :: 0 <= i < |s| && s[i] == '/' ==> 0 < i < |s| - 1 && s[i + 1] != '/'
  }

  ghost predicate AreCleanPaths(names: seq<string>) {
    forall i :: 0 <= i < |names| ==> IsCleanPath(names[i])
  }

  /** A file directly in the directory that is also a directory, with another path sorted in between: a
      file named b, a file named b-c and something below b, say. */
  ghost predicate IsSplit(names: seq<string>, prefix: string, i: int, j: int, k: int) {
    && 0 <= i < j < k < |names|
    && prefix <= names[i] && '/' !in names[i][|prefix|..]
    && names[i] + "/" <= names[k]
    && !(names[i] + "/" <= names[j])
  }

  ghost predicate NoSplit(names: seq<string>, prefix: string) {
    forall i, j, k :: !IsSplit(names, prefix, i, j, k)
  }

  /** c is an immediate child: a file of that name, or something below it. */
  ghost predicate IsChild(names: seq<string>, prefix: string, c: string) {
    '/' !in c && exists k :: Below(names, prefix, k) && (names[k] == prefix + c || prefix + c + "/" <= names[k])
  }

  lemma ChildIs(names: seq<string>, prefix: string, k: int, c: string)
    requires Below(names, prefix, k) && '/' !in c
    ensures ChildAt(names, prefix, k) == c <==> names[k] == prefix + c || prefix + c + "/" <= names[k]
  {
    var rest := names[k][|prefix|..];
    assert names[k] == prefix + rest;
    if rest == c {
      BeforeOf(c, "", '/');
      assert c + "" == c;
    } else if prefix + c + "/" <= names[k] {
      assert c + "/" <= rest by {
        assert |prefix + c + "/"| <= |names[k]|;
        assert forall i :: 0 <= i < |c + "/"| ==> (c + "/")[i] == (prefix + c + "/")[|prefix| + i] == rest[i];
      }
      BeforeOf(c, rest[|c|..], '/');
      assert rest == c + rest[|c|..];
    }
  }

  lemma CleanChild(names: seq<string>, dir: string, k: int)
    requires AreCleanPaths(names) && Below(names, dir + "/", k)
    ensures ChildAt(names, dir + "/", k) != ""
    ensures EntryAt(names, dir + "/", k).isDir <==> names[k] != dir + "/" + ChildAt(names, dir + "/", k)
  {
    var prefix, name := dir + "/", names[k];
    var rest := name[|prefix|..];
    var child := ChildAt(names, prefix, k);
    assert name == prefix + rest && IsCleanPath(name);
    assert name[|prefix| - 1] == '/';
    assert rest != [] ==> rest[0] == name[|prefix|];
    if child != rest {
      assert name[|prefix| + |child|] == '/';
    }
  }

  /** Without a split, paths with the same child are neighbours. */
  lemma RunIsContiguous(names: seq<string>, prefix: string, i: int, j: int, k: int)
    requires StrictlySorted(names) && NoSplit(names, prefix)
    requires i < j < k && Below(names, prefix, i) && Below(names, prefix, k)
    requires ChildAt(names, prefix, i) == ChildAt(names, prefix, k)
    ensures Below(names, prefix, j) && ChildAt(names, prefix, j) == ChildAt(names, prefix, i)
  {
    var c := ChildAt(names, prefix, i);
    PrefixComesFirst(prefix, names[i]);
    BelowIsABlock(names, prefix, i, j, k);
    ChildIs(names, prefix, i, c);
    ChildIs(names, prefix, j, c);
    ChildIs(names, prefix, k, c);
    SortedAt(names, i, k);
    var dir := prefix + c + "/";
    if names[i] == prefix + c {
      LessIsAsymmetric(names[i], names[k]);
      assert names[i][|prefix|..] == c;
      assert !IsSplit(names, prefix, i, j, k);
    } else {
      PrefixComesFirst(dir, names[i]);
      if names[k] == prefix + c {
        PrefixComesFirst(prefix + c, names[i]);
        LessIsAsymmetric(names[i], names[k]);
      } else {
        BelowIsABlock(names, dir, i, j, k);
      }
    }
  }

  /** The pass over the paths below a prefix adds every child; it adds one twice exactly if there is a split;
      and the marks are right, a directory exactly where there is no file, exactly without a split. */
  lemma PassIsExact(list: seq<DirEntry>, names: seq<string>, dir: string, start: nat, ks: seq<int>)
    requires StrictlySorted(names) && AreCleanPaths(names) && IsBoundary(names, dir + "/", start)
    requires Traces(names, dir + "/", start, "", list, ks) && Covers(names, dir + "/", start, "", ks)
    ensures forall c :: (exists m :: 0 <= m < |list| && list[m].name == c) <==> IsChild(names, dir + "/", c)
    ensures DistinctBy(list, EntryKey) <==> NoSplit(names, dir + "/")
    ensures NoSplit(names, dir + "/") <==>
      forall m :: 0 <= m < |list| ==> (list[m].isDir <==> dir + "/" + list[m].name !in names)
  {
    var prefix := dir + "/";
    forall c
      ensures (exists m :: 0 <= m < |list| && list[m].name == c) <==> IsChild(names, prefix, c)
    {
      PassListsChild(list, names, dir, start, ks, c);
    }
    if NoSplit(names, prefix) {
      forall m, n | 0 <= m < n < |list|
        ensures EntryKey(list[m]) != EntryKey(list[n])
      {
        if list[m].name == list[n].name {
          assert StartsRun(names, prefix, start, "", ks[n]);
          if ks[m] < ks[n] - 1 {
            RunIsContiguous(names, prefix, ks[m], ks[n] - 1, ks[n]);
          }
          assert false;
        }
      }
      forall m | 0 <= m < |list|
        ensures list[m].isDir <==> prefix + list[m].name !in names
      {
        FlagIsRight(names, dir, start, ks[m]);
      }
    } else {
      var i, j, k :| IsSplit(names, prefix, i, j, k);
      var m, n := SplitIsListedTwice(list, names, dir, start, ks, i, j, k);
    }
  }

  lemma PassListsChild(list: seq<DirEntry>, names: seq<string>, dir: string, start: nat, ks: seq<int>, c: string)
    requires AreCleanPaths(names) && IsBoundary(names, dir + "/", start)
    requires Traces(names, dir + "/", start, "", list, ks) && Covers(names, dir + "/", start, "", ks)
    ensures (exists m :: 0 <= m < |list| && list[m].name == c) <==> IsChild(names, dir + "/", c)
  {
    var prefix := dir + "/";
    if m :| 0 <= m < |list| && list[m].name == c {
      ChildIs(names, prefix, ks[m], c);
    }
    if IsChild(names, prefix, c) {
      var k :| Below(names, prefix, k) && (names[k] == prefix + c || prefix + c + "/" <= names[k]);
      ChildIs(names, prefix, k, c);
      var m := RunOf(names, dir, start, ks, k);
      assert list[m].name == c;
    }
  }

  /** The entry that stands for the path at k. */
  lemma RunOf(names: seq<string>, dir: string, start: nat, ks: seq<int>, k: int) returns (m: int)
    requires AreCleanPaths(names) && IsBoundary(names, dir + "/", start)
    requires Covers(names, dir + "/", start, "", ks) && Below(names, dir + "/", k)
    ensures 0 <= m < |ks| && SameChild(names, dir + "/", ks[m], k)
  {
    var prefix := dir + "/";
    PrefixComesFirst(prefix, names[k]);
    LessIsAsymmetric(prefix, names[k]);
    assert start <= k;
    if SameChild(names, prefix, start, k) {
      CleanChild(names, dir, start);
    }
    m :| 0 <= m < |ks| && SameChild(names, prefix, ks[m], k);
  }

  /** The file and the directory of a split both have an entry, and that of the directory hides the file. */
  lemma SplitIsListedTwice(
    list: seq<DirEntry>, names: seq<string>, dir: string, start: nat, ks: seq<int>, i: int, j: int, k: int)
    returns (m: int, n: int)
    requires StrictlySorted(names) && AreCleanPaths(names) && IsBoundary(names, dir + "/", start)
    requires Traces(names, dir + "/", start, "", list, ks) && Covers(names, dir + "/", start, "", ks)
    requires IsSplit(names, dir + "/", i, j, k)
    ensures 0 <= m < |list| && 0 <= n < |list| && m != n && list[m].name == list[n].name && !DistinctBy(list, EntryKey)
    ensures list[n].isDir && dir + "/" + list[n].name in names
  {
    var prefix := dir + "/";
    var c := names[i][|prefix|..];
    assert names[i] == prefix + c;
    assert Below(names, prefix, i) && Below(names, prefix, k);
    ChildIs(names, prefix, i, c);
    ChildIs(names, prefix, k, c);
    PrefixComesFirst(prefix, names[i]);
    BelowIsABlock(names, prefix, i, j, k);
    ChildIs(names, prefix, j, c);
    SortedAt(names, i, j);
    LessIsAsymmetric(names[i], names[j]);
    m := RunOf(names, dir, start, ks, i);
    n := RunOf(names, dir, start, ks, k);
    assert ks[n] > j;
    assert EntryKey(list[m]) == EntryKey(list[n]) == c && m != n;
    CleanChild(names, dir, ks[n]);
    SortedAt(names, i, ks[n]);
    LessIsAsymmetric(names[i], names[ks[n]]);
  }

  lemma FlagIsRight(names: seq<string>, dir: string, start: nat, k: int)
    requires StrictlySorted(names) && AreCleanPaths(names) && IsBoundary(names, dir + "/", start)
    requires NoSplit(names, dir + "/") && start <= k && StartsRun(names, dir + "/", start, "", k)
    ensures
      var e := EntryAt(names, dir + "/", k);
      e.isDir <==> dir + "/" + e.name !in names
  {
    var prefix := dir + "/";
    var c := ChildAt(names, prefix, k);
    CleanChild(names, dir, k);
    ChildIs(names, prefix, k, c);
    if prefix + c in names && names[k] != prefix + c {
      var t :| 0 <= t < |names| && names[t] == prefix + c;
      FileComesBefore(names, prefix, c, t, k);
      PrefixComesFirst(prefix, names[t]);
      LessIsAsymmetric(prefix, names[t]);
      ChildIs(names, prefix, t, c);
      assert start <= t;
      if t < k - 1 {
        RunIsContiguous(names, prefix, t, k - 1, k);
      }
      assert false;
    }
  }

  lemma FileComesBefore(names: seq<string>, prefix: string, c: string, t: int, k: int)
    requires StrictlySorted(names) && 0 <= t < |names| && 0 <= k < |names|
    requires names[t] == prefix + c && prefix + c + "/" <= names[k]
    ensures t < k
  {
    assert prefix + c <= names[k];
    PrefixComesFirst(prefix + c, names[k]);
    LessIsAsymmetric(names[t], names[k]);
    if k < t {
      assert false;
    }
  }

  lemma TraceListing(layout: Layout, names: seq<string>, dir: string) returns (list: seq<DirEntry>, ks: seq<int>)
    requires IsValidPack(layout, names) && dir != "." && IsDir(Ok(layout), dir)
    ensures Listing(Ok(layout), dir) == Ok(SortBy(list, EntryKey))
    ensures
      var prefix, start := dir + "/", LowerBound(layout, dir + "/");
      IsBoundary(names, prefix, start) && Traces(names, prefix, start, "", list, ks) && Covers(names, prefix, start, "", ks)
  {
    var prefix := dir + "/";
    var start := LowerBound(layout, prefix);
    LowerBoundSplitsNames(layout, names, prefix);
    BlockStartsAtBoundary(names, prefix, start);
    var nameAt := NameReader(layout);
    assert forall k :: 0 <= k < |names| ==> nameAt(k) == Some(names[k]);
    list := ListFrom(nameAt, |names|, prefix, start, "");
    ks := TracePass(nameAt, names, prefix, start, "");
  }

  /** A listing of a directory of the pack names exactly its immediate children. It is strictly increasing, so that
      each child stands in it once, exactly if the directory has no split; and that is also exactly when every
      entry is what Stat says about the joined path. */
  lemma ListingIsExact(layout: Layout, names: seq<string>, dir: string)
    requires IsValidPack(layout, names) && AreCleanPaths(names)
    requires dir != "." && IsDir(Ok(layout), dir)
    ensures Listing(Ok(layout), dir).Ok?
    ensures
      var entries := Listing(Ok(layout), dir).value;
      && (forall c :: Lists(entries, c) <==> IsChild(names, dir + "/", c))
      && (StrictlySortedBy(entries, EntryKey) <==> NoSplit(names, dir + "/"))
      && (NoSplit(names, dir + "/") <==> forall e :: e in entries ==> StatAgrees(layout, dir, e))
  {
    var prefix := dir + "/";
    var list, ks := TraceListing(layout, names, dir);
    PassIsExact(list, names, dir, LowerBound(layout, prefix), ks);
    SortByIsStrictIffDistinct(list, EntryKey);
    ListedIsSorted(list, names, prefix);
    forall e | e in list
      ensures e in SortBy(list, EntryKey)
      ensures StatAgrees(layout, dir, e) <==> (e.isDir <==> prefix + e.name !in names)
    {
      SortByKeepsMembers(list, EntryKey, e);
      assert IsChild(names, prefix, e.name);
      StatOfChild(layout, names, dir, e);
    }
    forall e | e in SortBy(list, EntryKey)
      ensures e in list
    {
      SortByKeepsMembers(list, EntryKey, e);
    }
  }

  ghost predicate StatAgrees(layout: Layout, dir: string, e: DirEntry) {
    var info := Stat(Ok(layout), dir + "/" + e.name);
    info.Ok? && (info.value.Dir? <==> e.isDir)
  }

  ghost predicate Lists(entries: seq<DirEntry>, c: string) {
    exists e :: e in entries && e.name == c
  }

  lemma ListedIsSorted(list: seq<DirEntry>, names: seq<string>, prefix: string)
    requires forall c :: (exists m :: 0 <= m < |list| && list[m].name == c) <==> IsChild(names, prefix, c)
    ensures forall c :: Lists(SortBy(list, EntryKey), c) <==> IsChild(names, prefix, c)
  {
    forall c
      ensures Lists(SortBy(list, EntryKey), c) <==> IsChild(names, prefix, c)
    {
      if m :| 0 <= m < |list| && list[m].name == c {
        SortByKeepsMembers(list, EntryKey, list[m]);
      }
      if e :| e in SortBy(list, EntryKey) && e.name == c {
        SortByKeepsMembers(list, EntryKey, e);
      }
    }
  }

  lemma BlockStartsAtBoundary(names: seq<string>, prefix: string, start: nat)
    requires StrictlySorted(names) && IsBoundary(names, prefix, start)
    ensures IsBlock(names, prefix, start)
  {
    forall j, k | start <= j <= k && Below(names, prefix, k)
      ensures Below(names, prefix, j)
    {
      LessIsTotal(prefix, names[start]);
      BelowIsABlock(names, prefix, start, j, k);
    }
  }

  lemma StatOfChild(layout: Layout, names: seq<string>, dir: string, e: DirEntry)
    requires IsValidPack(layout, names) && IsChild(names, dir + "/", e.name)
    ensures StatAgrees(layout, dir, e) <==> (e.isDir <==> dir + "/" + e.name !in names)
  {
    var path := dir + "/" + e.name;
    assert path[|dir|] == '/' && '/' !in "." && '/' !in "canonical";
    LookupFindsExactlyTheNames(layout, names, path);
    IsDirIffSomethingBelow(layout, names, path);
  }

  /** The fixed listing of the top directory agrees with Stat exactly if the pack has something below
      metadatas and no file of either name. */
  lemma TopListingIffPresent(layout: Layout, names: seq<string>)
    requires IsValidPack(layout, names)
    ensures
      (forall e :: e in Listing(Ok(layout), ".").value ==> Stat(Ok(layout), e.name) == Ok(Dir)) <==>
      "canonical" !in names && "metadatas" !in names && HasBelow(names, "metadatas")
  {
    LookupFindsExactlyTheNames(layout, names, "canonical");
    LookupFindsExactlyTheNames(layout, names, "metadatas");
    IsDirIffSomethingBelow(layout, names, "metadatas");
    assert DirEntry("canonical", true) in Listing(Ok(layout), ".").value;
    assert DirEntry("metadatas", true) in Listing(Ok(layout), ".").value;
  }

  // ----- When there is no split -----

  /** No path is both a file and a directory. */
  ghost predicate FilesAreNoDirs(names: seq<string>) {
    forall i, k :: 0 <= i < |names| && 0 <= k < |names| ==> !(names[i] + "/" <= names[k])
  }

  lemma NoSplitWhereFilesAreNoDirs(names: seq<string>, prefix: string)
    requires FilesAreNoDirs(names)
    ensures NoSplit(names, prefix)
  {
  }

  const SPLIT_NAMES := ["d/b", "d/b-c", "d/b/x"]

  lemma SplitNamesAreSplit()
    ensures IsSplit(SPLIT_NAMES, "d/", 0, 1, 2)
  {
    assert SPLIT_NAMES[0][|"d/"|..] == "b";
    assert SPLIT_NAMES[0] + "/" == "d/b/";
    assert SPLIT_NAMES[2][..4] == "d/b/";
    assert SPLIT_NAMES[1][3] != "d/b/"[3];
  }

  lemma SplitNamesAreClean()
    ensures AreCleanPaths(SPLIT_NAMES)
  {
    assert IsCleanPath("d/b") && IsCleanPath("d/b-c") && IsCleanPath("d/b/x");
  }

  /** With a file b, a file b-c and a file below b, the listing has b twice: as a file, and as a directory, which Stat
      does not confirm. */
  lemma SplitIsPossible(layout: Layout, names: seq<string>, dir: string)
    requires names == SPLIT_NAMES && dir == "d" && IsValidPack(layout, names)
    ensures IsDir(Ok(layout), dir)
    ensures Listing(Ok(layout), dir).Ok? && !StrictlySortedBy(Listing(Ok(layout), dir).value, EntryKey)
    ensures exists e :: e in Listing(Ok(layout), dir).value && !StatAgrees(layout, dir, e)
  {
    SplitNamesAreClean();
    SplitNamesAreSplit();
    assert dir + "/" == "d/" && "d/" <= names[0];
    IsDirIffSomethingBelow(layout, names, dir);
    ListingIsExact(layout, names, dir);
  }

  const SPLIT_FILES := [SourceFile("d/b", []), SourceFile("d/b-c", []), SourceFile("d/b/x", [])]

  lemma SplitFilesAreSorted()
    ensures StrictlySortedBy(SPLIT_FILES, FileKey)
  {
    assert "d/b"[1..] == "/b" && "d/b-c"[1..] == "/b-c" && "d/b/x"[1..] == "/b/x";
    assert "/b"[1..] == "b" && "/b-c"[1..] == "b-c" && "/b/x"[1..] == "b/x";
    assert "b"[1..] == "" && "b-c"[1..] == "-c" && "b/x"[1..] == "/x";
  }

  function EncodeNothing(raw: seq<Byte>): seq<Byte> {
    []
  }

  lemma SplitFilesFit()
    ensures Fits([], SPLIT_FILES, EncodeNothing)
  {
    BlocksAreSmall(SPLIT_FILES);
  }

  lemma {:induction false} BlocksAreSmall(files: seq<SourceFile>)
    requires forall file :: file in files ==> |file.name| <= 5
    ensures |BlocksOf(files, EncodeNothing).paths| <= 5 * |files| && BlocksOf(files, EncodeNothing).blob == []
  {
    if files != [] {
      BlocksAreSmall(files[..|files| - 1]);
      assert files[|files| - 1] in files;
    }
  }

  /** There is such a pack: the generator writes it. */
  lemma SplitPackExists() returns (pack: seq<Byte>)
    ensures
      var layout := ParseLayout(pack);
      && layout.Ok? && IsValidPack(layout.value, SPLIT_NAMES) && IsDir(layout, "d")
      && Listing(layout, "d").Ok? && !StrictlySortedBy(Listing(layout, "d").value, EntryKey)
  {
    var files := SPLIT_FILES;
    SplitFilesAreSorted();
    SortBySorted(files, FileKey);
    SplitFilesFit();
    StrictIsDistinct(files);
    PackIsValid([], files, EncodeNothing);
    assert NamesOf(files) == SPLIT_NAMES;
    pack := PackBytes([], |files|, BlocksOf(files, EncodeNothing));
    SplitIsPossible(ParseLayout(pack).value, SPLIT_NAMES, "d");
  }

  lemma StrictIsDistinct(files: seq<SourceFile>)
    requires StrictlySortedBy(files, FileKey)
    ensures DistinctBy(files, FileKey)
  {
    forall i, j | 0 <= i < j < |files|
      ensures FileKey(files[i]) != FileKey(files[j])
    {
      LessIsAsymmetric(FileKey(files[i]), FileKey(files[j]));
    }
  }
}
