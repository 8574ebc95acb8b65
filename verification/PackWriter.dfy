/**
 The generator of metadata packs, and its agreement with the reader: what was packed is read back.
 */
module PackWriter {
  import opened Text
  import opened PackedMeta

  const TWO_TO_THE_32 := 0x1_0000_0000

  datatype SourceFile = SourceFile(name: seq<Byte>, raw: seq<Byte>)

  function FileKey(file: SourceFile): string {
    file.name
  }

  /** Little-endian, keeping the low 32 bits. */
  function PutUint32(n: nat): (b: seq<Byte>)
    ensures |b| == 4
  {
    var n1 := n / 0x100;
    var n2 := n1 / 0x100;
    var n3 := n2 / 0x100;
    [(n % 0x100) as char, (n1 % 0x100) as char, (n2 % 0x100) as char, (n3 % 0x100) as char]
  }

  /** What was written is read back, up to the low 32 bits. */
  lemma Uint32OfPut(n: nat)
    ensures Uint32(PutUint32(n)) == n % TWO_TO_THE_32
  {
    var n1 := n / 0x100;
    var n2 := n1 / 0x100;
    var n3 := n2 / 0x100;
    var n4 := n3 / 0x100;
    assert n == 0x100 * n1 + n % 0x100;
    assert n1 == 0x100 * n2 + n1 % 0x100;
    assert n2 == 0x100 * n3 + n2 % 0x100;
    assert n3 == 0x100 * n4 + n3 % 0x100;
    assert n == Uint32(PutUint32(n)) + TWO_TO_THE_32 * n4;
  }

  function PutUint64(n: nat): (b: seq<Byte>)
    ensures |b| == 8
  {
    PutUint32(n) + PutUint32(n / TWO_TO_THE_32)
  }

  lemma Uint64OfPut(n: nat)
    ensures n < TWO_TO_THE_64 ==> Uint64(PutUint64(n)) == n
  {
    var b := PutUint64(n);
    assert b[..4] == PutUint32(n) && b[4..] == PutUint32(n / TWO_TO_THE_32);
    Uint32OfPut(n);
    Uint32OfPut(n / TWO_TO_THE_32);
  }

  function PutEntry(pathOffset: nat, pathLength: nat, dataOffset: nat, compressedSize: nat, rawSize: nat): (b: seq<Byte>)
    ensures |b| == PACK_ENTRY_SIZE
  {
    PutUint32(pathOffset) + PutUint32(pathLength) + PutUint64(dataOffset) + PutUint32(compressedSize) + PutUint32(rawSize)
  }

  /** The three blocks for a list of files, when some paths and data have already been written. */
  datatype Blocks = Blocks(entries: seq<Byte>, paths: seq<Byte>, blob: seq<Byte>)

  function AppendFile(blocks: Blocks, file: SourceFile, encode: seq<Byte> -> seq<Byte>): Blocks {
    var compressed := encode(file.raw);
    Blocks(
      blocks.entries + PutEntry(|blocks.paths|, |file.name|, |blocks.blob|, |compressed|, |file.raw|),
      blocks.paths + file.name,
      blocks.blob + compressed)
  }

  function BlocksOf(files: seq<SourceFile>, encode: seq<Byte> -> seq<Byte>): (blocks: Blocks)
    ensures |blocks.entries| == PACK_ENTRY_SIZE * |files|
  {
    if files == [] then Blocks([], [], [])
    else AppendFile(BlocksOf(files[..|files| - 1], encode), files[|files| - 1], encode)
  }

  function Header(dictionarySize: nat, count: nat, pathsSize: nat): (h: seq<Byte>)
    ensures |h| == PACK_HEADER_SIZE
  {
    PACK_MAGIC + PutUint32(dictionarySize) + PutUint32(count) + PutUint32(pathsSize) + PutUint32(0)
  }

  function PackBytes(dictionary: seq<Byte>, count: nat, blocks: Blocks): seq<Byte> {
    Header(|dictionary|, count, |blocks.paths|) + dictionary + blocks.entries + blocks.paths + blocks.blob
  }

  method WriteBlocks(files: seq<SourceFile>, encode: seq<Byte> -> seq<Byte>) returns (blocks: Blocks)
    ensures blocks == BlocksOf(files, encode)
  {
    var entries: seq<Byte>, paths: seq<Byte>, blob: seq<Byte> := [], [], [];
    for i := 0 to |files|
      invariant Blocks(entries, paths, blob) == BlocksOf(files[..i], encode)
    {
      assert files[..i + 1][..i] == files[..i];
      var compressed := encode(files[i].raw);
      entries := entries + PutEntry(|paths|, |files[i].name|, |blob|, |compressed|, |files[i].raw|);
      paths := paths + files[i].name;
      blob := blob + compressed;
    }
    assert files[..|files|] == files;
    blocks := Blocks(entries, paths, blob);
  }

  method Pack(files: seq<SourceFile>, dictionary: seq<Byte>, encode: seq<Byte> -> seq<Byte>) returns (pack: seq<Byte>)
    ensures
      var sorted := SortBy(files, FileKey);
      pack == PackBytes(dictionary, |sorted|, BlocksOf(sorted, encode))
  {
    var sorted := SortBy(files, FileKey);
    var blocks := WriteBlocks(sorted, encode);
    pack := PACK_MAGIC;
    pack := pack + PutUint32(|dictionary|);
    pack := pack + PutUint32(|sorted|);
    pack := pack + PutUint32(|blocks.paths|);
    pack := pack + PutUint32(0);
    pack := pack + dictionary;
    pack := pack + blocks.entries;
    pack := pack + blocks.paths;
    pack := pack + blocks.blob;
  }

  // ----- Reading back what was written -----

  /** Every number fits the field it is written to. */
  ghost predicate Fits(dictionary: seq<Byte>, files: seq<SourceFile>, encode: seq<Byte> -> seq<Byte>) {
    var blocks := BlocksOf(files, encode);
    && |dictionary| < TWO_TO_THE_32 && |files| < TWO_TO_THE_32
    && |blocks.paths| < TWO_TO_THE_32 && |blocks.blob| < TWO_TO_THE_64
    && forall i :: 0 <= i < |files| ==> |files[i].raw| < TWO_TO_THE_32 && |encode(files[i].raw)| < TWO_TO_THE_32
  }

  ghost function NamesOf(files: seq<SourceFile>): (names: seq<string>)
    ensures |names| == |files| && forall i :: 0 <= i < |files| ==> names[i] == files[i].name
  {
    seq(|files|, i requires 0 <= i < |files| => files[i].name)
  }

  function Slice(s: seq<Byte>, start: nat, length: nat): Option<seq<Byte>> {
    if start + length <= |s| then Some(s[start..start + length]) else None
  }

  lemma SliceGrows(s: seq<Byte>, t: seq<Byte>, start: nat, length: nat)
    requires start + length <= |s|
    ensures Slice(s + t, start, length) == Slice(s, start, length)
  {
    assert (s + t)[start..start + length] == s[start..start + length];
  }

  lemma SliceAtEnd(s: seq<Byte>, t: seq<Byte>)
    ensures Slice(s + t, |s|, |t|) == Some(t)
  {
    assert (s + t)[|s|..|s| + |t|] == t;
  }

  lemma HeaderFields(dictionarySize: nat, count: nat, pathsSize: nat)
    requires dictionarySize < TWO_TO_THE_32 && count < TWO_TO_THE_32 && pathsSize < TWO_TO_THE_32
    ensures
      var h := Header(dictionarySize, count, pathsSize);
      && h[..8] == PACK_MAGIC
      && Uint32(h[8..12]) == dictionarySize && Uint32(h[12..16]) == count && Uint32(h[16..20]) == pathsSize
  {
    var h := Header(dictionarySize, count, pathsSize);
    assert h[..8] == PACK_MAGIC;
    assert h[8..12] == PutUint32(dictionarySize);
    assert h[12..16] == PutUint32(count);
    assert h[16..20] == PutUint32(pathsSize);
    Uint32OfPut(dictionarySize);
    Uint32OfPut(count);
    Uint32OfPut(pathsSize);
  }

  lemma FourSections(h: seq<Byte>, a: seq<Byte>, b: seq<Byte>, c: seq<Byte>, d: seq<Byte>)
    ensures
      var s, i, j, k := h + a + b + c + d, |h| + |a|, |h| + |a| + |b|, |h| + |a| + |b| + |c|;
      s[..|h|] == h && s[|h|..i] == a && s[i..j] == b && s[j..k] == c && s[k..] == d
  {
  }

  lemma SliceOfPrefix(s: seq<Byte>, n: nat, i: nat, j: nat)
    requires i <= j <= n <= |s|
    ensures s[i..j] == s[..n][i..j]
  {
  }

  lemma PackIsParsed(dictionary: seq<Byte>, count: nat, blocks: Blocks)
    requires |dictionary| < TWO_TO_THE_32 && count < TWO_TO_THE_32 && |blocks.paths| < TWO_TO_THE_32
    requires |blocks.entries| == PACK_ENTRY_SIZE * count
    ensures ParseLayout(PackBytes(dictionary, count, blocks)) ==
      Ok(Layout(dictionary, blocks.entries, blocks.paths, blocks.blob, count))
  {
    var data, h := PackBytes(dictionary, count, blocks), Header(|dictionary|, count, |blocks.paths|);
    HeaderFields(|dictionary|, count, |blocks.paths|);
    FourSections(h, dictionary, blocks.entries, blocks.paths, blocks.blob);
    SliceOfPrefix(data, |h|, 0, 8);
    SliceOfPrefix(data, |h|, 8, 12);
    SliceOfPrefix(data, |h|, 12, 16);
    SliceOfPrefix(data, |h|, 16, 20);
    LayoutIffSectionsFit(data);
  }

  /** Entry i of the blocks: its fields, and what they point to. */
  ghost predicate EntryHolds(blocks: Blocks, file: SourceFile, compressed: seq<Byte>, i: nat, path: nat, data: nat) {
    && Slice(blocks.entries, PACK_ENTRY_SIZE * i, PACK_ENTRY_SIZE) ==
         Some(PutEntry(path, |file.name|, data, |compressed|, |file.raw|))
    && Slice(blocks.paths, path, |file.name|) == Some(file.name)
    && Slice(blocks.blob, data, |compressed|) == Some(compressed)
  }

  lemma {:induction false} EveryEntryHolds(files: seq<SourceFile>, i: nat, encode: seq<Byte> -> seq<Byte>)
    returns (path: nat, data: nat)
    requires i < |files|
    ensures EntryHolds(BlocksOf(files, encode), files[i], encode(files[i].raw), i, path, data)
  {
    var n := |files| - 1;
    var before, last := BlocksOf(files[..n], encode), files[n];
    var compressed := encode(last.raw);
    var entry := PutEntry(|before.paths|, |last.name|, |before.blob|, |compressed|, |last.raw|);
    if i == n {
      path, data := |before.paths|, |before.blob|;
      SliceAtEnd(before.entries, entry);
      SliceAtEnd(before.paths, last.name);
      SliceAtEnd(before.blob, compressed);
    } else {
      path, data := EveryEntryHolds(files[..n], i, encode);
      SliceGrows(before.entries, entry, PACK_ENTRY_SIZE * i, PACK_ENTRY_SIZE);
      SliceGrows(before.paths, last.name, path, |files[i].name|);
      SliceGrows(before.blob, compressed, data, |encode(files[i].raw)|);
    }
  }

  lemma SlicesOfEntry(path: nat, length: nat, data: nat, compressed: nat, raw: nat)
    ensures
      var b := PutEntry(path, length, data, compressed, raw);
      && b[0..4] == PutUint32(path) && b[4..8] == PutUint32(length) && b[8..16] == PutUint64(data)
      && b[16..20] == PutUint32(compressed) && b[20..24] == PutUint32(raw)
  {
  }

  lemma FieldsOfEntry(path: nat, length: nat, data: nat, compressed: nat, raw: nat)
    requires path < TWO_TO_THE_32 && length < TWO_TO_THE_32 && data < TWO_TO_THE_64
    requires compressed < TWO_TO_THE_32 && raw < TWO_TO_THE_32
    ensures
      var b := PutEntry(path, length, data, compressed, raw);
      && Uint32(b[0..4]) == path && Uint32(b[4..8]) == length
      && PackedFile(Uint64(b[8..16]), Uint32(b[16..20]), Uint32(b[20..24])) == PackedFile(data, compressed, raw)
  {
    SlicesOfEntry(path, length, data, compressed, raw);
    Uint32OfPut(path);
    Uint32OfPut(length);
    Uint64OfPut(data);
    Uint32OfPut(compressed);
    Uint32OfPut(raw);
  }

  ghost function LayoutOf(dictionary: seq<Byte>, files: seq<SourceFile>, encode: seq<Byte> -> seq<Byte>): Layout {
    var blocks := BlocksOf(files, encode);
    Layout(dictionary, blocks.entries, blocks.paths, blocks.blob, |files|)
  }

  lemma EntryIsDecoded(layout: Layout, i: nat, path: nat, length: nat, data: nat, compressed: nat, raw: nat)
    requires path < TWO_TO_THE_32 && length < TWO_TO_THE_32 && data < TWO_TO_THE_64
    requires compressed < TWO_TO_THE_32 && raw < TWO_TO_THE_32
    requires Slice(layout.entries, PACK_ENTRY_SIZE * i, PACK_ENTRY_SIZE) == Some(PutEntry(path, length, data, compressed, raw))
    ensures EntryName(layout, i) == Slice(layout.paths, path, length)
    ensures Entry(layout, i) == Some(PackedFile(data, compressed, raw))
  {
    FieldsOfEntry(path, length, data, compressed, raw);
    assert EntryBytes(layout, i) == Some(PutEntry(path, length, data, compressed, raw));
  }

  /** Reading entry i of the pack gives the name and the compressed bytes of file i. */
  lemma EntryIsRead(dictionary: seq<Byte>, files: seq<SourceFile>, i: nat, encode: seq<Byte> -> seq<Byte>)
    requires Fits(dictionary, files, encode) && i < |files|
    ensures
      var layout := LayoutOf(dictionary, files, encode);
      && EntryName(layout, i) == Some(files[i].name)
      && Entry(layout, i).Some?
      && var e := Entry(layout, i).value;
         e.raw == |files[i].raw| && Slice(layout.blob, e.offset, e.size) == Some(encode(files[i].raw))
  {
    var path, data := EveryEntryHolds(files, i, encode);
    EntryIsDecoded(LayoutOf(dictionary, files, encode), i, path, |files[i].name|, data, |encode(files[i].raw)|, |files[i].raw|);
  }

  /** A generated pack is one the reader accepts: sorted, with every path in range. */
  lemma PackIsValid(dictionary: seq<Byte>, files: seq<SourceFile>, encode: seq<Byte> -> seq<Byte>)
    requires DistinctBy(files, FileKey) && Fits(dictionary, SortBy(files, FileKey), encode)
    ensures
      var sorted := SortBy(files, FileKey);
      && ParseLayout(PackBytes(dictionary, |sorted|, BlocksOf(sorted, encode))) == Ok(LayoutOf(dictionary, sorted, encode))
      && IsValidPack(LayoutOf(dictionary, sorted, encode), NamesOf(sorted))
  {
    var sorted := SortBy(files, FileKey);
    PackIsParsed(dictionary, |sorted|, BlocksOf(sorted, encode));
    SortByIsStrictIffDistinct(files, FileKey);
    var layout, names := LayoutOf(dictionary, sorted, encode), NamesOf(sorted);
    forall i | 0 <= i < |names|
      ensures EntryName(layout, i) == Some(names[i])
    {
      EntryIsRead(dictionary, sorted, i, encode);
    }
    forall i, j | 0 <= i < j < |names|
      ensures Less(names[i], names[j])
    {
      assert Less(FileKey(sorted[i]), FileKey(sorted[j]));
    }
  }

  /** Round trip: reading the pack gives every packed file back byte for byte, and finds nothing else. */
  lemma PackedFilesAreReadBack(
    dictionary: seq<Byte>, files: seq<SourceFile>, name: seq<Byte>,
    encode: seq<Byte> -> seq<Byte>, decode: seq<Byte> -> Option<seq<Byte>>)
    requires DistinctBy(files, FileKey) && Fits(dictionary, SortBy(files, FileKey), encode)
    requires forall raw :: decode(encode(raw)) == Some(raw)
    ensures
      var sorted := SortBy(files, FileKey);
      var layout := ParseLayout(PackBytes(dictionary, |sorted|, BlocksOf(sorted, encode)));
      && (forall file :: file in files && file.name == name ==> ReadFile(layout, name, decode) == Ok(file.raw))
      && ((forall file :: file in files ==> file.name != name) ==> ReadFile(layout, name, decode) == Err(NotExist))
  {
    PackIsValid(dictionary, files, encode);
    forall file | file in files && file.name == name
      ensures ReadFile(Ok(LayoutOf(dictionary, SortBy(files, FileKey), encode)), name, decode) == Ok(file.raw)
    {
      SortByKeepsMembers(files, FileKey, file);
      var i :| 0 <= i < |SortBy(files, FileKey)| && SortBy(files, FileKey)[i] == file;
      FileIsReadBack(dictionary, SortBy(files, FileKey), i, encode, decode);
    }
    if forall file :: file in files ==> file.name != name {
      OtherNamesAreNotFound(dictionary, files, name, encode, decode);
    }
  }

  lemma OtherNamesAreNotFound(
    dictionary: seq<Byte>, files: seq<SourceFile>, name: string,
    encode: seq<Byte> -> seq<Byte>, decode: seq<Byte> -> Option<seq<Byte>>)
    requires IsValidPack(LayoutOf(dictionary, SortBy(files, FileKey), encode), NamesOf(SortBy(files, FileKey)))
    requires forall file :: file in files ==> file.name != name
    ensures ReadFile(Ok(LayoutOf(dictionary, SortBy(files, FileKey), encode)), name, decode) == Err(NotExist)
  {
    var sorted := SortBy(files, FileKey);
    LookupFindsExactlyTheNames(LayoutOf(dictionary, sorted, encode), NamesOf(sorted), name);
    forall i | 0 <= i < |sorted|
      ensures NamesOf(sorted)[i] != name
    {
      SortByKeepsMembers(files, FileKey, sorted[i]);
    }
  }

  lemma FileIsReadBack(
    dictionary: seq<Byte>, files: seq<SourceFile>, i: nat,
    encode: seq<Byte> -> seq<Byte>, decode: seq<Byte> -> Option<seq<Byte>>)
    requires Fits(dictionary, files, encode) && i < |files|
    requires IsValidPack(LayoutOf(dictionary, files, encode), NamesOf(files))
    requires decode(encode(files[i].raw)) == Some(files[i].raw)
    ensures ReadFile(Ok(LayoutOf(dictionary, files, encode)), files[i].name, decode) == Ok(files[i].raw)
  {
    var layout, names := LayoutOf(dictionary, files, encode), NamesOf(files);
    EntryIsRead(dictionary, files, i, encode);
    LookupFindsExactlyTheNames(layout, names, files[i].name);
    assert names[i] == files[i].name;
    ReadOfEntry(layout, files[i].name, Entry(layout, i).value, encode(files[i].raw), files[i].raw, decode);
  }

  lemma ReadOfEntry(
    layout: Layout, name: string, e: PackedFile, compressed: seq<Byte>, raw: seq<Byte>, decode: seq<Byte> -> Option<seq<Byte>>)
    requires LookupFile(layout, name) == Ok(Some(e)) && |layout.blob| < TWO_TO_THE_64
    requires Slice(layout.blob, e.offset, e.size) == Some(compressed)
    requires decode(compressed) == Some(raw) && |raw| == e.raw
    ensures ReadFile(Ok(layout), name, decode) == Ok(raw)
  {
    assert Add64(e.offset, e.size) == e.offset + e.size;
  }
}
