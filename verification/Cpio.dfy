/** Writing an initramfs archive (`mkinitramfs`) and parsing it at boot (`parse_archive`). */
module Cpio {
  import opened Common
  import opened Paths
  import opened Texts
  import opened CpioFormat

  // ------------------------------------------------------------------- path names

  function Kept(comps: seq<Text>): seq<Text> {
    if comps == [] then [] else (if Skipped(comps[0]) then [] else [comps[0]]) + Kept(comps[1..])
  }

  /** The components of a path inside an archive; ".." is refused. */
  function ArchiveParts(text: Text): Option<seq<Text>> {
    if [DOT, DOT] in Split(text) then None else Some(Kept(Split(text)))
  }

  /** The loop of `normalize_dest` and of `normalize_archive_path`. */
  method CollectParts(text: Text) returns (out: Option<Text>)
    ensures out == match ArchiveParts(text) case None => None case Some(parts) => Some(Join(parts))
  {
    hide Split, Join, Kept;
    var comps, s := Split(text), [];
    Nothing();
    assert comps[..0] == [];
    for i := 0 to |comps|
      invariant [DOT, DOT] !in comps[..i] && s == Join(Kept(comps[..i]))
    {
      assert comps[..i + 1] == comps[..i] + [comps[i]];
      KeptSnoc(comps[..i], comps[i]);
      if Skipped(comps[i]) {
        continue;
      }
      if comps[i] == [DOT, DOT] {
        return None;
      }
      JoinConcat(Kept(comps[..i]), [comps[i]]);
      JoinOne(comps[i]);
      Regroup(s, [SLASH], comps[i]);
      s := s + [SLASH];
      s := s + comps[i];
    }
    assert comps[..|comps|] == comps;
    out := Some(s);
  }

  lemma {:induction false} Nothing()
    ensures Join(Kept([])) == []
  {
  }

  lemma {:induction false} KeptSnoc(a: seq<Text>, c: Text)
    ensures Kept(a + [c]) == if Skipped(c) then Kept(a) else Kept(a) + [c]
  {
    if a == [] {
      assert a + [c] == [c];
    } else {
      assert (a + [c])[1..] == a[1..] + [c];
      KeptSnoc(a[1..], c);
    }
  }

  lemma {:induction false} KeptClean(comps: seq<Text>)
    requires [DOT, DOT] !in comps && forall i :: 0 <= i < |comps| ==> SLASH !in comps[i]
    ensures AllClean(Kept(comps))
  {
    if comps != [] {
      assert comps[0] in comps;
      assert [DOT, DOT] !in comps[1..];
      KeptClean(comps[1..]);
    }
  }

  lemma {:induction false} KeepsClean(parts: seq<Text>)
    requires AllClean(parts)
    ensures Kept(parts) == parts && [DOT, DOT] !in parts
  {
    if parts != [] {
      KeepsClean(parts[1..]);
      assert parts == [parts[0]] + parts[1..];
    }
  }

  /** Component by component: ".." is refused wherever it stands, nothing and "." are passed over. */
  lemma {:induction false} ArchivePartsGrow(p: Text, c: Text)
    requires SLASH !in c
    ensures ArchiveParts(p + [SLASH] + c) ==
      if c == [DOT, DOT] || ArchiveParts(p) == None then None
      else if c == [] || c == [DOT] then ArchiveParts(p)
      else Some(ArchiveParts(p).value + [c])
    ensures ArchiveParts(c) == if c == [DOT, DOT] then None else if c == [] || c == [DOT] then Some([]) else Some([c])
  {
    hide Split, Kept;
    SplitBoth(p, c);
    SplitAt(c, []);
    KeptSnoc(Split(p), c);
    KeptSnoc([], c);
    assert [] + [c] == [c];
    NothingKept([]);
    KeptNone();
  }

  lemma {:induction false} KeptNone()
    ensures Kept([]) == []
  {
  }

  /** A path that is accepted means the same in an archive as in the file system. */
  lemma {:induction false} SameAsInFileSystem(text: Text)
    requires ArchiveParts(text).Some?
    ensures ArchiveParts(text).value == Target(ROOT, text)
  {
    hide Split;
    RootLeadsNowhere();
    WalkKeeps([], Split(text));
  }

  lemma {:induction false} WalkKeeps(stack: seq<Text>, comps: seq<Text>)
    requires [DOT, DOT] !in comps
    ensures Walk(stack, comps) == stack + Kept(comps)
    decreases comps
  {
    if comps == [] {
      assert stack + Kept(comps) == stack;
    } else {
      var c, rest := comps[0], comps[1..];
      assert c in comps && [DOT, DOT] !in rest;
      OneStep(stack, comps);
      hide Walk, Kept, Enter, Skipped;
      if Skipped(c) {
        WalkKeeps(stack, rest);
      } else {
        WalkKeeps(stack + [c], rest);
        assert (stack + [c]) + Kept(rest) == stack + ([c] + Kept(rest));
      }
    }
  }

  lemma {:induction false} OneStep(stack: seq<Text>, comps: seq<Text>)
    requires comps != [] && comps[0] != [DOT, DOT]
    ensures var c, rest := comps[0], comps[1..];
      if Skipped(c) then Walk(stack, comps) == Walk(stack, rest) && Kept(comps) == Kept(rest)
      else Walk(stack, comps) == Walk(stack + [c], rest) && Kept(comps) == [c] + Kept(rest)
  {
  }

  /** `normalize_dest`; None is a panic. */
  method NormalizeDest(path: Text) returns (r: Option<Text>)
    ensures var parts := ArchiveParts(Trim(path));
      && (r.Some? <==> parts.Some? && parts.value != [])
      && (r.Some? ==> r.value == Join(parts.value) && AllClean(parts.value))
  {
    hide Trim;
    var trimmed := Trim(path);
    SplitHasNoSlash(trimmed);
    if [DOT, DOT] !in Split(trimmed) { KeptClean(Split(trimmed)); }
    NothingKept(trimmed);
    if trimmed == [] || trimmed == ROOT {
      return None;
    }
    r := CollectParts(trimmed);
    if r == Some([]) {
      r := None;
    }
  }

  lemma {:induction false} NothingKept(s: Text)
    ensures s == [] || s == ROOT ==> Kept(Split(s)) == []
    ensures forall parts: seq<Text> :: Join(parts) == [] <==> parts == []
  {
    var one: seq<Text> := [[]];
    assert ROOT[1..] == [];
    assert Split([]) == one && Split(ROOT) == one + one;
    assert Kept(one) == Kept(one[1..]);
    assert (one + one)[1..] == one;
  }

  /** `normalize_archive_path`; None is the trailer. */
  function ArchivePath(raw: Text): Result<Option<Text>, FsError> {
    if raw == TRAILER then Ok(None)
    else
      var t := TrimEnd(raw);
      if t == [] || t == [DOT] then Ok(Some(ROOT))
      else
        match ArchiveParts(t)
        case None => Err(InvalidInput)
        case Some(parts) => Ok(Some(Render(parts)))
  }

  /** The name written for a normal path is read back as that path. */
  lemma {:induction false} ArchivePathOfName(parts: seq<Text>)
    requires parts != [] && AllClean(parts) && Join(parts)[1..] != TRAILER
    ensures ArchivePath(Join(parts)[1..]) == Ok(Some(Join(parts)))
  {
    var name := Join(parts)[1..];
    EndsClean(parts);
    SplitJoin(parts);
    KeepsClean(parts);
    if name == [DOT] { SplitAt([DOT], []); }
  }

  lemma {:induction false} EndsClean(parts: seq<Text>)
    requires parts != [] && AllClean(parts)
    ensures var s := Join(parts); |s| > 1 && s[|s| - 1] != SLASH && s[1] != SLASH && TrimEnd(s[1..]) == s[1..] != []
  {
    var init, last := parts[..|parts| - 1], parts[|parts| - 1];
    assert parts == init + [last];
    JoinConcat(init, [last]);
    JoinOne(last);
    assert Join(parts)[|Join(parts)| - 1] == last[|last| - 1];
    assert Join(parts)[1] == parts[0][0];
  }

  // ------------------------------------------------------------------------ parser

  datatype Kind = Directory | Regular

  datatype Entry = Entry(path: Text, ino: nat, mode: nat, kind: Kind, data: Option<Text>)

  type Store = map<Text, Entry>

  /** `mode & 0o170000` */
  function KindOf(mode: nat): Option<Kind> {
    match mode / 0x1000 % 16
    case 4 => Some(Directory)
    case 8 => Some(Regular)
    case _ => None
  }

  /** Bits 15 to 12 of the mode: 0100 for a directory, 1000 for a regular file. */
  lemma {:induction false} KindOfBits(mode: nat)
    ensures var b15, b14, b13, b12 := mode / 0x8000 % 2, mode / 0x4000 % 2, mode / 0x2000 % 2, mode / 0x1000 % 2;
      && (KindOf(mode) == Some(Directory) <==> b15 == 0 && b14 == 1 && b13 == 0 && b12 == 0)
      && (KindOf(mode) == Some(Regular) <==> b15 == 1 && b14 == 0 && b13 == 0 && b12 == 0)
  {
    var q := mode / 0x1000;
    assert mode / 0x2000 == q / 2 && mode / 0x4000 == q / 4 && mode / 0x8000 == q / 8;
    FourBits(q);
  }

  lemma {:induction false} FourBits(q: nat)
    ensures q % 16 == q % 2 + q / 2 % 2 * 2 + q / 4 % 2 * 4 + q / 8 % 2 * 8
  {
    assert q / 4 == q / 2 / 2 && q / 8 == q / 2 / 2 / 2;
  }

  /**
   The hash that stands in for a missing inode number: FNV-1a with 2^44 + 0x1b3
   in the place of its 64-bit prime 2^40 + 0x1b3.
   */
  function HashPath(path: Text): bv64 {
    if path == [] then 0xcbf2_9ce4_8422_2325
    else (HashPath(path[..|path| - 1]) ^ (path[|path| - 1] as bv64)) * 0x1000_0000_01b3
  }

  /** The hash of "a". */
  lemma {:induction false} HashExample()
    ensures HashPath([97]) == 0xaf74_d84c_8601_ec8c
  {
    hide HashPath;
    OneByte(97);
    ByteAsBits(97);
    OneRound(97 as bv64);
  }

  lemma {:induction false} OneByte(b: Byte)
    ensures HashPath([b]) == (0xcbf2_9ce4_8422_2325 ^ (b as bv64)) * 0x1000_0000_01b3
  {
    var s: Text := [b];
    assert s[..|s| - 1] == [] && s[|s| - 1] == b;
    assert HashPath([]) == 0xcbf2_9ce4_8422_2325;
  }

  lemma {:induction false} ByteAsBits(b: Byte)
    requires b == 97
    ensures (b as bv64) == 97
  {
  }

  lemma {:induction false} OneRound(b: bv64)
    requires b == 97
    ensures (0xcbf2_9ce4_8422_2325 ^ b) * 0x1000_0000_01b3 == 0xaf74_d84c_8601_ec8c
  {
  }

  function EntryOf(path: Text, ino: nat, mode: nat, kind: Kind, data: Text): Entry {
    Entry(path, if ino != 0 then ino else HashPath(path) as nat, mode, kind, if kind.Regular? then Some(data) else None)
  }

  /** What one record adds to the store. */
  function Stored(acc: Store, raw: Raw): Result<Store, FsError> {
    match ArchivePath(raw.name)
    case Err(e) => Err(e)
    case Ok(None) => Ok(acc)
    case Ok(Some(path)) =>
      if path == ROOT then Ok(acc)
      else
        match KindOf(raw.mode)
        case None => Ok(acc)
        case Some(kind) => Ok(acc[path := EntryOf(path, raw.ino, raw.mode, kind, raw.data)])
  }

  function ParseFrom(bytes: Text, cursor: nat, acc: Store): Result<Store, FsError>
    decreases |bytes| - cursor
  {
    if cursor + HEADER_LEN > |bytes| then Ok(acc)
    else
      match ReadItem(bytes, cursor)
      case None => Err(InvalidInput)
      case Some(raw) =>
        if raw.name == TRAILER then Ok(acc)
        else
          match Stored(acc, raw)
          case Err(e) => Err(e)
          case Ok(acc') => ParseFrom(bytes, raw.next, acc')
  }

  /**
   Record by record: only ".." in a name is an error; the root and other kinds of
   nodes are passed over; the rest is stored under its path, over what was there.
   */
  lemma {:induction false} StoredCases(acc: Store, raw: Raw)
    requires raw.name != TRAILER
    ensures var parts, r := ArchiveParts(TrimEnd(raw.name)), Stored(acc, raw);
      && (r.Err? <==> parts == None) && (r.Err? ==> r.error == InvalidInput)
      && (parts == Some([]) ==> r == Ok(acc))
      && (parts.Some? && raw.mode / 0x1000 % 16 != 4 && raw.mode / 0x1000 % 16 != 8 ==> r == Ok(acc))
      && (parts.Some? && parts.value != [] && raw.mode / 0x1000 % 16 in {4, 8} ==>
          var path := Join(parts.value);
          && r.Ok? && path in r.value && r.value == acc[path := r.value[path]]
          && var e := r.value[path];
          && e.path == path && e.mode == raw.mode && e.ino == (if raw.ino != 0 then raw.ino else HashPath(path) as nat)
          && (e.kind.Directory? <==> raw.mode / 0x1000 % 16 == 4) && (e.kind.Directory? ==> e.data == None)
          && (e.kind.Regular? ==> e.data == Some(raw.data)))
  {
    hide TrimEnd, HashPath, Split, Kept;
    var t := TrimEnd(raw.name);
    EmptyParts();
    if parts :| ArchiveParts(t) == Some(parts) {
      SplitHasNoSlash(t);
      KeptClean(Split(t));
      if parts != [] { EndsClean(parts); }
    }
  }

  lemma {:induction false} EmptyParts()
    ensures ArchiveParts([]) == Some([]) && ArchiveParts([DOT]) == Some([])
  {
    ArchivePartsGrow([], []);
    ArchivePartsGrow([], [DOT]);
  }

  /** Bytes too few for a header end the archive without an error, trailer or not. */
  lemma {:induction false} EndsWithoutTrailer(bytes: Text, cursor: nat, acc: Store)
    requires |bytes| < cursor + 110
    ensures ParseFrom(bytes, cursor, acc) == Ok(acc)
  {
  }

  /** The characters that are trimmed are the 25 with the property White_Space. */
  lemma {:induction false} WhiteCharacters(c: nat)
    requires Scalar(c)
    ensures White(Encode(c)) <==>
      || 9 <= c <= 13 || c in {32, 0x85, 0xA0, 0x1680, 0x2028, 0x2029, 0x202F, 0x205F, 0x3000}
      || 0x2000 <= c <= 0x200A
  {
  }

  // -------------------------------------------------- what any input can lead to

  /** A path in normal form other than the root. */
  ghost predicate Normal(path: Text) { exists parts :: parts != [] && AllClean(parts) && Join(parts) == path }

  /** data is a slice of the archive. */
  ghost predicate SliceOf(bytes: Text, data: Text) {
    exists i, j :: 0 <= i <= j <= |bytes| && bytes[i..j] == data
  }

  ghost predicate SoundEntry(bytes: Text, path: Text, e: Entry) {
    && e.path == path && Normal(path) && KindOf(e.mode) == Some(e.kind)
    && match e.kind case Directory => e.data == None case Regular => e.data.Some? && SliceOf(bytes, e.data.value)
  }

  ghost predicate Sound(bytes: Text, m: Store) { forall p :: p in m ==> SoundEntry(bytes, p, m[p]) }

  lemma {:induction false} DataIsSlice(bytes: Text, cursor: nat)
    requires cursor + HEADER_LEN <= |bytes| && ReadItem(bytes, cursor).Some?
    ensures SliceOf(bytes, ReadItem(bytes, cursor).value.data)
  {
    hide ReadHeader, Utf8, NulAt, Align4;
  }

  lemma {:induction false} PathIsNormal(raw: Text)
    ensures var r := ArchivePath(raw); r.Ok? && r.value.Some? && r.value.value != ROOT ==> Normal(r.value.value)
  {
    hide TrimEnd, Split, Join, Kept;
    var t := TrimEnd(raw);
    SplitHasNoSlash(t);
    if [DOT, DOT] !in Split(t) { KeptClean(Split(t)); }
  }

  lemma {:induction false} StoredIsSound(bytes: Text, acc: Store, raw: Raw)
    requires Sound(bytes, acc) && SliceOf(bytes, raw.data) && Stored(acc, raw).Ok?
    ensures Sound(bytes, Stored(acc, raw).value)
  {
    hide ArchivePath, KindOf, HashPath, Normal, SliceOf;
    PathIsNormal(raw.name);
  }

  /** Whatever the bytes are, a successful parse stores sound entries only. */
  lemma {:induction false} ParseIsSound(bytes: Text, cursor: nat, acc: Store)
    requires Sound(bytes, acc) && ParseFrom(bytes, cursor, acc).Ok?
    ensures Sound(bytes, ParseFrom(bytes, cursor, acc).value)
    decreases |bytes| - cursor
  {
    hide ReadItem, Stored, Sound;
    if cursor + HEADER_LEN <= |bytes| {
      var raw := ReadItem(bytes, cursor).value;
      if raw.name != TRAILER {
        DataIsSlice(bytes, cursor);
        StoredIsSound(bytes, acc, raw);
        ParseIsSound(bytes, raw.next, Stored(acc, raw).value);
      }
    }
  }

  /** The entries of m in the byte order of their paths. */
  ghost predicate InOrder(entries: seq<Entry>, m: Store) {
    && (forall i :: 0 <= i < |entries| ==> entries[i].path in m && m[entries[i].path] == entries[i])
    && (forall i, j :: 0 <= i < j < |entries| ==> Before(entries[i].path, entries[j].path))
    && (forall p :: p in m ==> exists i :: 0 <= i < |entries| && entries[i].path == p)
  }

  lemma {:induction false} ListedByPath(bytes: Text, entries: seq<Entry>, keys: seq<Text>, m: Store)
    requires Sound(bytes, m) && Listing(entries, keys, m)
    ensures InOrder(entries, m)
  {
    hide Before, Normal, SliceOf;
    forall i | 0 <= i < |entries| ensures entries[i].path == keys[i] {}
    forall p | p in m ensures exists i :: 0 <= i < |entries| && entries[i].path == p {
      var i :| 0 <= i < |keys| && keys[i] == p;
      assert entries[i].path == p;
    }
  }

  /**
   `parse_archive`: ends on every input, with every slice in bounds, and yields
   sound entries in the order of their paths.
   */
  method ParseArchive(bytes: Text) returns (r: Result<seq<Entry>, FsError>)
    ensures r.Ok? <==> ParseFrom(bytes, 0, map[]).Ok?
    ensures r.Err? ==> r.error == ParseFrom(bytes, 0, map[]).error
    ensures r.Ok? ==> InOrder(r.value, ParseFrom(bytes, 0, map[]).value)
    ensures r.Ok? ==> Sound(bytes, ParseFrom(bytes, 0, map[]).value)
  {
    var byPath := ParseRecords(bytes);
    if byPath.Err? {
      return Err(byPath.error);
    }
    hide ParseFrom, InOrder, Listing, SoundEntry;
    ParseIsSound(bytes, 0, map[]);
    var entries, keys := IntoValues(byPath.value);
    ListedByPath(bytes, entries, keys, byPath.value);
    r := Ok(entries);
  }

  /** Its loop. */
  method ParseRecords(bytes: Text) returns (r: Result<Store, FsError>)
    ensures r == ParseFrom(bytes, 0, map[])
  {
    hide ReadItem, ArchivePath, KindOf, EntryOf;
    var cursor: nat, byPath: Store := 0, map[];
    while cursor + HEADER_LEN <= |bytes|
      invariant ParseFrom(bytes, cursor, byPath) == ParseFrom(bytes, 0, map[])
      decreases |bytes| - cursor
    {
      var item := ReadItem(bytes, cursor);
      if item == None {
        return Err(InvalidInput);
      }
      var raw := item.value;
      if raw.name == TRAILER {
        break;
      }
      cursor := raw.next;
      var path := ArchivePath(raw.name);
      if path.Err? {
        return Err(path.error);
      }
      if path.value == None || path.value == Some(ROOT) {
        continue;
      }
      var kind := KindOf(raw.mode);
      if kind == None {
        continue;
      }
      byPath := byPath[path.value.value := EntryOf(path.value.value, raw.ino, raw.mode, kind.value, raw.data)];
    }
    r := Ok(byPath);
  }

  // ------------------------------------------------------------------------ writer

  method WriteHeader(out: Text, ino: nat, mode: nat, fileSize: nat, nameSize: nat) returns (r: Text)
    ensures r == out + Header(ino, mode, fileSize, nameSize)
  {
    hide Hex;
    var header := NEWC_MAGIC;
    header := header + Hex(ino, 8);
    header := header + Hex(mode, 8);
    header := header + (ZERO + ZERO + ONE + ZERO);
    header := header + Hex(fileSize, 8);
    header := header + (ZERO + ZERO + ZERO + ZERO);
    header := header + Hex(nameSize, 8);
    header := header + ZERO;
    r := out + header;
  }

  method PadTo4(out: Text) returns (r: Text)
    ensures r == out + Padding(|out|)
  {
    r := out;
    ghost var n := 0;
    while |r| % 4 != 0
      invariant r == out + Zeros(n) && |out| + n <= Align4(|out|)
      decreases Align4(|out|) - |r|
    {
      assert Zeros(n) + [0] == Zeros(n + 1);
      r := r + [0];
      n := n + 1;
    }
  }

  method WriteEntry(out: Text, e: Item) returns (r: Text)
    requires |out| % 4 == 0
    ensures r == out + ItemBytes(e)
  {
    hide Header, Align4, Padding;
    var h := Head(e);
    r := WriteHeader(out, e.ino, e.mode, |e.data| % U32, (|e.name| + 1) % U32);
    r := r + e.name;
    r := r + [0];
    assert r == out + h;
    AlignShift(|out|, |h|);
    SamePadding(|out|, |h|);
    r := PadTo4(r);
    r := r + e.data;
    SamePadding(|out| + Align4(|h|), |e.data|);
    assert r == out + (h + Padding(|h|) + e.data);
    r := PadTo4(r);
    assert r == out + ItemBytes(e);
  }

  lemma {:induction false} SamePadding(a: nat, n: nat)
    requires a % 4 == 0
    ensures Padding(a + n) == Padding(n)
  {
    AlignShift(a, n);
  }

  /** A node to be archived. */
  datatype Node = Node(dest: Text, mode: nat, isDir: bool, data: Text)

  function TrimStart(s: Text): Text {
    if s != [] && s[0] == SLASH then TrimStart(s[1..]) else s
  }

  /** `ino` starts at 1 and saturates. */
  function Ino(i: nat): nat { if i + 1 <= U32_MAX then i + 1 else U32_MAX }

  function ItemFor(n: Node, i: nat): Item {
    Item(Ino(i), n.mode, TrimStart(n.dest), if n.isDir then [] else n.data)
  }

  /** Directories first, each group in the given order. */
  function Only(nodes: seq<Node>, dirs: bool): seq<Node> {
    if nodes == [] then [] else (if nodes[0].isDir == dirs then [nodes[0]] else []) + Only(nodes[1..], dirs)
  }

  function Ordered(nodes: seq<Node>): seq<Node> { Only(nodes, true) + Only(nodes, false) }

  function ItemsFrom(nodes: seq<Node>, first: nat): (r: seq<Item>)
    ensures |r| == |nodes|
    ensures forall i :: 0 <= i < |nodes| ==> r[i] == ItemFor(nodes[i], first + i)
  {
    seq(|nodes|, i requires 0 <= i < |nodes| => ItemFor(nodes[i], first + i))
  }

  function ItemsBytes(items: seq<Item>): Text {
    if items == [] then [] else ItemBytes(items[0]) + ItemsBytes(items[1..])
  }

  function TrailerItem(i: nat): Item { Item(Ino(i), 0, TRAILER, []) }

  function Archive(nodes: seq<Node>): Text {
    ItemsBytes(ItemsFrom(Ordered(nodes), 0)) + ItemBytes(TrailerItem(|nodes|))
  }

  lemma {:induction false} BytesSnoc(items: seq<Item>, e: Item)
    ensures ItemsBytes(items + [e]) == ItemsBytes(items) + ItemBytes(e)
  {
    hide ItemBytes;
    if items == [] {
      assert items + [e] == [e] && [e][1..] == [];
      assert ItemBytes(e) + [] == ItemBytes(e);
    } else {
      assert (items + [e])[1..] == items[1..] + [e];
      BytesSnoc(items[1..], e);
      Regroup(ItemBytes(items[0]), ItemsBytes(items[1..]), ItemBytes(e));
    }
  }

  lemma {:induction false} BytesAligned(items: seq<Item>)
    ensures |ItemsBytes(items)| % 4 == 0
  {
    hide ItemBytes, Head;
    if items != [] {
      BytesAligned(items[1..]);
      ItemAligned(items[0]);
      BothAligned(|ItemBytes(items[0])|, |ItemsBytes(items[1..])|);
    }
  }

  lemma {:induction false} ItemAligned(e: Item)
    ensures |ItemBytes(e)| % 4 == 0
  {
    hide ItemBytes, Head, Align4;
    BothAligned(Align4(|Head(e)|), Align4(|e.data|));
  }

  lemma {:induction false} BothAligned(a: nat, b: nat)
    requires a % 4 == 0 && b % 4 == 0
    ensures (a + b) % 4 == 0
  {
  }

  /** The writing loop: one pass over the directories, one over the files, with a running inode number. */
  method WriteNodes(out: Text, nodes: seq<Node>, dirs: bool, ino: nat, ghost done: seq<Item>)
    returns (r: Text, next: nat)
    requires out == ItemsBytes(done) && ino == Ino(|done|)
    ensures r == ItemsBytes(done + ItemsFrom(Only(nodes, dirs), |done|))
    ensures next == Ino(|done| + |Only(nodes, dirs)|)
  {
    hide ItemsBytes, ItemBytes, ItemsFrom, Only;
    r, next := out, ino;
    OnlyNone(dirs);
    assert nodes[..0] == [];
    assert done + ItemsFrom(Only(nodes[..0], dirs), |done|) == done;
    for i := 0 to |nodes|
      invariant r == ItemsBytes(done + ItemsFrom(Only(nodes[..i], dirs), |done|))
      invariant next == Ino(|done| + |Only(nodes[..i], dirs)|)
    {
      ghost var chosen := Only(nodes[..i], dirs);
      OnlySnoc(nodes, dirs, i);
      if nodes[i].isDir == dirs {
        BytesAligned(done + ItemsFrom(chosen, |done|));
        OneMoreItem(done, chosen, nodes[i]);
        var data := if nodes[i].isDir then [] else nodes[i].data;
        r := WriteEntry(r, Item(next, nodes[i].mode, TrimStart(nodes[i].dest), data));
        next := Min(next + 1, U32_MAX);
      } else {
        assert chosen + [] == chosen;
      }
    }
    assert nodes[..|nodes|] == nodes;
  }

  lemma {:induction false} OnlyNone(dirs: bool)
    ensures Only([], dirs) == []
  {
  }

  lemma {:induction false} OneMoreItem(done: seq<Item>, chosen: seq<Node>, n: Node)
    ensures var e := ItemFor(n, |done| + |chosen|);
      ItemsBytes(done + ItemsFrom(chosen + [n], |done|)) == ItemsBytes(done + ItemsFrom(chosen, |done|)) + ItemBytes(e)
  {
    hide ItemsBytes, ItemBytes, ItemFor;
    var e := ItemFor(n, |done| + |chosen|);
    assert done + ItemsFrom(chosen + [n], |done|) == (done + ItemsFrom(chosen, |done|)) + [e];
    BytesSnoc(done + ItemsFrom(chosen, |done|), e);
  }

  /** The archive loop of `main`. */
  method WriteArchive(nodes: seq<Node>) returns (out: Text)
    ensures out == Archive(nodes)
  {
    hide ItemsBytes, ItemBytes, Only, ItemsFrom;
    NoItems();
    var ino: nat;
    out, ino := WriteNodes([], nodes, true, 1, []);
    ghost var dirs := ItemsFrom(Only(nodes, true), 0);
    assert [] + dirs == dirs;
    out, ino := WriteNodes(out, nodes, false, ino, dirs);
    ghost var items := ItemsFrom(Ordered(nodes), 0);
    assert dirs + ItemsFrom(Only(nodes, false), |dirs|) == items;
    BytesAligned(items);
    OrderedAll(nodes);
    out := WriteEntry(out, Item(ino, 0, TRAILER, []));
  }

  lemma {:induction false} NoItems()
    ensures ItemsBytes([]) == []
  {
  }

  lemma {:induction false} OrderedAll(nodes: seq<Node>)
    ensures |Ordered(nodes)| == |nodes|
    ensures forall n :: n in Ordered(nodes) <==> n in nodes
  {
    if nodes != [] {
      var a, b := Only(nodes[1..], true), Only(nodes[1..], false);
      OrderedAll(nodes[1..]);
      assert nodes == [nodes[0]] + nodes[1..];
      forall n ensures n in Ordered(nodes) <==> n == nodes[0] || n in a || n in b {}
    }
  }

  lemma {:induction false} OnlySnoc(nodes: seq<Node>, dirs: bool, i: nat)
    requires i < |nodes|
    ensures Only(nodes[..i + 1], dirs) == Only(nodes[..i], dirs) + if nodes[i].isDir == dirs then [nodes[i]] else []
    decreases i
  {
    var a, b := nodes[..i + 1], nodes[..i];
    if i > 0 {
      assert a[1..] == nodes[1..][..i] && b[1..] == nodes[1..][..i - 1];
      OnlySnoc(nodes[1..], dirs, i - 1);
    } else {
      assert b == [] && a == [nodes[0]] && a[1..] == [];
    }
  }

  // -------------------------------------------------------------------- round trip

  ghost predicate NodeOk(n: Node, parts: seq<Text>) {
    && parts != [] && AllClean(parts) && n.dest == Join(parts)
    && 0 !in n.dest && Utf8(TrimStart(n.dest)) && |n.dest| < U32
    && n.mode < U32 && KindOf(n.mode) == Some(if n.isDir then Directory else Regular)
    && |n.data| < U32
  }

  /** Normalised NUL-free UTF-8 destinations, sizes that fit 32 bits, and mode bits that match the kind. */
  ghost predicate NodesOk(nodes: seq<Node>) { forall n :: n in nodes ==> Fits(n) }

  ghost predicate Fits(n: Node) { exists parts :: NodeOk(n, parts) }

  const TRAILER_PATH: Text := [SLASH] + TRAILER

  function EntryFor(n: Node, i: nat): Entry {
    Entry(n.dest, Ino(i), n.mode, if n.isDir then Directory else Regular, if n.isDir then None else Some(n.data))
  }

  /** The store after these nodes, the first of which has number `first`; the trailer's name ends it. */
  function Loaded(acc: Store, nodes: seq<Node>, first: nat): Store
    decreases nodes
  {
    if nodes == [] || nodes[0].dest == TRAILER_PATH then acc
    else Loaded(acc[nodes[0].dest := EntryFor(nodes[0], first)], nodes[1..], first + 1)
  }

  lemma {:induction false} NameOf(n: Node, parts: seq<Text>)
    requires NodeOk(n, parts)
    ensures TrimStart(n.dest) == n.dest[1..] && |n.dest| > 1
    ensures TrimStart(n.dest) == TRAILER <==> n.dest == TRAILER_PATH
  {
    EndsClean(parts);
    var t := n.dest[1..];
    assert n.dest == [SLASH] + t;
    assert TrimStart(n.dest) == TrimStart(t) == t;
    assert n.dest == TRAILER_PATH ==> t == TRAILER by { assert TRAILER_PATH[1..] == TRAILER; }
  }

  /** One written node is read back whole. */
  lemma {:induction false} NodeReadBack(bytes: Text, pre: Text, n: Node, i: nat, post: Text, parts: seq<Text>,
      acc: Store)
    requires NodeOk(n, parts) && |pre| % 4 == 0 && bytes == pre + ItemBytes(ItemFor(n, i)) + post
    ensures ParseFrom(bytes, |pre|, acc) ==
      if n.dest == TRAILER_PATH then Ok(acc)
      else ParseFrom(bytes, |pre| + |ItemBytes(ItemFor(n, i))|, acc[n.dest := EntryFor(n, i)])
  {
    hide ReadItem, ItemBytes, ArchivePath, KindOf, TrimStart, Head, HashPath, Utf8, Join;
    var e := ItemFor(n, i);
    NameOf(n, parts);
    assert 0 !in e.name by { assert e.name == n.dest[1..]; }
    ReadWritten(pre, e, post, bytes);
    assert e.data[..|e.data|] == e.data;
    if n.dest != TRAILER_PATH { ArchivePathOfName(parts); NotRoot(n); }
  }

  lemma {:induction false} NotRoot(n: Node)
    requires |n.dest| > 1
    ensures n.dest != ROOT
  {
  }

  lemma {:induction false} TrailerEnds(bytes: Text, pre: Text, i: nat, acc: Store)
    requires |pre| % 4 == 0 && bytes == pre + ItemBytes(TrailerItem(i))
    ensures ParseFrom(bytes, |pre|, acc) == Ok(acc)
  {
    hide ReadItem, ItemBytes, Stored, Utf8, Head;
    AsciiIsUtf8(TRAILER);
    assert pre + ItemBytes(TrailerItem(i)) + [] == bytes;
    ReadWritten(pre, TrailerItem(i), [], bytes);
  }

  lemma {:induction false} AsciiIsUtf8(s: Text)
    requires forall i :: 0 <= i < |s| ==> s[i] < 0x80
    ensures Utf8(s)
  {
    if s != [] { AsciiIsUtf8(s[1..]); }
  }

  lemma {:induction false} AllReadBack(bytes: Text, pre: Text, nodes: seq<Node>, first: nat, acc: Store)
    requires NodesOk(nodes) && |pre| % 4 == 0
    requires bytes == pre + (ItemsBytes(ItemsFrom(nodes, first)) + ItemBytes(TrailerItem(first + |nodes|)))
    ensures ParseFrom(bytes, |pre|, acc) == Ok(Loaded(acc, nodes, first))
    decreases nodes
  {
    hide ParseFrom, ItemBytes, NodeOk, EntryFor, ItemFor, TrailerItem, ItemsFrom, ItemsBytes, Head;
    var last := ItemBytes(TrailerItem(first + |nodes|));
    if nodes == [] {
      FirstItem(nodes, first);
      assert [] + last == last;
      TrailerEnds(bytes, pre, first, acc);
    } else {
      var n, b, rest := nodes[0], ItemBytes(ItemFor(nodes[0], first)), ItemsBytes(ItemsFrom(nodes[1..], first + 1));
      FirstItem(nodes, first);
      Reassociate(pre, b, rest, last);
      assert Fits(n);
      var parts :| NodeOk(n, parts);
      NodeReadBack(bytes, pre, n, first, rest + last, parts, acc);
      if n.dest != TRAILER_PATH {
        assert first + 1 + |nodes[1..]| == first + |nodes|;
        ItemAligned(ItemFor(n, first));
        BothAligned(|pre|, |b|);
        AllReadBack(bytes, pre + b, nodes[1..], first + 1, acc[n.dest := EntryFor(n, first)]);
      }
    }
  }

  lemma {:induction false} FirstItem(nodes: seq<Node>, first: nat)
    ensures ItemsBytes(ItemsFrom(nodes, first)) ==
      if nodes == [] then [] else ItemBytes(ItemFor(nodes[0], first)) + ItemsBytes(ItemsFrom(nodes[1..], first + 1))
  {
    hide ItemBytes, ItemFor;
    if nodes != [] { assert ItemsFrom(nodes, first)[1..] == ItemsFrom(nodes[1..], first + 1); }
  }

  lemma {:induction false} Reassociate(a: Text, b: Text, c: Text, d: Text)
    ensures a + ((b + c) + d) == (a + b) + (c + d)
    ensures a + ((b + c) + d) == a + b + (c + d)
  {
  }

  /** Parsing a written archive loads its nodes in order, up to one with the trailer's name. */
  lemma {:induction false} ParseWritten(nodes: seq<Node>)
    requires NodesOk(nodes)
    ensures ParseFrom(Archive(nodes), 0, map[]) == Ok(Loaded(map[], Ordered(nodes), 0))
  {
    hide ParseFrom, ItemBytes, NodeOk, ItemsBytes, ItemsFrom, Loaded, Only;
    OrderedAll(nodes);
    var ordered := Ordered(nodes);
    var items, last := ItemsBytes(ItemsFrom(ordered, 0)), ItemBytes(TrailerItem(0 + |ordered|));
    assert Archive(nodes) == items + last == [] + (items + last);
    AllReadBack(Archive(nodes), [], ordered, 0, map[]);
  }

  ghost predicate Distinct(nodes: seq<Node>) {
    forall i, j :: 0 <= i < j < |nodes| ==> nodes[i].dest != nodes[j].dest
  }

  lemma {:induction false} OnlyDistinct(nodes: seq<Node>, dirs: bool)
    requires Distinct(nodes)
    ensures Distinct(Only(nodes, dirs))
    ensures forall n :: n in Only(nodes, dirs) ==> n in nodes && n.isDir == dirs
  {
    if nodes != [] {
      OnlyDistinct(nodes[1..], dirs);
      var rest := Only(nodes[1..], dirs);
      forall j | 0 <= j < |rest| ensures rest[j].dest != nodes[0].dest { assert rest[j] in nodes[1..]; }
    }
  }

  lemma {:induction false} OrderedDistinct(nodes: seq<Node>)
    requires Distinct(nodes)
    ensures Distinct(Ordered(nodes))
  {
    OnlyDistinct(nodes, true);
    OnlyDistinct(nodes, false);
    hide Only;
    var a, b := Only(nodes, true), Only(nodes, false);
    forall i, j | 0 <= i < |a| && 0 <= j < |b| ensures a[i].dest != b[j].dest {
      assert a[i] in a && b[j] in b;
    }
    var o := a + b;
    forall i, j | 0 <= i < j < |o| ensures o[i].dest != o[j].dest {
      if i < |a| <= j { assert o[i] == a[i] && o[j] == b[j - |a|]; }
      if |a| <= i { assert o[i] == b[i - |a|] && o[j] == b[j - |a|]; }
    }
  }

  /** Without the trailer's name among them, distinct nodes are found under their paths, and nothing else is. */
  lemma {:induction false} LoadedAll(acc: Store, nodes: seq<Node>, first: nat)
    requires Distinct(nodes) && forall n :: n in nodes ==> n.dest != TRAILER_PATH
    ensures forall i :: 0 <= i < |nodes| ==>
      && nodes[i].dest in Loaded(acc, nodes, first)
      && Loaded(acc, nodes, first)[nodes[i].dest] == EntryFor(nodes[i], first + i)
    ensures forall x ::
      x in Loaded(acc, nodes, first) <==> x in acc || exists i :: 0 <= i < |nodes| && nodes[i].dest == x
    ensures forall x :: x in acc && (forall i :: 0 <= i < |nodes| ==> nodes[i].dest != x) ==>
      x in Loaded(acc, nodes, first) && Loaded(acc, nodes, first)[x] == acc[x]
    decreases nodes
  {
    hide EntryFor;
    if nodes != [] {
      var n, rest := nodes[0], nodes[1..];
      var acc' := acc[n.dest := EntryFor(n, first)];
      LoadedAll(acc', rest, first + 1);
      assert forall i :: 0 <= i < |rest| ==> rest[i] == nodes[i + 1];
      assert forall i :: 0 < i < |nodes| ==> nodes[i] == rest[i - 1];
    }
  }

  lemma {:induction false} TrailerNeverLoaded(acc: Store, nodes: seq<Node>, first: nat)
    requires TRAILER_PATH !in acc
    ensures TRAILER_PATH !in Loaded(acc, nodes, first)
    decreases nodes
  {
    hide EntryFor;
    if nodes != [] && nodes[0].dest != TRAILER_PATH {
      TrailerNeverLoaded(acc[nodes[0].dest := EntryFor(nodes[0], first)], nodes[1..], first + 1);
    }
  }

  ghost predicate Recovers(m: Store, nodes: seq<Node>) {
    && (forall i :: 0 <= i < |nodes| ==> nodes[i].dest in m && m[nodes[i].dest] == EntryFor(nodes[i], i))
    && (forall x :: x in m ==> exists i :: 0 <= i < |nodes| && nodes[i].dest == x)
  }

  /**
   Parsing what was written never fails, and gives back every node's path,
   inode number, mode, kind and data and nothing more, exactly if none of
   them has the trailer's name.
   */
  lemma {:induction false} RoundTrip(nodes: seq<Node>)
    requires NodesOk(nodes) && Distinct(nodes)
    ensures ParseFrom(Archive(nodes), 0, map[]).Ok?
    ensures Recovers(ParseFrom(Archive(nodes), 0, map[]).value, Ordered(nodes)) <==>
      forall n :: n in nodes ==> n.dest != TRAILER_PATH
  {
    hide ParseFrom, Archive, Ordered, Loaded, EntryFor, Fits;
    ParseWritten(nodes);
    OrderedAll(nodes);
    OrderedDistinct(nodes);
    var o := Ordered(nodes);
    TrailerNeverLoaded(map[], o, 0);
    if forall n :: n in nodes ==> n.dest != TRAILER_PATH {
      LoadedAll(map[], o, 0);
    } else {
      var n :| n in nodes && n.dest == TRAILER_PATH;
      var i :| 0 <= i < |o| && o[i] == n;
    }
  }

  /** A regular file "/a" with one byte is such a node. */
  lemma {:induction false} SmallFileFits()
    ensures Fits(Node([SLASH, 97], 0x81A4, false, [1]))
  {
    assert [SLASH] + [97] == [SLASH, 97];
    AsciiFits([97]);
  }

  /** An archive of one file named like the trailer is read back empty. */
  lemma {:induction false} TrailerExample()
    ensures var nodes := [Node(TRAILER_PATH, 0x81A4, false, [1])];
      NodesOk(nodes) && Distinct(nodes) && ParseFrom(Archive(nodes), 0, map[]) == Ok(map[])
  {
    hide ParseFrom, Fits;
    var nodes := [Node(TRAILER_PATH, 0x81A4, false, [1])];
    AsciiFits(TRAILER);
    ParseWritten(nodes);
    assert nodes[1..] == [];
    assert Only(nodes, true) == [] && Only(nodes, false) == nodes;
  }

  /** A directory of mode 0755 and a file of mode 0644 in it come back, with inode numbers 1 and 2. */
  lemma {:induction false} DirectoryExample()
    ensures var d, f := [SLASH, 100], [SLASH, 100, SLASH, 102];
      var nodes := [Node(f, 0x81A4, false, [1]), Node(d, 0x41ED, true, [])];
      NodesOk(nodes) && ParseFrom(Archive(nodes), 0, map[]) ==
        Ok(map[d := Entry(d, 1, 0x41ED, Directory, None), f := Entry(f, 2, 0x81A4, Regular, Some([1]))])
  {
    hide ParseFrom, Fits, Only, Loaded, Archive, TRAILER;
    var d, f := [SLASH, 100], [SLASH, 100, SLASH, 102];
    var file, dir := Node(f, 0x81A4, false, [1]), Node(d, 0x41ED, true, []);
    DirFits();
    NestedFits();
    ParseWritten([file, dir]);
    FileAndDir(file, dir);
    LongPath();
    LoadedTwo(dir, file);
  }

  lemma {:induction false} LongPath()
    ensures |TRAILER_PATH| == 11
  {
  }

  lemma {:induction false} FileAndDir(file: Node, dir: Node)
    requires dir.isDir && !file.isDir
    ensures Ordered([file, dir]) == [dir, file]
  {
    var nodes := [file, dir];
    assert nodes[1..] == [dir] && [dir][1..] == [];
    assert Only([dir], true) == [dir] && Only([dir], false) == [];
    assert Only(nodes, true) == [dir] && Only(nodes, false) == [file];
  }

  lemma {:induction false} LoadedTwo(a: Node, b: Node)
    requires a.dest != TRAILER_PATH && b.dest != TRAILER_PATH
    ensures Loaded(map[], [a, b], 0) == map[a.dest := EntryFor(a, 0)][b.dest := EntryFor(b, 1)]
  {
    hide EntryFor, TRAILER_PATH;
    assert [a, b][1..] == [b] && [b][1..] == [];
    var first: Store := map[a.dest := EntryFor(a, 0)];
    assert Loaded(first, [b], 1) == Loaded(first[b.dest := EntryFor(b, 1)], [], 2);
  }

  lemma {:induction false} DirFits()
    ensures Fits(Node([SLASH, 100], 0x41ED, true, []))
  {
    hide Utf8;
    var n, parts := Node([SLASH, 100], 0x41ED, true, []), [[100]];
    JoinOne([100]);
    assert [SLASH] + [100] == n.dest && n.dest[1..] == [100] && TrimStart(n.dest) == TrimStart([100]) == [100];
    AsciiIsUtf8([100]);
    assert NodeOk(n, parts);
  }

  lemma {:induction false} NestedFits()
    ensures Fits(Node([SLASH, 100, SLASH, 102], 0x81A4, false, [1]))
  {
    hide Utf8;
    var n, parts := Node([SLASH, 100, SLASH, 102], 0x81A4, false, [1]), [[100], [102]];
    JoinOne([100]);
    JoinOne([102]);
    assert parts == [[100]] + [[102]];
    JoinConcat([[100]], [[102]]);
    assert ([SLASH] + [100]) + ([SLASH] + [102]) == n.dest;
    var name := [100, SLASH, 102];
    assert n.dest[1..] == name && TrimStart(n.dest) == TrimStart(name) == name;
    AsciiIsUtf8(name);
    assert NodeOk(n, parts);
  }

  /** A one-byte regular file with an ASCII name fits. */
  lemma {:induction false} AsciiFits(name: Text)
    requires Clean(name) && |name| < 100 && forall i :: 0 <= i < |name| ==> 0 < name[i] < 0x80
    ensures Fits(Node([SLASH] + name, 0x81A4, false, [1]))
  {
    hide Utf8;
    var n, parts := Node([SLASH] + name, 0x81A4, false, [1]), [name];
    JoinOne(name);
    assert n.dest[1..] == name && TrimStart(n.dest) == TrimStart(name) == name;
    AsciiIsUtf8(name);
    assert NodeOk(n, parts);
  }
}
