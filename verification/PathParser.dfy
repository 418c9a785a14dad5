/** The path parser: a linked list of parts, each with its record and its text in heap
    blocks of their own. */
module PathParser {
  import opened Bits
  import opened HeapTable
  import opened HeapRuns
  import opened KernelHeap
  import opened Paging
  import opened Bytes
  import opened PoolBytes
  import opened PathSpec

  class PathPart {
    const self: Word  // block of the record
    const text: Word  // block of the text
    const part: string
    var next: PathPart?

    constructor (self: Word, text: Word, part: string)
      ensures this.self == self && this.text == text && this.part == part && next == null
    {
      this.self, this.text, this.part, next := self, text, part, null;
    }
  }

  class PathRoot {
    const self: Word
    const driveNo: int
    var first: PathPart?

    constructor (self: Word, driveNo: int)
      ensures this.self == self && this.driveNo == driveNo && first == null
    {
      this.self, this.driveNo, first := self, driveNo, null;
    }
  }

  /** The character under the cursor; 0 at the end of the string. */
  function CharAt(path: string, pos: nat): char {
    if pos < |path| then path[pos] else '\0'
  }

  /** A C string: single-byte characters, none of them zero. */
  predicate IsCString(path: string) {
    forall i | 0 <= i < |path| :: 0 < path[i] as int < 0x100
  }

  function Codes(s: string): (r: seq<Octet>)
    requires IsCString(s)
    ensures |r| == |s| && forall i | 0 <= i < |s| :: r[i] == s[i] as int
  {
    seq<Octet>(|s|, i requires 0 <= i < |s| => s[i] as int)
  }

  /** The copying loop of path_get_path_part: the cleared buffer in block b receives the
      characters up to the next '/' or the end. */
  method CopyPart(h: Heap, b: nat, path: string, pos: nat) returns (part: string, next: nat)
    requires IsCString(path) && pos <= |path| < pos + MAX_PATH && PAGE * (b + 1) <= 4 * h.pool.Length
    requires forall j: nat | PAGE * b <= j < PAGE * b + MAX_PATH :: LoadByte(h.pool[..], j) == 0
    modifies h.pool
    ensures pos <= next <= |path| && part == path[pos..next] && '/' !in part
    ensures next == |path| || path[next] == '/'
    ensures IsCString(part) && HoldsString(h.pool[..], PAGE * b, Codes(part))
    ensures SameOutside(old(h.pool[..]), h.pool[..], {b})
  {
    hide LoadByte, SameOutside, Codes, HoldsString;
    part, next := "", pos;
    ghost var at, mem := PAGE * b, h.pool[..];
    SameEverywhere(mem, {b});
    while CharAt(path, next) != '/' && CharAt(path, next) != '\0'
      invariant pos <= next <= |path| && part == path[pos..next] && '/' !in part
      invariant SameOutside(mem, h.pool[..], {b})
      invariant forall j: nat | at <= j < at + |part| :: LoadByte(h.pool[..], j) == part[j - at] as int
      invariant forall j: nat | at + |part| <= j < at + MAX_PATH :: LoadByte(h.pool[..], j) == 0
      decreases |path| - next
    {
      assert (at + |part|) / PAGE == b && {b} + {b} == {b};
      ghost var before := h.pool[..];
      StoreByte(h, PAGE * b + |part|, path[next] as int);
      FramesJoin(mem, before, h.pool[..], {b}, {b});
      part := part + [path[next]];
      next := next + 1;
    }
    TextHeld(h.pool[..], at, part);
  }

  lemma TextHeld(mem: seq<Word>, at: nat, part: string)
    requires IsCString(part) && at + |part| < 4 * |mem|
    requires forall j: nat | at <= j < at + |part| :: LoadByte(mem, j) == part[j - at] as int
    requires LoadByte(mem, at + |part|) == 0
    ensures HoldsString(mem, at, Codes(part))
  {
    hide LoadByte;
  }

  /** The loop and the step over '/': exactly one part is read. */
  method ScanPart(h: Heap, b: nat, path: string, pos: nat) returns (part: string, next: nat)
    requires IsCString(path) && pos <= |path| < pos + MAX_PATH && PAGE * (b + 1) <= 4 * h.pool.Length
    requires forall j: nat | PAGE * b <= j < PAGE * b + MAX_PATH :: LoadByte(h.pool[..], j) == 0
    modifies h.pool
    ensures part == Head(path[pos..]) && next <= |path| && path[next..] == Rest(path[pos..])
    ensures IsCString(part) && HoldsString(h.pool[..], PAGE * b, Codes(part))
    ensures SameOutside(old(h.pool[..]), h.pool[..], {b})
  {
    hide Head, LoadByte, SameOutside, HoldsString, IsCString;
    part, next := CopyPart(h, b, path, pos);
    assert path[pos..] == part + path[next..];
    HeadOfPart(part, path[next..]);
    if CharAt(path, next) == '/' {
      next := next + 1;
      assert path[pos..][|part| + 1..] == path[next..];
    }
  }

  /** path_get_path_part: the text up to the next '/', in a fresh block; an empty text
      gives its block back. */
  method GetPathPart(h: Heap, path: string, pos: nat) returns (text: Word, part: string, next: nat)
    requires h.Valid() && FreeCount(h.entries[..]) > 0
    requires IsCString(path) && pos <= |path| < pos + MAX_PATH
    modifies h`live, h.entries, h.pool
    ensures h.Valid() && part == Head(path[pos..]) && IsCString(part)
    ensures next <= |path| && path[next..] == Rest(path[pos..])
    ensures KeepsLive(old(h.live), old(h.pool[..]), h.pool[..])
    ensures part == "" ==> text == 0 && h.live == old(h.live) && h.entries[..] == old(h.entries[..])
    ensures part != "" ==> var b := h.BlockOf(text);
      && 0 <= b && text == h.AddressOf(b) && b !in old(h.live) && h.live == old(h.live)[b := 1]
      && FreeCount(h.entries[..]) == FreeCount(old(h.entries[..])) - 1
      && HoldsString(h.pool[..], PAGE * b, Codes(part))
  {
    hide Represents, FreeCount, Head, Rest, LoadByte, Zeroed, HoldsString, LiveBlock, SameOutside, IsCString;
    text := KzallocBlock(h, MAX_PATH);
    var b: nat := h.BlockOf(text);
    ghost var mem := h.pool[..];
    part, next := ScanPart(h, b, path, pos);
    FramesJoin(old(h.pool[..]), mem, h.pool[..], {b}, {b});
    assert {b} + {b} == {b};
    FreshKeepsLive(old(h.live), old(h.pool[..]), h.pool[..], b);
    if part == "" {
      h.Free(text);
      text := 0;
      assert h.live == old(h.live);
      EncodingUnique(h.entries[..], old(h.entries[..]), h.live);
    }
  }

  /** path_parse_path_part: the next part as a record linked after `last`, or null. */
  method ParsePathPart(h: Heap, last: PathPart?, path: string, pos: nat)
    returns (part: PathPart?, next: nat)
    requires h.Valid() && IsCString(path) && pos <= |path| < pos + MAX_PATH
    requires FreeCount(h.entries[..]) >= if Head(path[pos..]) == "" then 1 else 2
    modifies h`live, h.entries, h.pool, last
    ensures h.Valid() && next <= |path| && path[next..] == Rest(path[pos..])
    ensures KeepsLive(old(h.live), old(h.pool[..]), h.pool[..])
    ensures part == null <==> Head(path[pos..]) == ""
    ensures part == null ==>
      && h.live == old(h.live) && h.entries[..] == old(h.entries[..])
      && (last != null ==> last.next == old(last.next))
    ensures part != null ==> fresh(part)
    ensures part != null ==> var b, c := h.BlockOf(part.text), h.BlockOf(part.self);
      && part.part == Head(path[pos..]) && IsCString(part.part) && part.next == null
      && b >= 0 && c >= 0 && part.text == h.AddressOf(b) && part.self == h.AddressOf(c)
      && b !in old(h.live) && c !in old(h.live) && b != c
      && h.live == old(h.live)[b := 1][c := 1]
      && FreeCount(h.entries[..]) == FreeCount(old(h.entries[..])) - 2
      && HoldsString(h.pool[..], PAGE * b, Codes(part.part))
      && (last != null ==> last.next == part)
  {
    hide Represents, FreeCount, HoldsString, LiveBlock, KeepsLive, SameOutside, IsCString, Zeroed, Head, Rest;
    var text, str;
    text, str, next := GetPathPart(h, path, pos);
    if text == 0 {
      return null, next;
    }
    ghost var live1, mem1 := h.live, h.pool[..];
    var self := KzallocBlock(h, 8);
    ghost var b, c := h.BlockOf(text), h.BlockOf(self);
    FreshKeepsLive(live1, mem1, h.pool[..], c);
    KeepsLiveJoin(old(h.live), live1, old(h.pool[..]), mem1, h.pool[..]);
    OneBlockIsLive(live1, b);
    HeadIsShorter(path[pos..]);
    StringKept(live1, mem1, h.pool[..], b, Codes(str));
    part := new PathPart(self, text, str);
    if last != null {
      last.next := part;
    }
  }

  lemma OneBlockIsLive(live: Runs, b: nat)
    requires b in live && live[b] == 1
    ensures LiveBlock(live, b)
  {
    assert Covers(live, b, b);
  }

  lemma HeadIsShorter(s: string)
    ensures |Head(s)| <= |s|
  {
  }

  // ---- The list and the blocks behind it ----

  ghost predicate Chain(nodes: seq<PathPart>)
    reads nodes
  {
    && Distinct(nodes)
    && forall i {:trigger nodes[i].next} | 0 <= i < |nodes| ::
         nodes[i].next == if i + 1 < |nodes| then nodes[i + 1] else null
  }

  function Texts(nodes: seq<PathPart>): (r: seq<string>)
    ensures |r| == |nodes| && forall i | 0 <= i < |nodes| :: r[i] == nodes[i].part
  {
    seq(|nodes|, i requires 0 <= i < |nodes| => nodes[i].part)
  }

  /** The blocks behind the list: the root's, then the text and the record of each part. */
  ghost predicate Behind(h: Heap, root: PathRoot, nodes: seq<PathPart>, owned: seq<nat>) {
    && |owned| == 1 + 2 * |nodes|
    && root.self == h.AddressOf(owned[0])
    && forall i {:trigger nodes[i]} | 0 <= i < |nodes| ::
         nodes[i].text == h.AddressOf(owned[2 * i + 1]) && nodes[i].self == h.AddressOf(owned[2 * i + 2])
  }

  /** The given blocks, and no others, have been added to the live runs. */
  ghost predicate Held(live: Runs, owned: seq<nat>, live': Runs) {
    && Distinct(owned) && Elements(owned) !! live.Keys
    && live' == live + Singles(Elements(owned))
  }

  lemma HeldGrows(live: Runs, owned: seq<nat>, live': Runs, b: nat)
    requires Held(live, owned, live') && b !in live'
    ensures Held(live, owned + [b], live'[b := 1])
  {
  }

  lemma ChainGrows(nodes: seq<PathPart>, part: PathPart)
    requires nodes != [] && part !in nodes && part.next == null && Distinct(nodes)
    requires forall i {:trigger nodes[i].next} | 0 <= i < |nodes| ::
      nodes[i].next == if i + 1 < |nodes| then nodes[i + 1] else part
    ensures Chain(nodes + [part])
  {
  }

  /** The text block of each part holds its characters and a terminator. */
  ghost predicate Spelled(mem: seq<Word>, nodes: seq<PathPart>, owned: seq<nat>) {
    && |owned| == 1 + 2 * |nodes|
    && forall i {:trigger nodes[i]} | 0 <= i < |nodes| ::
         && IsCString(nodes[i].part) && |nodes[i].part| < PAGE
         && HoldsString(mem, PAGE * owned[2 * i + 1], Codes(nodes[i].part))
  }

  /** Byte by byte: character j of part i stands at place j of its block, then a zero. */
  lemma SpelledBytes(mem: seq<Word>, nodes: seq<PathPart>, owned: seq<nat>, i: nat, j: nat)
    requires Spelled(mem, nodes, owned) && i < |nodes| && j <= |nodes[i].part|
    ensures 4096 * owned[2 * i + 1] + j < 4 * |mem|
    ensures LoadByte(mem, 4096 * owned[2 * i + 1] + j)
            == if j < |nodes[i].part| then nodes[i].part[j] as int else 0
  {
    hide LoadByte;
    assert HoldsString(mem, PAGE * owned[2 * i + 1], Codes(nodes[i].part));
  }

  lemma SpelledKept(live: Runs, owned: seq<nat>, live': Runs, mem: seq<Word>, mem': seq<Word>,
                    nodes: seq<PathPart>)
    requires Spelled(mem, nodes, owned) && Held(live, owned, live') && KeepsLive(live', mem, mem')
    ensures Spelled(mem', nodes, owned)
  {
    hide HoldsString, IsCString, KeepsLive;
    forall i | 0 <= i < |nodes|
      ensures HoldsString(mem', PAGE * owned[2 * i + 1], Codes(nodes[i].part))
    {
      assert owned[2 * i + 1] in Elements(owned);
      OneBlockIsLive(live', owned[2 * i + 1]);
      StringKept(live', mem, mem', owned[2 * i + 1], Codes(nodes[i].part));
    }
  }

  lemma SpelledGrows(mem: seq<Word>, nodes: seq<PathPart>, owned: seq<nat>, part: PathPart, b: nat, c: nat)
    requires Spelled(mem, nodes, owned) && IsCString(part.part) && |part.part| < PAGE
    requires HoldsString(mem, PAGE * b, Codes(part.part))
    ensures Spelled(mem, nodes + [part], owned + [b] + [c])
  {
    hide HoldsString, IsCString;
  }

  lemma HeldKeeps(live: Runs, owned: seq<nat>, live': Runs)
    requires Held(live, owned, live')
    ensures forall s | s in live :: s in live' && live'[s] == live[s]
  {
  }

  /** What path_parse has built so far, with the cursor at pos. */
  ghost predicate Building(h: Heap, path: string, pos: nat, root: PathRoot, nodes: seq<PathPart>,
                           owned: seq<nat>, live: Runs, mem: seq<Word>, free: int)
    reads h, h.entries, h.pool, nodes
  {
    && h.Valid() && 3 <= pos <= |path| <= MAX_PATH
    && Chain(nodes) && Behind(h, root, nodes, owned) && Held(live, owned, h.live)
    && Spelled(h.pool[..], nodes, owned) && KeepsLive(live, mem, h.pool[..])
    && Texts(nodes) + Parts(path[pos..]) == Parts(path[3..])
    && FreeCount(h.entries[..]) == free - 1 - 2 * |nodes|
  }

  /** One more part: the chain, its texts and its blocks grow together. */
  method NextPart(h: Heap, last: PathPart, path: string, pos: nat, ghost root: PathRoot,
                  ghost nodes: seq<PathPart>, ghost owned: seq<nat>, ghost live: Runs,
                  ghost mem: seq<Word>, ghost free: int)
    returns (part: PathPart?, next: nat, ghost nodes': seq<PathPart>, ghost owned': seq<nat>)
    requires Building(h, path, pos, root, nodes, owned, live, mem, free) && IsCString(path)
    requires nodes != [] && last == nodes[|nodes| - 1] && free >= 2 + 2 * |Parts(path[3..])|
    modifies h`live, h.entries, h.pool, last
    ensures Building(h, path, if part == null then pos else next, root, nodes', owned', live, mem, free)
    ensures part == null ==> nodes' == nodes && owned' == owned && Parts(path[pos..]) == []
    ensures part != null ==> fresh(part) && nodes' == nodes + [part] && next > pos
  {
    hide Represents, FreeCount, Singles, Head, Rest, Held, HoldsString, KeepsLive, IsCString, Spelled;
    nodes', owned' := nodes, owned;
    part, next := ParsePathPart(h, last, path, pos);
    HeldKeeps(live, owned, old(h.live));
    KeepsLiveJoin(live, old(h.live), mem, old(h.pool[..]), h.pool[..]);
    SpelledKept(live, owned, old(h.live), old(h.pool[..]), h.pool[..], nodes);
    if part != null {
      var b, c := h.BlockOf(part.text), h.BlockOf(part.self);
      HeldGrows(live, owned, old(h.live), b);
      HeldGrows(live, owned + [b], old(h.live)[b := 1], c);
      nodes', owned' := nodes + [part], owned + [b] + [c];
      ChainGrows(nodes, part);
      HeadIsShorter(path[pos..]);
      SpelledGrows(h.pool[..], nodes, owned, part, b, c);
      assert Texts(nodes') == Texts(nodes) + [Head(path[pos..])];
      RestIsShorter(path[pos..]);
    }
  }

  // ---- The routines ----

  const EBADPATH: int := 4

  /** path_get_drive_by_path; a drive number means the text starts three characters on. */
  method GetDriveByPath(path: string) returns (drive: int)
    ensures ValidFormat(path) ==> drive == path[0] as int - '0' as int && 0 <= drive <= 9
    ensures !ValidFormat(path) ==> drive == -EBADPATH
  {
    if !ValidFormat(path) {
      return -EBADPATH;
    }
    return path[0] as int - '0' as int;
  }

  /** The list of parts hangs off the root. */
  ghost predicate Hangs(root: PathRoot, nodes: seq<PathPart>)
    reads root, nodes
  {
    Chain(nodes) && root.first == if nodes == [] then null else nodes[0]
  }

  /** The loop of path_parse after the first part. */
  method ParseRest(h: Heap, path: string, pos: nat, first: PathPart, ghost root: PathRoot,
                   ghost owned: seq<nat>, ghost live: Runs, ghost mem: seq<Word>, ghost free: int)
    returns (ghost nodes: seq<PathPart>, ghost owned': seq<nat>)
    requires Building(h, path, pos, root, [first], owned, live, mem, free) && IsCString(path)
    requires free >= 2 + 2 * |Parts(path[3..])|
    modifies h`live, h.entries, h.pool, first
    ensures h.Valid() && Chain(nodes) && nodes != [] && nodes[0] == first
    ensures Behind(h, root, nodes, owned') && Held(live, owned', h.live)
    ensures Spelled(h.pool[..], nodes, owned') && KeepsLive(live, mem, h.pool[..])
    ensures Texts(nodes) == Parts(path[3..]) && fresh(set x | x in nodes[1..])
  {
    hide Chain, Behind, Held, Represents, FreeCount, Parts, Texts, Spelled, KeepsLive, IsCString;
    nodes, owned' := [first], owned;
    var last, next: nat := first, pos;
    var part: PathPart?, cursor: nat;
    part, cursor, nodes, owned' := NextPart(h, last, path, next, root, nodes, owned', live, mem, free);
    while part != null
      invariant Building(h, path, if part == null then next else cursor, root, nodes, owned', live, mem, free)
      invariant nodes != [] && nodes[0] == first && fresh(set x | x in nodes[1..])
      invariant part != null ==> part == nodes[|nodes| - 1] && fresh(part)
      invariant part == null ==> Parts(path[next..]) == []
      invariant next <= |path| && (part != null ==> next < cursor <= |path|)
      decreases |path| - next, if part == null then 0 else 1
    {
      last, next := part, cursor;
      part, cursor, nodes, owned' := NextPart(h, last, path, next, root, nodes, owned', live, mem, free);
    }
  }
  lemma RootHeld(live: Runs, b: nat)
    requires b !in live
    ensures Held(live, [b], live[b := 1])
  {
  }

  /** The first part of a path, just after the root has been allocated. */
  method FirstPart(h: Heap, path: string, ghost root: PathRoot, ghost a: nat, ghost live: Runs,
                   ghost mem: seq<Word>, ghost free: int)
    returns (first: PathPart?, pos: nat, ghost owned: seq<nat>)
    requires h.Valid() && 3 <= |path| <= MAX_PATH && IsCString(path)
    requires Held(live, [a], h.live) && root.self == h.AddressOf(a) && KeepsLive(live, mem, h.pool[..])
    requires FreeCount(h.entries[..]) == free - 1 && free >= 2 + 2 * |Parts(path[3..])|
    modifies h`live, h.entries, h.pool
    ensures h.Valid() && KeepsLive(live, mem, h.pool[..])
    ensures first == null ==> Parts(path[3..]) == [] && owned == [a]
                              && Held(live, owned, h.live) && Behind(h, root, [], owned)
    ensures first != null ==> fresh(first) && Building(h, path, pos, root, [first], owned, live, mem, free)
  {
    hide Represents, FreeCount, Head, Rest, Held, HoldsString, KeepsLive, IsCString;
    owned := [a];
    first, pos := ParsePathPart(h, null, path, 3);
    HeldKeeps(live, owned, old(h.live));
    KeepsLiveJoin(live, old(h.live), mem, old(h.pool[..]), h.pool[..]);
    if first != null {
      var b, c := h.BlockOf(first.text), h.BlockOf(first.self);
      HeldGrows(live, owned, old(h.live), b);
      HeldGrows(live, owned + [b], old(h.live)[b := 1], c);
      owned := owned + [b] + [c];
      HeadIsShorter(path[3..]);
      RestIsShorter(path[3..]);
      assert Texts([first]) == [Head(path[3..])];
    }
  }

  /** path_parse. The result is a list of the parts, or null for a refused path. */
  method PathParse(h: Heap, path: string)
    returns (root: PathRoot?, ghost nodes: seq<PathPart>, ghost owned: seq<nat>)
    requires h.Valid() && IsCString(path)
    requires Parsed(path).Some? ==> FreeCount(h.entries[..]) >= 2 + 2 * |Parts(path[3..])|
    modifies h`live, h.entries, h.pool
    ensures h.Valid() && KeepsLive(old(h.live), old(h.pool[..]), h.pool[..])
    ensures root == null <==> Parsed(path).None?
    ensures root == null ==> h.live == old(h.live) && h.entries[..] == old(h.entries[..])
    ensures root != null ==>
      && fresh(root) && fresh(set x | x in nodes)
      && Hangs(root, nodes) && Parsed(path) == Some((root.driveNo, Texts(nodes)))
      && Behind(h, root, nodes, owned) && Held(old(h.live), owned, h.live)
      && Spelled(h.pool[..], nodes, owned)
  {
    hide Represents, FreeCount, Parts, Held, Behind, Building, LiveBlock, IsCString, HoldsString, Zeroed;
    nodes, owned := [], [];
    if |path| > MAX_PATH {
      return null, nodes, owned;
    }
    var drive := GetDriveByPath(path);
    if drive < 0 {
      return null, nodes, owned;
    }
    ghost var live, mem, free := h.live, h.pool[..], FreeCount(h.entries[..]);
    var self := KzallocBlock(h, 8);
    FreshKeepsLive(live, mem, h.pool[..], h.BlockOf(self));
    root := new PathRoot(self, drive);
    owned := [h.BlockOf(self)];
    RootHeld(live, owned[0]);
    var first, pos: nat;
    first, pos, owned := FirstPart(h, path, root, owned[0], live, mem, free);
    if first == null {
      assert Texts(nodes) == Parts(path[3..]);
      return;
    }
    root.first := first;
    nodes, owned := ParseRest(h, path, pos, first, root, owned, live, mem, free);
    assert nodes == [first] + nodes[1..];
  }

  /** path_free: exactly the blocks behind the list are given back. */
  method PathFree(h: Heap, root: PathRoot, ghost nodes: seq<PathPart>, ghost owned: seq<nat>)
    requires h.Valid() && Hangs(root, nodes) && Behind(h, root, nodes, owned)
    requires Distinct(owned) && Elements(owned) <= h.live.Keys
    modifies h`live, h.entries
    ensures h.Valid() && h.live == old(h.live) - Elements(owned)
  {
    hide Represents;
    var part := root.first;
    ghost var i := 0;
    while part != null
      invariant 0 <= i <= |nodes| && part == if i < |nodes| then nodes[i] else null
      invariant h.Valid() && h.live == old(h.live) - Elements(owned[1..2 * i + 1])
      decreases |nodes| - i
    {
      assert part == nodes[i];
      var next := part.next;
      ghost var b, c := owned[2 * i + 1], owned[2 * i + 2];
      FreeOrder(old(h.live), owned, i);
      FreePair(h, part.text, part.self, b, c);
      part := next;
      i := i + 1;
    }
    assert owned[1..2 * i + 1] == owned[1..];
    RootLast(old(h.live), owned);
    h.Free(root.self);
  }

  lemma FreeOrder(live: Runs, owned: seq<nat>, i: nat)
    requires Distinct(owned) && Elements(owned) <= live.Keys && 2 * i + 2 < |owned|
    ensures var b, c, left := owned[2 * i + 1], owned[2 * i + 2], live - Elements(owned[1..2 * i + 1]);
      && b in left && c in left && b != c
      && left - {b} - {c} == live - Elements(owned[1..2 * i + 3])
  {
  }

  lemma RootLast(live: Runs, owned: seq<nat>)
    requires Distinct(owned) && owned != [] && Elements(owned) <= live.Keys
    ensures var left := live - Elements(owned[1..]);
      owned[0] in left && left - {owned[0]} == live - Elements(owned)
  {
  }

  /** Parsing a path and freeing the result restores the heap table byte for byte. */
  lemma ParseFreeRestores(t: Table, live: Runs, owned: seq<nat>, live': Runs, t': Table)
    requires Represents(t, live) && Held(live, owned, live')
    requires |t'| == |t| && Represents(t', live' - Elements(owned))
    ensures Elements(owned) <= live'.Keys && t' == t
  {
    assert live' - Elements(owned) == live;
    EncodingUnique(t, t', live);
  }
}
