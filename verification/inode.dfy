/** Files (filesys/inode.c): byte reads and writes over 512-byte sectors, with growth into further nodes. */
module Inode {
  import opened Definitions
  import opened Sequences
  import opened Wrappers

  type Disk = map<nat, seq<Byte>>

  const NODE_CAPACITY: nat := 244                          // slots of a node
  const BYTE_CAPACITY: nat := NODE_CAPACITY * SECTOR_SIZE   // and the bytes that they hold

  // ---- inode_ptr: a 14-bit sector number, a directory bit and an exists bit ----

  const ADDRESS_LIMIT: nat := 0x4000
  const EXISTS_BIT: nat := 0x8000

  function PtrCreate(sector: nat): nat {
    sector % ADDRESS_LIMIT
  }

  function PtrAddress(ptr: nat): nat {
    ptr % ADDRESS_LIMIT
  }

  predicate PtrExists(ptr: nat) {
    (ptr / EXISTS_BIT) % 2 == 1
  }

  function PtrSetExist(ptr: nat): nat {
    if PtrExists(ptr) then ptr else ptr + EXISTS_BIT
  }

  /** A pointer names its sector exactly when the sector number fits in 14 bits. */
  lemma PtrRoundTrip(sector: nat)
    ensures PtrExists(PtrSetExist(PtrCreate(sector))) && PtrSetExist(PtrCreate(sector)) == 0x8000 + sector % 0x4000
    ensures PtrAddress(PtrSetExist(PtrCreate(sector))) == sector <==> sector < ADDRESS_LIMIT
  {
  }

  function SectorsFor(bytes: nat): nat {
    (bytes + SECTOR_SIZE - 1) / SECTOR_SIZE
  }

  /** Growth by at most the slack and one more sector needs at most one sector more. */
  lemma SectorsAfter(n: nat, n': nat)
    requires n <= n' <= (SectorsFor(n) + 1) * SECTOR_SIZE
    ensures SectorsFor(n') == SectorsFor(n) || SectorsFor(n') == SectorsFor(n) + 1
  {
  }

  /** How far node_length moves when the next slot of a node with n bytes is filled: to its end, or by what is left. */
  function FillStep(n: nat, bytesLeft: nat): (step: nat)
    ensures step <= bytesLeft && n + step <= (SectorsFor(n) + 1) * SECTOR_SIZE
    ensures step < bytesLeft ==> n + step == (SectorsFor(n) + 1) * SECTOR_SIZE
    ensures SectorsFor(n + step) == SectorsFor(n) || SectorsFor(n + step) == SectorsFor(n) + 1
  {
    var diff := (SectorsFor(n) + 1) * SECTOR_SIZE - n;
    var step := if bytesLeft < diff then bytesLeft else diff;
    SectorsAfter(n, n + step);
    step
  }

  /** How many sectors inode_fill takes for b more bytes in a node of n: one at least, even where the slack would do. */
  function Rounds(n: nat, b: nat): (m: nat) {
    var begun, wanted := SectorsFor(n), SectorsFor(n + b);
    if b == 0 || begun >= NODE_CAPACITY then 0
    else if wanted > NODE_CAPACITY then NODE_CAPACITY - begun
    else if wanted <= begun then 1
    else wanted - begun
  }

  /** Whether a node holding n bytes can take b more: never once its last slot is begun. */
  predicate FitsNode(n: nat, b: nat) {
    b == 0 || (SectorsFor(n) < NODE_CAPACITY && n + b <= BYTE_CAPACITY)
  }

  /** What inode_fill leaves over for further nodes. */
  function Leftover(n: nat, b: nat): (left: nat)
    ensures left == 0 <==> FitsNode(n, b)
    ensures left <= b || BYTE_CAPACITY < n
  {
    if FitsNode(n, b) then 0 else if SectorsFor(n) >= NODE_CAPACITY then b else n + b - BYTE_CAPACITY
  }

  /** node_length after m rounds that were all cut short by nothing but the end of their slot. */
  function NodeAfter(n: nat, m: nat): nat {
    if m == 0 then n else (SectorsFor(n) + m) * SECTOR_SIZE
  }

  lemma NoRound(n: nat, b: nat)
    ensures NodeAfter(n, 0) == n
    ensures Rounds(n, b) == 0 <==> b == 0 || NODE_CAPACITY <= SectorsFor(n)
    ensures Rounds(n, b) == 0 ==> Leftover(n, b) == b
  {
  }

  /** One more round: it reaches the end of its slot, or it is the last. */
  lemma NextRound(n: nat, b: nat, m: nat)
    requires m < Rounds(n, b)
    ensures NodeAfter(n, m + 1) == (SectorsFor(n) + m + 1) * SECTOR_SIZE
    ensures n <= NodeAfter(n, m) < n + b && SectorsFor(NodeAfter(n, m)) == SectorsFor(n) + m < NODE_CAPACITY
    ensures n + b <= NodeAfter(n, m + 1) ==> m + 1 == Rounds(n, b) && Leftover(n, b) == 0
    ensures NodeAfter(n, m + 1) < n + b ==> (m + 1 < Rounds(n, b) <==> SectorsFor(n) + m + 1 < NODE_CAPACITY)
    ensures NodeAfter(n, m + 1) < n + b && m + 1 == Rounds(n, b) ==> Leftover(n, b) == n + b - NodeAfter(n, m + 1)
  {
    assert SectorsFor(n) * SECTOR_SIZE < n + SECTOR_SIZE && n <= SectorsFor(n) * SECTOR_SIZE;
    assert SectorsFor(n + b) * SECTOR_SIZE < n + b + SECTOR_SIZE && n + b <= SectorsFor(n + b) * SECTOR_SIZE;
  }

  lemma SlicesJoin(s: seq<Byte>, i: nat, j: nat, k: nat)
    requires i <= j <= k <= |s|
    ensures s[i..j] + s[j..k] == s[i..k]
  {
  }

  function Zeros(n: nat): (z: seq<Byte>)
    ensures |z| == n
  {
    seq(n, _ => 0)
  }

  // ---- a flat file ----

  /** A flat file after writing `data` at `offset`; a gap before the data is zeros. */
  function FlatWrite(file: seq<Byte>, offset: nat, data: seq<Byte>): (r: seq<Byte>)
    ensures |r| == if |file| < offset + |data| then offset + |data| else |file|
  {
    seq(if |file| < offset + |data| then offset + |data| else |file|, i requires 0 <= i =>
      if offset <= i < offset + |data| then data[i - offset] else if i < |file| then file[i] else 0)
  }

  /** Growing by zeros and then putting the data in is a flat write. */
  lemma GrowThenPut(file: seq<Byte>, offset: nat, data: seq<Byte>)
    ensures var growth := if |file| < offset + |data| then offset + |data| - |file| else 0;
            Put(file + Zeros(growth), offset, data) == FlatWrite(file, offset, data)
  {
  }

  /** What a flat file gives for a read of `size` bytes at `offset`. */
  function FlatRead(file: seq<Byte>, size: nat, offset: nat): seq<Byte> {
    if offset >= |file| then [] else if offset + size <= |file| then file[offset..offset + size] else file[offset..]
  }

  /** A read gives the bytes from offset on, as many as were asked for or as there are. */
  lemma FlatReadIs(file: seq<Byte>, size: nat, offset: nat)
    ensures var data := FlatRead(file, size, offset);
            && (|data| == size || offset + |data| == |file| || (data == [] && |file| <= offset))
            && |data| <= size && (data == [] || offset + |data| <= |file|)
            && forall i :: 0 <= i < |data| ==> offset + i < |file| && data[i] == file[offset + i]
  {
  }

  /** data is what the file has from offset on. */
  ghost predicate ReadFrom(file: seq<Byte>, offset: nat, data: seq<Byte>) {
    data == [] || (offset + |data| <= |file| && data == file[offset..offset + |data|])
  }

  lemma ReadNone(file: seq<Byte>, offset: nat)
    ensures ReadFrom(file, offset, [])
  {
  }

  lemma ReadMore(file: seq<Byte>, offset: nat, data: seq<Byte>, got: seq<Byte>)
    requires ReadFrom(file, offset, data) && ReadFrom(file, offset + |data|, got)
    ensures ReadFrom(file, offset, data + got)
  {
    if data != [] && got != [] {
      SlicesJoin(file, offset, offset + |data|, offset + |data| + |got|);
    }
    assert data == [] ==> data + got == got;
    assert got == [] ==> data + got == data;
  }

  /** A partial read is a prefix of the full one. */
  lemma ReadPart(file: seq<Byte>, size: nat, offset: nat, data: seq<Byte>)
    requires |data| <= size && ReadFrom(file, offset, data)
    ensures |data| <= |FlatRead(file, size, offset)| && data == FlatRead(file, size, offset)[..|data|]
  {
  }

  // ---- the sectors behind the file ----

  /** The first n slots name existing, distinct, full-size sectors other than the inode's own and not free. */
  ghost predicate SlotsGood(ptrs: seq<nat>, n: nat, disk: Disk, free: set<nat>, self: nat) {
    && n <= |ptrs|
    && (forall i :: 0 <= i < n ==>
          && PtrExists(ptrs[i]) && PtrAddress(ptrs[i]) in disk && |disk[PtrAddress(ptrs[i])]| == SECTOR_SIZE
          && PtrAddress(ptrs[i]) !in free && PtrAddress(ptrs[i]) != self)
    && (forall i, j :: 0 <= i < j < n ==> PtrAddress(ptrs[i]) != PtrAddress(ptrs[j]))
  }

  /** The bytes of the first n slots. */
  ghost function Stored(ptrs: seq<nat>, n: nat, disk: Disk): (s: seq<Byte>)
    requires n <= |ptrs|
    requires forall i :: 0 <= i < n ==> PtrAddress(ptrs[i]) in disk && |disk[PtrAddress(ptrs[i])]| == SECTOR_SIZE
    ensures |s| == n * SECTOR_SIZE
  {
    seq(n * SECTOR_SIZE, i requires 0 <= i < n * SECTOR_SIZE =>
      disk[PtrAddress(ptrs[i / SECTOR_SIZE])][i % SECTOR_SIZE])
  }

  ghost predicate ZeroFrom(s: seq<Byte>, from: nat) {
    forall i :: from <= i < |s| ==> s[i] == 0
  }

  /** s' continues s with zeros only. */
  ghost predicate Grown(s: seq<Byte>, s': seq<Byte>) {
    |s| <= |s'| && s'[..|s|] == s && ZeroFrom(s', |s|)
  }

  lemma GrownZero(s: seq<Byte>, s': seq<Byte>, from: nat)
    requires Grown(s, s') && ZeroFrom(s, from) && from <= |s|
    ensures ZeroFrom(s', from) && s'[..from] == s[..from]
  {
    assert forall i :: 0 <= i < |s| ==> s'[i] == s'[..|s|][i];
  }

  lemma GrownTwice(s: seq<Byte>, s': seq<Byte>, s'': seq<Byte>)
    requires Grown(s, s') && Grown(s', s'')
    ensures Grown(s, s'')
  {
    assert forall i :: 0 <= i < |s'| ==> s''[i] == s''[..|s'|][i];
  }

  /** A freshly zeroed sector in slot n extends the stored bytes by zeros. */
  lemma StoredGrow(ptrs: seq<nat>, n: nat, disk: Disk, free: set<nat>, self: nat, sector: nat)
    requires SlotsGood(ptrs, n, disk, free, self) && n < |ptrs| && sector in free && sector < ADDRESS_LIMIT && sector != self
    ensures var ptrs', disk' := ptrs[n := PtrSetExist(PtrCreate(sector))], disk[sector := Zeros(SECTOR_SIZE)];
            && SlotsGood(ptrs', n + 1, disk', free - {sector}, self)
            && Grown(Stored(ptrs, n, disk), Stored(ptrs', n + 1, disk'))
            && SlotsGood(ptrs', n, disk', free - {sector}, self)
            && Stored(ptrs', n, disk') == Stored(ptrs, n, disk)
  {
    PtrRoundTrip(sector);
    var ptrs', disk' := ptrs[n := PtrSetExist(PtrCreate(sector))], disk[sector := Zeros(SECTOR_SIZE)];
    assert Stored(ptrs', n + 1, disk') == Stored(ptrs, n, disk) + Zeros(SECTOR_SIZE);
  }

  /** Rewriting one sector changes the file only there. */
  lemma StoredOverwrite(ptrs: seq<nat>, n: nat, disk: Disk, free: set<nat>, self: nat, k: nat, at: nat, data: seq<Byte>)
    requires SlotsGood(ptrs, n, disk, free, self) && k < n && at + |data| <= SECTOR_SIZE
    ensures var s := PtrAddress(ptrs[k]);
            var disk' := disk[s := Overwrite(disk[s], at, data)];
            SlotsGood(ptrs, n, disk', free, self) &&
            k * SECTOR_SIZE + at + |data| <= n * SECTOR_SIZE &&
            Stored(ptrs, n, disk') == Overwrite(Stored(ptrs, n, disk), k * SECTOR_SIZE + at, data)
  {
    var s := PtrAddress(ptrs[k]);
    var disk' := disk[s := Overwrite(disk[s], at, data)];
    forall i | 0 <= i < n * SECTOR_SIZE
      ensures Stored(ptrs, n, disk')[i] == Overwrite(Stored(ptrs, n, disk), k * SECTOR_SIZE + at, data)[i]
    {
      assert i / SECTOR_SIZE != k ==> PtrAddress(ptrs[i / SECTOR_SIZE]) != s;
    }
  }

  /** One sector's bytes are where the file has them. */
  lemma StoredChunk(ptrs: seq<nat>, n: nat, disk: Disk, free: set<nat>, self: nat, k: nat, at: nat, size: nat)
    requires SlotsGood(ptrs, n, disk, free, self) && k < n && at + size <= SECTOR_SIZE
    ensures k * SECTOR_SIZE + at + size <= n * SECTOR_SIZE
    ensures disk[PtrAddress(ptrs[k])][at..at + size]
         == Stored(ptrs, n, disk)[k * SECTOR_SIZE + at..k * SECTOR_SIZE + at + size]
  {
    var s, chunk := Stored(ptrs, n, disk), disk[PtrAddress(ptrs[k])][at..at + size];
    var base := k * SECTOR_SIZE + at;
    forall i | 0 <= i < size
      ensures chunk[i] == s[base + i]
    {
      assert (base + i) / SECTOR_SIZE == k && (base + i) % SECTOR_SIZE == at + i;
    }
  }

  /** The first `length` bytes of the stored sectors. */
  ghost function Prefix(s: seq<Byte>, length: nat): (r: seq<Byte>)
    requires length <= |s|
    ensures |r| == length
  {
    s[..length]
  }

  /** Bytes past the end are zeros, so a longer prefix of grown bytes is the old one and zeros. */
  lemma GrownPrefix(before: seq<Byte>, grown: seq<Byte>, length: nat, end: nat)
    requires length <= |before| && length <= end <= |grown| && Grown(before, grown) && ZeroFrom(before, length)
    ensures Prefix(grown, end) == Prefix(before, length) + Zeros(end - length)
    ensures ZeroFrom(grown, end)
  {
    assert forall i :: 0 <= i < |before| ==> grown[i] == grown[..|before|][i];
  }

  /** Overwriting below the end changes the file as it changes the bytes. */
  lemma OverwritePrefix(s: seq<Byte>, length: nat, at: nat, data: seq<Byte>)
    requires length <= |s| && at + |data| <= length && ZeroFrom(s, length)
    ensures Prefix(Overwrite(s, at, data), length) == Overwrite(Prefix(s, length), at, data)
    ensures ZeroFrom(Overwrite(s, at, data), length)
  {
  }

  lemma WholeSector(s: seq<Byte>, data: seq<Byte>)
    requires |data| <= |s|
    ensures |data| == |s| ==> Overwrite(s, 0, data) == data
  {
  }

  /** One more piece of a longer overwrite. */
  lemma PutNext(file: seq<Byte>, offset: nat, data: seq<Byte>, i: nat, j: nat)
    requires i < j <= |data| && offset + j <= |file|
    ensures Overwrite(Put(file, offset, data[..i]), offset + i, data[i..j]) == Put(file, offset, data[..j])
  {
    OverwriteJoin(file, offset, data[..i], data[i..j]);
    assert data[..i] + data[i..j] == data[..j];
    assert i == 0 ==> data[..i] == [] && Overwrite(file, offset, data[..i]) == file;
  }

  /** How many bytes of [at, end) the copying loops move: without the bounce buffer, whole sectors until the first part of one. */
  function Moved(at: nat, end: nat, canBounce: bool): (n: nat)
    requires at <= end
    ensures n <= end - at
  {
    if canBounce then end - at
    else if at % SECTOR_SIZE != 0 then 0
    else end / SECTOR_SIZE * SECTOR_SIZE - at
  }

  lemma MovedIs(at: nat, end: nat)
    requires at <= end
    ensures Moved(at, end, true) == end - at
    ensures at % 512 != 0 ==> Moved(at, end, false) == 0
    ensures at % 512 == 0 ==> var n := Moved(at, end, false); n % 512 == 0 && at + n <= end < at + n + 512
  {
  }

  /** One chunk of the copying loops, `left` bytes before the end of the request. */
  lemma MovedNext(at: nat, left: nat, length: nat, end: nat, canBounce: bool)
    requires at < end && end == if at + left <= length then at + left else length
    ensures var chunk := ChunkSize(left, at, length);
            && 0 < chunk && at + chunk <= end
            && (canBounce || (at % SECTOR_SIZE == 0 && chunk == SECTOR_SIZE) ==>
                  Moved(at, end, canBounce) == chunk + Moved(at + chunk, end, canBounce))
            && (!canBounce && !(at % SECTOR_SIZE == 0 && chunk == SECTOR_SIZE) ==> Moved(at, end, canBounce) == 0)
  {
  }

  lemma NothingLeft(left: nat, at: nat, length: nat, end: nat, canBounce: bool)
    requires ChunkSize(left, at, length) <= 0 && at <= end && (at < end ==> 0 < left && at < length)
    ensures Moved(at, end, canBounce) == 0 && at == end
  {
  }

  /** The bytes of a sector stay on one side of the node's end. */
  lemma ChunkInside(at: nat, size: nat, left: nat, length: nat)
    requires at < BYTE_CAPACITY && size == ChunkSize(left, at, length) && 0 < size
    ensures at + size <= BYTE_CAPACITY
  {
  }

  datatype Op = Read(size: nat, offset: nat) | Write(data: seq<Byte>, offset: nat)

  /** Stuck: the kernel is to access a byte that no sector can be found for, and stops. */
  datatype Outcome = Got(data: seq<Byte>) | Wrote(count: nat) | Stuck

  /** What one operation does to a flat file; `denied` says that writes are refused. */
  function FlatStep(file: seq<Byte>, op: Op, denied: bool): (seq<Byte>, Outcome) {
    match op
    case Read(size, offset) => (file, Got(FlatRead(file, size, offset)))
    case Write(data, offset) =>
      if denied then (file, Wrote(0)) else (FlatWrite(file, offset, data), Wrote(|data|))
  }

  function FlatRun(file: seq<Byte>, ops: seq<Op>, denied: bool): (r: (seq<Byte>, seq<Outcome>))
    ensures |r.1| == |ops|
  {
    if ops == [] then (file, []) else
    var (before, outcomes) := FlatRun(file, ops[..|ops| - 1], denied);
    var (after, outcome) := FlatStep(before, ops[|ops| - 1], denied);
    (after, outcomes + [outcome])
  }

  /** By how many bytes op makes a file of `length` bytes grow. */
  function Growth(length: nat, op: Op, denied: bool): nat {
    if op.Write? && !denied && op.offset + |op.data| > length then op.offset + |op.data| - length else 0
  }

  // ---- further nodes ----

  /** The lengths that a node has on record. */
  datatype Link = Link(prevLength: nat, fileLength: nat)

  /** byte_to_inode: which node of a chain has byte pos, from node i on. */
  function NodeOf(nodes: seq<Link>, i: nat, pos: nat): Option<nat>
    decreases |nodes| - i
  {
    if i >= |nodes| || pos >= nodes[i].fileLength then None
    else if pos - nodes[i].prevLength < BYTE_CAPACITY then Some(i)
    else NodeOf(nodes, i + 1, pos)
  }

  /** No one sets prev_length, so no byte is ever found in a further node. */
  lemma {:induction false} OnlyFirstNode(nodes: seq<Link>, i: nat, pos: nat)
    requires i < |nodes| && forall k :: 0 <= k < |nodes| ==> nodes[k].prevLength == 0
    ensures NodeOf(nodes, i, pos) == if pos < nodes[i].fileLength && pos < BYTE_CAPACITY then Some(i) else None
    decreases |nodes| - i
  {
    if i + 1 < |nodes| {
      OnlyFirstNode(nodes, i + 1, pos);
    }
  }

  /** What is left of the free map, and whether it sufficed, when further nodes are made for b bytes. */
  function Chain(free: nat, mapWrites: nat, nodes: nat, b: nat): (r: (nat, bool))
    ensures r.0 <= free
    decreases b
  {
    if b == 0 then (free, true)
    else if free == 0 || mapWrites == 0 then (free, false)
    else if nodes == 0 then (free - 1, false)
    else
      var m, have := Rounds(0, b), Min(free - 1, mapWrites - 1);
      if m > have then (free - 1 - have, false)
      else Chain(free - 1 - m, mapWrites - 1 - m, nodes - 1, Leftover(0, b))
  }

  /** The chain, one node at a time. */
  lemma ChainNext(free: nat, mapWrites: nat, nodes: nat, b: nat)
    ensures b == 0 ==> Chain(free, mapWrites, nodes, b) == (free, true)
    ensures b > 0 && (free == 0 || mapWrites == 0) ==> Chain(free, mapWrites, nodes, b) == (free, false)
    ensures b > 0 && free > 0 && mapWrites > 0 && nodes == 0 ==> Chain(free, mapWrites, nodes, b) == (free - 1, false)
    ensures b > 0 && free > 0 && mapWrites > 0 && nodes > 0 ==>
              var m, have := Rounds(0, b), Min(free - 1, mapWrites - 1);
              && Leftover(0, b) < b
              && (m > have ==> Chain(free, mapWrites, nodes, b) == (free - 1 - have, false))
              && (m <= have ==> Chain(free, mapWrites, nodes, b) ==
                                  Chain(free - 1 - m, mapWrites - 1 - m, nodes - 1, Leftover(0, b)))
  {
  }

  /** n whole units of `unit` are the fewest that hold `bytes`. */
  ghost predicate Fewest(bytes: nat, unit: nat, n: nat) {
    unit * (n - 1) < bytes <= unit * n || (bytes == 0 && n == 0)
  }

  function NodesFor(bytes: nat): (n: nat)
    ensures Fewest(bytes, 124928, n)
  {
    (bytes + BYTE_CAPACITY - 1) / BYTE_CAPACITY
  }

  lemma SectorsForIs(bytes: nat)
    ensures Fewest(bytes, 512, SectorsFor(bytes))
  {
  }

  /** Further nodes can be made exactly when there is a sector for every node and for every 512 bytes, a write of the free
      map for each of them, and memory for the nodes; and then just these sectors are taken. */
  lemma {:induction false} ChainCost(free: nat, mapWrites: nat, nodes: nat, b: nat)
    ensures var (need, (rest, ok)) := (SectorsFor(b) + NodesFor(b), Chain(free, mapWrites, nodes, b));
            (ok <==> need <= free && need <= mapWrites && NodesFor(b) <= nodes) && (ok ==> rest == free - need)
    decreases b
  {
    ChainNext(free, mapWrites, nodes, b);
    if b > 0 {
      NodeByNode(b);
      if free > 0 && mapWrites > 0 && nodes > 0 && Rounds(0, b) <= Min(free - 1, mapWrites - 1) {
        var m := Rounds(0, b);
        ChainCost(free - 1 - m, mapWrites - 1 - m, nodes - 1, Leftover(0, b));
      }
    }
  }

  lemma NodeByNode(b: nat)
    requires b > 0
    ensures SectorsFor(b) == Rounds(0, b) + SectorsFor(Leftover(0, b))
    ensures NodesFor(b) == 1 + NodesFor(Leftover(0, b)) && Leftover(0, b) < b
  {
    SectorsForIs(b);
    SectorsForIs(Leftover(0, b));
  }

  // ---- files when memory or disk space runs out ----

  /** What an operation may use: memory for the bounce buffer, so many writes of the free map before one fails, and
      memory for so many further nodes. */
  datatype Means = Means(canBounce: bool, mapWrites: nat, nodes: nat)

  datatype Call = Call(op: Op, means: Means)

  /** The bytes of a file that can be found, the number of those that cannot, the bytes that its node has taken, and the
      number of free sectors. */
  datatype Extent = Extent(file: seq<Byte>, beyond: nat, node: nat, free: nat)

  type Volume = v: Extent |
    |v.file| <= BYTE_CAPACITY && (v.beyond > 0 ==> |v.file| == BYTE_CAPACITY) && v.node <= BYTE_CAPACITY
    witness Extent([], 0, 0, 0)

  function Length(v: Volume): nat {
    |v.file| + v.beyond
  }

  /** The same file grown to `length` bytes by zeros. */
  function Lengthened(v: Volume, length: nat): (w: Volume)
    requires length >= Length(v)
    ensures Length(w) == length && w.node == v.node && w.free == v.free
  {
    v.(file := v.file + Zeros(Min(length, BYTE_CAPACITY) - |v.file|), beyond := length - Min(length, BYTE_CAPACITY))
  }

  /** Where a read of `size` bytes at `offset` ends. */
  function ReadEnd(length: nat, size: nat, offset: nat): (end: nat)
    ensures offset <= end
  {
    if length <= offset then offset else if offset + size <= length then offset + size else length
  }

  /** How many bytes lie between offset and the end of the node. */
  function Before(offset: nat): nat {
    if offset < BYTE_CAPACITY then BYTE_CAPACITY - offset else 0
  }

  /** s with data put in at a place, if there is any. */
  function Put(s: seq<Byte>, at: nat, data: seq<Byte>): (r: seq<Byte>)
    requires data == [] || at + |data| <= |s|
    ensures |r| == |s|
  {
    if data == [] then s else Overwrite(s, at, data)
  }

  /**
   * The growth of a write. Sectors for the node are taken first, all of them or as many as there are. What the node does
   * not hold goes to further nodes; if these cannot be made, the file has grown all the same, but the write fails.
   */
  function Extended(v: Volume, end: nat, means: Means): (r: (Volume, bool))
    ensures r.1 ==> Length(r.0) == Max(Length(v), end)
  {
    if end <= Length(v) then (v, true) else
    var growth := end - Length(v);
    var m, have := Rounds(v.node, growth), Min(v.free, means.mapWrites);
    if m > have then
      TakenFits(v.node, growth, have);
      (v.(node := NodeAfter(v.node, have), free := v.free - have), false)
    else
      var left := Leftover(v.node, growth);
      LeftoverFits(v.node, growth);
      var (free, ok) := Chain(v.free - m, means.mapWrites - m, means.nodes, left);
      (Lengthened(v, end).(node := v.node + growth - left, free := free), ok)
  }

  lemma NoGrowth(v: Volume, end: nat, means: Means)
    requires end <= Length(v)
    ensures Extended(v, end, means) == (v, true)
  {
  }

  lemma GrowthFailed(v: Volume, end: nat, means: Means, w: Volume)
    requires end > Length(v)
    requires var m, have := Rounds(v.node, end - Length(v)), Min(v.free, means.mapWrites);
             m > have && w.file + Zeros(0) == v.file + Zeros(0) && w.beyond == v.beyond
             && w.node == NodeAfter(v.node, have) && w.free == v.free - have
    ensures (w, false) == Extended(v, end, means)
  {
    assert w.file + Zeros(0) == w.file && v.file + Zeros(0) == v.file;
  }

  /** The node's part of the growth, from v to u, and then the further nodes', to w. */
  lemma GrowthDone(v: Volume, end: nat, means: Means, u: Volume, w: Volume, ok: bool)
    requires end > Length(v)
    requires var growth := end - Length(v);
             var m, left := Rounds(v.node, growth), Leftover(v.node, growth);
             && m <= Min(v.free, means.mapWrites) && Length(u) == end
             && u.file == v.file + Zeros(|u.file| - |v.file|) && |u.file| == Min(end, BYTE_CAPACITY)
             && u.node == v.node + growth - left && u.free == v.free - m
             && (w.free, ok) == Chain(u.free, means.mapWrites - m, means.nodes, left) && w == u.(free := w.free)
    ensures (w, ok) == Extended(v, end, means)
  {
  }

  lemma LeftoverFits(n: nat, b: nat)
    requires n <= BYTE_CAPACITY
    ensures Leftover(n, b) <= b && n + b - Leftover(n, b) <= BYTE_CAPACITY
  {
  }

  lemma TakenFits(n: nat, b: nat, m: nat)
    requires m < Rounds(n, b) && n <= BYTE_CAPACITY
    ensures NodeAfter(n, m) <= BYTE_CAPACITY
  {
    NextRound(n, b, m);
  }

  /** A growth that fails leaves the file as it was if and only if it fails in the first node. */
  lemma FailedGrowth(v: Volume, end: nat, means: Means)
    requires !Extended(v, end, means).1
    ensures var w := Extended(v, end, means).0;
            w.file == v.file && w.beyond == v.beyond <==> Rounds(v.node, end - Length(v)) > Min(v.free, means.mapWrites)
    ensures var w := Extended(v, end, means).0;
            Length(w) == Length(v) || (Length(w) == end && w.file[..|v.file|] == v.file)
  {
  }

  /** What one call does: a write grows the file if it can, and then copies what it can. */
  function Served(v: Volume, call: Call, denied: bool): (Volume, Outcome) {
    match call.op
    case Read(size, offset) =>
      var n := Moved(offset, ReadEnd(Length(v), size, offset), call.means.canBounce);
      (v, if n > Before(offset) then Stuck else Got(FlatRead(v.file, size, offset)[..n]))
    case Write(data, offset) =>
      if denied then (v, Wrote(0)) else
      var (w, ok) := Extended(v, offset + |data|, call.means);
      if !ok then (w, Wrote(0)) else
      var n := Moved(offset, offset + |data|, call.means.canBounce);
      var written := Min(n, Before(offset));
      (w.(file := Put(w.file, offset, data[..written])), if n > written then Stuck else Wrote(n))
  }

  /** A read that moved what it could. */
  lemma ReadServed(v: Volume, size: nat, offset: nat, canBounce: bool, data: seq<Byte>, stuck: bool, denied: bool)
    requires var n := Moved(offset, ReadEnd(Length(v), size, offset), canBounce);
             if n > Before(offset) then stuck else !stuck && |data| == n
    requires |data| <= |FlatRead(v.file, size, offset)| && data == FlatRead(v.file, size, offset)[..|data|]
    ensures (v, if stuck then Stuck else Got(data)) == Served(v, Call(Read(size, offset), Means(canBounce, 0, 0)), denied)
  {
  }

  function ServedRun(v: Volume, calls: seq<Call>, denied: bool): (r: (Volume, seq<Outcome>))
    ensures |r.1| == |calls|
  {
    if calls == [] then (v, []) else
    var (before, outcomes) := ServedRun(v, calls[..|calls| - 1], denied);
    var (after, outcome) := Served(before, calls[|calls| - 1], denied);
    (after, outcomes + [outcome])
  }

  /** After the first n calls the volume is w and these were the outcomes. */
  ghost predicate Answered(v: Volume, calls: seq<Call>, n: nat, w: Volume, outcomes: seq<Outcome>, denied: bool)
    requires n <= |calls|
  {
    (w, outcomes) == ServedRun(v, calls[..n], denied)
  }

  lemma AnsweredNext(v: Volume, calls: seq<Call>, n: nat, w: Volume, outcomes: seq<Outcome>,
                     w': Volume, outcome: Outcome, denied: bool)
    requires n < |calls| && Answered(v, calls, n, w, outcomes, denied) && (w', outcome) == Served(w, calls[n], denied)
    ensures Answered(v, calls, n + 1, w', outcomes + [outcome], denied)
  {
    assert calls[..n + 1][..n] == calls[..n];
  }

  function Ops(calls: seq<Call>): (ops: seq<Op>)
    ensures |ops| == |calls| && forall i :: 0 <= i < |calls| ==> ops[i] == calls[i].op
  {
    seq(|calls|, i requires 0 <= i < |calls| => calls[i].op)
  }

  // ---- when a file is a flat file ----

  /** Memory for the bounce buffer and a further node, and a free map that can be written. */
  predicate Ample(call: Call) {
    call.means.canBounce && call.means.mapWrites >= 2 * NODE_CAPACITY + 1 && call.means.nodes >= 1
  }

  /** The sectors that growth by b takes in a node of n bytes: its own, and a further node with its sectors for the rest. */
  function Cost(n: nat, b: nat): nat {
    var left := Leftover(n, b);
    Rounds(n, b) + if left == 0 then 0 else 1 + SectorsFor(left)
  }

  /** Whether op stays within what the node's slots can hold. */
  predicate Within(op: Op, denied: bool) {
    op.Write? && !denied ==> op.offset + |op.data| <= BYTE_CAPACITY
  }

  /** The free sectors suffice for growth; an empty write does not need further nodes to succeed. */
  predicate Suffices(v: Volume, op: Op, growth: nat) {
    Cost(v.node, growth) <= v.free || (op.Write? && op.data == [] && Rounds(v.node, growth) <= v.free)
  }

  lemma CostEnough(v: Volume, end: nat, means: Means)
    requires v.beyond == 0 && |v.file| < end <= BYTE_CAPACITY
    requires means.mapWrites >= 2 * NODE_CAPACITY + 1 && means.nodes >= 1
    ensures var growth := end - |v.file|;
            var (w, ok) := Extended(v, end, means);
            && (ok <==> Cost(v.node, growth) <= v.free)
            && w.file == (if Rounds(v.node, growth) <= v.free then Lengthened(v, end).file else v.file)
            && (ok ==> w == Lengthened(v, end).(node := v.node + growth - Leftover(v.node, growth), free := v.free - Cost(v.node, growth)))
  {
    hide Rounds, Leftover, Chain, Lengthened, NodeAfter;
    var growth := end - |v.file|;
    var left, m := Leftover(v.node, growth), Rounds(v.node, growth);
    LeftoverFits(v.node, growth);
    FewRounds(v.node, growth);
    if m <= v.free {
      ChainNext(v.free - m, means.mapWrites - m, means.nodes, left);
      if 0 < left {
        OneMoreNode(v.free - m, means.mapWrites - m, means.nodes, left);
      }
    }
  }

  lemma FewRounds(n: nat, b: nat)
    ensures Rounds(n, b) <= NODE_CAPACITY
  {
  }

  /** A further node holds what is left over, for a sector of its own and one for each of its slots. */
  lemma OneMoreNode(free: nat, mapWrites: nat, nodes: nat, b: nat)
    requires 0 < b <= BYTE_CAPACITY && nodes >= 1 && mapWrites >= NODE_CAPACITY + 1
    ensures var (rest, ok) := Chain(free, mapWrites, nodes, b);
            (ok <==> 1 + SectorsFor(b) <= free) && (ok ==> rest == free - 1 - SectorsFor(b))
  {
    assert SectorsFor(0) == 0 && 0 < SectorsFor(b) <= NODE_CAPACITY;
    assert Rounds(0, b) == SectorsFor(b) && Leftover(0, b) == 0;
  }

  /**
   * With ample means a call does to the file what it does to a flat one, if and only if it stays within what the node's
   * slots can hold and there are enough free sectors.
   */
  lemma ServedFlat(v: Volume, call: Call, denied: bool)
    requires v.beyond == 0 && Ample(call)
    ensures var growth := Growth(|v.file|, call.op, denied);
            var (w, outcome) := Served(v, call, denied);
            && ((w.file, outcome) == FlatStep(v.file, call.op, denied) <==>
                  Within(call.op, denied) && Suffices(v, call.op, growth))
            && (Within(call.op, denied) && Cost(v.node, growth) <= v.free ==>
                  w.beyond == 0 && w.node == v.node + growth - Leftover(v.node, growth) && w.free == v.free - Cost(v.node, growth))
  {
    match call.op
    case Read(size, offset) =>
      var got := FlatRead(v.file, size, offset);
      assert got[..|got|] == got;
    case Write(data, offset) =>
      if !denied {
        WriteFlat(v, data, offset, call.means);
      }
  }

  lemma WriteFlat(v: Volume, data: seq<Byte>, offset: nat, means: Means)
    requires v.beyond == 0 && Ample(Call(Write(data, offset), means))
    ensures var op := Write(data, offset);
            var growth := Growth(|v.file|, op, false);
            var (w, outcome) := Served(v, Call(op, means), false);
            && ((w.file, outcome) == FlatStep(v.file, op, false) <==>
                  Within(op, false) && Suffices(v, op, growth))
            && (Within(op, false) && Cost(v.node, growth) <= v.free ==>
                  w.beyond == 0 && w.node == v.node + growth - Leftover(v.node, growth) && w.free == v.free - Cost(v.node, growth))
  {
    hide FlatWrite, Extended, Cost, Leftover, Put;
    var end := offset + |data|;
    assert data[..|data|] == data;
    if end <= BYTE_CAPACITY {
      GrowThenPut(v.file, offset, data);
      if end > |v.file| {
        CostEnough(v, end, means);
        LengthenedFile(v, end);
        assert |FlatWrite(v.file, offset, data)| == end;
        NothingPut(Lengthened(v, end).file, offset, data);
        assert data == [] ==> data[..0] == data;
      } else {
        NoGrowth(v, end, means);
        NoCost(v.node);
        LengthenedFile(v, |v.file|);
      }
    }
  }

  lemma NoCost(n: nat)
    ensures Cost(n, 0) == 0 && Leftover(n, 0) == 0
  {
  }

  lemma LengthenedFile(v: Volume, end: nat)
    requires v.beyond == 0 && |v.file| <= end <= BYTE_CAPACITY
    ensures Lengthened(v, end).file == v.file + Zeros(end - |v.file|) && Lengthened(v, end).beyond == 0
    ensures end == |v.file| ==> v.file + Zeros(0) == v.file
  {
  }

  /** The length, the bytes in the node and the sectors taken after some operations on a flat file. */
  function Measures(length: nat, node: nat, ops: seq<Op>, denied: bool): (r: (nat, nat, nat))
    requires node <= BYTE_CAPACITY
    ensures r.1 <= BYTE_CAPACITY
  {
    if ops == [] then (length, node, 0) else
    var (l, n, cost) := Measures(length, node, ops[..|ops| - 1], denied);
    var growth := Growth(l, ops[|ops| - 1], denied);
    LeftoverFits(n, growth);
    (l + growth, n + growth - Leftover(n, growth), cost + Cost(n, growth))
  }

  lemma FlatNext(file: seq<Byte>, node: nat, ops: seq<Op>, n: nat, denied: bool)
    requires n < |ops| && node <= BYTE_CAPACITY
    ensures var (before, outcomes) := FlatRun(file, ops[..n], denied);
            var (after, outcome) := FlatStep(before, ops[n], denied);
            FlatRun(file, ops[..n + 1], denied) == (after, outcomes + [outcome])
    ensures var (l, m, cost) := Measures(|file|, node, ops[..n], denied);
            var growth := Growth(l, ops[n], denied);
            Measures(|file|, node, ops[..n + 1], denied) == (l + growth, m + growth - Leftover(m, growth), cost + Cost(m, growth))
  {
    assert ops[..n + 1][..n] == ops[..n];
  }

  lemma {:induction false} MeasuresGrow(file: seq<Byte>, node: nat, ops: seq<Op>, i: nat, j: nat, denied: bool)
    requires i <= j <= |ops| && node <= BYTE_CAPACITY
    ensures Measures(|file|, node, ops[..i], denied).2 <= Measures(|file|, node, ops[..j], denied).2
    decreases j
  {
    hide Measures, Cost, Leftover, Growth;
    if i < j {
      MeasuresGrow(file, node, ops, i, j - 1, denied);
      FlatNext(file, node, ops, j - 1, denied);
    }
  }

  /** After n calls the file is the flat one, and node and free map are as measured. */
  ghost predicate FlatAfter(v: Volume, calls: seq<Call>, n: nat, denied: bool)
    requires n <= |calls|
  {
    var (w, outcomes) := ServedRun(v, calls[..n], denied);
    var (length, node, cost) := Measures(|v.file|, v.node, Ops(calls)[..n], denied);
    && (w.file, outcomes) == FlatRun(v.file, Ops(calls)[..n], denied)
    && w.beyond == 0 && |w.file| == length && w.node == node && w.free == v.free - cost
  }

  lemma FlatAfterNext(v: Volume, calls: seq<Call>, n: nat, denied: bool)
    requires n < |calls| && FlatAfter(v, calls, n, denied) && Ample(calls[n]) && Within(calls[n].op, denied)
    requires Measures(|v.file|, v.node, Ops(calls)[..n + 1], denied).2 <= v.free
    ensures FlatAfter(v, calls, n + 1, denied)
  {
    hide Served, Cost, Leftover, Within;
    var (w, outcomes) := ServedRun(v, calls[..n], denied);
    var (w', outcome) := Served(w, calls[n], denied);
    FlatNext(v.file, v.node, Ops(calls), n, denied);
    ServedFlat(w, calls[n], denied);
    AnsweredNext(v, calls, n, w, outcomes, w', outcome, denied);
  }

  lemma {:induction false} FlatAfterAll(v: Volume, calls: seq<Call>, n: nat, denied: bool)
    requires v.beyond == 0 && Measures(|v.file|, v.node, Ops(calls), denied).2 <= v.free && n <= |calls|
    requires forall i :: 0 <= i < |calls| ==> Ample(calls[i]) && Within(calls[i].op, denied)
    ensures FlatAfter(v, calls, n, denied)
  {
    hide Ample, Within;
    if n > 0 {
      FlatAfterAll(v, calls, n - 1, denied);
      MeasuresGrow(v.file, v.node, Ops(calls), n, |calls|, denied);
      assert Ops(calls)[..|calls|] == Ops(calls);
      FlatAfterNext(v, calls, n - 1, denied);
    }
  }

  /** Within the node's slots, with ample means and as many free sectors as are asked for, the file is a flat file. */
  lemma RunFlat(v: Volume, calls: seq<Call>, denied: bool)
    requires v.beyond == 0 && Measures(|v.file|, v.node, Ops(calls), denied).2 <= v.free
    requires forall i :: 0 <= i < |calls| ==> Ample(calls[i]) && Within(calls[i].op, denied)
    ensures var (w, outcomes) := ServedRun(v, calls, denied);
            var (length, node, cost) := Measures(|v.file|, v.node, Ops(calls), denied);
            && (w.file, outcomes) == FlatRun(v.file, Ops(calls), denied)
            && w.beyond == 0 && w.node == node && w.free == v.free - cost
  {
    hide Ample, Within;
    FlatAfterAll(v, calls, |calls|, denied);
    assert calls[..|calls|] == calls && Ops(calls)[..|calls|] == Ops(calls);
  }

  const SMALL: nat := (NODE_CAPACITY - 1) * SECTOR_SIZE

  /** Files that never pass 243 sectors stay in their node, whatever is done to them. */
  lemma {:induction false} SmallFilesFit(length: nat, ops: seq<Op>, denied: bool)
    requires length <= SMALL
    requires forall i :: 0 <= i < |ops| && ops[i].Write? ==> ops[i].offset + |ops[i].data| <= SMALL
    ensures var (l, n, _) := Measures(length, length, ops, denied); l == n <= SMALL
  {
    if ops != [] {
      SmallFilesFit(length, ops[..|ops| - 1], denied);
    }
  }

  /** A flat file returns what was written, and is untouched elsewhere. */
  lemma WriteThenRead(file: seq<Byte>, offset: nat, data: seq<Byte>, size: nat, at: nat)
    ensures FlatRead(FlatWrite(file, offset, data), |data|, offset) == data
    ensures at + size <= |file| && (at + size <= offset || offset + |data| <= at) ==>
              FlatRead(FlatWrite(file, offset, data), size, at) == FlatRead(file, size, at)
    ensures |file| <= at && at + size <= offset ==>
              FlatRead(FlatWrite(file, offset, data), size, at) == Zeros(size)
  {
  }

  /** The chunk rule: the bytes wanted, cut at the end of the sector and at the end of the file. */
  function ChunkSize(size: nat, offset: nat, length: nat): (n: int)
    ensures n <= 0 <==> size == 0 || length <= offset
    ensures n <= size && offset + n <= length
    ensures offset % SECTOR_SIZE + n <= SECTOR_SIZE
    ensures n == size || offset + n == length || offset % SECTOR_SIZE + n == SECTOR_SIZE
  {
    var inodeLeft := length - offset;
    var sectorLeft := SECTOR_SIZE - offset % SECTOR_SIZE;
    var minLeft := if inodeLeft < sectorLeft then inodeLeft else sectorLeft;
    if size < minLeft then size else minLeft
  }

  /** Sectors that were not free are as they were. */
  ghost predicate SameTaken(disk: Disk, free: set<nat>, disk': Disk) {
    forall s :: s in disk && s !in free ==> s in disk' && disk'[s] == disk[s]
  }

  lemma SameTakenTwice(disk: Disk, free: set<nat>, disk': Disk, free': set<nat>, disk'': Disk)
    requires SameTaken(disk, free, disk') && free' <= free && SameTaken(disk', free', disk'')
    ensures SameTaken(disk, free, disk'')
  {
  }

  lemma SameTakenSelf(disk: Disk, free: set<nat>)
    ensures SameTaken(disk, free, disk)
  {
  }

  lemma NothingPut(file: seq<Byte>, offset: nat, data: seq<Byte>)
    ensures Put(file, offset, data[..0]) == file
  {
  }

  /** Sectors that others take from the free map are no concern of a file. */
  lemma SlotsKept(ptrs: seq<nat>, n: nat, disk: Disk, free: set<nat>, self: nat, disk': Disk, free': set<nat>)
    requires SlotsGood(ptrs, n, disk, free, self) && SameTaken(disk, free, disk') && free' <= free
    ensures SlotsGood(ptrs, n, disk', free', self) && Stored(ptrs, n, disk') == Stored(ptrs, n, disk)
  {
  }

  /** struct inode with its struct inode_disk, and the disk and free map it works on. */
  class File {
    const sector: nat
    var fileLength: nat
    var nodeLength: nat
    const blockPtrs: array<nat>
    var links: seq<Link>        // the further nodes
    var denyWriteCnt: nat
    var disk: Disk
    var free: set<nat>

    ghost predicate Valid()
      reads this, blockPtrs
    {
      && blockPtrs.Length == NODE_CAPACITY
      && nodeLength <= BYTE_CAPACITY && (fileLength <= nodeLength || SectorsFor(nodeLength) == NODE_CAPACITY)
      && SlotsGood(blockPtrs[..], SectorsFor(nodeLength), disk, free, sector)
      && (forall s :: s in free ==> s < ADDRESS_LIMIT && s != sector)
      && (forall k :: 0 <= k < |links| ==> links[k].prevLength == 0)
      && ZeroFrom(Bytes(), Found())
    }

    ghost function Bytes(): (s: seq<Byte>)
      requires blockPtrs.Length == NODE_CAPACITY
      requires SlotsGood(blockPtrs[..], SectorsFor(nodeLength), disk, free, sector)
      reads this, blockPtrs
      ensures |s| == SectorsFor(nodeLength) * SECTOR_SIZE >= nodeLength
    {
      Stored(blockPtrs[..], SectorsFor(nodeLength), disk)
    }

    /** How much of the file can be found. */
    function Found(): nat
      reads this
    {
      Min(fileLength, BYTE_CAPACITY)
    }

    /** The file as its users see it, as far as it can be found. */
    ghost function Contents(): (s: seq<Byte>)
      requires Valid()
      reads this, blockPtrs
      ensures |s| == Found()
    {
      Prefix(Bytes(), Found())
    }

    ghost function View(): (v: Volume)
      requires Valid()
      reads this, blockPtrs
      ensures Length(v) == fileLength
    {
      Extent(Contents(), fileLength - Found(), nodeLength, |free|)
    }

    /** An empty inode, as allocate_inode sets it up; the block pointers are whatever memory held. */
    constructor (sector: nat, disk: Disk, free: set<nat>)
      requires forall s :: s in free ==> s < ADDRESS_LIMIT && s != sector
      ensures Valid() && Contents() == [] && fileLength == 0 && nodeLength == 0 && denyWriteCnt == 0
      ensures fresh(blockPtrs) && this.sector == sector && this.disk == disk && this.free == free
    {
      this.sector := sector;
      fileLength, nodeLength, denyWriteCnt, links := 0, 0, 0, [];
      blockPtrs := new nat[NODE_CAPACITY];
      this.disk, this.free := disk, free;
    }

    /** byte_to_sector: the sector of a byte, and nothing exactly for bytes past the end or past the first node. */
    function ByteToSector(pos: nat): (r: Option<nat>)
      requires Valid()
      reads this, blockPtrs
      ensures r == None <==> Found() <= pos
      ensures r.Some? ==>
                && pos / SECTOR_SIZE < SectorsFor(nodeLength)
                && r.value == PtrAddress(blockPtrs[pos / SECTOR_SIZE])
                && r.value in disk && |disk[r.value]| == SECTOR_SIZE
                && disk[r.value][pos % SECTOR_SIZE] == Contents()[pos]
    {
      var nodes := [Link(0, fileLength)] + links;
      OnlyFirstNode(nodes, 0, pos);
      assert pos < Found() ==> blockPtrs[pos / SECTOR_SIZE] == blockPtrs[..][pos / SECTOR_SIZE];
      if NodeOf(nodes, 0, pos) == Some(0) && PtrExists(blockPtrs[pos / SECTOR_SIZE]) then
        Some(PtrAddress(blockPtrs[pos / SECTOR_SIZE]))
      else
        None
    }

    /** free_map_allocate for one sector: `works` says that the map can be written back. */
    method FreeMapAllocate(works: bool) returns (r: Option<nat>)
      modifies this`free
      ensures r.None? <==> !works || old(free) == {}
      ensures r.None? ==> free == old(free)
      ensures r.Some? ==> r.value in old(free) && free == old(free) - {r.value}
    {
      if free == {} || !works {
        return None;
      }
      var s :| s in free;
      free := free - {s};
      return Some(s);
    }

    /** One round of inode_fill: a zeroed sector goes into slot k and node_length moves up. */
    method FillSlot(k: nat, bytesLeft: nat, works: bool) returns (ok: bool, left: nat)
      requires Valid() && k == SectorsFor(nodeLength) < NODE_CAPACITY && 0 < bytesLeft
      modifies this`free, this`disk, this`nodeLength, blockPtrs
      ensures Valid() && Grown(old(Bytes()), Bytes())
      ensures ok <==> works && 0 < |old(free)|
      ensures free <= old(free) && SameTaken(old(disk), old(free), disk)
      ensures !ok ==> left == bytesLeft && nodeLength == old(nodeLength) && free == old(free)
      ensures ok ==> left + nodeLength == bytesLeft + old(nodeLength) && nodeLength <= (k + 1) * SECTOR_SIZE
      ensures ok ==> |free| == |old(free)| - 1
      ensures ok && left > 0 ==> nodeLength == (k + 1) * SECTOR_SIZE
    {
      var s := FreeMapAllocate(works);
      if s.None? {
        return false, bytesLeft;
      }
      PutSlot(k, s.value, old(free));
      ok := true;
      var step := FillStep(nodeLength, bytesLeft);
      nodeLength, left := nodeLength + step, bytesLeft - step;
      assert SlotsGood(blockPtrs[..], SectorsFor(nodeLength), disk, free, sector);
      GrownZero(old(Bytes()), Bytes(), fileLength);
    }

    /** Slot k receives a zeroed sector; the slots below it are as they were. */
    method PutSlot(k: nat, s: nat, ghost before: set<nat>)
      requires blockPtrs.Length == NODE_CAPACITY && k < NODE_CAPACITY
      requires SlotsGood(blockPtrs[..], k, disk, before, sector)
      requires s in before && free == before - {s} && s < ADDRESS_LIMIT && s != sector
      modifies this`disk, blockPtrs
      ensures disk == old(disk)[s := Zeros(SECTOR_SIZE)]
      ensures forall n: nat {:trigger SlotsGood(blockPtrs[..], n, disk, free, sector)} :: n == k || n == k + 1 ==>
                && SlotsGood(blockPtrs[..], n, disk, free, sector)
                && Grown(old(Stored(blockPtrs[..], k, disk)), Stored(blockPtrs[..], n, disk))
    {
      StoredGrow(blockPtrs[..], k, disk, before, sector, s);
      ghost var ptrs := blockPtrs[..];
      disk := disk[s := Zeros(SECTOR_SIZE)];
      blockPtrs[k] := PtrSetExist(PtrCreate(s));
      assert blockPtrs[..] == ptrs[k := PtrSetExist(PtrCreate(s))];
    }

    /**
     * The loop of inode_fill, which takes `taken` sectors. It fails exactly when the free map does not yield the sectors
     * that it needs; otherwise all of `bytesLeft` goes into this node exactly when it fits. It shows in no byte.
     */
    method FillSlots(bytesLeft: nat, mapWrites: nat) returns (ok: bool, left: nat, taken: nat)
      requires Valid()
      modifies this`free, this`disk, this`nodeLength, blockPtrs
      ensures Valid() && Grown(old(Bytes()), Bytes())
      ensures var m, have := Rounds(old(nodeLength), bytesLeft), Min(|old(free)|, mapWrites);
              && (ok <==> m <= have) && taken == Min(m, have) && |free| == |old(free)| - taken
      ensures free <= old(free) && SameTaken(old(disk), old(free), disk)
      ensures !ok ==> nodeLength == NodeAfter(old(nodeLength), taken)
      ensures ok ==> left == Leftover(old(nodeLength), bytesLeft) && nodeLength == old(nodeLength) + bytesLeft - left
      ensures ok && left > 0 ==> SectorsFor(nodeLength) == NODE_CAPACITY
    {
      hide Rounds, NodeAfter, SlotsGood, Stored, FitsNode, Leftover, SameTaken;
      var k := SectorsFor(nodeLength);
      left, taken := bytesLeft, 0;
      NoRound(nodeLength, bytesLeft);
      SameTakenSelf(disk, free);
      while k < NODE_CAPACITY && 0 < left
        invariant Valid() && fileLength == old(fileLength) && Grown(old(Bytes()), Bytes())
        invariant left + nodeLength == old(nodeLength) + bytesLeft
        invariant k == SectorsFor(old(nodeLength)) + taken
        invariant taken <= Rounds(old(nodeLength), bytesLeft) && taken <= mapWrites && |free| == |old(free)| - taken
        invariant free <= old(free) && SameTaken(old(disk), old(free), disk)
        invariant left > 0 ==> nodeLength == NodeAfter(old(nodeLength), taken)
        invariant left > 0 ==> SectorsFor(nodeLength) == k
        invariant taken == Rounds(old(nodeLength), bytesLeft) <==> left == 0 || NODE_CAPACITY <= k
        invariant taken == Rounds(old(nodeLength), bytesLeft) ==> left == Leftover(old(nodeLength), bytesLeft)
        decreases NODE_CAPACITY - k
      {
        ghost var grown, d, f := Bytes(), disk, free;
        NextRound(old(nodeLength), bytesLeft, taken);
        ok, left := FillSlot(k, left, taken < mapWrites);
        GrownTwice(old(Bytes()), grown, Bytes());
        SameTakenTwice(old(disk), old(free), d, f, disk);
        if !ok {
          return;
        }
        k, taken := k + 1, taken + 1;
      }
      ok := true;
    }

    /** inode_fill: the slots, and then the length of the file. */
    method Fill(bytesLeft: nat, length: nat, mapWrites: nat) returns (ok: bool, left: nat, taken: nat)
      requires Valid() && length == fileLength + bytesLeft
      modifies this`free, this`disk, this`nodeLength, this`fileLength, blockPtrs
      ensures Valid() && Grown(old(Bytes()), Bytes())
      ensures var m, have := Rounds(old(nodeLength), bytesLeft), Min(|old(free)|, mapWrites);
              && (ok <==> m <= have) && taken == Min(m, have) && |free| == |old(free)| - taken
      ensures fileLength == if ok then length else old(fileLength)
      ensures !ok ==> nodeLength == NodeAfter(old(nodeLength), taken)
      ensures ok ==> left == Leftover(old(nodeLength), bytesLeft) && nodeLength == old(nodeLength) + bytesLeft - left
      ensures ok ==> (left == 0 <==> FitsNode(old(nodeLength), bytesLeft))
    {
      hide SlotsGood, Stored, SameTaken, Rounds, NodeAfter, Grown;
      ok, left, taken := FillSlots(bytesLeft, mapWrites);
      if ok {
        ghost var found := Found();
        fileLength := length;
        assert Found() >= found;
      }
    }

    /**
     * The part of inode_extend_link that makes further nodes, the next of them number `depth`: a sector and memory for
     * each, and sectors for its slots. The bytes of the file are as they were.
     */
    method MakeNodes(depth: nat, bytesLeft: nat, length: nat, mapWrites: nat, nodes: nat) returns (ok: bool)
      requires Valid() && depth <= |links|
      modifies this`free, this`disk, this`links
      ensures Valid() && Bytes() == old(Bytes())
      ensures (|free|, ok) == Chain(|old(free)|, mapWrites, nodes, bytesLeft)
      decreases bytesLeft
    {
      hide Chain, Rounds, Leftover, SlotsGood, Stored, SectorsFor, ZeroFrom;
      ChainNext(|free|, mapWrites, nodes, bytesLeft);
      if bytesLeft == 0 {
        return true;
      }
      var s := TakeSector(mapWrites > 0);
      if s.None? || nodes == 0 {
        return false;
      }
      var left, taken;
      ok, left, taken := FillNode(s.value, bytesLeft, mapWrites - 1);
      if ok {
        links := links[..depth] + [Link(0, length)];
        ok := MakeNodes(depth + 1, left, length, mapWrites - 1 - taken, nodes - 1);
      }
    }

    /** A sector for a further node; the file stays as it is. */
    method TakeSector(works: bool) returns (r: Option<nat>)
      requires Valid()
      modifies this`free
      ensures Valid() && Bytes() == old(Bytes())
      ensures r.None? <==> !works || |old(free)| == 0
      ensures |free| == if r.None? then |old(free)| else |old(free)| - 1
      ensures r.Some? ==> r.value !in free
    {
      r := FreeMapAllocate(works);
      SlotsKept(blockPtrs[..], SectorsFor(nodeLength), disk, old(free), sector, disk, free);
    }

    /** inode_fill of a new node in sector s. */
    method FillNode(s: nat, bytesLeft: nat, mapWrites: nat) returns (ok: bool, left: nat, taken: nat)
      requires Valid() && s !in free
      modifies this`free, this`disk
      ensures Valid() && Bytes() == old(Bytes())
      ensures var m, have := Rounds(0, bytesLeft), Min(|old(free)|, mapWrites);
              && (ok <==> m <= have) && taken == Min(m, have) && |free| == |old(free)| - taken
      ensures ok ==> left == Leftover(0, bytesLeft)
    {
      var node := new File(s, disk, free);
      ok, left, taken := node.FillSlots(bytesLeft, mapWrites);
      SlotsKept(blockPtrs[..], SectorsFor(nodeLength), disk, free, sector, node.disk, node.free);
      disk, free := node.disk, node.free;
    }

    /** One chunk of inode_read_at. */
    method ReadChunk(at: nat, size: nat) returns (chunk: seq<Byte>)
      requires Valid() && 0 < size && at + size <= Found() && at % SECTOR_SIZE + size <= SECTOR_SIZE
      ensures |chunk| == size && ReadFrom(Contents(), at, chunk)
    {
      var sector := ByteToSector(at).value;
      var from := at % SECTOR_SIZE;
      StoredChunk(blockPtrs[..], SectorsFor(nodeLength), disk, free, this.sector, at / SECTOR_SIZE, from, size);
      chunk := disk[sector][from..from + size];
      assert Contents()[at..at + size] == Bytes()[at..at + size];
    }

    /**
     * inode_read_at. The buffer comes back as a flat file would give it, the whole of it when there is memory for the
     * bounce buffer or no need of it, and otherwise the whole sectors before the first part of one. The kernel is stuck
     * exactly when that takes it past what the first node holds.
     */
    method ReadAt(size: nat, offset: nat, canBounce: bool) returns (data: seq<Byte>, stuck: bool)
      requires Valid()
      ensures (View(), if stuck then Stuck else Got(data)) ==
              Served(View(), Call(Read(size, offset), Means(canBounce, 0, 0)), denyWriteCnt > 0)
    {
      hide SlotsGood, Stored, ZeroFrom, SectorsFor, Moved, ChunkSize, Served, ReadFrom, FlatRead;
      data, stuck := [], false;
      ReadNone(Contents(), offset);
      ghost var file, end := Contents(), ReadEnd(fileLength, size, offset);
      var left, at, bounce := size, offset, false;
      while 0 < left
        invariant 0 <= left == size - |data| && at == offset + |data| <= end && (bounce ==> canBounce)
        invariant ReadFrom(file, offset, data) && |data| <= Before(offset) && !stuck
        invariant Moved(offset, end, canBounce) == |data| + Moved(at, end, canBounce)
      {
        var chunk := ChunkSize(left, at, fileLength);
        if chunk <= 0 {
          NothingLeft(left, at, fileLength, end, canBounce);
          break;
        }
        MovedNext(at, left, fileLength, end, canBounce);
        if !(at % SECTOR_SIZE == 0 && chunk == SECTOR_SIZE) && !bounce {
          bounce := canBounce;
          if !bounce {
            break;
          }
        }
        if ByteToSector(at).None? {
          stuck := true;
          break;
        }
        ChunkInside(at, chunk, left, fileLength);
        var got := ReadChunk(at, chunk);
        ReadMore(file, offset, data, got);
        data := data + got;
        left, at := left - chunk, at + chunk;
      }
      ReadPart(file, size, offset, data);
      ReadServed(View(), size, offset, canBounce, data, stuck, denyWriteCnt > 0);
    }

    /** One chunk of inode_write_at, through the bounce buffer unless it covers a whole sector. */
    method WriteChunk(at: nat, chunk: seq<Byte>)
      requires Valid() && 0 < |chunk| && at + |chunk| <= Found() && at % SECTOR_SIZE + |chunk| <= SECTOR_SIZE
      modifies this`disk
      ensures Valid() && Contents() == Overwrite(old(Contents()), at, chunk)
    {
      hide SlotsGood, Stored, ZeroFrom, Overwrite, Prefix;
      var sector := ByteToSector(at).value;
      var from := at % SECTOR_SIZE;
      var sectorLeft := SECTOR_SIZE - from;
      StoredOverwrite(blockPtrs[..], SectorsFor(nodeLength), disk, free, this.sector, at / SECTOR_SIZE, from, chunk);
      OverwritePrefix(Bytes(), Found(), at, chunk);
      var block := chunk;
      if !(from == 0 && |chunk| == SECTOR_SIZE) {
        var bounce := if from > 0 || |chunk| < sectorLeft then disk[sector] else Zeros(SECTOR_SIZE);
        block := Overwrite(bounce, from, chunk);
      }
      WholeSector(disk[sector], chunk);
      disk := disk[sector := block];
    }

    /** Bytes i to j of the buffer follow those before them into the file. */
    method CopyChunk(buffer: seq<Byte>, offset: nat, i: nat, j: nat, ghost file: seq<Byte>)
      requires Valid() && i < j <= |buffer| && offset + j <= Found() == |file|
      requires (offset + i) % SECTOR_SIZE + (j - i) <= SECTOR_SIZE && Contents() == Put(file, offset, buffer[..i])
      modifies this`disk
      ensures Valid() && Contents() == Put(file, offset, buffer[..j])
    {
      hide SlotsGood, Stored, ZeroFrom, Put;
      PutNext(file, offset, buffer, i, j);
      WriteChunk(offset + i, buffer[i..j]);
    }

    /** The copying loop of inode_write_at. */
    method WriteChunks(buffer: seq<Byte>, offset: nat, canBounce: bool) returns (written: nat, stuck: bool)
      requires Valid() && offset + |buffer| <= fileLength
      modifies this`disk
      ensures Valid() && written == Min(Moved(offset, offset + |buffer|, canBounce), Before(offset))
      ensures stuck <==> Moved(offset, offset + |buffer|, canBounce) > written
      ensures Contents() == Put(old(Contents()), offset, buffer[..written])
    {
      hide Moved, ChunkSize, SlotsGood, Stored, ZeroFrom, SectorsFor, Put;
      written, stuck := 0, false;
      var left, bounce := |buffer|, false;
      ghost var file, end := Contents(), offset + |buffer|;
      NothingPut(file, offset, buffer);
      while 0 < left
        invariant Valid() && written + left == |buffer| && written <= |buffer| && (bounce ==> canBounce) && !stuck
        invariant written <= Before(offset)
        invariant Moved(offset, end, canBounce) == written + Moved(offset + written, end, canBounce)
        invariant Contents() == Put(file, offset, buffer[..written])
      {
        var chunk := ChunkSize(left, offset + written, fileLength);
        MovedNext(offset + written, left, fileLength, end, canBounce);
        if chunk <= 0 {
          assert false;
        }
        if !((offset + written) % SECTOR_SIZE == 0 && chunk == SECTOR_SIZE) && !bounce {
          bounce := canBounce;
          if !bounce {
            break;
          }
        }
        if ByteToSector(offset + written).None? {
          stuck := true;
          break;
        }
        ChunkInside(offset + written, chunk, left, fileLength);
        CopyChunk(buffer, offset, written, written + chunk, file);
        left, written := left - chunk, written + chunk;
      }
    }

    /** The growth of inode_write_at: inode_extend_link. */
    method Grow(end: nat, means: Means) returns (ok: bool)
      requires Valid()
      modifies this`free, this`disk, this`nodeLength, this`fileLength, this`links, blockPtrs
      ensures Valid() && (View(), ok) == Extended(old(View()), end, means)
    {
      hide SlotsGood, Stored, ZeroFrom, SectorsFor, NodeAfter, Rounds, Leftover, Grown, Chain, Extended;
      if end <= fileLength {
        NoGrowth(View(), end, means);
        return true;
      }
      var left, taken;
      ok, left, taken := Fill(end - fileLength, end, means.mapWrites);
      GrownPrefix(old(Bytes()), Bytes(), old(Found()), Found());
      if ok {
        ghost var v := View();
        ok := MakeNodes(0, left, end, means.mapWrites - taken, means.nodes);
        GrowthDone(old(View()), end, means, v, View(), ok);
      } else {
        GrowthFailed(old(View()), end, means, View());
      }
    }

    /**
     * inode_write_at. Denied writes change nothing. Every other write grows the file to the full request, with failures
     * as specified, and copies what it can; the kernel is stuck exactly when that takes it past what the first node holds.
     */
    method WriteAt(buffer: seq<Byte>, offset: nat, means: Means) returns (written: nat, stuck: bool)
      requires Valid()
      modifies this`free, this`disk, this`nodeLength, this`fileLength, this`links, blockPtrs
      ensures Valid()
      ensures (View(), if stuck then Stuck else Wrote(written)) ==
              Served(old(View()), Call(Write(buffer, offset), means), denyWriteCnt > 0)
      ensures denyWriteCnt > 0 ==> disk == old(disk) && free == old(free)
    {
      hide Extended, Moved, Put;
      if denyWriteCnt > 0 {
        return 0, false;
      }
      var ok := Grow(offset + |buffer|, means);
      if !ok {
        return 0, false;
      }
      written, stuck := WriteChunks(buffer, offset, means.canBounce);
    }

    /**
     * Over any sequence of calls, whatever means each has, the inode answers as specified, up to the first call that
     * leaves the kernel stuck.
     */
    method Run(calls: seq<Call>) returns (outcomes: seq<Outcome>)
      requires Valid()
      modifies this`free, this`disk, this`nodeLength, this`fileLength, this`links, blockPtrs
      ensures Valid() && |outcomes| <= |calls|
      ensures (View(), outcomes) == ServedRun(old(View()), calls[..|outcomes|], denyWriteCnt > 0)
      ensures forall i :: 0 <= i < |outcomes| - 1 ==> !outcomes[i].Stuck?
      ensures |outcomes| < |calls| ==> outcomes != [] && outcomes[|outcomes| - 1].Stuck?
    {
      hide Served, SlotsGood, Stored, ZeroFrom;
      outcomes := [];
      ghost var v, denied := View(), denyWriteCnt > 0;
      while |outcomes| < |calls|
        invariant Valid() && |outcomes| <= |calls| && Answered(v, calls, |outcomes|, View(), outcomes, denied)
        invariant forall i :: 0 <= i < |outcomes| ==> !outcomes[i].Stuck?
      {
        ghost var w := View();
        var outcome := Serve(calls[|outcomes|]);
        AnsweredNext(v, calls, |outcomes|, w, outcomes, View(), outcome, denied);
        outcomes := outcomes + [outcome];
        if outcome.Stuck? {
          return;
        }
      }
    }

    method Serve(call: Call) returns (outcome: Outcome)
      requires Valid()
      modifies this`free, this`disk, this`nodeLength, this`fileLength, this`links, blockPtrs
      ensures Valid() && (View(), outcome) == Served(old(View()), call, denyWriteCnt > 0)
    {
      match call.op
      case Read(size, offset) =>
        var data, stuck := ReadAt(size, offset, call.means.canBounce);
        outcome := if stuck then Stuck else Got(data);
      case Write(data, offset) =>
        var n, stuck := WriteAt(data, offset, call.means);
        outcome := if stuck then Stuck else Wrote(n);
    }
  }

  /** The sectors 1 to n. */
  function Sectors(n: nat): (r: set<nat>)
    ensures |r| == n && forall s :: s in r ==> 1 <= s <= n
  {
    if n == 0 then {} else Sectors(n - 1) + {n}
  }

  lemma AlmostFull(n: nat)
    requires n == 243 * SECTOR_SIZE + 1
    ensures Rounds(0, n) == NODE_CAPACITY && Leftover(0, n) == 0 && SectorsFor(n) == NODE_CAPACITY
    ensures Rounds(n, 1) == 0 && Leftover(n, 1) == 1
  {
  }

  /** A file of 243 sectors and one byte, where `size` sectors were free. */
  method LastSlotBegun(size: nat) returns (file: File)
    requires NODE_CAPACITY <= size < ADDRESS_LIMIT
    ensures fresh(file) && fresh(file.blockPtrs) && file.Valid() && |file.free| == size - NODE_CAPACITY
    ensures file.fileLength == file.nodeLength == 243 * SECTOR_SIZE + 1
  {
    hide SlotsGood, Stored, ZeroFrom, Grown, Rounds, Leftover, Sectors;
    file := new File(0, map[], Sectors(size));
    var n := 243 * SECTOR_SIZE + 1;
    AlmostFull(n);
    var ok, left, taken := file.Fill(n, n, size);
  }

  /** A node with room that does not grow: its last slot is begun, and one more byte is left over. */
  method LastSlotRefused() returns (file: File, ok: bool, left: nat)
    ensures file.Valid() && ok && left == 1
    ensures file.nodeLength == 243 * SECTOR_SIZE + 1 && file.fileLength == file.nodeLength + 1 <= BYTE_CAPACITY
  {
    file := LastSlotBegun(300);
    var taken;
    var n := file.fileLength;
    AlmostFull(n);
    ok, left, taken := file.Fill(1, n + 1, 300);
  }

  /**
   * One byte written just past the first node of an empty file. With sectors for it the kernel is stuck. Without, the
   * write fails, and yet the file has become longer.
   */
  lemma PastFirstNode(free: nat)
    requires NODE_CAPACITY <= free
    ensures var (w, outcome) := Served(Extent([], 0, 0, free), Call(Write([7], BYTE_CAPACITY), Means(true, free, 1)), false);
            Length(w) == BYTE_CAPACITY + 1 && outcome == if NODE_CAPACITY + 2 <= free then Stuck else Wrote(0)
  {
    hide Lengthened;
    var end, left := BYTE_CAPACITY + 1, free - NODE_CAPACITY;
    assert SectorsFor(0) == 0 && SectorsFor(1) == 1;
    assert Rounds(0, end) == NODE_CAPACITY && Leftover(0, end) == 1;
    assert Rounds(0, 1) == 1 && Leftover(0, 1) == 0;
    ChainNext(left, left, 1, 1);
    if left >= 2 {
      ChainNext(left - 2, left - 2, 0, 0);
    }
  }
}
