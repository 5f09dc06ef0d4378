/** A device of fixed-size sectors, each encrypted block by block with a tweak of (sector, block). */
module SectorDevice {
  import opened Blocks
  import opened Cbc

  // What a key schedule makes of one data unit, given its sector number.
  type UnitOp = (nat, seq<bv8>) -> seq<bv8>

  ghost predicate LengthPreserving(op: UnitOp) {
    forall s: nat, x: seq<bv8> :: |op(s, x)| == |x|
  }

  function Zeros(n: nat): (z: seq<bv8>)
    ensures |z| == n
  {
    seq(n, _ => 0)
  }

  /** One sector: a shorter one is padded with zeros, processed whole, and cut back. */
  function Sector(op: UnitOp, size: nat): UnitOp {
    (s: nat, x: seq<bv8>) =>
      if |x| >= size || |op(s, x + Zeros(size - |x|))| < |x| then op(s, x) else Front(op(s, x + Zeros(size - |x|)), |x|)
  }

  /** Cuts data into sectors, the last one possibly shorter, and maps each with its sector number. */
  function MapSectors(op: UnitOp, size: nat, start: nat, data: seq<bv8>): seq<bv8>
    requires size > 0
    decreases |data|
  {
    if data == [] then []
    else if |data| <= size then op(start, data)
    else op(start, Front(data, size)) + MapSectors(op, size, start + 1, Behind(data, size))
  }

  /** What the device makes of data that starts at sector start. */
  function Device(op: UnitOp, size: nat, start: nat, data: seq<bv8>): seq<bv8>
    requires size > 0
  {
    MapSectors(Sector(op, size), size, start, data)
  }

  lemma SectorPreservesLength(op: UnitOp, size: nat)
    requires LengthPreserving(op)
    ensures LengthPreserving(Sector(op, size))
  {
    forall s: nat, x: seq<bv8>
      ensures |Sector(op, size)(s, x)| == |x|
    {
      assert |op(s, x)| == |x|;
      if |x| < size {
        assert |op(s, x + Zeros(size - |x|))| == size;
      }
    }
  }

  lemma {:induction false} MapSectorsLength(op: UnitOp, size: nat, start: nat, data: seq<bv8>)
    requires size > 0 && LengthPreserving(op)
    ensures |MapSectors(op, size, start, data)| == |data|
    decreases |data|
  {
    if |data| > size {
      MapSectorsLength(op, size, start + 1, Behind(data, size));
    }
  }

  lemma FirstSector(op: UnitOp, size: nat, start: nat, head: seq<bv8>, rest: seq<bv8>)
    requires 0 < size == |head|
    ensures MapSectors(op, size, start, head + rest) == op(start, head) + MapSectors(op, size, start + 1, rest)
  {
    if rest == [] {
      assert head + rest == head;
      assert op(start, head) + [] == op(start, head);
    } else {
      Joined(head, rest);
    }
  }

  // ---------- one data unit ----------

  // XTS on one data unit: a family of block maps indexed by sector and block number.
  type Tweaked = (nat, nat, Block) -> Block

  ghost predicate InverseFamily(f: Tweaked, g: Tweaked) {
    forall s: nat, j: nat, b: Block :: g(s, j, f(s, j, b)) == b
  }

  // Sectors are made of whole blocks, so the short case is only ever the empty one.
  function Blockwise(f: Tweaked, sector: nat, j: nat, unit: seq<bv8>): (r: seq<bv8>)
    ensures |r| == |unit|
    decreases |unit|
  {
    if |unit| < 16 then unit else f(sector, j, Front(unit, 16)) + Blockwise(f, sector, j + 1, Behind(unit, 16))
  }

  function Xts(f: Tweaked): UnitOp {
    (s: nat, x: seq<bv8>) => Blockwise(f, s, 0, x)
  }

  lemma FirstOfUnit(f: Tweaked, sector: nat, j: nat, head: seq<bv8>, rest: seq<bv8>)
    requires |head| == 16
    ensures Blockwise(f, sector, j, head + rest) == f(sector, j, head) + Blockwise(f, sector, j + 1, rest)
  {
    Joined(head, rest);
  }

  lemma {:induction false} BlockwiseSplit(f: Tweaked, sector: nat, j: nat, n: nat, a: seq<bv8>, b: seq<bv8>)
    requires |a| == 16 * n
    ensures Blockwise(f, sector, j, a + b) == Blockwise(f, sector, j, a) + Blockwise(f, sector, j + n, b)
    decreases n
  {
    if n == 0 {
      assert a + b == b && a + Blockwise(f, sector, j, b) == Blockwise(f, sector, j, b);
    } else {
      var head, rest := Front(a, 16), Behind(a, 16);
      Parted(a, 16);
      Assoc(head, rest, b);
      FirstOfUnit(f, sector, j, head, rest);
      FirstOfUnit(f, sector, j, head, rest + b);
      BlockwiseSplit(f, sector, j + 1, n - 1, rest, b);
      Assoc(f(sector, j, head), Blockwise(f, sector, j + 1, rest), Blockwise(f, sector, j + n, b));
    }
  }

  lemma {:induction false} BlockwiseRoundTrip(f: Tweaked, g: Tweaked, sector: nat, j: nat, unit: seq<bv8>)
    requires InverseFamily(f, g)
    ensures Blockwise(g, sector, j, Blockwise(f, sector, j, unit)) == unit
    decreases |unit|
  {
    if |unit| >= 16 {
      var b: seq<bv8> := f(sector, j, Front(unit, 16));
      var rest := Blockwise(f, sector, j + 1, Behind(unit, 16));
      Joined(b, rest);
      Parted(unit, 16);
      BlockwiseRoundTrip(f, g, sector, j + 1, Behind(unit, 16));
    }
  }

  /** The whole blocks of a sector are mapped block by block, whatever follows them. */
  lemma SectorBlocks(f: Tweaked, size: nat, sector: nat, data: seq<bv8>)
    requires |data| <= size
    ensures |Sector(Xts(f), size)(sector, data)| == |data|
    ensures Front(Sector(Xts(f), size)(sector, data), Whole(|data|)) ==
      Blockwise(f, sector, 0, Front(data, Whole(|data|)))
  {
    var w := Whole(|data|);
    var padded := data + Zeros(size - |data|);
    JoinedLong(data, Zeros(size - |data|), w);
    Parted(padded, w);
    BlockwiseSplit(f, sector, 0, w / 16, Front(data, w), Behind(padded, w));
    var mapped := Blockwise(f, sector, 0, padded);
    Joined(Blockwise(f, sector, 0, Front(data, w)), Blockwise(f, sector, w / 16, Behind(padded, w)));
    if |data| < size {
      FrontOfFront(mapped, |data|, w);
    } else {
      assert data + Zeros(0) == data;
    }
  }

  /** Block j of a unit is the map for its sector and for j, of that block. */
  lemma {:induction false} BlockwiseAt(f: Tweaked, sector: nat, first: nat, unit: seq<bv8>, j: nat)
    requires 16 * j + 16 <= |unit|
    ensures BlockAt(Blockwise(f, sector, first, unit), j) == f(sector, first + j, BlockAt(unit, j))
    decreases j
  {
    var head, rest := Front(unit, 16), Behind(unit, 16);
    var mapped: seq<bv8> := f(sector, first, head);
    Parted(unit, 16);
    FirstOfUnit(f, sector, first, head, rest);
    var out := Blockwise(f, sector, first, unit);
    Joined(mapped, Blockwise(f, sector, first + 1, rest));
    FirstBlock(unit);
    FirstBlock(out);
    if j > 0 {
      BlockwiseAt(f, sector, first + 1, rest, j - 1);
      LaterBlock(unit, j);
      LaterBlock(out, j);
    }
  }

  lemma BlockInFront(s: seq<bv8>, n: nat, j: nat)
    requires 16 * j + 16 <= n <= |s|
    ensures BlockAt(Front(s, n), j) == BlockAt(s, j)
  {
    FrontEach(s, n);
  }

  lemma SectorBlockAt(f: Tweaked, size: nat, sector: nat, x: seq<bv8>, j: nat)
    requires |x| <= size && 16 * j + 16 <= |x|
    ensures |Sector(Xts(f), size)(sector, x)| == |x|
    ensures BlockAt(Sector(Xts(f), size)(sector, x), j) == f(sector, j, BlockAt(x, j))
  {
    var w := Whole(|x|);
    SectorBlocks(f, size, sector, x);
    BlockwiseAt(f, sector, 0, Front(x, w), j);
    BlockInFront(x, w, j);
    BlockInFront(Sector(Xts(f), size)(sector, x), w, j);
  }

  /** The bytes after the whole blocks of a partial sector go through the map with zeros behind them. */
  lemma SectorTail(f: Tweaked, size: nat, sector: nat, x: seq<bv8>, padded: Block, i: nat)
    requires size % 16 == 0 && |x| < size && i < |x| % 16
    requires forall n :: 0 <= n < 16 ==> padded[n] == if n < |x| % 16 then x[|x| / 16 * 16 + n] else 0
    ensures |Sector(Xts(f), size)(sector, x)| == |x|
    ensures Sector(Xts(f), size)(sector, x)[|x| / 16 * 16 + i] == f(sector, |x| / 16, padded)[i]
  {
    var j, whole := |x| / 16, x + Zeros(size - |x|);
    assert 16 * j + 16 <= size;
    PartialSector(Xts(f), size, sector, x);
    FrontEach(Blockwise(f, sector, 0, whole), |x|);
    BlockwiseAt(f, sector, 0, whole, j);
    assert BlockAt(whole, j) == padded;
    assert BlockAt(Blockwise(f, sector, 0, whole), j)[i] == Blockwise(f, sector, 0, whole)[16 * j + i];
  }

  lemma BlockIsPart(s: seq<bv8>, j: nat)
    requires 16 * j + 16 <= |s|
    ensures BlockAt(s, j) == Part(s, 16 * j, 16 * j + 16)
  {
    PartEach(s, 16 * j, 16 * j + 16);
  }

  lemma PartInFirst(a: seq<bv8>, b: seq<bv8>, from: nat, to: nat)
    requires from <= to <= |a|
    ensures Part(a + b, from, to) == Part(a, from, to)
  {
    PartEach(a + b, from, to);
    PartEach(a, from, to);
  }

  lemma PartInSecond(a: seq<bv8>, b: seq<bv8>, from: nat, to: nat)
    requires from <= to <= |b|
    ensures Part(a + b, |a| + from, |a| + to) == Part(b, from, to)
  {
    PartEach(a + b, |a| + from, |a| + to);
    PartEach(b, from, to);
  }

  // The first sector of the data, which may be all of it.
  lemma FirstSectorBlock(f: Tweaked, size: nat, start: nat, data: seq<bv8>, j: nat)
    requires size > 0 && 16 * j + 16 <= size && 16 * j + 16 <= |data|
    ensures 16 * j + 16 <= |Device(Xts(f), size, start, data)|
    ensures Part(Device(Xts(f), size, start, data), 16 * j, 16 * j + 16) ==
      f(start, j, Part(data, 16 * j, 16 * j + 16))
  {
    var op := Sector(Xts(f), size);
    var head := if |data| <= size then data else Front(data, size);
    SectorBlockAt(f, size, start, head, j);
    BlockIsPart(head, j);
    BlockIsPart(op(start, head), j);
    if |data| > size {
      Parted(data, size);
      PartInFirst(head, Behind(data, size), 16 * j, 16 * j + 16);
      PartInFirst(op(start, head), MapSectors(op, size, start + 1, Behind(data, size)), 16 * j, 16 * j + 16);
    }
  }

  /** Sector k of the data is encrypted under the number start + k, its block j with j as block number. This holds of
      every whole block, in a partial last sector too. */
  lemma {:induction false} DeviceBlock(f: Tweaked, size: nat, start: nat, data: seq<bv8>, k: nat, j: nat, at: nat)
    requires size > 0 && size % 16 == 0 && 16 * j + 16 <= size && at == k * size + 16 * j && at + 16 <= |data|
    ensures |Device(Xts(f), size, start, data)| == |data|
    ensures Part(Device(Xts(f), size, start, data), at, at + 16) == f(start + k, j, Part(data, at, at + 16))
    decreases k
  {
    DeviceLength(f, size, start, data);
    if k == 0 {
      FirstSectorBlock(f, size, start, data, j);
    } else {
      OneLess(k, size);
      DeviceBlock(f, size, start + 1, Behind(data, size), k - 1, j, at - size);
      PartFurther(data, size, at);
      LaterSector(f, size, start, data, at);
    }
  }

  lemma DeviceLength(f: Tweaked, size: nat, start: nat, data: seq<bv8>)
    requires size > 0
    ensures |Device(Xts(f), size, start, data)| == |data|
  {
    SectorPreservesLength(Xts(f), size);
    MapSectorsLength(Sector(Xts(f), size), size, start, data);
  }

  lemma OneLess(k: nat, size: nat)
    requires k > 0
    ensures k * size >= size && (k - 1) * size == k * size - size
  {
  }

  lemma PartFurther(data: seq<bv8>, size: nat, at: nat)
    requires size <= at && at + 16 <= |data|
    ensures Part(Behind(data, size), at - size, at - size + 16) == Part(data, at, at + 16)
  {
    Parted(data, size);
    PartInSecond(Front(data, size), Behind(data, size), at - size, at - size + 16);
  }

  lemma LaterSector(f: Tweaked, size: nat, start: nat, data: seq<bv8>, at: nat)
    requires 0 < size <= at && at + 16 <= |data|
    ensures |Device(Xts(f), size, start, data)| == |data|
    ensures |Device(Xts(f), size, start + 1, Behind(data, size))| == |data| - size
    ensures Part(Device(Xts(f), size, start, data), at, at + 16) ==
      Part(Device(Xts(f), size, start + 1, Behind(data, size)), at - size, at - size + 16)
  {
    var op := Sector(Xts(f), size);
    SectorPreservesLength(Xts(f), size);
    MapSectorsLength(op, size, start, data);
    MapSectorsLength(op, size, start + 1, Behind(data, size));
    PartInSecond(op(start, Front(data, size)), MapSectors(op, size, start + 1, Behind(data, size)), at - size,
      at - size + 16);
  }

  lemma FrontOfFront(s: seq<bv8>, n: nat, m: nat)
    requires m <= n <= |s|
    ensures Front(Front(s, n), m) == Front(s, m)
  {
    FrontEach(s, n);
    FrontEach(Front(s, n), m);
    FrontEach(s, m);
  }

  lemma SectorRoundTrip(f: Tweaked, g: Tweaked, size: nat, sector: nat, data: seq<bv8>)
    requires InverseFamily(f, g) && |data| <= size
    ensures var there := Sector(Xts(f), size)(sector, data);
      var back := Sector(Xts(g), size)(sector, there);
      |there| == |back| == |data| && Front(back, Whole(|data|)) == Front(data, Whole(|data|))
  {
    SectorBlocks(f, size, sector, data);
    SectorBlocks(g, size, sector, Sector(Xts(f), size)(sector, data));
    BlockwiseRoundTrip(f, g, sector, 0, Front(data, Whole(|data|)));
  }

  // ---------- round trip ----------

  lemma WholeAdd(n: nat, m: nat)
    requires n % 16 == 0
    ensures Whole(n + m) == n + Whole(m)
  {
    var k := n / 16;
    assert n == 16 * k;
    assert (16 * k + m) % 16 == m % 16;
  }

  // Round trip of a full sector followed by anything.
  lemma HeadRoundTrip(head: seq<bv8>, back: seq<bv8>, rest: seq<bv8>, more: seq<bv8>)
    requires |head| == |back| && |head| % 16 == 0 && |rest| == |more|
    requires Front(back, Whole(|back|)) == Front(head, Whole(|head|))
    requires Front(more, Whole(|more|)) == Front(rest, Whole(|rest|))
    ensures Front(back + more, Whole(|back + more|)) == Front(head + rest, Whole(|head + rest|))
  {
    WholeAdd(|head|, |rest|);
    Parted(back, |back|);
    Parted(head, |head|);
    FrontMore(back, more, Whole(|more|));
    FrontMore(head, rest, Whole(|rest|));
  }

  // The same for any pair of sector maps that undo each other on whole blocks.
  ghost predicate Undoes(there: UnitOp, back: UnitOp, size: nat) {
    forall s: nat, x: seq<bv8> {:trigger there(s, x)} :: |x| <= size ==>
      |there(s, x)| == |back(s, there(s, x))| == |x| &&
      Front(back(s, there(s, x)), Whole(|x|)) == Front(x, Whole(|x|))
  }

  lemma {:induction false} MapRoundTrip(there: UnitOp, back: UnitOp, size: nat, start: nat, data: seq<bv8>)
    requires Undoes(there, back, size) && size % 16 == 0 && size > 0
    ensures var r := MapSectors(back, size, start, MapSectors(there, size, start, data));
      |r| == |data| == |MapSectors(there, size, start, data)| && Front(r, Whole(|data|)) == Front(data, Whole(|data|))
    decreases |data|
  {
    if |data| > size {
      var head, rest := Front(data, size), Behind(data, size);
      Parted(data, size);
      FirstSector(there, size, start, head, rest);
      MapRoundTrip(there, back, size, start + 1, rest);
      var coded := MapSectors(there, size, start + 1, rest);
      FirstSector(back, size, start, there(start, head), coded);
      HeadRoundTrip(head, back(start, there(start, head)), rest, MapSectors(back, size, start + 1, coded));
    }
  }

  /** Decryption recovers all but the last |data| mod 16 bytes, whatever the partial last sector is. */
  lemma DeviceRoundTrip(f: Tweaked, g: Tweaked, size: nat, start: nat, data: seq<bv8>)
    requires InverseFamily(f, g) && size % 16 == 0 && size > 0
    ensures var back := Device(Xts(g), size, start, Device(Xts(f), size, start, data));
      |back| == |data| && Front(back, Whole(|data|)) == Front(data, Whole(|data|))
  {
    var there, back := Sector(Xts(f), size), Sector(Xts(g), size);
    forall s: nat, x: seq<bv8> | |x| <= size
      ensures |there(s, x)| == |back(s, there(s, x))| == |x|
      ensures Front(back(s, there(s, x)), Whole(|x|)) == Front(x, Whole(|x|))
    {
      SectorRoundTrip(f, g, size, s, x);
    }
    MapRoundTrip(there, back, size, start, data);
  }

  // ---------- when everything comes back ----------

  function SwapEnds(b: Block): (r: Block)
    ensures |r| == 16 && r[0] == b[15] && r[15] == b[0] && forall k :: 1 <= k < 15 ==> r[k] == b[k]
  {
    [b[15]] + b[1..15] + [b[0]]
  }

  const SWAP: Tweaked := (s: nat, j: nat, b: Block) => SwapEnds(b)

  function Ones(n: nat): (z: seq<bv8>)
    ensures |z| == n && forall k :: 0 <= k < n ==> z[k] == 1
  {
    seq(n, _ => 1)
  }

  lemma SwapIsInverse()
    ensures InverseFamily(SWAP, SWAP)
  {
    forall s: nat, j: nat, b: Block
      ensures SWAP(s, j, SWAP(s, j, b)) == b
    {
      var r := SwapEnds(SwapEnds(b));
      assert forall k :: 0 <= k < 16 ==> r[k] == b[k];
    }
  }

  lemma FirstBlockSwapped(sector: nat, j: nat, rest: seq<bv8>)
    requires |rest| >= 16
    ensures Blockwise(SWAP, sector, j, rest)[0] == rest[15]
  {
    FrontEach(rest, 16);
  }

  // The byte just after the whole blocks, under the swap: a padding byte takes its place.
  lemma SwapTail(size: nat, sector: nat, data: seq<bv8>)
    requires size % 16 == 0 && |data| < size && |data| % 16 != 0
    ensures |Sector(Xts(SWAP), size)(sector, data)| == |data|
    ensures Sector(Xts(SWAP), size)(sector, data)[Whole(|data|)] == 0
  {
    var w := Whole(|data|);
    var padded := data + Zeros(size - |data|);
    var rest := Behind(padded, w);
    JoinedLong(data, Zeros(size - |data|), w);
    Parted(padded, w);
    BehindEach(padded, w);
    SwapBehind(sector, w / 16, Front(data, w), rest);
    FrontEach(Blockwise(SWAP, sector, 0, padded), |data|);
    PartialSector(Xts(SWAP), size, sector, data);
  }

  // The first byte of the block after n blocks.
  lemma SwapBehind(sector: nat, n: nat, front: seq<bv8>, rest: seq<bv8>)
    requires |front| == 16 * n && |rest| >= 16
    ensures Blockwise(SWAP, sector, 0, front + rest)[16 * n] == rest[15]
  {
    BlockwiseSplit(SWAP, sector, 0, n, front, rest);
    FirstBlockSwapped(sector, n, rest);
  }

  // The byte after the whole blocks of what follows a full sector.
  lemma TailByte(head: seq<bv8>, tail: seq<bv8>)
    requires |head| % 16 == 0 && |tail| % 16 != 0
    ensures Whole(|tail|) < |tail| && Whole(|head + tail|) == |head| + Whole(|tail|)
    ensures (head + tail)[Whole(|head + tail|)] == tail[Whole(|tail|)]
  {
    WholeAdd(|head|, |tail|);
  }

  lemma RestMod(n: nat, size: nat)
    requires size % 16 == 0 && size <= n
    ensures (n - size) % 16 == n % 16
  {
    var k := size / 16;
    assert n == n - 16 * k + 16 * k;
  }

  lemma {:induction false} MapSwapTail(op: UnitOp, size: nat, start: nat, data: seq<bv8>)
    requires size % 16 == 0 && size > 0 && |data| % 16 != 0 && LengthPreserving(op)
    requires forall s: nat, x: seq<bv8> :: |x| < size && |x| % 16 != 0 ==> op(s, x)[Whole(|x|)] == 0
    ensures |MapSectors(op, size, start, data)| == |data| && MapSectors(op, size, start, data)[Whole(|data|)] == 0
    decreases |data|
  {
    if |data| > size {
      var rest := Behind(data, size);
      RestMod(|data|, size);
      MapSwapTail(op, size, start + 1, rest);
      TailByte(op(start, Front(data, size)), MapSectors(op, size, start + 1, rest));
    }
  }

  // Every cipher family gives n bytes back.
  ghost predicate Recovers(size: nat, n: nat)
    requires size > 0
  {
    forall f: Tweaked, g: Tweaked, start: nat, data: seq<bv8> ::
      InverseFamily(f, g) && |data| == n ==> Device(Xts(g), size, start, Device(Xts(f), size, start, data)) == data
  }

  lemma SwapLoses(size: nat, data: seq<bv8>)
    requires size % 16 == 0 && size > 0 && |data| % 16 != 0
    ensures |Device(Xts(SWAP), size, 0, data)| == |data| && Device(Xts(SWAP), size, 0, data)[Whole(|data|)] == 0
  {
    var op := Sector(Xts(SWAP), size);
    assert LengthPreserving(Xts(SWAP));
    SectorPreservesLength(Xts(SWAP), size);
    forall s: nat, x: seq<bv8> | |x| < size && |x| % 16 != 0
      ensures op(s, x)[Whole(|x|)] == 0
    {
      SwapTail(size, s, x);
    }
    MapSwapTail(op, size, 0, data);
  }

  /** The device gives everything back for every cipher exactly when the data is made of whole blocks. */
  lemma RecoversExactly(size: nat, n: nat)
    requires size % 16 == 0 && size > 0
    ensures Recovers(size, n) <==> n % 16 == 0
  {
    if n % 16 == 0 {
      forall f: Tweaked, g: Tweaked, start: nat, data: seq<bv8> | InverseFamily(f, g) && |data| == n
        ensures Device(Xts(g), size, start, Device(Xts(f), size, start, data)) == data
      {
        DeviceRoundTrip(f, g, size, start, data);
        var back := Device(Xts(g), size, start, Device(Xts(f), size, start, data));
        Parted(back, n);
        Parted(data, n);
      }
    } else {
      SwapIsInverse();
      SwapLoses(size, Ones(n));
      SwapLoses(size, Device(Xts(SWAP), size, 0, Ones(n)));
      assert Device(Xts(SWAP), size, 0, Device(Xts(SWAP), size, 0, Ones(n)))[Whole(n)] != Ones(n)[Whole(n)];
    }
  }

  // ---------- chunking ----------

  /** Number of full sectors in n bytes. */
  function FullSectors(n: nat, size: nat): nat
    requires size > 0
  {
    if n < size then 0 else 1 + FullSectors(n - size, size)
  }

  predicate SectorAligned(n: nat, size: nat)
    requires size > 0
  {
    n == 0 || (n >= size && SectorAligned(n - size, size))
  }

  lemma QuotientStep(n: nat, size: nat)
    requires 0 < size <= n
    ensures n / size == 1 + (n - size) / size && n % size == (n - size) % size
  {
    var d := n / size - (n - size) / size - 1;
    assert d * size == (n - size) % size - n % size;
    assert d >= 1 ==> d * size >= size;
    assert d <= -1 ==> d * size + size <= 0;
  }

  /** The shift by the sector size's logarithm is this quotient, and aligned means a multiple of the sector size. */
  lemma {:induction false} FullSectorsIsQuotient(n: nat, size: nat)
    requires size > 0
    ensures FullSectors(n, size) == n / size
    ensures SectorAligned(n, size) <==> n % size == 0
  {
    if n >= size {
      QuotientStep(n, size);
      FullSectorsIsQuotient(n - size, size);
    }
  }

  lemma {:induction false} MapChunks(op: UnitOp, size: nat, start: nat, a: seq<bv8>, b: seq<bv8>)
    requires size > 0 && SectorAligned(|a|, size)
    ensures MapSectors(op, size, start, a + b) ==
      MapSectors(op, size, start, a) + MapSectors(op, size, start + FullSectors(|a|, size), b)
    decreases |a|
  {
    if a == [] {
      assert a + b == b && [] + MapSectors(op, size, start, b) == MapSectors(op, size, start, b);
    } else {
      var head, rest := Front(a, size), Behind(a, size);
      Parted(a, size);
      Assoc(head, rest, b);
      FirstSector(op, size, start, head, rest + b);
      FirstSector(op, size, start, head, rest);
      MapChunks(op, size, start + 1, rest, b);
      Assoc(op(start, head), MapSectors(op, size, start + 1, rest),
        MapSectors(op, size, start + FullSectors(|a|, size), b));
    }
  }

  /** Cutting at whole sectors and going on at the returned sector number gives the same bytes. */
  lemma DeviceChunks(op: UnitOp, size: nat, start: nat, a: seq<bv8>, b: seq<bv8>)
    requires size > 0 && SectorAligned(|a|, size)
    ensures Device(op, size, start, a + b) ==
      Device(op, size, start, a) + Device(op, size, start + FullSectors(|a|, size), b)
  {
    MapChunks(Sector(op, size), size, start, a, b);
  }

  // ---------- the code ----------

  // On a full sector the padding makes no difference.
  ghost predicate SameOnFull(op: UnitOp, ctx: UnitOp, size: nat) {
    forall s: nat, x: seq<bv8> {:trigger ctx(s, x)} :: |x| == size ==> op(s, x) == ctx(s, x)
  }

  // Exactly n full sectors fit into left bytes.
  predicate MoreSectors(n: nat, left: nat, size: nat) {
    if n == 0 then left < size else left >= size && MoreSectors(n - 1, left - size, size)
  }

  lemma {:induction false} FullSectorsFit(left: nat, size: nat)
    requires size > 0
    ensures MoreSectors(FullSectors(left, size), left, size)
  {
    if left >= size {
      FullSectorsFit(left - size, size);
    }
  }

  // One sector from the input as it was before to the output.
  lemma NextSector(op: UnitOp, ctx: UnitOp, size: nat, i: nat, written: seq<bv8>, before: seq<bv8>, output: seq<bv8>,
                   input: seq<bv8>, cur: nat, end: nat, all: seq<bv8>)
    requires 0 < size && cur + size <= end <= |before| == |input| && end <= |written| == |output|
    requires Part(written, 0, cur) + MapSectors(op, size, i, Part(before, cur, end)) == all
    requires SameOnFull(op, ctx, size)
    requires Part(output, 0, cur + size) == Part(written, 0, cur) + ctx(i, Part(before, cur, cur + size))
    requires forall k :: cur + size <= k < |input| ==> input[k] == before[k]
    ensures Part(output, 0, cur + size) + MapSectors(op, size, i + 1, Part(input, cur + size, end)) == all
  {
    var done, unit, rest := Part(written, 0, cur), Part(before, cur, cur + size), Part(before, cur + size, end);
    PartFront(before, cur, cur + size, end);
    Parted(Part(before, cur, end), size);
    PartSame(before, input, cur + size, end);
    AddSector(op, size, i, done, unit, rest, all);
  }

  lemma AddSector(op: UnitOp, size: nat, i: nat, done: seq<bv8>, unit: seq<bv8>, rest: seq<bv8>, all: seq<bv8>)
    requires 0 < size == |unit| && done + MapSectors(op, size, i, unit + rest) == all
    ensures done + op(i, unit) + MapSectors(op, size, i + 1, rest) == all
  {
    FirstSector(op, size, i, unit, rest);
    Assoc(done, op(i, unit), MapSectors(op, size, i + 1, rest));
  }

  // memcpy of the first n bytes of src to dst[at..].
  method CopyInto(src: array<bv8>, dst: array<bv8>, at: nat, n: nat)
    requires n <= src.Length && at + n <= dst.Length && src != dst
    modifies dst
    ensures Part(dst[..], 0, at + n) == old(Part(dst[..], 0, at)) + Part(src[..], 0, n)
    ensures forall k :: at + n <= k < dst.Length ==> dst[k] == old(dst[k])
  {
    ghost var before := dst[..];
    forall k | 0 <= k < n {
      dst[at + k] := src[k];
    }
    PartEach(src[..], 0, n);
    PartWritten(before, dst[..], at, Part(src[..], 0, n));
  }

  // Fills dst with n bytes of src and zeros behind them.
  method PadInto(src: array<bv8>, at: nat, n: nat, dst: array<bv8>)
    requires at + n <= src.Length && n <= dst.Length && src != dst
    modifies dst
    ensures dst[..] == Part(src[..], at, at + n) + Zeros(dst.Length - n)
  {
    ghost var data := src[..];
    PartEach(data, at, at + n);
    forall k | 0 <= k < dst.Length {
      dst[k] := if k < n then src[at + k] else 0;
    }
    assert src[..] == data;
    assert dst[..] == Part(data, at, at + n) + Zeros(dst.Length - n);
  }

  // The loop over the full sectors; returns the position reached.
  method ProcessFull(ctx: UnitOp, input: array<bv8>, output: array<bv8>, startSector: nat, endSector: nat,
                     dataSize: nat, size: nat, ghost op: UnitOp)
    returns (cur: nat)
    requires size > 0 && dataSize <= input.Length && dataSize <= output.Length
    requires startSector <= endSector && MoreSectors(endSector - startSector, dataSize, size)
    requires LengthPreserving(ctx) && SameOnFull(op, ctx, size)
    modifies output
    ensures cur <= dataSize < cur + size
    ensures Part(output[..], dataSize, output.Length) == old(Part(output[..], dataSize, output.Length))
    ensures Part(output[..], 0, cur) + MapSectors(op, size, endSector, Part(input[..], cur, dataSize)) ==
      MapSectors(op, size, startSector, old(Part(input[..], 0, dataSize)))
  {
    ghost var done, tail := Part(output[..], 0, 0), Part(input[..], 0, dataSize);
    ghost var all, behind := MapSectors(op, size, startSector, tail), Part(output[..], dataSize, output.Length);
    var i := startSector;
    cur := 0;
    assert [] + all == all;
    while i < endSector
      invariant i <= endSector && 0 <= cur <= dataSize && MoreSectors(endSector - i, dataSize - cur, size)
      invariant done == Part(output[..], 0, cur) && tail == Part(input[..], cur, dataSize)
      invariant Part(output[..], dataSize, output.Length) == behind
      invariant done + MapSectors(op, size, i, tail) == all
    {
      done, tail := OneSector(ctx, input, output, i, cur, size, dataSize, op, all, done, tail);
      i := i + 1;
      cur := cur + size;
    }
  }

  // One full sector of the loop.
  method OneSector(ctx: UnitOp, input: array<bv8>, output: array<bv8>, i: nat, cur: nat, size: nat,
                   ghost end: nat, ghost op: UnitOp, ghost all: seq<bv8>, ghost done: seq<bv8>, ghost tail: seq<bv8>)
    returns (ghost more: seq<bv8>, ghost rest: seq<bv8>)
    requires 0 < size && cur + size <= end <= input.Length && end <= output.Length
    requires LengthPreserving(ctx) && SameOnFull(op, ctx, size)
    requires done == Part(output[..], 0, cur) && tail == Part(input[..], cur, end)
    requires done + MapSectors(op, size, i, tail) == all
    modifies output
    ensures more == Part(output[..], 0, cur + size) && rest == Part(input[..], cur + size, end)
    ensures more + MapSectors(op, size, i + 1, rest) == all
    ensures Part(output[..], end, output.Length) == old(Part(output[..], end, output.Length))
  {
    ghost var written, before := output[..], input[..];
    CryptXts(ctx, i, input, output, cur, size);
    PartSame(written, output[..], end, output.Length);
    NextSector(op, ctx, size, i, written, before, output[..], input[..], cur, end, all);
    more, rest := Part(output[..], 0, cur + size), Part(input[..], cur + size, end);
  }

  // The library call on one data unit at the same place of both arrays, which may be the same array.
  method CryptXts(ctx: UnitOp, sector: nat, input: array<bv8>, output: array<bv8>, at: nat, len: nat)
    requires LengthPreserving(ctx) && at + len <= input.Length && at + len <= output.Length
    modifies output
    ensures Part(output[..], 0, at + len) ==
      old(Part(output[..], 0, at)) + ctx(sector, old(Part(input[..], at, at + len)))
    ensures forall k :: at + len <= k < output.Length ==> output[k] == old(output[k])
    ensures forall k :: at + len <= k < input.Length ==> input[k] == old(input[k])
  {
    PartEach(input[..], at, at + len);
    assert input[at..at + len] == Part(input[..], at, at + len);
    var r := ctx(sector, input[at..at + len]);
    ghost var before := output[..];
    forall k | 0 <= k < len {
      output[at + k] := r[k];
    }
    PartWritten(before, output[..], at, r);
  }

  // The same call on the whole of the device's own buffer.
  method CryptBuffer(ctx: UnitOp, sector: nat, buf: array<bv8>)
    requires LengthPreserving(ctx)
    modifies buf
    ensures buf[..] == ctx(sector, old(buf[..]))
  {
    ghost var before := buf[..];
    Parted(before, buf.Length);
    CryptXts(ctx, sector, buf, buf, 0, buf.Length);
    Parted(buf[..], buf.Length);
    assert [] + ctx(sector, before) == ctx(sector, before);
  }

  // Pads n bytes of src in buf and processes them there, so that buf begins with the partial sector's map.
  method CryptPadded(ctx: UnitOp, sector: nat, src: array<bv8>, at: nat, n: nat, buf: array<bv8>)
    requires LengthPreserving(ctx) && at + n <= src.Length && n < buf.Length && src != buf
    modifies buf
    ensures Part(buf[..], 0, n) == Sector(ctx, buf.Length)(sector, old(Part(src[..], at, at + n)))
  {
    ghost var rest := Part(src[..], at, at + n);
    PadInto(src, at, n, buf);
    CryptBuffer(ctx, sector, buf);
    PartialSector(ctx, buf.Length, sector, rest);
  }

  lemma PartialSector(ctx: UnitOp, size: nat, sector: nat, x: seq<bv8>)
    requires LengthPreserving(ctx) && |x| < size
    ensures Sector(ctx, size)(sector, x) == Front(ctx(sector, x + Zeros(size - |x|)), |x|)
  {
  }

  class EncdecDevice {
    const enc: UnitOp
    const dec: UnitOp
    const sectorSize: nat
    const sectorBuf: array<bv8>

    ghost predicate Valid()
      reads this
    {
      sectorSize > 0 && sectorBuf.Length == sectorSize && LengthPreserving(enc) && LengthPreserving(dec)
    }

    constructor (f: Tweaked, g: Tweaked, sectorSize: nat)
      requires sectorSize > 0
      ensures Valid() && fresh(sectorBuf)
      ensures enc == Xts(f) && dec == Xts(g) && this.sectorSize == sectorSize
    {
      this.enc := Xts(f);
      this.dec := Xts(g);
      this.sectorSize := sectorSize;
      sectorBuf := new bv8[sectorSize](_ => 0);
    }

    /** Writes dataSize bytes, in place or not, and returns the number of the sector after the last full one. */
    method Process(input: array<bv8>, output: array<bv8>, startSector: nat, dataSize: nat, encrypt: bool)
      returns (endSector: nat)
      requires Valid() && dataSize <= input.Length && dataSize <= output.Length
      requires sectorBuf != input && sectorBuf != output
      modifies output, sectorBuf
      ensures endSector == startSector + FullSectors(dataSize, sectorSize)
      ensures output[..dataSize] ==
        Device(if encrypt then enc else dec, sectorSize, startSector, old(input[..dataSize]))
      ensures forall k :: dataSize <= k < output.Length ==> output[k] == old(output[k])
    {
      var ctx := if encrypt then enc else dec;
      ghost var op := Sector(ctx, sectorSize);
      endSector := startSector + FullSectors(dataSize, sectorSize);
      ghost var written := output[..];
      PrefixIsPart(input[..], dataSize);
      FullSectorsFit(dataSize, sectorSize);
      var cur := ProcessFull(ctx, input, output, startSector, endSector, dataSize, sectorSize, op);
      if cur != dataSize {
        ProcessPartial(ctx, input, output, endSector, cur, dataSize - cur);
      }
      PrefixIsPart(output[..], dataSize);
      PartUnchanged(written, output[..], dataSize);
    }

    // The partial last sector, padded with zeros in the device's own buffer.
    method ProcessPartial(ctx: UnitOp, input: array<bv8>, output: array<bv8>, sector: nat, cur: nat, left: nat)
      requires Valid() && LengthPreserving(ctx)
      requires 0 < left < sectorSize && cur + left <= input.Length && cur + left <= output.Length
      requires sectorBuf != input && sectorBuf != output
      modifies output, sectorBuf
      ensures Part(output[..], 0, cur + left) ==
        old(Part(output[..], 0, cur)) + Sector(ctx, sectorSize)(sector, old(Part(input[..], cur, cur + left)))
      ensures Part(output[..], cur + left, output.Length) == old(Part(output[..], cur + left, output.Length))
    {
      ghost var written := output[..];
      CryptPadded(ctx, sector, input, cur, left, sectorBuf);
      assert output[..] == written;
      CopyInto(sectorBuf, output, cur, left);
      PartSame(written, output[..], cur + left, output.Length);
    }
  }
}
