/**
  The Controller Pak's backing store: four 32 KiB images, loaded from their files on first
  touch, formatted when there is no usable file, written back by flush.

  Each operation is a method over the store's fields, proved against a function on `Store`;
  the functions are then proved to implement two images a port: the live one, which reads
  see, and the saved one, which a restart brings back.
 */
module ControllerPak {
  import opened Bytes
  import opened Wrappers

  const PAK_SIZE := 0x8000
  const BLOCK_SIZE := 32
  const BLOCK_COUNT := 0x400
  const PORTS := 4

  type Image = s: seq<byte> | |s| == PAK_SIZE witness seq(PAK_SIZE, _ => 0)

  // ----- The formatted-empty image -----

  /** The ID block: device id and bank count, then their sum and the sum of complements. */
  function IdByte(o: nat): byte {
    if o == 0x19 || o == 0x1A || o == 0x1C || o == 0x1D then 1
    else if o == 0x1E then 0xFE else if o == 0x1F then 0xF1 else 0
  }

  /** The inode page: every data page free, and the checksum in the low byte of entry 0. */
  function InodeByte(o: nat): byte {
    if o == 1 then 0x71 else if o >= 10 && o % 2 == 1 then 3 else 0
  }

  function EmptyByte(k: nat): byte {
    if k < 256 then
      if k / 32 == 1 || k / 32 == 3 || k / 32 == 4 || k / 32 == 6 then IdByte(k % 32) else 0
    else if k < 512 then InodeByte(k - 256)
    else if k < 768 then InodeByte(k - 512)
    else 0
  }

  function EmptyImage(): Image { seq(PAK_SIZE, k requires 0 <= k < PAK_SIZE => EmptyByte(k)) }

  function Halfword(s: seq<byte>, i: nat): (h: nat)
    requires 2 * i + 2 <= |s|
    ensures h < 0x1_0000
  {
    (s[2 * i] as int) * 0x100 + s[2 * i + 1] as int
  }

  /** The first `n` halfwords of an ID block summed modulo 2^16, complemented first if asked. */
  function IdSum(id: seq<byte>, n: nat, inverted: bool): nat
    requires 2 * n <= |id|
  {
    if n == 0 then 0 else
    var h := Halfword(id, n - 1);
    (IdSum(id, n - 1, inverted) + if inverted then 0xFFFF - h else h) % 0x1_0000
  }

  /** What the game's filesystem demands of an ID block: both checksums over its first 28 bytes. */
  predicate IdVerifies(id: seq<byte>)
    requires |id| == 32
  {
    Halfword(id, 14) == IdSum(id, 14, false) && Halfword(id, 15) == IdSum(id, 14, true)
  }

  function ByteSum(s: seq<byte>): nat {
    if s == [] then 0 else (ByteSum(s[..|s| - 1]) + s[|s| - 1]) % 0x1_0000
  }

  lemma OneMoreHalfword(id: seq<byte>, n: nat, halfword: nat)
    requires 2 * n + 2 <= |id| && halfword == (id[2 * n] as int) * 0x100 + id[2 * n + 1] as int
    ensures halfword <= 0xFFFF
    ensures IdSum(id, n + 1, false) == (IdSum(id, n, false) + halfword) % 0x1_0000
    ensures IdSum(id, n + 1, true) == (IdSum(id, n, true) + (0xFFFF - halfword)) % 0x1_0000
  {
    assert Halfword(id, n) == halfword;
  }

  /** The two checksums over the first 28 bytes, as big-endian halfwords. */
  method IdChecksums(id: array<byte>) returns (checksum: nat, inverted: nat)
    requires id.Length == 32
    ensures checksum == IdSum(id[..], 14, false) && inverted == IdSum(id[..], 14, true)
  {
    checksum, inverted := 0, 0;
    var i := 0;
    ghost var n: nat := 0;
    while i < 0x1C
      invariant i == 2 * n <= 0x1C
      invariant checksum == IdSum(id[..], n, false)
      invariant inverted == IdSum(id[..], n, true)
    {
      var halfword := (id[i] as int) * 0x100 + id[i + 1] as int;
      OneMoreHalfword(id[..], n, halfword);
      hide IdSum;
      checksum := (checksum + halfword) % 0x1_0000;
      inverted := (inverted + (0xFFFF - halfword)) % 0x1_0000;
      i := i + 2;
      n := n + 1;
    }
  }

  lemma {:induction false} IdSums(id: seq<byte>, n: nat)
    requires |id| == 32 && n <= 14 && forall o :: 0 <= o < 28 ==> id[o] == if o == 0x19 || o == 0x1A then 1 else 0
    ensures IdSum(id, n, false) == if n <= 12 then 0 else if n == 13 then 1 else 0x101
    ensures IdSum(id, n, true) == if n == 0 then 0 else if n <= 12 then 0x1_0000 - n else if n == 13 then 0xFFF2 else 0xFEF1
  {
    if n > 0 {
      IdSums(id, n - 1);
      assert Halfword(id, n - 1) == if n == 13 then 1 else if n == 14 then 0x100 else 0;
    }
  }

  method BuildId() returns (id: array<byte>)
    ensures fresh(id) && id.Length == 32
    ensures forall o :: 0 <= o < 32 ==> id[o] == IdByte(o)
  {
    id := new byte[32](_ => 0);
    id[0x18] := 0x00;
    id[0x19] := 0x01;
    id[0x1A] := 0x01;
    id[0x1B] := 0x00;
    var checksum, inverted := IdChecksums(id);
    IdSums(id[..], 14);
    id[0x1C] := checksum / 0x100;
    id[0x1D] := checksum % 0x100;
    id[0x1E] := inverted / 0x100;
    id[0x1F] := inverted % 0x100;
  }

  /** The 16-bit sum of `len` bytes of `p` from `from`. */
  method SumBytes(p: array<byte>, from: nat, len: nat) returns (sum: nat)
    requires from + len <= p.Length
    ensures sum == ByteSum(p[from..from + len])
  {
    sum := 0;
    for i := 0 to len
      invariant sum == ByteSum(p[from..from + i])
    {
      assert p[from..from + i + 1][..i] == p[from..from + i];
      sum := (sum + p[from + i]) % 0x1_0000;
    }
  }

  /** 123 free entries sum to 0x171. */
  lemma {:induction false} FreeEntriesSum(s: seq<byte>)
    requires |s| <= 246 && forall i :: 0 <= i < |s| ==> s[i] == if i % 2 == 1 then 3 else 0
    ensures ByteSum(s) == 3 * (|s| / 2)
  {
    if s != [] {
      FreeEntriesSum(s[..|s| - 1]);
    }
  }

  method BuildInode() returns (inode: array<byte>)
    ensures fresh(inode) && inode.Length == 256
    ensures forall o :: 0 <= o < 256 ==> inode[o] == InodeByte(o)
  {
    inode := new byte[256](_ => 0);
    for page := 5 to 128
      invariant forall o :: 0 <= o < 256 ==> inode[o] == if 10 <= o < 2 * page && o % 2 == 1 then 3 else 0
    {
      inode[page * 2] := 0x00;
      inode[page * 2 + 1] := 0x03;
    }
    FreeEntriesSum(inode[10..256]);
    var sum := SumBytes(inode, 5 * 2, (128 - 5) * 2);
    inode[0] := 0x00;
    inode[1] := sum % 0x100;
  }

  /** memcpy: `part` over `m` at `at`. */
  function Overwritten(m: seq<byte>, at: nat, part: seq<byte>): (r: seq<byte>)
    requires at + |part| <= |m|
    ensures |r| == |m|
    ensures forall k :: 0 <= k < |m| ==> r[k] == if at <= k < at + |part| then part[k - at] else m[k]
  {
    m[..at] + part + m[at + |part|..]
  }

  /** Byte `k` lies in one of the first `i` copies of the ID block. */
  predicate IdCopied(k: nat, i: nat) {
    (i > 0 && k / 32 == 1) || (i > 1 && k / 32 == 3) || (i > 2 && k / 32 == 4) || (i > 3 && k / 32 == 6)
  }

  /** The image of a freshly initialised pak, built area by area. */
  method FormatEmpty() returns (m: Image)
    ensures m == EmptyImage()
  {
    m := seq(PAK_SIZE, _ => 0);
    var id := BuildId();
    var blocks := [1, 3, 4, 6];
    for i := 0 to 4
      invariant forall k :: 0 <= k < PAK_SIZE ==> m[k] == if IdCopied(k, i) then IdByte(k % 32) else 0
    {
      m := Overwritten(m, blocks[i] * 32, id[..]);
    }
    var inode := BuildInode();
    m := Overwritten(m, 1 * 256, inode[..]);
    m := Overwritten(m, 2 * 256, inode[..]);
  }

  lemma GoodId(id: seq<byte>)
    requires |id| == 32 && forall o :: 0 <= o < 32 ==> id[o] == IdByte(o)
    ensures IdVerifies(id)
  {
    IdSums(id, 14);
    hide IdSum;
    assert Halfword(id, 14) == 0x101 && Halfword(id, 15) == 0xFEF1;
  }

  /**
    The bytes of the image that are not zero, all of them: in each copy of the ID block the device id
    with its valid bit, the bank count, the sum and the inverted sum, and in the two inode pages the
    checksum and a free mark for every data page.
   */
  lemma EmptyImageByBytes(k: nat)
    requires k < PAK_SIZE
    ensures EmptyImage()[k]
         == if 0x20 <= k < 0x40 || 0x60 <= k < 0xA0 || 0xC0 <= k < 0xE0 then
              (if k % 32 == 0x19 || k % 32 == 0x1A then 1
               else if k % 32 == 0x1C || k % 32 == 0x1D then 0x01
               else if k % 32 == 0x1E then 0xFE else if k % 32 == 0x1F then 0xF1 else 0)
            else if k == 0x101 || k == 0x201 then 0x71
            else if 0x10A <= k < 0x200 || 0x20A <= k < 0x300 then (if k % 2 == 1 then 3 else 0)
            else 0
  {
  }

  lemma EmptyIdVerifies(b: nat)
    requires b in {1, 3, 4, 6}
    ensures IdVerifies(EmptyImage()[b * 32..b * 32 + 32])
    ensures EmptyImage()[b * 32 + 0x19] % 2 == 1 && EmptyImage()[b * 32 + 0x1A] == 1
  {
    EmptyImageByBytes(b * 32 + 0x19);
    EmptyImageByBytes(b * 32 + 0x1A);
    var id := EmptyImage()[b * 32..b * 32 + 32];
    forall o | 0 <= o < 32 ensures id[o] == IdByte(o) {
      assert (b * 32 + o) / 32 == b && (b * 32 + o) % 32 == o;
    }
    hide EmptyImage, EmptyByte;
    GoodId(id);
  }

  /**
    The image is what the game's filesystem accepts: every copy of the ID block passes both
    checksums, the inode page agrees with its checksum and its backup, every data page is
    free, and no note exists.
   */
  lemma EmptyImageIsFormatted()
    ensures var m := EmptyImage();
            && (forall b :: b in {1, 3, 4, 6} ==>
                              IdVerifies(m[b * 32..b * 32 + 32]) && m[b * 32 + 0x19] % 2 == 1 && m[b * 32 + 0x1A] == 1)
            && m[256..512] == m[512..768]
            && m[257] as int == ByteSum(m[266..512]) % 0x100
            && (forall page :: 5 <= page < 128 ==> Halfword(m[256..512], page) == 3)
            && forall k :: 768 <= k < PAK_SIZE ==> m[k] == 0
  {
    var m := EmptyImage();
    forall b | b in {1, 3, 4, 6}
      ensures IdVerifies(m[b * 32..b * 32 + 32]) && m[b * 32 + 0x19] % 2 == 1 && m[b * 32 + 0x1A] == 1
    {
      hide *;
      EmptyIdVerifies(b);
    }
    assert forall k :: 0 <= k < 256 ==> m[256..512][k] == InodeByte(k) == m[512..768][k];
    FreeEntriesSum(m[266..512]);
    assert ByteSum(m[266..512]) == 369;
  }

  // ----- The store as a value -----

  /** The module's globals, and the files they are loaded from, one a port. */
  datatype Store = Store(dir: bool, files: map<nat, seq<byte>>, pak: seq<seq<byte>>, loaded: seq<bool>,
                         dirty: seq<bool>)
  {
    predicate Shaped() {
      && |pak| == |loaded| == |dirty| == PORTS
      && forall p :: 0 <= p < PORTS && loaded[p] ==> |pak[p]| == PAK_SIZE
    }
  }

  /** What a file is worth: its first 32 KiB, or a fresh pak when it is missing or too short. */
  function FileImage(files: map<nat, seq<byte>>, p: nat): Image {
    if p in files && |files[p]| >= PAK_SIZE then files[p][..PAK_SIZE] else EmptyImage()
  }

  /** First touch of a port; `writable` says whether its file could be opened for writing. */
  function Touched(s: Store, p: nat, writable: bool): (t: Store)
    requires s.Shaped() && p < PORTS
    ensures t.Shaped() && t.loaded[p]
  {
    if s.loaded[p] then s else
    var usable := s.dir && p in s.files && |s.files[p]| >= PAK_SIZE;
    var image := if s.dir then FileImage(s.files, p) else EmptyImage();
    Store(s.dir, if s.dir && !usable && writable then s.files[p := image] else s.files,
          s.pak[p := image], s.loaded[p := true], s.dirty[p := false])
  }

  predicate InRange(port: int, block: int) { 0 <= port < PORTS && 0 <= block < BLOCK_COUNT }

  function BlockOf(image: Image, block: nat): (b: seq<byte>)
    requires block < BLOCK_COUNT
    ensures |b| == BLOCK_SIZE
  {
    image[block * BLOCK_SIZE..block * BLOCK_SIZE + BLOCK_SIZE]
  }

  function AfterRead(s: Store, port: int, block: int, writable: bool): (t: Store)
    requires s.Shaped()
    ensures t.Shaped()
  {
    if InRange(port, block) then Touched(s, port, writable) else s
  }

  function AfterWrite(s: Store, port: int, block: int, data: seq<byte>, writable: bool): (t: Store)
    requires s.Shaped() && |data| == BLOCK_SIZE
    ensures t.Shaped()
  {
    if !InRange(port, block) then s else
    var t := Touched(s, port, writable);
    if BlockOf(t.pak[port], block) == data then t
    else t.(pak := t.pak[port := Overwritten(t.pak[port], block * BLOCK_SIZE, data)], dirty := t.dirty[port := true])
  }

  /** The first `n` ports flushed; `writable` holds the ports whose files could be opened. */
  function AfterFlush(s: Store, writable: set<nat>, n: nat): (t: Store)
    requires s.Shaped() && n <= PORTS
    ensures t.Shaped() && t.loaded == s.loaded && t.pak == s.pak && t.dir == s.dir
  {
    if n == 0 || !s.dir then s else
    var t := AfterFlush(s, writable, n - 1);
    if t.loaded[n - 1] && t.dirty[n - 1] && n - 1 in writable
    then t.(files := t.files[n - 1 := t.pak[n - 1]], dirty := t.dirty[n - 1 := false])
    else t
  }

  /** A new process over the same directory. */
  function Restarted(s: Store): (t: Store)
    ensures t.Shaped()
  {
    Store(s.dir, s.files, [[], [], [], []], [false, false, false, false], [false, false, false, false])
  }

  // ----- The store in place -----

  class PakStore {
    var dir: bool
    var files: map<nat, seq<byte>>
    var pak: seq<seq<byte>>
    var loaded: seq<bool>
    var dirty: seq<bool>

    function State(): Store reads this { Store(dir, files, pak, loaded, dirty) }

    predicate Valid() reads this { State().Shaped() }

    constructor (directory: bool, onDisk: map<nat, seq<byte>>)
      ensures Valid() && State() == Restarted(Store(directory, onDisk, [], [], []))
    {
      dir, files := directory, onDisk;
      pak := [[], [], [], []];
      loaded, dirty := [false, false, false, false], [false, false, false, false];
    }

    method EnsureLoaded(port: nat, writable: bool)
      requires Valid() && port < PORTS
      modifies this
      ensures Valid() && State() == Touched(old(State()), port, writable)
    {
      if loaded[port] {
        return;
      }
      var readFromDisk := false;
      if dir && port in files {
        var read := files[port];
        if |read| >= PAK_SIZE {
          pak := pak[port := read[..PAK_SIZE]];
          readFromDisk := true;
        }
      }
      if !readFromDisk {
        var image := FormatEmpty();
        pak := pak[port := image];
        if dir && writable {
          files := files[port := image];
        }
      }
      loaded := loaded[port := true];
      dirty := dirty[port := false];
    }

    method ReadBlock(port: int, block: int, writable: bool) returns (out: Option<seq<byte>>)
      requires Valid()
      modifies this
      ensures Valid() && State() == AfterRead(old(State()), port, block, writable)
      ensures out == if InRange(port, block) then Some(BlockOf(pak[port], block)) else None
    {
      if port < 0 || port >= PORTS || block < 0 || block >= BLOCK_COUNT {
        return None;
      }
      EnsureLoaded(port, writable);
      out := Some(pak[port][block * BLOCK_SIZE..block * BLOCK_SIZE + BLOCK_SIZE]);
    }

    method WriteBlock(port: int, block: int, data: seq<byte>, writable: bool) returns (ok: bool)
      requires Valid() && |data| == BLOCK_SIZE
      modifies this
      ensures Valid() && State() == AfterWrite(old(State()), port, block, data, writable)
      ensures ok == InRange(port, block)
    {
      if port < 0 || port >= PORTS || block < 0 || block >= BLOCK_COUNT {
        return false;
      }
      EnsureLoaded(port, writable);
      if pak[port][block * BLOCK_SIZE..block * BLOCK_SIZE + BLOCK_SIZE] != data {
        pak := pak[port := Overwritten(pak[port], block * BLOCK_SIZE, data)];
        dirty := dirty[port := true];
      }
      ok := true;
    }

    method Flush(writable: set<nat>)
      requires Valid()
      modifies this
      ensures Valid() && State() == AfterFlush(old(State()), writable, PORTS)
    {
      if !dir {
        return;
      }
      for port := 0 to PORTS
        invariant Valid() && State() == AfterFlush(old(State()), writable, port)
      {
        if loaded[port] && dirty[port] && port in writable {
          files := files[port := pak[port]];
          dirty := dirty[port := false];
        }
      }
    }
  }

  // ----- What the store promises -----

  /** What reads of port `p` see. */
  function Live(s: Store, p: nat): Image
    requires s.Shaped() && p < PORTS
  {
    if s.loaded[p] then s.pak[p] else if s.dir then FileImage(s.files, p) else EmptyImage()
  }

  /** What a restart would bring back. */
  function Saved(s: Store, p: nat): Image { FileImage(s.files, p) }

  /** The directory was set before first use, and a loaded port with nothing unsaved matches its file. */
  predicate Sound(s: Store) {
    s.Shaped() && s.dir
    && forall p :: 0 <= p < PORTS && s.loaded[p] && !s.dirty[p] ==> Saved(s, p) == s.pak[p]
  }

  /** A loaded port with nothing unsaved equals its whole file exactly when the file is no longer than a pak. */
  lemma FileIsPakIff(s: Store, p: nat)
    requires Sound(s) && p < PORTS && s.loaded[p] && !s.dirty[p] && p in s.files
    ensures s.files[p] == s.pak[p] <==> |s.files[p]| == PAK_SIZE
  {
    hide EmptyImage;
    assert Saved(s, p) == s.pak[p];
  }

  /** Reading is invisible, loading and creating files included. */
  lemma ReadChangesNothing(s: Store, port: int, block: int, writable: bool, p: nat)
    requires Sound(s) && p < PORTS
    ensures var t := AfterRead(s, port, block, writable);
            Sound(t) && Live(t, p) == Live(s, p) && Saved(t, p) == Saved(s, p)
  {
    hide EmptyImage;
  }

  /** Writing changes one block of one live image, and nothing that is saved. */
  lemma WriteChangesOneBlock(s: Store, port: int, block: int, data: seq<byte>, writable: bool, p: nat)
    requires Sound(s) && |data| == BLOCK_SIZE && p < PORTS
    ensures var t := AfterWrite(s, port, block, data, writable);
            && Sound(t) && Saved(t, p) == Saved(s, p)
            && Live(t, p) == if InRange(port, block) && p == port then Overwritten(Live(s, p), block * BLOCK_SIZE, data)
                             else Live(s, p)
  {
    ReadChangesNothing(s, port, block, writable, p);
    hide EmptyImage;
    if InRange(port, block) {
      var t := Touched(s, port, writable);
      if BlockOf(t.pak[port], block) == data {
        assert Overwritten(t.pak[port], block * BLOCK_SIZE, data) == t.pak[port];
      }
    }
  }

  /** Flushing saves the live image of every port whose file could be opened, and changes nothing else. */
  lemma {:induction false} FlushSaves(s: Store, writable: set<nat>, n: nat, p: nat)
    requires Sound(s) && n <= PORTS && p < PORTS
    ensures var t := AfterFlush(s, writable, n);
            && Sound(t) && Live(t, p) == Live(s, p)
            && Saved(t, p) == if p < n && p in writable then Live(s, p) else Saved(s, p)
  {
    hide EmptyImage;
    if n > 0 {
      FlushSaves(s, writable, n - 1, p);
    }
  }

  /** A restart loses exactly what was not saved. */
  lemma RestartForgets(s: Store, p: nat)
    requires Sound(s) && p < PORTS
    ensures Sound(Restarted(s)) && Live(Restarted(s), p) == Saved(s, p) == Saved(Restarted(s), p)
  {
    hide EmptyImage;
  }

  // ----- The same, byte by byte and file by file -----

  /** A file of at least 32 KiB is worth its first bytes as they are, and any other a fresh pak. */
  lemma SavedByBytes(s: Store, p: nat, k: nat)
    requires k < 0x8000
    ensures Saved(s, p)[k] == if p in s.files && |s.files[p]| >= 0x8000 then s.files[p][k] else EmptyImage()[k]
  {
    hide EmptyImage;
  }

  /** Loading touches no file that is long enough, and makes of any other, if it can, one pak of its port's image. */
  lemma TouchedFiles(s: Store, port: nat, writable: bool)
    requires Sound(s) && port < PORTS
    ensures var t := Touched(s, port, writable);
            t.files == if !s.loaded[port] && writable && !(port in s.files && |s.files[port]| >= 0x8000)
            then s.files[port := Live(s, port)] else s.files
  {
    hide EmptyImage;
  }

  /** A write puts its 32 bytes at 32 times the block number, and nothing anywhere else. */
  lemma WriteByBytes(s: Store, port: int, block: int, data: seq<byte>, writable: bool, p: nat, k: nat)
    requires Sound(s) && |data| == BLOCK_SIZE && p < PORTS && k < 0x8000
    ensures Live(AfterWrite(s, port, block, data, writable), p)[k]
         == if p == port && 0 <= block < 0x400 && 32 * block <= k < 32 * block + 32 then data[k - 32 * block] else Live(s, p)[k]
  {
    hide EmptyImage;
    WriteChangesOneBlock(s, port, block, data, writable, p);
  }

  /** A write leaves the port dirty if it was, or if some byte of the block was not what is written. */
  lemma WriteMarksDirty(s: Store, port: nat, block: nat, data: seq<byte>, writable: bool)
    requires Sound(s) && |data| == BLOCK_SIZE && InRange(port, block)
    ensures AfterWrite(s, port, block, data, writable).dirty[port]
       <==> (s.loaded[port] && s.dirty[port]) || exists k :: 0 <= k < 32 && Live(s, port)[32 * block + k] != data[k]
  {
    hide EmptyImage;
    var held := BlockOf(Live(s, port), block);
    assert forall k :: 0 <= k < 32 ==> held[k] == Live(s, port)[32 * block + k];
    assert held == data <==> forall k :: 0 <= k < 32 ==> held[k] == data[k];
  }

  /** A flush writes the whole image of each loaded dirty port whose file opens, and no other file. */
  lemma {:induction false} FlushedFiles(s: Store, writable: set<nat>, n: nat, p: nat)
    requires s.Shaped() && s.dir && n <= PORTS
    ensures var t := AfterFlush(s, writable, n);
            var saves := p < n && s.loaded[p] && s.dirty[p] && p in writable;
            && (p in t.files <==> saves || p in s.files)
            && (p in t.files ==> t.files[p] == if saves then s.pak[p] else s.files[p])
            && (p < PORTS ==> (t.dirty[p] <==> s.dirty[p] && !saves))
  {
    if n > 0 {
      FlushedFiles(s, writable, n - 1, p);
      FlushedFiles(s, writable, n - 1, n - 1);
    }
  }

  /** A block of an image after one block of it has been overwritten. */
  lemma BlockOfOverwritten(image: Image, b: nat, data: seq<byte>, c: nat)
    requires b < BLOCK_COUNT && c < BLOCK_COUNT && |data| == BLOCK_SIZE
    ensures BlockOf(Overwritten(image, b * BLOCK_SIZE, data), c) == if c == b then data else BlockOf(image, c)
  {
    hide EmptyImage;
    var after := Overwritten(image, b * BLOCK_SIZE, data);
    forall k | 0 <= k < BLOCK_SIZE
      ensures after[c * BLOCK_SIZE + k] == if c == b then data[k] else image[c * BLOCK_SIZE + k]
    {
    }
    if c == b {
      assert BlockOf(after, c) == data;
    } else {
      assert BlockOf(after, c) == BlockOf(image, c);
    }
  }
}
