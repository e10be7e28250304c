/**
  The on-disk format of eofs (version 1): block pointers, object references and
  uberblocks, their fixed layouts, and the classification of an uberblock slot.
*/
module Format {
  import opened Bytes

  const BLOCK_PTR_SIZE: nat := 56
  const OBJ_REF_SIZE: nat := 72
  const SLOT_SIZE: nat := 4096
  const MAX_META_OBJECT_SIZE: nat := 0x100_0000
  const DATA_START: nat := 2 * SLOT_SIZE
  const FORMAT_VERSION: u32 := 1
  const UBERBLOCK_BODY_SIZE: nat := 192
  const UBERBLOCK_SIZE: nat := UBERBLOCK_BODY_SIZE + 32

  /** The magic is the ASCII text EOFS-UB followed by a zero byte. */
  const MAGIC: seq<byte> := [0x45, 0x4F, 0x46, 0x53, 0x2D, 0x55, 0x42, 0]

  datatype DeviceError = OutOfRange | Io

  /** Which structural check failed; one constructor for each message of the source. */
  datatype Flaw =
    | NullPointer
    | ImpossibleSizes
    | OutsideDataRegion
    | RawSizesDiffer
    | DecompressedSize
    | EmptyWithRoot
    | MissingRoot
    | LargerThanDevice
    | WrongLevel
    | LeafCountMismatch
    | TooManyLeaves
    | MalformedIndirect
    | DataBlockSize
    | UnknownCodec
    | UnknownKind
    | UnsupportedVersion
    | ZeroAllocation
    | TruncatedEntry
    | TruncatedName
    | NameNotUtf8
    | NoUberblock
    | BadBlockSize
    | BadAllocUnit
    | DeviceTooSmall
    | SmallerThanFilesystem
    | MetadataTooLarge
    | NotATree

  datatype FsError =
    | Device(err: DeviceError)
    | NoSpace
    | ChecksumMismatch
    | Corrupt(flaw: Flaw)
    | InvalidConfig(what: string)

  datatype Result<+T> = Ok(value: T) | Err(error: FsError) {
    predicate IsFailure() {
      Err?
    }

    function PropagateFailure<U>(): Result<U>
      requires Err?
    {
      Err(error)
    }

    function Extract(): T
      requires Ok?
    {
      value
    }
  }

  type Digest = d: seq<byte> | |d| == 32 witness Zeros(32)

  datatype Codec = Raw | Lz4 {
    function ToTag(): byte {
      match this
      case Raw => 0
      case Lz4 => 1
    }

    static function FromTag(tag: byte): Result<Codec> {
      if tag == 0 then Ok(Raw) else if tag == 1 then Ok(Lz4) else Err(Corrupt(UnknownCodec))
    }
  }

  /** Where one stored block lives, how long it is before and after compression, and the
      hash of its logical bytes. */
  datatype BlockPtr = BlockPtr(addr: u64, lsize: u32, psize: u32, codec: Codec, hash: Digest) {
    predicate IsNull() {
      addr == 0
    }

    /** The 56 stored bytes. */
    function Encoded(): (bytes: seq<byte>)
      ensures |bytes| == BLOCK_PTR_SIZE
    {
      Le(addr, 8) + Le(lsize, 4) + Le(psize, 4) + [codec.ToTag()] + Zeros(7) + hash
    }

    static function ReadFrom(bytes: seq<byte>): Result<BlockPtr>
      requires |bytes| == BLOCK_PTR_SIZE
    {
      var codec :- Codec.FromTag(bytes[16]);
      Ok(BlockPtr(ReadU64(bytes[0..8]), ReadU32(bytes[8..12]), ReadU32(bytes[12..16]),
                  codec, bytes[24..56]))
    }

    /** Field by field into a caller's buffer, as the source fills its slice. */
    method WriteTo(out: array<byte>, at: nat)
      requires at + BLOCK_PTR_SIZE <= out.Length
      modifies out
      ensures out[..] == Patch(old(out[..]), at, Encoded())
    {
      ghost var was := out[..];
      ghost var e1 := Le(addr, 8);
      ghost var e2 := e1 + Le(lsize, 4);
      ghost var e3 := e2 + Le(psize, 4);
      ghost var e4 := e3 + [codec.ToTag()];
      ghost var e5 := e4 + Zeros(7);
      Put(out, at, Le(addr, 8));
      PatchJoin(was, at, e1, Le(lsize, 4));
      Put(out, at + 8, Le(lsize, 4));
      PatchJoin(was, at, e2, Le(psize, 4));
      Put(out, at + 12, Le(psize, 4));
      PatchJoin(was, at, e3, [codec.ToTag()]);
      Put(out, at + 16, [codec.ToTag()]);
      PatchJoin(was, at, e4, Zeros(7));
      Put(out, at + 17, Zeros(7));
      PatchJoin(was, at, e5, hash);
      Put(out, at + 24, hash);
    }
  }

  const NULL_PTR := BlockPtr(0, 0, 0, Raw, Zeros(32))

  lemma PtrRoundTrip(p: BlockPtr)
    ensures BlockPtr.ReadFrom(p.Encoded()) == Ok(p)
  {
    var bytes := p.Encoded();
    assert bytes[0..8] == Le(p.addr, 8);
    assert bytes[8..12] == Le(p.lsize, 4);
    assert bytes[12..16] == Le(p.psize, 4);
    assert bytes[24..56] == p.hash;
    ReadBack64(p.addr);
    ReadBack32(p.lsize);
    ReadBack32(p.psize);
  }

  /** A byte object: its length, the number of indirect levels, and the root of its tree. */
  datatype ObjRef = ObjRef(size: u64, level: u8, root: BlockPtr) {
    function Encoded(): (bytes: seq<byte>)
      ensures |bytes| == OBJ_REF_SIZE
    {
      Le(size, 8) + [level] + Zeros(7) + root.Encoded()
    }

    static function ReadFrom(bytes: seq<byte>): Result<ObjRef>
      requires |bytes| == OBJ_REF_SIZE
    {
      var root :- BlockPtr.ReadFrom(bytes[16..72]);
      Ok(ObjRef(ReadU64(bytes[0..8]), bytes[8], root))
    }

    method WriteTo(out: array<byte>, at: nat)
      requires at + OBJ_REF_SIZE <= out.Length
      modifies out
      ensures out[..] == Patch(old(out[..]), at, Encoded())
    {
      ghost var was := out[..];
      ghost var e1 := Le(size, 8);
      ghost var e2 := e1 + [level];
      ghost var e3 := e2 + Zeros(7);
      Put(out, at, Le(size, 8));
      PatchJoin(was, at, e1, [level]);
      Put(out, at + 8, [level]);
      PatchJoin(was, at, e2, Zeros(7));
      Put(out, at + 9, Zeros(7));
      PatchJoin(was, at, e3, root.Encoded());
      root.WriteTo(out, at + 16);
    }
  }

  const EMPTY_OBJ := ObjRef(0, 0, NULL_PTR)

  lemma ObjRoundTrip(o: ObjRef)
    ensures ObjRef.ReadFrom(o.Encoded()) == Ok(o)
  {
    var bytes := o.Encoded();
    assert bytes[0..8] == Le(o.size, 8);
    assert bytes[16..72] == o.root.Encoded();
    ReadBack64(o.size);
    PtrRoundTrip(o.root);
  }

  // ----- uberblocks -----

  /** blake3 and lz4, known only through their interface: a 32-byte digest, and a codec
      that undoes itself and never compresses to nothing. */
  datatype Primitives = Primitives(
    blake3: seq<byte> -> Digest,
    compress: seq<byte> -> seq<byte>,
    decompress: (seq<byte>, nat) -> Option<seq<byte>>)
  {
    ghost predicate Lawful() {
      forall x {:trigger compress(x)} :: x != [] ==>
        compress(x) != [] && decompress(compress(x), |x|) == Some(x)
    }
  }

  datatype SlotState = NoMagic | Invalid | Valid(ub: Uberblock)

  datatype Uberblock = Uberblock(
    blockSize: u32,
    allocUnit: u32,
    codec: Codec,
    txg: u64,
    frontier: u64,
    deviceSize: u64,
    liveRoot: ObjRef,
    snapshots: ObjRef)
  {
    /** The first 48 bytes: everything before the two object references. */
    function Head(): (bytes: seq<byte>)
      ensures |bytes| == 48
    {
      Identity() + Zeros(3) + Counters()
    }

    /** The checksummed part. */
    function Body(): (bytes: seq<byte>)
      ensures |bytes| == UBERBLOCK_BODY_SIZE
    {
      Head() + liveRoot.Encoded() + snapshots.Encoded()
    }

    function SlotBytes(p: Primitives): (slot: seq<byte>)
      ensures |slot| == SLOT_SIZE
    {
      Body() + p.blake3(Body()) + Zeros(SLOT_SIZE - UBERBLOCK_SIZE)
    }

    /** Serialize into a full zero-padded slot, one field after the other. */
    method ToSlotBytes(p: Primitives) returns (slot: array<byte>)
      ensures fresh(slot) && slot[..] == SlotBytes(p)
    {
      slot := new byte[SLOT_SIZE](_ => 0);
      FillIdentity(slot);
      FillCounters(slot);
      assert slot[..] == Head() + Zeros(4048) by {
        var z := Zeros(4096);
        assert Patch(z, 0, Identity()) == Identity() + Zeros(4075);
        assert Patch(Identity() + Zeros(4075), 24, Counters()) == Identity() + Zeros(3) + Counters() + Zeros(4048);
      }
      PatchTail(Head(), 4048, liveRoot.Encoded());
      liveRoot.WriteTo(slot, 48);
      PatchTail(Head() + liveRoot.Encoded(), 3976, snapshots.Encoded());
      snapshots.WriteTo(slot, 120);
      assert slot[..] == Body() + Zeros(3904);
      assert slot[0..UBERBLOCK_BODY_SIZE] == Body();
      var checksum := p.blake3(slot[0..UBERBLOCK_BODY_SIZE]);
      PatchTail(Body(), 3904, checksum);
      Put(slot, UBERBLOCK_BODY_SIZE, checksum);
    }

    /** Magic, version, sizes and codec: bytes 0 to 21. */
    function Identity(): (bytes: seq<byte>)
      ensures |bytes| == 21
    {
      MAGIC + Le(FORMAT_VERSION, 4) + Le(blockSize, 4) + Le(allocUnit, 4) + [codec.ToTag()]
    }

    /** Transaction, frontier and device size: bytes 24 to 48. */
    function Counters(): (bytes: seq<byte>)
      ensures |bytes| == 24
    {
      Le(txg, 8) + Le(frontier, 8) + Le(deviceSize, 8)
    }

    method FillIdentity(slot: array<byte>)
      requires slot.Length >= 21
      modifies slot
      ensures slot[..] == Patch(old(slot[..]), 0, Identity())
    {
      ghost var was := slot[..];
      ghost var h1 := MAGIC + Le(FORMAT_VERSION, 4);
      ghost var h2 := h1 + Le(blockSize, 4);
      ghost var h3 := h2 + Le(allocUnit, 4);
      Put(slot, 0, MAGIC);
      PatchJoin(was, 0, MAGIC, Le(FORMAT_VERSION, 4));
      Put(slot, 8, Le(FORMAT_VERSION, 4));
      PatchJoin(was, 0, h1, Le(blockSize, 4));
      Put(slot, 12, Le(blockSize, 4));
      PatchJoin(was, 0, h2, Le(allocUnit, 4));
      Put(slot, 16, Le(allocUnit, 4));
      PatchJoin(was, 0, h3, [codec.ToTag()]);
      Put(slot, 20, [codec.ToTag()]);
    }

    method FillCounters(slot: array<byte>)
      requires slot.Length >= 48
      modifies slot
      ensures slot[..] == Patch(old(slot[..]), 24, Counters())
    {
      ghost var was := slot[..];
      ghost var h1 := Le(txg, 8) + Le(frontier, 8);
      Put(slot, 24, Le(txg, 8));
      PatchJoin(was, 24, Le(txg, 8), Le(frontier, 8));
      Put(slot, 32, Le(frontier, 8));
      PatchJoin(was, 24, h1, Le(deviceSize, 8));
      Put(slot, 40, Le(deviceSize, 8));
    }

    /** Parse the body of a slot whose checksum matched. */
    static function Parse(slot: seq<byte>): Result<Uberblock>
      requires |slot| >= UBERBLOCK_BODY_SIZE
    {
      if ReadU32(slot[8..12]) != FORMAT_VERSION then
        Err(Corrupt(UnsupportedVersion))
      else
        var codec :- Codec.FromTag(slot[20]);
        var liveRoot :- ObjRef.ReadFrom(slot[48..120]);
        var snapshots :- ObjRef.ReadFrom(slot[120..192]);
        Ok(Uberblock(ReadU32(slot[12..16]), ReadU32(slot[16..20]), codec, ReadU64(slot[24..32]),
                     ReadU64(slot[32..40]), ReadU64(slot[40..48]), liveRoot, snapshots))
    }

    /** What a mount sees in a slot: no magic, the remains of an uberblock, or a valid one.
        An error is kept for a slot that checksums but makes no sense. */
    static function ClassifySlot(p: Primitives, slot: seq<byte>): Result<SlotState> {
      if |slot| < UBERBLOCK_SIZE || slot[0..8] != MAGIC then
        Ok(NoMagic)
      else if p.blake3(slot[0..UBERBLOCK_BODY_SIZE]) != slot[UBERBLOCK_BODY_SIZE..UBERBLOCK_SIZE] then
        Ok(Invalid)
      else
        var ub :- Parse(slot);
        Ok(Valid(ub))
    }
  }

  /** Parsing looks at the body only, and undoes `Body`. */
  lemma ParseBody(u: Uberblock, slot: seq<byte>)
    requires |slot| >= UBERBLOCK_BODY_SIZE && slot[0..UBERBLOCK_BODY_SIZE] == u.Body()
    ensures slot[0..8] == MAGIC
    ensures Uberblock.Parse(slot) == Ok(u)
  {
    hide Le, Uberblock.Head, Uberblock.Body, ObjRef.Encoded, ObjRef.ReadFrom, ReadU32, ReadU64;
    BodyFields(u, slot);
    ReadBack32(FORMAT_VERSION);
    ReadBack32(u.blockSize);
    ReadBack32(u.allocUnit);
    ReadBack64(u.txg);
    ReadBack64(u.frontier);
    ReadBack64(u.deviceSize);
    ObjRoundTrip(u.liveRoot);
    ObjRoundTrip(u.snapshots);
  }

  lemma BodyFields(u: Uberblock, slot: seq<byte>)
    requires |slot| >= UBERBLOCK_BODY_SIZE && slot[0..UBERBLOCK_BODY_SIZE] == u.Body()
    ensures slot[0..8] == MAGIC && slot[8..12] == Le(FORMAT_VERSION, 4) && slot[12..16] == Le(u.blockSize, 4)
    ensures slot[16..20] == Le(u.allocUnit, 4) && slot[20] == u.codec.ToTag() && slot[24..32] == Le(u.txg, 8)
    ensures slot[32..40] == Le(u.frontier, 8) && slot[40..48] == Le(u.deviceSize, 8)
    ensures slot[48..120] == u.liveRoot.Encoded() && slot[120..192] == u.snapshots.Encoded()
  {
    hide Le, Uberblock.Head, ObjRef.Encoded;
    var body, head := u.Body(), u.Head();
    HeadFields(u);
    SubSlices(slot, body, 192);
    SubSlices(body, head, 48);
    assert body[48..120] == u.liveRoot.Encoded();
    assert body[120..192] == u.snapshots.Encoded();
  }

  /** What the header of a slot holds, its body holds. */
  lemma SubSlices(s: seq<byte>, t: seq<byte>, n: nat)
    requires n <= |t| && n <= |s| && s[0..n] == t[0..n]
    ensures forall i, j {:trigger s[i..j]} {:trigger t[i..j]} :: 0 <= i <= j <= n ==> s[i..j] == t[i..j]
    ensures forall i :: 0 <= i < n ==> s[i] == t[i]
  {
    forall i, j | 0 <= i <= j <= n
      ensures s[i..j] == t[i..j]
    {
      assert s[0..n][i..j] == s[i..j] && t[0..n][i..j] == t[i..j];
    }
    forall i | 0 <= i < n
      ensures s[i] == t[i]
    {
      assert s[0..n][i] == s[i] && t[0..n][i] == t[i];
    }
  }

  lemma HeadFields(u: Uberblock)
    ensures var h := u.Head();
            h[0..8] == MAGIC && h[8..12] == Le(FORMAT_VERSION, 4) && h[12..16] == Le(u.blockSize, 4)
            && h[16..20] == Le(u.allocUnit, 4) && h[20] == u.codec.ToTag() && h[24..32] == Le(u.txg, 8)
            && h[32..40] == Le(u.frontier, 8) && h[40..48] == Le(u.deviceSize, 8)
  {
  }

  /** A slot that was written completely classifies as the uberblock written. */
  lemma SlotRoundTrip(p: Primitives, u: Uberblock)
    ensures Uberblock.ClassifySlot(p, u.SlotBytes(p)) == Ok(Valid(u))
  {
    var slot := u.SlotBytes(p);
    assert slot[0..UBERBLOCK_BODY_SIZE] == u.Body();
    assert slot[UBERBLOCK_BODY_SIZE..UBERBLOCK_SIZE] == p.blake3(u.Body());
    ParseBody(u, slot);
  }
}
