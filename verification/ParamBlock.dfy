/**
  AFP parameter blocks: the bitmap-driven parser of proto_replyblock.c and the
  printer of proto_files.c. The bitmaps are those on pages 236 to 238 of Apple Filing
  Protocol Programming 3.2.
 */
module ParamBlock {
  import opened Bytes

  const MAX_PATH: nat := 768

  datatype FileInfo = FileInfo(
    isdir: bool, attributes: nat, did: nat,
    creationDate: nat, modificationDate: nat, backupDate: nat,
    finderinfo: seq<Byte>, name: seq<Byte>, fileid: nat,
    offspring: nat, accessrights: nat, size: nat, resourcesize: nat,
    uid: nat, gid: nat, permissions: nat, uaPermissions: nat)

  // ----- bits and offsets -----

  /** The sixteen bits of a bitmap, lowest first. */
  type Bitmap = b: seq<bool> | |b| == 16 witness seq(16, k => false)

  function LowBits(n: nat, k: nat): (b: seq<bool>)
    ensures |b| == k
  {
    if k == 0 then [] else [n % 2 == 1] + LowBits(n / 2, k - 1)
  }

  /** An unsigned int assigned to the parser's unsigned short. */
  function BitsOf(n: nat): (b: Bitmap) {
    LowBits(n, 16)
  }

  /** The space a parameter takes in the fixed part of a block. */
  function Width(isdir: bool, k: nat): (w: nat) {
    if k == 0 then 2                                // attributes
    else if k <= 4 then 4                           // parent, dates
    else if k == 5 then 32                          // Finder info
    else if k <= 7 then 2                           // long and short name offsets
    else if k == 8 then 4                           // node id
    else if k == 9 then if isdir then 2 else 4      // offspring count, data fork length
    else if k == 10 then 4                          // owner, resource fork length
    else if k == 11 then if isdir then 4 else 8     // group, extended data fork length
    else if k == 12 then if isdir then 4 else 2     // access rights, launch limit
    else if k == 13 then 6                          // UTF-8 name offset and padding
    else if k == 14 then 8                          // extended resource fork length
    else 16                                         // Unix privileges
  }

  /** Where parameter k starts: the widths of the lower bits that are set. */
  function Offset(bitmap: Bitmap, isdir: bool, k: nat): (o: nat)
    requires k <= 16
  {
    if k == 0 then 0 else Offset(bitmap, isdir, k - 1) + if bitmap[k - 1] then Width(isdir, k - 1) else 0
  }

  // ----- reading fields -----

  function U16(buf: seq<Byte>, p: nat): (n: nat)
    requires p + 2 <= |buf|
  {
    Be16(buf[p..p + 2])
  }

  function U32(buf: seq<Byte>, p: nat): (n: nat)
    requires p + 4 <= |buf|
  {
    Be32(buf[p..p + 4])
  }

  function U64(buf: seq<Byte>, p: nat): (n: nat)
    requires p + 8 <= |buf|
  {
    U32(buf, p) * 0x1_0000_0000 + U32(buf, p + 4)
  }

  const DATE_DELTA: nat := 946684800

  /** AD_DATE_TO_UNIX and AD_DATE_FROM_UNIX, in 32-bit unsigned arithmetic. */
  function ToUnixDate(d: nat): (u: nat)
    ensures u < 0x1_0000_0000
  {
    (d + DATE_DELTA) % 0x1_0000_0000
  }

  function FromUnixDate(u: nat): (d: nat)
    requires u < 0x1_0000_0000
    ensures d < 0x1_0000_0000 && ToUnixDate(d) == u
  {
    (u + 0x1_0000_0000 - DATE_DELTA) % 0x1_0000_0000
  }

  /** copy_from_pascal. */
  predicate PascalFits(buf: seq<Byte>, p: nat) {
    p < |buf| && p + 1 + buf[p] <= |buf|
  }

  function Pascal(buf: seq<Byte>, p: nat): (s: seq<Byte>)
    requires PascalFits(buf, p)
  {
    buf[p + 1..p + 1 + buf[p]]
  }

  /** copy_from_pascal_two: at most MAX_PATH bytes, and an empty one leaves the old name in place. */
  function PascalTwoLength(buf: seq<Byte>, p: nat): (n: nat)
    requires p + 2 <= |buf|
  {
    if U16(buf, p) < MAX_PATH then U16(buf, p) else MAX_PATH
  }

  predicate PascalTwoFits(buf: seq<Byte>, p: nat) {
    p + 2 <= |buf| && p + 2 + PascalTwoLength(buf, p) <= |buf|
  }

  function PascalTwo(buf: seq<Byte>, p: nat, previous: seq<Byte>): (s: seq<Byte>)
    requires PascalTwoFits(buf, p)
  {
    if PascalTwoLength(buf, p) == 0 then previous else buf[p + 2..p + 2 + PascalTwoLength(buf, p)]
  }

  /** What the parser, which checks no bounds, needs of the buffer. */
  ghost predicate BlockFits(buf: seq<Byte>, bitmap: Bitmap, isdir: bool) {
    && Offset(bitmap, isdir, 16) <= |buf|
    && (forall k :: 0 <= k < 16 && bitmap[k] ==> Offset(bitmap, isdir, k) + Width(isdir, k) <= |buf|)
    && (bitmap[6] ==> PascalFits(buf, U16(buf, Offset(bitmap, isdir, 6))))
    && (bitmap[13] ==> PascalTwoFits(buf, U16(buf, Offset(bitmap, isdir, 13)) + 4))
  }

  const NO_FINDER_INFO: seq<Byte> := [0, 0, 0, 0, 0, 0, 0, 0, 0, 0, 0, 0, 0, 0, 0, 0, 0, 0, 0, 0, 0, 0, 0, 0, 0, 0, 0, 0, 0, 0, 0, 0]

  /** Field by field: each set parameter is read at its offset, and what is not asked for is zero. */
  ghost predicate Parsed(buf: seq<Byte>, bitmap: Bitmap, isdir: bool, f: FileInfo)
    requires BlockFits(buf, bitmap, isdir)
  {
    && f.isdir == isdir
    && f.attributes == (if bitmap[0] then U16(buf, Offset(bitmap, isdir, 0)) else 0)
    && f.did == (if bitmap[1] then U32(buf, Offset(bitmap, isdir, 1)) else 0)
    && f.creationDate == (if bitmap[2] then ToUnixDate(U32(buf, Offset(bitmap, isdir, 2))) else 0)
    && f.modificationDate == (if bitmap[3] then ToUnixDate(U32(buf, Offset(bitmap, isdir, 3))) else 0)
    && f.backupDate == (if bitmap[4] then ToUnixDate(U32(buf, Offset(bitmap, isdir, 4))) else 0)
    && f.finderinfo == (if bitmap[5] then buf[Offset(bitmap, isdir, 5)..Offset(bitmap, isdir, 5) + 32] else NO_FINDER_INFO)
    && f.fileid == (if bitmap[8] then U32(buf, Offset(bitmap, isdir, 8)) else 0)
    && f.offspring == (if isdir && bitmap[9] then U16(buf, Offset(bitmap, isdir, 9)) else 0)
    && f.accessrights == (if isdir && bitmap[12] then U32(buf, Offset(bitmap, isdir, 12)) else 0)
    && ParsedName(buf, bitmap, isdir, f.name)
    && ParsedSizes(buf, bitmap, isdir, f.size, f.resourcesize)
    && ParsedPrivs(buf, bitmap, isdir, f)
  }

  /** A non-empty UTF-8 name wins over the long name. */
  ghost predicate ParsedName(buf: seq<Byte>, bitmap: Bitmap, isdir: bool, name: seq<Byte>)
    requires BlockFits(buf, bitmap, isdir)
  {
    var long := if bitmap[6] then Pascal(buf, U16(buf, Offset(bitmap, isdir, 6))) else [];
    name == if bitmap[13] then PascalTwo(buf, U16(buf, Offset(bitmap, isdir, 13)) + 4, long) else long
  }

  /** For a file, the extended lengths win over the 32-bit ones. */
  ghost predicate ParsedSizes(buf: seq<Byte>, bitmap: Bitmap, isdir: bool, size: nat, resourcesize: nat)
    requires BlockFits(buf, bitmap, isdir)
  {
    && size == (if isdir then 0
                else if bitmap[11] then U64(buf, Offset(bitmap, isdir, 11))
                else if bitmap[9] then U32(buf, Offset(bitmap, isdir, 9))
                else 0)
    && resourcesize == (if bitmap[14] then U64(buf, Offset(bitmap, isdir, 14))
                        else if !isdir && bitmap[10] then U32(buf, Offset(bitmap, isdir, 10))
                        else 0)
  }

  /** The Unix privileges win over a directory's owner and group. */
  ghost predicate ParsedPrivs(buf: seq<Byte>, bitmap: Bitmap, isdir: bool, f: FileInfo)
    requires BlockFits(buf, bitmap, isdir)
  {
    var o := Offset(bitmap, isdir, 15);
    if bitmap[15] then
      f.uid == U32(buf, o) && f.gid == U32(buf, o + 4) && f.permissions == U32(buf, o + 8) && f.uaPermissions == U32(buf, o + 12)
    else
      && f.uid == (if isdir && bitmap[10] then U32(buf, Offset(bitmap, isdir, 10)) else 0)
      && f.gid == (if isdir && bitmap[11] then U32(buf, Offset(bitmap, isdir, 11)) else 0)
      && f.permissions == 0 && f.uaPermissions == 0
  }

  function Zeroed(isdir: bool): (f: FileInfo) {
    FileInfo(isdir, 0, 0, 0, 0, 0, NO_FINDER_INFO, [], 0, 0, 0, 0, 0, 0, 0, 0, 0)
  }

  /** Bits 0 to 4: attributes, parent and dates. */
  method ParseDates(buf: seq<Byte>, bitmap: Bitmap, isdir: bool) returns (p2: nat, f: FileInfo)
    requires BlockFits(buf, bitmap, isdir)
    ensures p2 == Offset(bitmap, isdir, 5)
    ensures f == Zeroed(isdir).(
                 attributes := if bitmap[0] then U16(buf, Offset(bitmap, isdir, 0)) else 0,
                 did := if bitmap[1] then U32(buf, Offset(bitmap, isdir, 1)) else 0,
                 creationDate := if bitmap[2] then ToUnixDate(U32(buf, Offset(bitmap, isdir, 2))) else 0,
                 modificationDate := if bitmap[3] then ToUnixDate(U32(buf, Offset(bitmap, isdir, 3))) else 0,
                 backupDate := if bitmap[4] then ToUnixDate(U32(buf, Offset(bitmap, isdir, 4))) else 0)
  {
    p2, f := 0, Zeroed(isdir);
    if bitmap[0] {
      f := f.(attributes := U16(buf, p2));
      p2 := p2 + 2;
    }
    assert p2 == Offset(bitmap, isdir, 1);
    if bitmap[1] {
      f := f.(did := U32(buf, p2));
      p2 := p2 + 4;
    }
    assert p2 == Offset(bitmap, isdir, 2);
    if bitmap[2] {
      f := f.(creationDate := ToUnixDate(U32(buf, p2)));
      p2 := p2 + 4;
    }
    assert p2 == Offset(bitmap, isdir, 3);
    if bitmap[3] {
      f := f.(modificationDate := ToUnixDate(U32(buf, p2)));
      p2 := p2 + 4;
    }
    assert p2 == Offset(bitmap, isdir, 4);
    if bitmap[4] {
      f := f.(backupDate := ToUnixDate(U32(buf, p2)));
      p2 := p2 + 4;
    }
  }

  /** Bits 5 to 8: Finder info, names and node id. */
  method ParseNames(buf: seq<Byte>, bitmap: Bitmap, isdir: bool, p: nat, f0: FileInfo) returns (p2: nat, f: FileInfo)
    requires BlockFits(buf, bitmap, isdir) && p == Offset(bitmap, isdir, 5)
    ensures p2 == Offset(bitmap, isdir, 9)
    ensures f == f0.(
                 finderinfo := if bitmap[5] then buf[Offset(bitmap, isdir, 5)..Offset(bitmap, isdir, 5) + 32] else f0.finderinfo,
                 name := if bitmap[6] then Pascal(buf, U16(buf, Offset(bitmap, isdir, 6))) else f0.name,
                 fileid := if bitmap[8] then U32(buf, Offset(bitmap, isdir, 8)) else f0.fileid)
  {
    p2, f := p, f0;
    if bitmap[5] {
      f := f.(finderinfo := buf[p2..p2 + 32]);
      p2 := p2 + 32;
    }
    assert p2 == Offset(bitmap, isdir, 6);
    if bitmap[6] {
      f := f.(name := Pascal(buf, U16(buf, p2)));
      p2 := p2 + 2;
    }
    assert p2 == Offset(bitmap, isdir, 7);
    if bitmap[7] {
      p2 := p2 + 2;
    }
    assert p2 == Offset(bitmap, isdir, 8);
    if bitmap[8] {
      f := f.(fileid := U32(buf, p2));
      p2 := p2 + 4;
    }
  }

  /** Bits 9 to 12 of a directory. */
  method ParseDirectory(buf: seq<Byte>, bitmap: Bitmap, p: nat, f0: FileInfo) returns (p2: nat, f: FileInfo)
    requires BlockFits(buf, bitmap, true) && p == Offset(bitmap, true, 9)
    ensures p2 == Offset(bitmap, true, 13)
    ensures f == f0.(offspring := if bitmap[9] then U16(buf, Offset(bitmap, true, 9)) else f0.offspring,
                     uid := if bitmap[10] then U32(buf, Offset(bitmap, true, 10)) else f0.uid,
                     gid := if bitmap[11] then U32(buf, Offset(bitmap, true, 11)) else f0.gid,
                     accessrights := if bitmap[12] then U32(buf, Offset(bitmap, true, 12)) else f0.accessrights)
  {
    p2, f := p, f0;
    if bitmap[9] {
      f := f.(offspring := U16(buf, p2));
      p2 := p2 + 2;
    }
    assert p2 == Offset(bitmap, true, 10);
    if bitmap[10] {
      f := f.(uid := U32(buf, p2));
      p2 := p2 + 4;
    }
    assert p2 == Offset(bitmap, true, 11);
    if bitmap[11] {
      f := f.(gid := U32(buf, p2));
      p2 := p2 + 4;
    }
    assert p2 == Offset(bitmap, true, 12);
    if bitmap[12] {
      f := f.(accessrights := U32(buf, p2));
      p2 := p2 + 4;
    }
  }

  /** Bits 9 to 12 of a file. */
  method ParseFile(buf: seq<Byte>, bitmap: Bitmap, p: nat, f0: FileInfo) returns (p2: nat, f: FileInfo)
    requires BlockFits(buf, bitmap, false) && p == Offset(bitmap, false, 9)
    ensures p2 == Offset(bitmap, false, 13)
    ensures f == f0.(size := if bitmap[11] then U64(buf, Offset(bitmap, false, 11))
                             else if bitmap[9] then U32(buf, Offset(bitmap, false, 9)) else f0.size,
                     resourcesize := if bitmap[10] then U32(buf, Offset(bitmap, false, 10)) else f0.resourcesize)
  {
    p2, f := p, f0;
    if bitmap[9] {
      f := f.(size := U32(buf, p2));
      p2 := p2 + 4;
    }
    assert p2 == Offset(bitmap, false, 10);
    if bitmap[10] {
      f := f.(resourcesize := U32(buf, p2));
      p2 := p2 + 4;
    }
    assert p2 == Offset(bitmap, false, 11);
    if bitmap[11] {
      f := f.(size := U64(buf, p2));
      p2 := p2 + 8;
    }
    assert p2 == Offset(bitmap, false, 12);
    if bitmap[12] {
      p2 := p2 + 2;
    }
  }

  /** Bit 15: Unix privileges. */
  method ParsePrivs(buf: seq<Byte>, bitmap: Bitmap, isdir: bool, p: nat, f0: FileInfo) returns (f: FileInfo)
    requires BlockFits(buf, bitmap, isdir) && p == Offset(bitmap, isdir, 15)
    ensures f == f0.(
                 uid := if bitmap[15] then U32(buf, p) else f0.uid,
                 gid := if bitmap[15] then U32(buf, p + 4) else f0.gid,
                 permissions := if bitmap[15] then U32(buf, p + 8) else f0.permissions,
                 uaPermissions := if bitmap[15] then U32(buf, p + 12) else f0.uaPermissions)
  {
    f := f0;
    if bitmap[15] {
      f := f.(uid := U32(buf, p), gid := U32(buf, p + 4), permissions := U32(buf, p + 8), uaPermissions := U32(buf, p + 12));
    }
  }

  /** Bits 13 and 14: UTF-8 name and extended resource fork length. */
  method ParseExtended(buf: seq<Byte>, bitmap: Bitmap, isdir: bool, p: nat, f0: FileInfo) returns (p2: nat, f: FileInfo)
    requires BlockFits(buf, bitmap, isdir) && p == Offset(bitmap, isdir, 13)
    ensures p2 == Offset(bitmap, isdir, 15)
    ensures f == f0.(
                 name := if bitmap[13] then PascalTwo(buf, U16(buf, Offset(bitmap, isdir, 13)) + 4, f0.name) else f0.name,
                 resourcesize := if bitmap[14] then U64(buf, Offset(bitmap, isdir, 14)) else f0.resourcesize)
  {
    p2, f := p, f0;
    if bitmap[13] {
      f := f.(name := PascalTwo(buf, U16(buf, p2) + 4, f.name));
      p2 := p2 + 6;
    }
    assert p2 == Offset(bitmap, isdir, 14);
    if bitmap[14] {
      f := f.(resourcesize := U64(buf, p2));
      p2 := p2 + 8;
    }
  }

  /** Bits 13 to 15. */
  method ParseTail(buf: seq<Byte>, bitmap: Bitmap, isdir: bool, p: nat, f0: FileInfo) returns (f: FileInfo)
    requires BlockFits(buf, bitmap, isdir) && p == Offset(bitmap, isdir, 13)
    ensures f == f0.(
                 name := if bitmap[13] then PascalTwo(buf, U16(buf, Offset(bitmap, isdir, 13)) + 4, f0.name) else f0.name,
                 resourcesize := if bitmap[14] then U64(buf, Offset(bitmap, isdir, 14)) else f0.resourcesize,
                 uid := if bitmap[15] then U32(buf, Offset(bitmap, isdir, 15)) else f0.uid,
                 gid := if bitmap[15] then U32(buf, Offset(bitmap, isdir, 15) + 4) else f0.gid,
                 permissions := if bitmap[15] then U32(buf, Offset(bitmap, isdir, 15) + 8) else f0.permissions,
                 uaPermissions := if bitmap[15] then U32(buf, Offset(bitmap, isdir, 15) + 12) else f0.uaPermissions)
  {
    var p2;
    p2, f := ParseExtended(buf, bitmap, isdir, p, f0);
    f := ParsePrivs(buf, bitmap, isdir, p2, f);
  }

  method ParseBlock(buf: seq<Byte>, bitmap: Bitmap, isdir: bool) returns (f: FileInfo)
    requires BlockFits(buf, bitmap, isdir)
    ensures Parsed(buf, bitmap, isdir, f)
  {
    var p2;
    p2, f := ParseDates(buf, bitmap, isdir);
    p2, f := ParseNames(buf, bitmap, isdir, p2, f);
    if isdir {
      p2, f := ParseDirectory(buf, bitmap, p2, f);
    } else {
      p2, f := ParseFile(buf, bitmap, p2, f);
    }
    f := ParseTail(buf, bitmap, isdir, p2, f);
  }

  /** parse_reply_block: the cursor p2 moves over the set parameters in order. */
  method ParseReplyBlock(buf: seq<Byte>, isdir: bool, filebitmap: nat, dirbitmap: nat) returns (f: FileInfo)
    requires BlockFits(buf, BitsOf(if isdir then dirbitmap else filebitmap), isdir)
    ensures Parsed(buf, BitsOf(if isdir then dirbitmap else filebitmap), isdir, f)
  {
    f := ParseBlock(buf, BitsOf(if isdir then dirbitmap else filebitmap), isdir);
  }

  // ----- printing -----

  /** The parameters afp_setparms_lowlevel can send. */
  ghost predicate Settable(bitmap: Bitmap) {
    forall k :: 0 <= k < 16 && bitmap[k] ==> k == 0 || 2 <= k <= 5 || k == 15
  }

  predicate Machine(f: FileInfo) {
    && f.attributes < 0x1_0000 && |f.finderinfo| == 32
    && f.creationDate < 0x1_0000_0000 && f.modificationDate < 0x1_0000_0000 && f.backupDate < 0x1_0000_0000
    && f.uid < 0x1_0000_0000 && f.gid < 0x1_0000_0000
    && f.permissions < 0x1_0000_0000 && f.uaPermissions < 0x1_0000_0000
  }

  /** One byte is stored for the attributes, which on a little-endian host is their high byte. */
  function PrintAttributes(a: nat): (b: seq<Byte>)
    requires a < 0x1_0000
    ensures |b| == 2 && Be16(b) == a - a % 0x100
  {
    [a / 0x100, 0]
  }

  function PrintPrivs(f: FileInfo): (b: seq<Byte>)
    requires Machine(f)
    ensures |b| == 16
    ensures U32(b, 0) == f.uid && U32(b, 4) == f.gid && U32(b, 8) == f.permissions && U32(b, 12) == f.uaPermissions
  {
    var u, g, p, a := ToBe32(f.uid), ToBe32(f.gid), ToBe32(f.permissions), ToBe32(f.uaPermissions);
    var b := u + g + p + a;
    assert b[0..4] == u && b[4..8] == g && b[8..12] == p && b[12..16] == a;
    b
  }

  /** What is written for parameter k, if anything. */
  function Piece(bitmap: Bitmap, f: FileInfo, k: nat): (b: seq<Byte>)
    requires Machine(f) && k < 16
    ensures bitmap[k] && (k == 0 || 2 <= k <= 5 || k == 15) ==> forall isdir :: |b| == Width(isdir, k)
    ensures !bitmap[k] ==> b == []
    ensures |b| <= if k == 0 then 2 else if k == 5 then 32 else if k == 15 then 16 else 4
  {
    if !bitmap[k] then []
    else if k == 0 then PrintAttributes(f.attributes)
    else if k == 2 then ToBe32(FromUnixDate(f.creationDate))
    else if k == 3 then ToBe32(FromUnixDate(f.modificationDate))
    else if k == 4 then ToBe32(FromUnixDate(f.backupDate))
    else if k == 5 then f.finderinfo
    else if k == 15 then PrintPrivs(f)
    else []
  }

  /** The parameters below k, in order. */
  function Pieces(bitmap: Bitmap, f: FileInfo, k: nat): (b: seq<Byte>)
    requires Machine(f) && k <= 16
  {
    if k == 0 then [] else Pieces(bitmap, f, k - 1) + Piece(bitmap, f, k - 1)
  }

  /** What has been printed below k is as long as what the parser skips below k. */
  lemma {:induction false} PiecesLength(bitmap: Bitmap, f: FileInfo, isdir: bool, k: nat)
    requires Machine(f) && Settable(bitmap) && k <= 16
    ensures |Pieces(bitmap, f, k)| == Offset(bitmap, isdir, k)
  {
    if k > 0 {
      PiecesLength(bitmap, f, isdir, k - 1);
    }
  }

  lemma {:induction false} PieceInPlace(bitmap: Bitmap, f: FileInfo, k: nat, n: nat)
    requires Machine(f) && k < n <= 16
    ensures var o := |Pieces(bitmap, f, k)|;
            var b := Pieces(bitmap, f, n);
            o + |Piece(bitmap, f, k)| <= |b| && b[o..o + |Piece(bitmap, f, k)|] == Piece(bitmap, f, k)
    decreases n
  {
    if k + 1 < n {
      PieceInPlace(bitmap, f, k, n - 1);
      var o := |Pieces(bitmap, f, k)|;
      SliceOfFirst(Pieces(bitmap, f, n - 1), Piece(bitmap, f, n - 1), o, o + |Piece(bitmap, f, k)|);
    } else {
      SliceOfSecond(Pieces(bitmap, f, k), Piece(bitmap, f, k));
    }
  }

  /** The printed parameter k is where the parser looks for it. */
  lemma Located(bitmap: Bitmap, f: FileInfo, isdir: bool, k: nat)
    requires Machine(f) && Settable(bitmap) && k < 16 && bitmap[k]
    ensures var b := Pieces(bitmap, f, 16);
            var o := Offset(bitmap, isdir, k);
            o + Width(isdir, k) <= |b| && b[o..o + Width(isdir, k)] == Piece(bitmap, f, k)
  {
    PiecesLength(bitmap, f, isdir, k);
    PieceInPlace(bitmap, f, k, 16);
  }

  lemma PrintedFits(bitmap: Bitmap, f: FileInfo, isdir: bool)
    requires Machine(f) && Settable(bitmap)
    ensures BlockFits(Pieces(bitmap, f, 16), bitmap, isdir)
  {
    PiecesLength(bitmap, f, isdir, 16);
    forall k | 0 <= k < 16 && bitmap[k] ensures Offset(bitmap, isdir, k) + Width(isdir, k) <= |Pieces(bitmap, f, 16)| {
      Located(bitmap, f, isdir, k);
    }
  }

  lemma SubSlice(b: seq<Byte>, o: nat, w: nat, i: nat)
    requires o + w <= |b| && i + 4 <= w
    ensures U32(b, o + i) == U32(b[o..o + w], i)
  {
    SliceOfSlice(b, o, o + w, i, i + 4);
  }

  lemma PrivsAt(b: seq<Byte>, o: nat, f: FileInfo)
    requires Machine(f) && o + 16 <= |b| && b[o..o + 16] == PrintPrivs(f)
    ensures U32(b, o) == f.uid && U32(b, o + 4) == f.gid && U32(b, o + 8) == f.permissions && U32(b, o + 12) == f.uaPermissions
  {
    SubSlice(b, o, 16, 0);
    SubSlice(b, o, 16, 4);
    SubSlice(b, o, 16, 8);
    SubSlice(b, o, 16, 12);
  }

  lemma PrivsReadBack(bitmap: Bitmap, f: FileInfo, isdir: bool)
    requires Machine(f) && Settable(bitmap) && bitmap[15]
    ensures var b := Pieces(bitmap, f, 16);
            var o := Offset(bitmap, isdir, 15);
            && o + 16 <= |b| && U32(b, o) == f.uid && U32(b, o + 4) == f.gid
            && U32(b, o + 8) == f.permissions && U32(b, o + 12) == f.uaPermissions
  {
    Located(bitmap, f, isdir, 15);
    PrivsAt(Pieces(bitmap, f, 16), Offset(bitmap, isdir, 15), f);
  }

  lemma DateReadsBack(bitmap: Bitmap, f: FileInfo, isdir: bool, k: nat, date: nat)
    requires Machine(f) && Settable(bitmap) && 2 <= k <= 4 && bitmap[k] && date < 0x1_0000_0000
    requires Piece(bitmap, f, k) == ToBe32(FromUnixDate(date))
    ensures var b := Pieces(bitmap, f, 16);
            var o := Offset(bitmap, isdir, k);
            o + 4 <= |b| && ToUnixDate(U32(b, o)) == date
  {
    Located(bitmap, f, isdir, k);
  }

  /** g is what the parser makes of the block printed for f. */
  ghost predicate ReadBack(bitmap: Bitmap, f: FileInfo, isdir: bool, g: FileInfo)
    requires Machine(f) && Settable(bitmap)
  {
    BlockFits(Pieces(bitmap, f, 16), bitmap, isdir) && Parsed(Pieces(bitmap, f, 16), bitmap, isdir, g)
  }

  lemma DatesAgree(bitmap: Bitmap, f: FileInfo, isdir: bool, g: FileInfo)
    requires Machine(f) && Settable(bitmap) && ReadBack(bitmap, f, isdir, g)
    ensures bitmap[2] ==> g.creationDate == f.creationDate
    ensures bitmap[3] ==> g.modificationDate == f.modificationDate
    ensures bitmap[4] ==> g.backupDate == f.backupDate
  {
    if bitmap[2] { DateReadsBack(bitmap, f, isdir, 2, f.creationDate); }
    if bitmap[3] { DateReadsBack(bitmap, f, isdir, 3, f.modificationDate); }
    if bitmap[4] { DateReadsBack(bitmap, f, isdir, 4, f.backupDate); }
  }

  lemma FinderInfoAgrees(bitmap: Bitmap, f: FileInfo, isdir: bool, g: FileInfo)
    requires Machine(f) && Settable(bitmap) && ReadBack(bitmap, f, isdir, g)
    ensures bitmap[5] ==> g.finderinfo == f.finderinfo
  {
    if bitmap[5] { Located(bitmap, f, isdir, 5); }
  }

  lemma PrivsAgree(bitmap: Bitmap, f: FileInfo, isdir: bool, g: FileInfo)
    requires Machine(f) && Settable(bitmap) && ReadBack(bitmap, f, isdir, g)
    ensures bitmap[15] ==>
              g.uid == f.uid && g.gid == f.gid && g.permissions == f.permissions && g.uaPermissions == f.uaPermissions
  {
    if bitmap[15] { PrivsReadBack(bitmap, f, isdir); }
  }

  lemma AttributesLoseLowByte(bitmap: Bitmap, f: FileInfo, isdir: bool, g: FileInfo)
    requires Machine(f) && Settable(bitmap) && ReadBack(bitmap, f, isdir, g)
    ensures bitmap[0] ==> g.attributes == f.attributes - f.attributes % 0x100
  {
    if bitmap[0] { Located(bitmap, f, isdir, 0); }
  }

  /**
    Parser and printer agree: a block printed for any settable parameters parses,
    as a file's or a directory's, and gives back the same dates (32-bit wrap-around
    included), Finder info and privileges. The attributes come back if and only if
    their low byte is zero.
   */
  lemma PrintThenParse(bitmap: Bitmap, f: FileInfo, isdir: bool, g: FileInfo)
    requires Machine(f) && Settable(bitmap)
    ensures BlockFits(Pieces(bitmap, f, 16), bitmap, isdir)
    ensures ReadBack(bitmap, f, isdir, g) ==>
              && (bitmap[0] ==> (g.attributes == f.attributes <==> f.attributes % 0x100 == 0))
              && (bitmap[2] ==> g.creationDate == f.creationDate)
              && (bitmap[3] ==> g.modificationDate == f.modificationDate)
              && (bitmap[4] ==> g.backupDate == f.backupDate)
              && (bitmap[5] ==> g.finderinfo == f.finderinfo)
              && (bitmap[15] ==> g.uid == f.uid && g.gid == f.gid
                                 && g.permissions == f.permissions && g.uaPermissions == f.uaPermissions)
  {
    PrintedFits(bitmap, f, isdir);
    if ReadBack(bitmap, f, isdir, g) {
      AttributesLoseLowByte(bitmap, f, isdir, g);
      DatesAgree(bitmap, f, isdir, g);
      FinderInfoAgrees(bitmap, f, isdir, g);
      PrivsAgree(bitmap, f, isdir, g);
    }
  }

  method Append(msg: array<Byte>, p0: nat, p: nat, bytes: seq<Byte>)
    requires p0 <= p && p + |bytes| <= msg.Length
    modifies msg
    ensures msg[p0..p + |bytes|] == old(msg[p0..p]) + bytes
    ensures forall j :: 0 <= j < msg.Length && !(p <= j < p + |bytes|) ==> msg[j] == old(msg[j])
  {
    Put(msg, p, bytes);
  }

  /** Stores parameter k at the cursor if its bit is set. */
  method Emit(bitmap: Bitmap, f: FileInfo, k: nat, msg: array<Byte>, p0: nat, p: nat) returns (p': nat)
    requires Machine(f) && k < 16
    requires p0 <= p <= msg.Length && p + |Piece(bitmap, f, k)| <= msg.Length && msg[p0..p] == Pieces(bitmap, f, k)
    modifies msg
    ensures p' == p + |Piece(bitmap, f, k)|
    ensures msg[p0..p'] == Pieces(bitmap, f, k + 1)
    ensures forall j :: 0 <= j < msg.Length && !(p0 <= j < p') ==> msg[j] == old(msg[j])
  {
    var bytes := Piece(bitmap, f, k);
    p' := p + |bytes|;
    Append(msg, p0, p, bytes);
  }

  /** The parameter part of afp_setparms_lowlevel, from the cursor p0 on. */
  method SetParms(bitmap: Bitmap, f: FileInfo, msg: array<Byte>, p0: nat) returns (p: nat)
    requires Machine(f) && p0 + 62 <= msg.Length
    modifies msg
    ensures p0 <= p <= msg.Length && msg[p0..p] == Pieces(bitmap, f, 16)
    ensures forall j :: 0 <= j < msg.Length && !(p0 <= j < p) ==> msg[j] == old(msg[j])
  {
    p := Emit(bitmap, f, 0, msg, p0, p0);
    NothingBetween(bitmap, f, 1, 2);
    p := Emit(bitmap, f, 2, msg, p0, p);
    p := Emit(bitmap, f, 3, msg, p0, p);
    p := Emit(bitmap, f, 4, msg, p0, p);
    p := Emit(bitmap, f, 5, msg, p0, p);
    NothingBetween(bitmap, f, 6, 15);
    p := Emit(bitmap, f, 15, msg, p0, p);
  }

  lemma {:induction false} NothingBetween(bitmap: Bitmap, f: FileInfo, i: nat, k: nat)
    requires Machine(f) && i <= k <= 16
    requires (i == 1 && k <= 2) || (6 <= i && k <= 15)
    ensures Pieces(bitmap, f, k) == Pieces(bitmap, f, i)
  {
    if i < k {
      NothingBetween(bitmap, f, i, k - 1);
      assert Piece(bitmap, f, k - 1) == [];
    }
  }
}
