/**
  The parameter blocks a server sends, written from the layout on pages 236 to 238 of Apple
  Filing Protocol Programming 3.2 and not from the parser, and what parse_reply_block makes of
  them.
 */
module ReplyBlock {
  import opened Bytes
  import opened ParamBlock

  /** What the server knows about a file or a directory. Dates are Unix dates. */
  datatype Node = Node(
    attributes: nat, did: nat, creationDate: nat, modificationDate: nat, backupDate: nat,
    finderinfo: seq<Byte>, longName: seq<Byte>, shortNameAt: nat, fileid: nat,
    offspring: nat, owner: nat, group: nat, accessrights: nat,
    size32: nat, resourcesize32: nat, size: nat, launchLimit: nat,
    hint: seq<Byte>, utf8Name: seq<Byte>, resourcesize: nat,
    uid: nat, gid: nat, permissions: nat, uaPermissions: nat)

  /** Every field fits the space the protocol gives it. */
  predicate Sendable(w: Node) {
    && w.attributes < 0x1_0000 && w.did < 0x1_0000_0000
    && w.creationDate < 0x1_0000_0000 && w.modificationDate < 0x1_0000_0000 && w.backupDate < 0x1_0000_0000
    && |w.finderinfo| == 32 && |w.longName| < 256 && w.shortNameAt < 0x1_0000 && w.fileid < 0x1_0000_0000
    && w.offspring < 0x1_0000 && w.owner < 0x1_0000_0000 && w.group < 0x1_0000_0000 && w.accessrights < 0x1_0000_0000
    && w.size32 < 0x1_0000_0000 && w.resourcesize32 < 0x1_0000_0000
    && w.size < 0x1_0000_0000_0000_0000 && w.launchLimit < 0x1_0000
    && |w.hint| == 4 && |w.utf8Name| < 0x1_0000 && w.resourcesize < 0x1_0000_0000_0000_0000
    && w.uid < 0x1_0000_0000 && w.gid < 0x1_0000_0000 && w.permissions < 0x1_0000_0000 && w.uaPermissions < 0x1_0000_0000
  }

  function ToBe64(n: nat): (b: seq<Byte>)
    requires n < 0x1_0000_0000_0000_0000
    ensures |b| == 8
  {
    ToBe32(n / 0x1_0000_0000) + ToBe32(n % 0x1_0000_0000)
  }

  /** Seconds from the start of 2000, in 32 bits. */
  function AfpDate(unix: nat): (d: nat)
    requires unix < 0x1_0000_0000
    ensures d < 0x1_0000_0000
  {
    if unix >= 946684800 then unix - 946684800 else unix + (0x1_0000_0000 - 946684800)
  }

  /** The parameter of bit k; the names stand at longAt and utf8At. */
  function Parameter(w: Node, isdir: bool, k: nat, longAt: nat, utf8At: nat): (b: seq<Byte>)
    requires Sendable(w) && k < 16 && longAt < 0x1_0000 && utf8At < 0x1_0000
  {
    if k == 0 then ToBe16(w.attributes)
    else if k == 1 then ToBe32(w.did)
    else if k == 2 then ToBe32(AfpDate(w.creationDate))
    else if k == 3 then ToBe32(AfpDate(w.modificationDate))
    else if k == 4 then ToBe32(AfpDate(w.backupDate))
    else if k == 5 then w.finderinfo
    else if k == 6 then ToBe16(longAt)
    else if k == 7 then ToBe16(w.shortNameAt)
    else if k == 8 then ToBe32(w.fileid)
    else if k == 9 then if isdir then ToBe16(w.offspring) else ToBe32(w.size32)
    else if k == 10 then if isdir then ToBe32(w.owner) else ToBe32(w.resourcesize32)
    else if k == 11 then if isdir then ToBe32(w.group) else ToBe64(w.size)
    else if k == 12 then if isdir then ToBe32(w.accessrights) else ToBe16(w.launchLimit)
    else if k == 13 then ToBe16(utf8At) + [0, 0, 0, 0]
    else if k == 14 then ToBe64(w.resourcesize)
    else ToBe32(w.uid) + ToBe32(w.gid) + ToBe32(w.permissions) + ToBe32(w.uaPermissions)
  }

  /** The parameters asked for, empty where they are not. */
  function Parameters(w: Node, bitmap: Bitmap, isdir: bool, longAt: nat, utf8At: nat): (ps: seq<seq<Byte>>)
    requires Sendable(w) && longAt < 0x1_0000 && utf8At < 0x1_0000
  {
    seq(16, k requires 0 <= k < 16 => if bitmap[k] then Parameter(w, isdir, k, longAt, utf8At) else [])
  }

  function Joined(ps: seq<seq<Byte>>, k: nat): (b: seq<Byte>)
    requires k <= |ps|
  {
    if k == 0 then [] else Joined(ps, k - 1) + ps[k - 1]
  }

  function Fixed(w: Node, bitmap: Bitmap, isdir: bool, longAt: nat, utf8At: nat): (b: seq<Byte>)
    requires Sendable(w) && longAt < 0x1_0000 && utf8At < 0x1_0000
  {
    Joined(Parameters(w, bitmap, isdir, longAt, utf8At), 16)
  }

  /** The names follow the fixed part. */
  function LongNamePart(w: Node, bitmap: Bitmap): (b: seq<Byte>)
    requires Sendable(w)
  {
    if bitmap[6] then [|w.longName|] + w.longName else []
  }

  function Utf8NamePart(w: Node, bitmap: Bitmap): (b: seq<Byte>)
    requires Sendable(w)
  {
    if bitmap[13] then w.hint + ToBe16(|w.utf8Name|) + w.utf8Name else []
  }

  function LongAt(w: Node, bitmap: Bitmap, isdir: bool): (p: nat)
    requires Sendable(w)
    ensures p < 600
  {
    FixedLength(w, bitmap, isdir, 0, 0);
    |Fixed(w, bitmap, isdir, 0, 0)|
  }

  function Utf8At(w: Node, bitmap: Bitmap, isdir: bool): (p: nat)
    requires Sendable(w)
    ensures p < 0x1_0000
  {
    LongAt(w, bitmap, isdir) + |LongNamePart(w, bitmap)|
  }

  function Block(w: Node, bitmap: Bitmap, isdir: bool): (b: seq<Byte>)
    requires Sendable(w)
  {
    Fixed(w, bitmap, isdir, LongAt(w, bitmap, isdir), Utf8At(w, bitmap, isdir))
    + LongNamePart(w, bitmap) + Utf8NamePart(w, bitmap)
  }

  // ----- bitmaps as numbers -----

  /** Bits, lowest first, as a number, with anything above them. */
  function Number(bits: seq<bool>, high: nat): (n: nat) {
    if bits == [] then high else (if bits[0] then 1 else 0) + 2 * Number(bits[1..], high)
  }

  /** A number's low bits are those it was made from, whatever is above them. */
  lemma {:induction false} BitsOfNumber(bits: seq<bool>, high: nat)
    ensures LowBits(Number(bits, high), |bits|) == bits
  {
    if bits != [] {
      BitsOfNumber(bits[1..], high);
      assert Number(bits, high) / 2 == Number(bits[1..], high);
    }
  }

  // ----- where the fields stand -----

  lemma ParameterWidth(w: Node, isdir: bool, k: nat, longAt: nat, utf8At: nat)
    requires Sendable(w) && k < 16 && longAt < 0x1_0000 && utf8At < 0x1_0000
    ensures |Parameter(w, isdir, k, longAt, utf8At)| == Width(isdir, k) <= 32
  {
  }

  ghost predicate HasWidths(ps: seq<seq<Byte>>, bitmap: Bitmap, isdir: bool) {
    |ps| == 16 && forall k :: 0 <= k < 16 ==> |ps[k]| == if bitmap[k] then Width(isdir, k) else 0
  }

  lemma ParametersHaveWidths(w: Node, bitmap: Bitmap, isdir: bool, longAt: nat, utf8At: nat)
    requires Sendable(w) && longAt < 0x1_0000 && utf8At < 0x1_0000
    ensures HasWidths(Parameters(w, bitmap, isdir, longAt, utf8At), bitmap, isdir)
  {
    forall k | 0 <= k < 16 && bitmap[k] ensures |Parameter(w, isdir, k, longAt, utf8At)| == Width(isdir, k) {
      ParameterWidth(w, isdir, k, longAt, utf8At);
    }
  }

  lemma {:induction false} JoinedLength(ps: seq<seq<Byte>>, bitmap: Bitmap, isdir: bool, k: nat)
    requires HasWidths(ps, bitmap, isdir) && k <= 16
    ensures |Joined(ps, k)| == Offset(bitmap, isdir, k) <= 32 * k
  {
    if k > 0 {
      JoinedLength(ps, bitmap, isdir, k - 1);
    }
  }

  lemma FixedLength(w: Node, bitmap: Bitmap, isdir: bool, longAt: nat, utf8At: nat)
    requires Sendable(w) && longAt < 0x1_0000 && utf8At < 0x1_0000
    ensures |Fixed(w, bitmap, isdir, longAt, utf8At)| == Offset(bitmap, isdir, 16) <= 512
  {
    ParametersHaveWidths(w, bitmap, isdir, longAt, utf8At);
    JoinedLength(Parameters(w, bitmap, isdir, longAt, utf8At), bitmap, isdir, 16);
  }

  lemma {:induction false} PieceOfJoined(ps: seq<seq<Byte>>, k: nat, n: nat)
    requires k < n <= |ps|
    ensures var (b, o) := (Joined(ps, n), |Joined(ps, k)|);
            o + |ps[k]| <= |b| && b[o..o + |ps[k]|] == ps[k]
    decreases n
  {
    var o := |Joined(ps, k)|;
    if k + 1 < n {
      PieceOfJoined(ps, k, n - 1);
      SliceOfFirst(Joined(ps, n - 1), ps[n - 1], o, o + |ps[k]|);
    } else {
      SliceOfSecond(Joined(ps, k), ps[k]);
    }
  }

  /** Each parameter stands at the sum of the widths of the lower set bits. */
  lemma ParameterInPlace(w: Node, bitmap: Bitmap, isdir: bool, k: nat, longAt: nat, utf8At: nat)
    requires Sendable(w) && k < 16 && longAt < 0x1_0000 && utf8At < 0x1_0000 && bitmap[k]
    ensures var (b, o) := (Fixed(w, bitmap, isdir, longAt, utf8At), Offset(bitmap, isdir, k));
            o + Width(isdir, k) <= |b| && b[o..o + Width(isdir, k)] == Parameter(w, isdir, k, longAt, utf8At)
  {
    var ps := Parameters(w, bitmap, isdir, longAt, utf8At);
    ParametersHaveWidths(w, bitmap, isdir, longAt, utf8At);
    JoinedLength(ps, bitmap, isdir, k);
    PieceOfJoined(ps, k, 16);
  }

  /** buf starts with the block sent for w. */
  ghost predicate Sent(w: Node, bitmap: Bitmap, isdir: bool, buf: seq<Byte>)
    requires Sendable(w)
  {
    Block(w, bitmap, isdir) <= buf
  }

  lemma FirstOfThree(buf: seq<Byte>, a: seq<Byte>, b: seq<Byte>, c: seq<Byte>)
    requires a + b + c <= buf
    ensures a <= buf
  {
    assert a <= a + b + c;
  }

  lemma SliceOfPrefix(buf: seq<Byte>, a: seq<Byte>, o: nat, n: nat)
    requires a <= buf && o + n <= |a|
    ensures buf[o..o + n] == a[o..o + n]
  {
  }

  lemma FieldAt(w: Node, bitmap: Bitmap, isdir: bool, buf: seq<Byte>, k: nat)
    requires Sendable(w) && k < 16 && bitmap[k] && Sent(w, bitmap, isdir, buf)
    ensures var o := Offset(bitmap, isdir, k);
            && o + Width(isdir, k) <= |buf|
            && buf[o..o + Width(isdir, k)] == Parameter(w, isdir, k, LongAt(w, bitmap, isdir), Utf8At(w, bitmap, isdir))
  {
    var fixed := Fixed(w, bitmap, isdir, LongAt(w, bitmap, isdir), Utf8At(w, bitmap, isdir));
    ParameterInPlace(w, bitmap, isdir, k, LongAt(w, bitmap, isdir), Utf8At(w, bitmap, isdir));
    FirstOfThree(buf, fixed, LongNamePart(w, bitmap), Utf8NamePart(w, bitmap));
    SliceOfPrefix(buf, fixed, Offset(bitmap, isdir, k), Width(isdir, k));
  }

  lemma AfterFirst(buf: seq<Byte>, a: seq<Byte>, b: seq<Byte>, c: seq<Byte>) returns (rest: seq<Byte>)
    requires a + b + c <= buf
    ensures |a| <= |buf| && buf[|a|..] == b + (c + rest)
  {
    var abc := a + b + c;
    rest := buf[|abc|..];
    assert buf == abc + rest;
    assert buf == a + (b + (c + rest));
  }

  lemma TailAt(w: Node, bitmap: Bitmap, isdir: bool, buf: seq<Byte>) returns (rest: seq<Byte>)
    requires Sendable(w) && Sent(w, bitmap, isdir, buf)
    ensures Offset(bitmap, isdir, 16) == LongAt(w, bitmap, isdir) <= |buf|
    ensures buf[LongAt(w, bitmap, isdir)..] == LongNamePart(w, bitmap) + (Utf8NamePart(w, bitmap) + rest)
  {
    var fixed := Fixed(w, bitmap, isdir, LongAt(w, bitmap, isdir), Utf8At(w, bitmap, isdir));
    FixedLength(w, bitmap, isdir, 0, 0);
    FixedLength(w, bitmap, isdir, LongAt(w, bitmap, isdir), Utf8At(w, bitmap, isdir));
    rest := AfterFirst(buf, fixed, LongNamePart(w, bitmap), Utf8NamePart(w, bitmap));
  }

  lemma LongNameReads(w: Node, bitmap: Bitmap, isdir: bool, buf: seq<Byte>)
    requires Sendable(w) && bitmap[6] && Sent(w, bitmap, isdir, buf)
    ensures var p := LongAt(w, bitmap, isdir);
            PascalFits(buf, p) && Pascal(buf, p) == w.longName
  {
    var rest := TailAt(w, bitmap, isdir, buf);
    var p, t := LongAt(w, bitmap, isdir), Utf8NamePart(w, bitmap) + rest;
    var tail := buf[p..];
    assert tail == [|w.longName|] + w.longName + t;
    assert buf[p] == tail[0] == |w.longName|;
    assert buf[p + 1..p + 1 + |w.longName|] == tail[1..1 + |w.longName|] == w.longName;
  }

  lemma Utf8TailAt(w: Node, bitmap: Bitmap, isdir: bool, buf: seq<Byte>) returns (rest: seq<Byte>)
    requires Sendable(w) && bitmap[13] && Sent(w, bitmap, isdir, buf)
    ensures Utf8At(w, bitmap, isdir) <= |buf|
    ensures buf[Utf8At(w, bitmap, isdir)..] == w.hint + ToBe16(|w.utf8Name|) + w.utf8Name + rest
  {
    rest := TailAt(w, bitmap, isdir, buf);
    var p, q := LongAt(w, bitmap, isdir), Utf8At(w, bitmap, isdir);
    assert buf[q..] == buf[p..][q - p..];
  }

  /** A UTF-8 name is cut to 768 bytes, and an empty one leaves the name as it was. */
  function Cut(name: seq<Byte>, previous: seq<Byte>): (r: seq<Byte>) {
    if name == [] then previous else if |name| <= 768 then name else name[..768]
  }

  /** Reading a counted string behind four bytes. */
  lemma CountedName(buf: seq<Byte>, q: nat, hint: seq<Byte>, name: seq<Byte>, rest: seq<Byte>, previous: seq<Byte>)
    requires |hint| == 4 && |name| < 0x1_0000 && q <= |buf| && buf[q..] == hint + ToBe16(|name|) + name + rest
    ensures PascalTwoFits(buf, q + 4)
    ensures PascalTwo(buf, q + 4, previous) == Cut(name, previous)
  {
    var tail := buf[q..];
    assert buf[q..|buf|] == tail;
    SliceOfSlice(buf, q, |buf|, 4, 6);
    assert tail[4..6] == ToBe16(|name|);
    var m := if |name| < 768 then |name| else 768;
    SliceOfSlice(buf, q, |buf|, 6, 6 + m);
    assert tail[6..6 + m] == name[..m];
  }

  lemma Utf8NameReads(w: Node, bitmap: Bitmap, isdir: bool, buf: seq<Byte>, previous: seq<Byte>)
    requires Sendable(w) && bitmap[13] && Sent(w, bitmap, isdir, buf)
    ensures var p := Utf8At(w, bitmap, isdir) + 4;
            && PascalTwoFits(buf, p)
            && PascalTwo(buf, p, previous) == Cut(w.utf8Name, previous)
  {
    var rest := Utf8TailAt(w, bitmap, isdir, buf);
    CountedName(buf, Utf8At(w, bitmap, isdir), w.hint, w.utf8Name, rest, previous);
  }

  lemma OffsetField(w: Node, bitmap: Bitmap, isdir: bool, buf: seq<Byte>)
    requires Sendable(w) && bitmap[13] && Sent(w, bitmap, isdir, buf)
    ensures var o := Offset(bitmap, isdir, 13);
            o + 6 <= |buf| && U16(buf, o) == Utf8At(w, bitmap, isdir)
  {
    FieldAt(w, bitmap, isdir, buf, 13);
    var o := Offset(bitmap, isdir, 13);
    SliceOfSlice(buf, o, o + 6, 0, 2);
    assert Parameter(w, isdir, 13, LongAt(w, bitmap, isdir), Utf8At(w, bitmap, isdir))[0..2] == ToBe16(Utf8At(w, bitmap, isdir));
  }

  lemma LongOffsetField(w: Node, bitmap: Bitmap, isdir: bool, buf: seq<Byte>)
    requires Sendable(w) && bitmap[6] && Sent(w, bitmap, isdir, buf)
    ensures var o := Offset(bitmap, isdir, 6);
            o + 2 <= |buf| && U16(buf, o) == LongAt(w, bitmap, isdir)
  {
    FieldAt(w, bitmap, isdir, buf, 6);
  }

  lemma LongNameFits(w: Node, bitmap: Bitmap, isdir: bool, buf: seq<Byte>)
    requires Sendable(w) && bitmap[6] && Sent(w, bitmap, isdir, buf)
    ensures var o := Offset(bitmap, isdir, 6);
            o + 2 <= |buf| && PascalFits(buf, U16(buf, o)) && Pascal(buf, U16(buf, o)) == w.longName
  {
    LongOffsetField(w, bitmap, isdir, buf);
    LongNameReads(w, bitmap, isdir, buf);
  }

  lemma Utf8NameFits(w: Node, bitmap: Bitmap, isdir: bool, buf: seq<Byte>, previous: seq<Byte>)
    requires Sendable(w) && bitmap[13] && Sent(w, bitmap, isdir, buf)
    ensures var o := Offset(bitmap, isdir, 13);
            && o + 6 <= |buf| && PascalTwoFits(buf, U16(buf, o) + 4)
            && PascalTwo(buf, U16(buf, o) + 4, previous) == Cut(w.utf8Name, previous)
  {
    OffsetField(w, bitmap, isdir, buf);
    Utf8NameReads(w, bitmap, isdir, buf, previous);
  }

  lemma FieldsFit(w: Node, bitmap: Bitmap, isdir: bool, buf: seq<Byte>)
    requires Sendable(w) && Sent(w, bitmap, isdir, buf)
    ensures Offset(bitmap, isdir, 16) <= |buf|
    ensures forall k :: 0 <= k < 16 && bitmap[k] ==> Offset(bitmap, isdir, k) + Width(isdir, k) <= |buf|
  {
    var rest := TailAt(w, bitmap, isdir, buf);
    forall k | 0 <= k < 16 && bitmap[k] ensures Offset(bitmap, isdir, k) + Width(isdir, k) <= |buf| {
      FieldAt(w, bitmap, isdir, buf, k);
    }
  }

  /** What is sent has the length its bitmap asks for. */
  lemma SentFits(w: Node, bitmap: Bitmap, isdir: bool, buf: seq<Byte>)
    requires Sendable(w) && Sent(w, bitmap, isdir, buf)
    ensures BlockFits(buf, bitmap, isdir)
  {
    FieldsFit(w, bitmap, isdir, buf);
    if bitmap[6] {
      LongNameFits(w, bitmap, isdir, buf);
    }
    if bitmap[13] {
      Utf8NameFits(w, bitmap, isdir, buf, []);
    }
  }

  // ----- what the parser makes of it -----

  /** Eight bytes are one number, the most significant first. */
  lemma U64ReadsBack(buf: seq<Byte>, p: nat, n: nat)
    requires n < 0x1_0000_0000_0000_0000 && p + 8 <= |buf| && buf[p..p + 8] == ToBe64(n)
    ensures U64(buf, p) == n
  {
    var hi, lo := ToBe32(n / 0x1_0000_0000), ToBe32(n % 0x1_0000_0000);
    SliceOfSlice(buf, p, p + 8, 0, 4);
    SliceOfSlice(buf, p, p + 8, 4, 8);
    assert (hi + lo)[0..4] == hi && (hi + lo)[4..8] == lo;
  }

  /** A date comes back as the Unix date it was, 32-bit wrap-around included. */
  lemma DateComesBack(unix: nat)
    requires unix < 0x1_0000_0000
    ensures ToUnixDate(AfpDate(unix)) == unix
  {
  }

  lemma Word16(w: Node, bitmap: Bitmap, isdir: bool, buf: seq<Byte>, k: nat, n: nat)
    requires Sendable(w) && k < 16 && bitmap[k] && Sent(w, bitmap, isdir, buf) && BlockFits(buf, bitmap, isdir)
    requires n < 0x1_0000 && Width(isdir, k) == 2
    requires Parameter(w, isdir, k, LongAt(w, bitmap, isdir), Utf8At(w, bitmap, isdir)) == ToBe16(n)
    ensures U16(buf, Offset(bitmap, isdir, k)) == n
  {
    FieldAt(w, bitmap, isdir, buf, k);
  }

  lemma Word32(w: Node, bitmap: Bitmap, isdir: bool, buf: seq<Byte>, k: nat, n: nat)
    requires Sendable(w) && k < 16 && bitmap[k] && Sent(w, bitmap, isdir, buf) && BlockFits(buf, bitmap, isdir)
    requires n < 0x1_0000_0000 && Width(isdir, k) == 4
    requires Parameter(w, isdir, k, LongAt(w, bitmap, isdir), Utf8At(w, bitmap, isdir)) == ToBe32(n)
    ensures U32(buf, Offset(bitmap, isdir, k)) == n
  {
    FieldAt(w, bitmap, isdir, buf, k);
  }

  lemma Word64(w: Node, bitmap: Bitmap, isdir: bool, buf: seq<Byte>, k: nat, n: nat)
    requires Sendable(w) && k < 16 && bitmap[k] && Sent(w, bitmap, isdir, buf) && BlockFits(buf, bitmap, isdir)
    requires n < 0x1_0000_0000_0000_0000 && Width(isdir, k) == 8
    requires Parameter(w, isdir, k, LongAt(w, bitmap, isdir), Utf8At(w, bitmap, isdir)) == ToBe64(n)
    ensures U64(buf, Offset(bitmap, isdir, k)) == n
  {
    FieldAt(w, bitmap, isdir, buf, k);
    U64ReadsBack(buf, Offset(bitmap, isdir, k), n);
  }

  lemma FourWords(buf: seq<Byte>, o: nat, a: nat, b: nat, c: nat, d: nat)
    requires a < 0x1_0000_0000 && b < 0x1_0000_0000 && c < 0x1_0000_0000 && d < 0x1_0000_0000
    requires o + 16 <= |buf| && buf[o..o + 16] == ToBe32(a) + ToBe32(b) + ToBe32(c) + ToBe32(d)
    ensures U32(buf, o) == a && U32(buf, o + 4) == b && U32(buf, o + 8) == c && U32(buf, o + 12) == d
  {
    var s := ToBe32(a) + ToBe32(b) + ToBe32(c) + ToBe32(d);
    assert s[0..4] == ToBe32(a) && s[4..8] == ToBe32(b) && s[8..12] == ToBe32(c) && s[12..16] == ToBe32(d);
    SubSlice(buf, o, 16, 0);
    SubSlice(buf, o, 16, 4);
    SubSlice(buf, o, 16, 8);
    SubSlice(buf, o, 16, 12);
  }

  lemma PrivsRead(w: Node, bitmap: Bitmap, isdir: bool, buf: seq<Byte>)
    requires Sendable(w) && Sent(w, bitmap, isdir, buf) && bitmap[15]
    ensures var o := Offset(bitmap, isdir, 15);
            && o + 16 <= |buf| && U32(buf, o) == w.uid && U32(buf, o + 4) == w.gid
            && U32(buf, o + 8) == w.permissions && U32(buf, o + 12) == w.uaPermissions
  {
    FieldAt(w, bitmap, isdir, buf, 15);
    FourWords(buf, Offset(bitmap, isdir, 15), w.uid, w.gid, w.permissions, w.uaPermissions);
  }

  /** A non-empty UTF-8 name wins over the long name. */
  function NameSent(w: Node, bitmap: Bitmap): (name: seq<Byte>) {
    var long := if bitmap[6] then w.longName else [];
    if bitmap[13] then Cut(w.utf8Name, long) else long
  }

  lemma FinderInfoRead(w: Node, bitmap: Bitmap, isdir: bool, buf: seq<Byte>)
    requires Sendable(w) && bitmap[5] && Sent(w, bitmap, isdir, buf)
    ensures var o := Offset(bitmap, isdir, 5);
            o + 32 <= |buf| && buf[o..o + 32] == w.finderinfo
  {
    FieldAt(w, bitmap, isdir, buf, 5);
  }

  lemma CommonFields(w: Node, bitmap: Bitmap, isdir: bool, buf: seq<Byte>)
    requires Sendable(w) && Sent(w, bitmap, isdir, buf) && BlockFits(buf, bitmap, isdir)
    ensures bitmap[0] ==> U16(buf, Offset(bitmap, isdir, 0)) == w.attributes
    ensures bitmap[1] ==> U32(buf, Offset(bitmap, isdir, 1)) == w.did
    ensures bitmap[5] ==> var o := Offset(bitmap, isdir, 5); buf[o..o + 32] == w.finderinfo
    ensures bitmap[8] ==> U32(buf, Offset(bitmap, isdir, 8)) == w.fileid
  {
    if bitmap[0] { Word16(w, bitmap, isdir, buf, 0, w.attributes); }
    if bitmap[1] { Word32(w, bitmap, isdir, buf, 1, w.did); }
    if bitmap[5] { FinderInfoRead(w, bitmap, isdir, buf); }
    if bitmap[8] { Word32(w, bitmap, isdir, buf, 8, w.fileid); }
  }

  lemma DateFields(w: Node, bitmap: Bitmap, isdir: bool, buf: seq<Byte>)
    requires Sendable(w) && Sent(w, bitmap, isdir, buf) && BlockFits(buf, bitmap, isdir)
    ensures bitmap[2] ==> ToUnixDate(U32(buf, Offset(bitmap, isdir, 2))) == w.creationDate
    ensures bitmap[3] ==> ToUnixDate(U32(buf, Offset(bitmap, isdir, 3))) == w.modificationDate
    ensures bitmap[4] ==> ToUnixDate(U32(buf, Offset(bitmap, isdir, 4))) == w.backupDate
  {
    DateComesBack(w.creationDate);
    DateComesBack(w.modificationDate);
    DateComesBack(w.backupDate);
    if bitmap[2] { Word32(w, bitmap, isdir, buf, 2, AfpDate(w.creationDate)); }
    if bitmap[3] { Word32(w, bitmap, isdir, buf, 3, AfpDate(w.modificationDate)); }
    if bitmap[4] { Word32(w, bitmap, isdir, buf, 4, AfpDate(w.backupDate)); }
  }

  lemma DirectoryFields(w: Node, bitmap: Bitmap, isdir: bool, buf: seq<Byte>)
    requires Sendable(w) && Sent(w, bitmap, isdir, buf) && BlockFits(buf, bitmap, isdir)
    ensures isdir && bitmap[9] ==> U16(buf, Offset(bitmap, isdir, 9)) == w.offspring
    ensures isdir && bitmap[10] ==> U32(buf, Offset(bitmap, isdir, 10)) == w.owner
    ensures isdir && bitmap[11] ==> U32(buf, Offset(bitmap, isdir, 11)) == w.group
    ensures isdir && bitmap[12] ==> U32(buf, Offset(bitmap, isdir, 12)) == w.accessrights
  {
    if isdir && bitmap[9] { Word16(w, bitmap, isdir, buf, 9, w.offspring); }
    if isdir && bitmap[10] { Word32(w, bitmap, isdir, buf, 10, w.owner); }
    if isdir && bitmap[11] { Word32(w, bitmap, isdir, buf, 11, w.group); }
    if isdir && bitmap[12] { Word32(w, bitmap, isdir, buf, 12, w.accessrights); }
  }

  lemma SizeFields(w: Node, bitmap: Bitmap, isdir: bool, buf: seq<Byte>)
    requires Sendable(w) && Sent(w, bitmap, isdir, buf) && BlockFits(buf, bitmap, isdir)
    ensures !isdir && bitmap[9] ==> U32(buf, Offset(bitmap, isdir, 9)) == w.size32
    ensures !isdir && bitmap[10] ==> U32(buf, Offset(bitmap, isdir, 10)) == w.resourcesize32
    ensures !isdir && bitmap[11] ==> U64(buf, Offset(bitmap, isdir, 11)) == w.size
    ensures bitmap[14] ==> U64(buf, Offset(bitmap, isdir, 14)) == w.resourcesize
  {
    if !isdir && bitmap[9] { Word32(w, bitmap, isdir, buf, 9, w.size32); }
    if !isdir && bitmap[10] { Word32(w, bitmap, isdir, buf, 10, w.resourcesize32); }
    if !isdir && bitmap[11] { Word64(w, bitmap, isdir, buf, 11, w.size); }
    if bitmap[14] { Word64(w, bitmap, isdir, buf, 14, w.resourcesize); }
  }

  lemma NameParsed(buf: seq<Byte>, bitmap: Bitmap, isdir: bool, w: Node)
    requires BlockFits(buf, bitmap, isdir)
    requires bitmap[6] ==> Pascal(buf, U16(buf, Offset(bitmap, isdir, 6))) == w.longName
    requires bitmap[13] ==>
               PascalTwo(buf, U16(buf, Offset(bitmap, isdir, 13)) + 4, if bitmap[6] then w.longName else []) == NameSent(w, bitmap)
    ensures ParsedName(buf, bitmap, isdir, NameSent(w, bitmap))
  {
  }

  lemma NameField(w: Node, bitmap: Bitmap, isdir: bool, buf: seq<Byte>)
    requires Sendable(w) && Sent(w, bitmap, isdir, buf) && BlockFits(buf, bitmap, isdir)
    ensures ParsedName(buf, bitmap, isdir, NameSent(w, bitmap))
  {
    if bitmap[6] {
      LongNameFits(w, bitmap, isdir, buf);
    }
    if bitmap[13] {
      Utf8NameFits(w, bitmap, isdir, buf, if bitmap[6] then w.longName else []);
    }
    NameParsed(buf, bitmap, isdir, w);
  }

  /** What the client should end up with: the parameters asked for, and zero for the others. */
  function Understood(w: Node, bitmap: Bitmap, isdir: bool): (g: FileInfo) {
    FileInfo(
      isdir,
      if bitmap[0] then w.attributes else 0,
      if bitmap[1] then w.did else 0,
      if bitmap[2] then w.creationDate else 0,
      if bitmap[3] then w.modificationDate else 0,
      if bitmap[4] then w.backupDate else 0,
      if bitmap[5] then w.finderinfo else NO_FINDER_INFO,
      NameSent(w, bitmap),
      if bitmap[8] then w.fileid else 0,
      if isdir && bitmap[9] then w.offspring else 0,
      if isdir && bitmap[12] then w.accessrights else 0,
      if isdir then 0 else if bitmap[11] then w.size else if bitmap[9] then w.size32 else 0,
      if bitmap[14] then w.resourcesize else if !isdir && bitmap[10] then w.resourcesize32 else 0,
      if bitmap[15] then w.uid else if isdir && bitmap[10] then w.owner else 0,
      if bitmap[15] then w.gid else if isdir && bitmap[11] then w.group else 0,
      if bitmap[15] then w.permissions else 0,
      if bitmap[15] then w.uaPermissions else 0)
  }

  /** The numbers the parser reads are those of w. */
  ghost predicate Carries(buf: seq<Byte>, w: Node, bitmap: Bitmap, isdir: bool)
    requires BlockFits(buf, bitmap, isdir)
  {
    && (bitmap[0] ==> U16(buf, Offset(bitmap, isdir, 0)) == w.attributes)
    && (bitmap[1] ==> U32(buf, Offset(bitmap, isdir, 1)) == w.did)
    && (bitmap[2] ==> ToUnixDate(U32(buf, Offset(bitmap, isdir, 2))) == w.creationDate)
    && (bitmap[3] ==> ToUnixDate(U32(buf, Offset(bitmap, isdir, 3))) == w.modificationDate)
    && (bitmap[4] ==> ToUnixDate(U32(buf, Offset(bitmap, isdir, 4))) == w.backupDate)
    && (bitmap[5] ==> buf[Offset(bitmap, isdir, 5)..Offset(bitmap, isdir, 5) + 32] == w.finderinfo)
    && (bitmap[8] ==> U32(buf, Offset(bitmap, isdir, 8)) == w.fileid)
    && (bitmap[9] ==> if isdir then U16(buf, Offset(bitmap, isdir, 9)) == w.offspring else U32(buf, Offset(bitmap, isdir, 9)) == w.size32)
    && (bitmap[10] ==> U32(buf, Offset(bitmap, isdir, 10)) == if isdir then w.owner else w.resourcesize32)
    && (bitmap[11] ==> if isdir then U32(buf, Offset(bitmap, isdir, 11)) == w.group else U64(buf, Offset(bitmap, isdir, 11)) == w.size)
    && (isdir && bitmap[12] ==> U32(buf, Offset(bitmap, isdir, 12)) == w.accessrights)
    && (bitmap[14] ==> U64(buf, Offset(bitmap, isdir, 14)) == w.resourcesize)
    && (bitmap[15] ==>
          var o := Offset(bitmap, isdir, 15);
          U32(buf, o) == w.uid && U32(buf, o + 4) == w.gid && U32(buf, o + 8) == w.permissions && U32(buf, o + 12) == w.uaPermissions)
  }

  lemma SentCarries(w: Node, bitmap: Bitmap, isdir: bool, buf: seq<Byte>)
    requires Sendable(w) && Sent(w, bitmap, isdir, buf) && BlockFits(buf, bitmap, isdir)
    ensures Carries(buf, w, bitmap, isdir)
  {
    CommonFields(w, bitmap, isdir, buf);
    DateFields(w, bitmap, isdir, buf);
    DirectoryFields(w, bitmap, isdir, buf);
    SizeFields(w, bitmap, isdir, buf);
    if bitmap[15] {
      PrivsRead(w, bitmap, isdir, buf);
    }
  }

  lemma CarriedCommon(buf: seq<Byte>, w: Node, bitmap: Bitmap, isdir: bool, g: FileInfo)
    requires BlockFits(buf, bitmap, isdir) && Carries(buf, w, bitmap, isdir) && Parsed(buf, bitmap, isdir, g)
    ensures var u := Understood(w, bitmap, isdir);
            && g.isdir == u.isdir && g.attributes == u.attributes && g.did == u.did && g.finderinfo == u.finderinfo
            && g.creationDate == u.creationDate && g.modificationDate == u.modificationDate && g.backupDate == u.backupDate
            && g.fileid == u.fileid && g.offspring == u.offspring && g.accessrights == u.accessrights
  {
  }

  lemma CarriedSizes(buf: seq<Byte>, w: Node, bitmap: Bitmap, isdir: bool, g: FileInfo)
    requires BlockFits(buf, bitmap, isdir) && Carries(buf, w, bitmap, isdir)
    requires ParsedSizes(buf, bitmap, isdir, g.size, g.resourcesize)
    ensures var u := Understood(w, bitmap, isdir);
            g.size == u.size && g.resourcesize == u.resourcesize
  {
  }

  lemma CarriedPrivs(buf: seq<Byte>, w: Node, bitmap: Bitmap, isdir: bool, g: FileInfo)
    requires BlockFits(buf, bitmap, isdir) && Carries(buf, w, bitmap, isdir) && ParsedPrivs(buf, bitmap, isdir, g)
    ensures var u := Understood(w, bitmap, isdir);
            g.uid == u.uid && g.gid == u.gid && g.permissions == u.permissions && g.uaPermissions == u.uaPermissions
  {
  }

  /**
    The parser understands the server: for every bitmap, a block laid out by the protocol, with
    anything behind it, parses to exactly the values it was made from.
   */
  lemma SentIsUnderstood(w: Node, bitmap: Bitmap, isdir: bool, buf: seq<Byte>, g: FileInfo)
    requires Sendable(w) && Sent(w, bitmap, isdir, buf)
    ensures BlockFits(buf, bitmap, isdir)
    ensures Parsed(buf, bitmap, isdir, g) ==> g == Understood(w, bitmap, isdir)
  {
    SentFits(w, bitmap, isdir, buf);
    if Parsed(buf, bitmap, isdir, g) {
      SentCarries(w, bitmap, isdir, buf);
      NameField(w, bitmap, isdir, buf);
      CarriedCommon(buf, w, bitmap, isdir, g);
      CarriedSizes(buf, w, bitmap, isdir, g);
      CarriedPrivs(buf, w, bitmap, isdir, g);
    }
  }

  /** The same for parse_reply_block, which is given both bitmaps as numbers and takes the one that applies. */
  method UnderstandReply(w: Node, isdir: bool, filebitmap: Bitmap, dirbitmap: Bitmap, high: nat, buf: seq<Byte>)
      returns (g: FileInfo)
    requires Sendable(w) && Sent(w, if isdir then dirbitmap else filebitmap, isdir, buf)
    ensures g == Understood(w, if isdir then dirbitmap else filebitmap, isdir)
  {
    var bitmap := if isdir then dirbitmap else filebitmap;
    BitsOfNumber(filebitmap, high);
    BitsOfNumber(dirbitmap, high);
    SentFits(w, bitmap, isdir, buf);
    g := ParseReplyBlock(buf, isdir, Number(filebitmap, high), Number(dirbitmap, high));
    SentIsUnderstood(w, bitmap, isdir, buf, g);
  }
}
