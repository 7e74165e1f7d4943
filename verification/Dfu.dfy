/** The DFU image writer: a CPIO archive with an index of flash addresses, padded and closed by a DFU suffix. */
module Dfu {
  import opened Basics
  import opened Bytes
  import opened Modular

  function Pow16(n: nat): (p: nat)
    ensures p > 0
  {
    if n == 0 then 1 else 16 * Pow16(n - 1)
  }

  function HexDigit(d: nat): (b: byte)
    requires d < 16
  {
    if d < 10 then 48 + d else 87 + d
  }

  function UnHexDigit(b: byte): (d: nat) {
    if 48 <= b < 58 then b - 48 else if 97 <= b < 103 then b - 87 else 0
  }

  /** n lower-case hexadecimal digits. */
  function Hex(v: nat, n: nat): (s: seq<byte>)
    ensures |s| == n
  {
    if n == 0 then [] else Hex(v / 16, n - 1) + [HexDigit(v % 16)]
  }

  function UnHex(s: seq<byte>): (v: nat) {
    if s == [] then 0 else 16 * UnHex(s[..|s| - 1]) + UnHexDigit(s[|s| - 1])
  }

  /** A number with at most n digits reads back from n digits. */
  lemma {:induction false} UnHexHex(v: nat, n: nat)
    requires v < Pow16(n)
    ensures UnHex(Hex(v, n)) == v
  {
    if n > 0 {
      UnHexHex(v / 16, n - 1);
      assert Hex(v, n)[..n - 1] == Hex(v / 16, n - 1);
    }
  }

  lemma Fits32(v: nat)
    requires v < 0x1_0000_0000
    ensures v < Pow16(8)
  {
    assert Pow16(4) == 0x1_0000;
    assert Pow16(8) == 16 * (16 * (16 * (16 * Pow16(4))));
  }

  /** "070701" */
  const MAGIC: seq<byte> := [48, 55, 48, 55, 48, 49]
  /** "TRAILER!!!" */
  const TRAILER: seq<byte> := [84, 82, 65, 73, 76, 69, 82, 33, 33, 33]
  /** "dfuinfo0.dat" */
  const DFUINFO: seq<byte> := [100, 102, 117, 105, 110, 102, 111, 48, 46, 100, 97, 116]

  /** "flash_params.dat" */
  const FLASH_PARAMS: seq<byte> := [102, 108, 97, 115, 104, 95, 112, 97, 114, 97, 109, 115, 46, 100, 97, 116]

  const HEADER_SIZE: nat := 110

  /** The header up to the file size: magic, ino, mode, uid, gid, nlink and mtime. */
  function HeaderFront(trailer: bool): (h: seq<byte>)
    ensures |h| == 54 && h[..6] == MAGIC
  {
    var z := Hex(0, 8);
    var mode := if trailer then z else Hex(0x81A4, 8);
    var nlink := if trailer then Hex(1, 8) else z;
    MAGIC + (z + mode + z + z + nlink + z)
  }

  /** A CPIO "new ASCII" header: magic and thirteen fields of eight digits. */
  function Header(nameLen: nat, fileLen: nat, trailer: bool): (h: seq<byte>)
    ensures |h| == HEADER_SIZE
  {
    var z := Hex(0, 8);
    HeaderFront(trailer) + Hex(fileLen, 8) + (z + z + z + z) + Hex(nameLen, 8) + z
  }

  function RoundUp(n: nat, multiple: nat): (r: nat)
    requires multiple > 0
  {
    (n + multiple - 1) / multiple * multiple
  }

  function Zeros(n: nat): (s: seq<byte>)
    ensures |s| == n
  {
    seq(n, _ => 0)
  }

  /** The octets from a up to b are zeros. */
  predicate Blank(s: seq<byte>, a: nat, b: nat)
    requires b <= |s|
  {
    forall i :: a <= i < b ==> s[i] == 0
  }

  function Pad(b: seq<byte>, multiple: nat): (r: seq<byte>)
    requires multiple > 0 && RoundUp(|b|, multiple) >= |b|
    ensures |r| == RoundUp(|b|, multiple) && r[..|b|] == b && Blank(r, |b|, |r|)
  {
    b + Zeros(RoundUp(|b|, multiple) - |b|)
  }

  lemma RoundUpBounds(n: nat, multiple: nat)
    requires multiple > 0
    ensures n <= RoundUp(n, multiple) < n + multiple && RoundUp(n, multiple) % multiple == 0
  {
    var q, r := (n + multiple - 1) / multiple, (n + multiple - 1) % multiple;
    assert n + multiple - 1 == q * multiple + r;
    DivModUnique(q * multiple, q, 0, multiple);
  }

  /** One archive entry: header, name with NUL, data, each part padded to four octets. */
  function Entry(name: seq<byte>, data: seq<byte>, trailer: bool): (e: seq<byte>)
  {
    RoundUpBounds(HEADER_SIZE + |name| + 1, 4);
    RoundUpBounds(|data|, 4);
    Pad(Header(|name| + 1, |data|, trailer) + name + [0], 4) + Pad(data, 4)
  }

  datatype File = File(name: seq<byte>, data: seq<byte>)

  /** Reading one entry of a CPIO "new ASCII" archive: the file and what follows it; name and data are followed by zeros
      up to the next multiple of four. */
  function ReadEntry(s: seq<byte>): (r: Option<(File, seq<byte>)>)
    ensures r.Some? ==> |r.value.1| < |s|
  {
    if |s| < HEADER_SIZE || s[..6] != MAGIC then None
    else
      var fileLen, nameLen := UnHex(s[54..62]), UnHex(s[94..102]);
      RoundUpBounds(HEADER_SIZE + nameLen, 4);
      RoundUpBounds(fileLen, 4);
      var at := RoundUp(HEADER_SIZE + nameLen, 4);
      if nameLen == 0 || at + RoundUp(fileLen, 4) > |s| then None
      else if !Blank(s, HEADER_SIZE + nameLen - 1, at) || !Blank(s, at + fileLen, at + RoundUp(fileLen, 4)) then None
      else Some((File(s[HEADER_SIZE..HEADER_SIZE + nameLen - 1], s[at..at + fileLen]), s[at + RoundUp(fileLen, 4)..]))
  }

  /** Reading an archive up to its trailer. */
  function ReadArchive(s: seq<byte>): (r: Option<seq<File>>)
    decreases |s|
  {
    match ReadEntry(s)
    case None => None
    case Some((f, rest)) =>
      if f.name == TRAILER then Some([])
      else
        match ReadArchive(rest)
        case None => None
        case Some(files) => Some([f] + files)
  }

  predicate Small(f: File) {
    |f.name| + 1 < 0x1_0000_0000 && |f.data| < 0x1_0000_0000
  }

  lemma FivePieces(a: seq<byte>, b: seq<byte>, c: seq<byte>, d: seq<byte>, e: seq<byte>)
    requires |a| == 54 && |b| == 8 && |c| == 32 && |d| == 8
    ensures var h := a + b + c + d + e;
      h[..6] == a[..6] && h[54..62] == b && h[62..94] == c && h[94..102] == d && h[102..] == e
  {
  }

  /** What field k of a header, counted from 0, is to read as: mode, link count and two lengths; all others are 0. */
  function FieldValue(k: nat, nameLen: nat, fileLen: nat, trailer: bool): (v: nat) {
    if k == 1 then (if trailer then 0 else 0x81A4)
    else if k == 4 then (if trailer then 1 else 0)
    else if k == 6 then fileLen
    else if k == 11 then nameLen
    else 0
  }

  /** All thirteen fields of a header read as they should. */
  lemma HeaderReads(nameLen: nat, fileLen: nat, trailer: bool, k: nat)
    requires nameLen < 0x1_0000_0000 && fileLen < 0x1_0000_0000 && k < 13
    ensures UnHex(Header(nameLen, fileLen, trailer)[6 + 8 * k..14 + 8 * k]) == FieldValue(k, nameLen, fileLen, trailer)
  {
    var v := FieldValue(k, nameLen, fileLen, trailer);
    hide Hex, UnHex, Pow16;
    Fits32(v);
    UnHexHex(v, 8);
    FieldAt(nameLen, fileLen, trailer, k);
  }

  lemma FieldAt(nameLen: nat, fileLen: nat, trailer: bool, k: nat)
    requires k < 13
    ensures Header(nameLen, fileLen, trailer)[6 + 8 * k..14 + 8 * k] == Hex(FieldValue(k, nameLen, fileLen, trailer), 8)
  {
    var z, h, front := Hex(0, 8), Header(nameLen, fileLen, trailer), HeaderFront(trailer);
    if k < 6 {
      FrontFields(trailer, k);
      hide Hex, HeaderFront;
      assert h[..54] == front;
      assert h[6 + 8 * k..14 + 8 * k] == h[..54][6 + 8 * k..14 + 8 * k];
    } else {
      hide Hex, HeaderFront;
      BackFields(front, Hex(fileLen, 8), z, Hex(nameLen, 8), k);
    }
  }

  lemma FrontFields(trailer: bool, k: nat)
    requires k < 6
    ensures HeaderFront(trailer)[6 + 8 * k..14 + 8 * k] == Hex(FieldValue(k, 0, 0, trailer), 8)
  {
    var z := Hex(0, 8);
    var mode := if trailer then z else Hex(0x81A4, 8);
    var nlink := if trailer then Hex(1, 8) else z;
    assert HeaderFront(trailer) == MAGIC + (z + mode + z + z + nlink + z);
    hide Hex, HeaderFront;
    SixPieces(MAGIC, z, mode, z, z, nlink, z, k);
  }

  lemma SixPieces(m: seq<byte>, a: seq<byte>, b: seq<byte>, c: seq<byte>, d: seq<byte>, e: seq<byte>, f: seq<byte>,
                  k: nat)
    requires |m| == 6 && |a| == |b| == |c| == |d| == |e| == |f| == 8 && k < 6
    ensures (m + (a + b + c + d + e + f))[6 + 8 * k..14 + 8 * k] == [a, b, c, d, e, f][k]
  {
    var s := a + b + c + d + e + f;
    assert (m + s)[6 + 8 * k..14 + 8 * k] == s[8 * k..8 * k + 8];
    assert s[0..8] == a && s[8..16] == b && s[16..24] == c && s[24..32] == d && s[32..40] == e && s[40..48] == f;
  }

  lemma BackFields(front: seq<byte>, a: seq<byte>, z: seq<byte>, b: seq<byte>, k: nat)
    requires |front| == 54 && |a| == |z| == |b| == 8 && 6 <= k < 13
    ensures (front + a + (z + z + z + z) + b + z)[6 + 8 * k..14 + 8 * k]
            == if k == 6 then a else if k == 11 then b else z
  {
    FivePieces(front, a, z + z + z + z, b, z);
    if 7 <= k < 11 {
      var s, i := front + a + (z + z + z + z) + b + z, k - 7;
      assert s[6 + 8 * k..14 + 8 * k] == s[62..94][8 * i..8 * i + 8];
      FourTimes(z, i);
    }
  }

  lemma FourTimes(z: seq<byte>, i: nat)
    requires |z| == 8 && i < 4
    ensures (z + z + z + z)[8 * i..8 * i + 8] == z
  {
    var s := z + z + z + z;
    assert s[0..8] == z && s[8..16] == z && s[16..24] == z && s[24..32] == z;
  }

  /** The header carries both lengths at their places. */
  lemma HeaderFields(nameLen: nat, fileLen: nat, trailer: bool)
    requires nameLen < 0x1_0000_0000 && fileLen < 0x1_0000_0000
    ensures var h := Header(nameLen, fileLen, trailer);
      h[..6] == MAGIC && UnHex(h[54..62]) == fileLen && UnHex(h[94..102]) == nameLen
  {
    hide HeaderFront, Hex, UnHex, Pow16;
    var z := Hex(0, 8);
    FivePieces(HeaderFront(trailer), Hex(fileLen, 8), z + z + z + z, Hex(nameLen, 8), z);
    Fits32(fileLen);
    Fits32(nameLen);
    UnHexHex(fileLen, 8);
    UnHexHex(nameLen, 8);
  }

  /** Where the parts of an entry lie, whatever follows it. */
  lemma EntryParts(h: seq<byte>, name: seq<byte>, p: seq<byte>, d: seq<byte>, n: nat, rest: seq<byte>)
    requires |h| == HEADER_SIZE && |p| >= |h| + |name| + 1 && p[..|h| + |name| + 1] == h + name + [0] && n <= |d|
    requires Blank(p, |h| + |name| + 1, |p|) && Blank(d, n, |d|)
    ensures var s := p + d + rest;
      && s[..6] == h[..6] && s[54..62] == h[54..62] && s[94..102] == h[94..102]
      && s[|h|..|h| + |name|] == name && s[|p|..|p| + n] == d[..n] && s[|p| + |d|..] == rest
      && Blank(s, |h| + |name|, |p|) && Blank(s, |p| + n, |p| + |d|)
  {
    assert p[|h| + |name|] == (h + name + [0])[|h| + |name|] == 0;
    var s, head := p + d + rest, h + name + [0];
    assert s[..|head|] == head;
    assert s[..6] == head[..6] && s[54..62] == head[54..62] && s[94..102] == head[94..102];
    assert s[|h|..|h| + |name|] == head[|h|..|h| + |name|];
  }

  /** An entry reads back, whatever follows it. */
  lemma EntryReadsBack(f: File, trailer: bool, rest: seq<byte>)
    requires Small(f)
    ensures ReadEntry(Entry(f.name, f.data, trailer) + rest) == Some((f, rest))
  {
    hide Header, UnHex, Pad, RoundUp;
    var h := Header(|f.name| + 1, |f.data|, trailer);
    RoundUpBounds(HEADER_SIZE + |f.name| + 1, 4);
    RoundUpBounds(|f.data|, 4);
    var p, d := Pad(h + f.name + [0], 4), Pad(f.data, 4);
    HeaderFields(|f.name| + 1, |f.data|, trailer);
    EntryParts(h, f.name, p, d, |f.data|, rest);
  }

  /** The entries of a list of files, one after the other. */
  function Entries(files: seq<File>): (s: seq<byte>) {
    if files == [] then [] else Entry(files[0].name, files[0].data, false) + Entries(files[1..])
  }

  ghost predicate Storable(files: seq<File>) {
    forall i :: 0 <= i < |files| ==> Small(files[i]) && files[i].name != TRAILER
  }

  /** An archive reads back as its files, whatever follows the trailer. */
  lemma {:induction false} ArchiveReadsBack(files: seq<File>, rest: seq<byte>)
    requires Storable(files)
    ensures ReadArchive(Entries(files) + Entry(TRAILER, [], true) + rest) == Some(files)
    decreases |files|
  {
    hide Entry, ReadEntry;
    var t := Entry(TRAILER, [], true);
    if files == [] {
      EntryReadsBack(File(TRAILER, []), true, rest);
      assert [] + t + rest == t + rest;
    } else {
      var f, more := files[0], files[1..];
      ArchiveReadsBack(more, rest);
      EntryReadsBack(f, false, Entries(more) + t + rest);
      var e := Entry(f.name, f.data, false);
      assert e + Entries(more) + t + rest == e + (Entries(more) + t + rest);
      assert files == [f] + more;
    }
  }

  /** Four octets, low one first. */
  function LE32(v: nat): (s: seq<byte>)
    requires v < 0x1_0000_0000
    ensures |s| == 4
  {
    LE16(v % 0x1_0000) + LE16(v / 0x1_0000)
  }

  function UnLE32(s: seq<byte>): (v: nat)
    requires |s| == 4
  {
    s[0] as nat + 0x100 * s[1] as nat + 0x1_0000 * s[2] as nat + 0x100_0000 * s[3] as nat
  }

  lemma UnLE32Reads(v: nat)
    requires v < 0x1_0000_0000
    ensures UnLE32(LE32(v)) == v
  {
  }

  /** Chip parameters: three zeros, then chip, block, sector and page size and the status mask. */
  function FlashParams(flashSize: nat): (s: seq<byte>)
    requires flashSize < 0x1_0000_0000
    ensures |s| == 32
  {
    LE32(0) + LE32(0) + LE32(0) + LE32(flashSize) + LE32(0x1_0000) + LE32(0x1000) + LE32(0x100) + LE32(0xFFFF)
  }

  /** A reader finds these chip parameters: the chip size, and the sizes of block, sector and page, and the mask. */
  ghost predicate ReadsAsChip(s: seq<byte>, flashSize: nat) {
    && |s| == 32 && UnLE32(s[0..4]) == UnLE32(s[4..8]) == UnLE32(s[8..12]) == 0 && UnLE32(s[12..16]) == flashSize
    && UnLE32(s[16..20]) == 0x1_0000 && UnLE32(s[20..24]) == 0x1000 && UnLE32(s[24..28]) == 0x100
    && UnLE32(s[28..32]) == 0xFFFF
  }

  lemma ChipReadsBack(flashSize: nat)
    requires flashSize < 0x1_0000_0000
    ensures ReadsAsChip(FlashParams(flashSize), flashSize)
  {
    UnLE32Reads(0);
    UnLE32Reads(flashSize);
    UnLE32Reads(0x1_0000);
    UnLE32Reads(0x1000);
    UnLE32Reads(0x100);
    UnLE32Reads(0xFFFF);
    hide LE32, UnLE32;
  }

  /** A field of fixed width: cut or filled up with zeros. */
  function Fit(s: seq<byte>, n: nat): (r: seq<byte>)
    ensures |r| == n
  {
    if |s| >= n then s[..n] else s + Zeros(n - |s|)
  }

  /** An index record. */
  datatype Info = Info(address: nat, flags: nat, name: seq<byte>, md5: seq<byte>) {
    predicate Valid() { address < 0x1_0000_0000 && flags < 0x1_0000_0000 }

    /** What a reader is to find. */
    function View(): (r: Record) { Record(address, flags, Fit(name, 64), Fit(md5, 16)) }
  }

  const INFO_SIZE: nat := 88

  function PackInfo(i: Info): (s: seq<byte>)
    requires i.Valid()
    ensures |s| == INFO_SIZE
  {
    LE32(i.address) + LE32(i.flags) + Fit(i.name, 64) + Fit(i.md5, 16)
  }

  ghost predicate AllValid(index: seq<Info>) {
    forall i :: 0 <= i < |index| ==> index[i].Valid()
  }

  function PackIndex(index: seq<Info>): (s: seq<byte>)
    requires forall i :: 0 <= i < |index| ==> index[i].Valid()
    ensures |s| == INFO_SIZE * |index|
  {
    if index == [] then [] else PackInfo(index[0]) + PackIndex(index[1..])
  }

  /** An index record as a reader finds it. */
  datatype Record = Record(address: nat, flags: nat, name: seq<byte>, md5: seq<byte>)

  function ReadIndex(s: seq<byte>): (r: seq<Record>) {
    if |s| < INFO_SIZE then []
    else [Record(UnLE32(s[..4]), UnLE32(s[4..8]), s[8..72], s[72..88])] + ReadIndex(s[INFO_SIZE..])
  }

  function IndexView(index: seq<Info>): (r: seq<Record>)
    ensures |r| == |index|
  {
    seq(|index|, k requires 0 <= k < |index| => index[k].View())
  }

  lemma InfoParts(a: seq<byte>, b: seq<byte>, c: seq<byte>, d: seq<byte>, rest: seq<byte>)
    requires |a| == |b| == 4 && |c| == 64 && |d| == 16
    ensures var s := a + b + c + d + rest;
      s[..4] == a && s[4..8] == b && s[8..72] == c && s[72..88] == d && s[88..] == rest
  {
  }

  lemma {:induction false} IndexReadsBack(index: seq<Info>)
    requires AllValid(index)
    ensures ReadIndex(PackIndex(index)) == IndexView(index)
    decreases |index|
  {
    if index != [] {
      var i, rest := index[0], PackIndex(index[1..]);
      IndexReadsBack(index[1..]);
      UnLE32Reads(i.address);
      UnLE32Reads(i.flags);
      InfoParts(LE32(i.address), LE32(i.flags), Fit(i.name, 64), Fit(i.md5, 16), rest);
      assert PackIndex(index) == PackInfo(i) + rest;
      hide LE32, UnLE32, Fit, PackIndex;
      assert IndexView(index) == [i.View()] + IndexView(index[1..]);
    }
  }

  /** Octets placed at a flash address. */
  function Placed(addr: nat, data: seq<byte>): (m: map<nat, byte>) {
    map x: nat | addr <= x < addr + |data| :: OctetAt(addr, data, x)
  }

  function OctetAt(addr: nat, data: seq<byte>, x: nat): (b: byte)
    requires addr <= x < addr + |data|
  {
    data[x - addr]
  }

  /** Set in the flags of a file that describes the flash chip and is not written to it. */
  const FLAG_PARAM: nat := 4

  /** What one file adds to flash: its octets at its address, unless it is a parameter file. */
  function Written(address: nat, flags: nat, data: seq<byte>): (m: map<nat, byte>) {
    if flags / FLAG_PARAM % 2 == 1 then map[] else Placed(address, data)
  }

  /** What flash holds after the files are written one after the other to the addresses of the index. */
  function FlashOf(index: seq<Info>, files: seq<File>): (m: map<nat, byte>)
    requires |index| == |files|
  {
    if files == [] then map[]
    else
      var last := |files| - 1;
      FlashOf(index[..last], files[..last]) + Written(index[last].address, index[last].flags, files[last].data)
  }

  lemma FlashOneMore(index: seq<Info>, files: seq<File>, i: Info, f: File)
    requires |index| == |files|
    ensures FlashOf(index + [i], files + [f]) == FlashOf(index, files) + Written(i.address, i.flags, f.data)
  {
    assert (index + [i])[..|index|] == index && (files + [f])[..|files|] == files;
  }

  /** Two neighbouring pieces are one piece. */
  lemma PlacedSplit(addr: nat, a: seq<byte>, b: seq<byte>, m: map<nat, byte>)
    ensures m + Placed(addr, a) + Placed(addr + |a|, b) == m + Placed(addr, a + b)
  {
  }

  lemma PlacedNothing(addr: nat, content: seq<byte>, m: map<nat, byte>)
    ensures m == m + Placed(addr, content[..0])
  {
  }

  /** A file to be written to a flash address. */
  datatype Input = Input(addr: nat, name: seq<byte>, content: seq<byte>)

  /** Decimal digits. */
  function Decimal(n: nat): (s: seq<byte>)
    ensures |s| <= 1 + n / 10
  {
    if n < 10 then [48 + n] else Decimal(n / 10) + [48 + n % 10]
  }

  function UnDecimal(s: seq<byte>): (n: int) {
    if s == [] then 0 else 10 * UnDecimal(s[..|s| - 1]) + (s[|s| - 1] as int - 48)
  }

  /** The digits of a number read back, and there is no leading zero. */
  lemma {:induction false} DecimalReads(n: nat)
    ensures UnDecimal(Decimal(n)) == n && Decimal(n) != []
    ensures forall i :: 0 <= i < |Decimal(n)| ==> 48 <= Decimal(n)[i] < 58
    ensures n > 0 ==> Decimal(n)[0] != 48
  {
    var s := Decimal(n);
    if n < 10 {
      assert s[..0] == [];
    } else {
      DecimalReads(n / 10);
      assert s[..|s| - 1] == Decimal(n / 10);
    }
  }

  /** Name of the k-th chunk of a file. */
  function ChunkName(name: seq<byte>, k: nat): (s: seq<byte>)
    ensures name != TRAILER ==> s != TRAILER
    ensures |s| <= |name| + 2 + k / 10
  {
    if k == 0 then name else
      var s := name + [46] + Decimal(k);
      assert s[|name|] == 46;
      s
  }

  /** The first chunk has the name of the file, chunk k the name, a dot and the number k. */
  lemma ChunkNameReads(name: seq<byte>, k: nat)
    ensures k == 0 ==> ChunkName(name, k) == name
    ensures k > 0 ==>
      var s := ChunkName(name, k);
      && |s| >= |name| + 2 && s[..|name|] == name && s[|name|] == 46 && UnDecimal(s[|name| + 1..]) == k
      && (forall i :: |name| < i < |s| ==> 48 <= s[i] < 58) && s[|name| + 1] != 48
  {
    if k > 0 {
      DecimalReads(k);
      assert ChunkName(name, k)[|name| + 1..] == Decimal(k);
    }
  }

  /** Chunk j of a file: its name, and the octets from j full chunks on. */
  function ChunkFile(file: Input, part: nat, j: nat): (f: File)
    requires j * part <= |file.content|
  {
    var from, all := j * part, |file.content|;
    File(ChunkName(file.name, j), file.content[from..if from + part < all then from + part else all])
  }

  /** This is chunk j of a file, recorded at its address. */
  ghost predicate IsChunk(file: Input, part: nat, j: nat, f: File, i: Info) {
    j * part < |file.content| && f == ChunkFile(file, part, j) && i.address == file.addr + j * part && i.flags == 0
  }

  /** From place n on, the files and the index hold the first k chunks of a file. */
  ghost predicate ChunksFrom(file: Input, part: nat, files: seq<File>, index: seq<Info>, n: nat, k: nat) {
    n + k <= |files| == |index| && forall j: nat :: j < k ==> HoldsChunk(file, part, files, index, n, j)
  }

  ghost predicate HoldsChunk(file: Input, part: nat, files: seq<File>, index: seq<Info>, n: nat, j: nat) {
    n + j < |files| == |index| && IsChunk(file, part, j, files[n + j], index[n + j])
  }

  lemma ChunksMore(file: Input, part: nat, files: seq<File>, index: seq<Info>, n: nat, k: nat, f: File, i: Info)
    requires ChunksFrom(file, part, files, index, n, k) && |files| == n + k && IsChunk(file, part, k, f, i)
    ensures ChunksFrom(file, part, files + [f], index + [i], n, k + 1)
  {
    hide IsChunk;
    forall j: nat | j < k + 1
      ensures HoldsChunk(file, part, files + [f], index + [i], n, j)
    {
      assert j < k ==> HoldsChunk(file, part, files, index, n, j);
    }
  }

  /** Entries, index records and files belong together. */
  ghost predicate Matched(entries: seq<seq<byte>>, index: seq<Info>, files: seq<File>, md5: seq<byte> -> seq<byte>) {
    && |entries| == |index| == |files| && AllValid(index)
    && (forall k :: 0 <= k < |files| ==> entries[k] == Entry(files[k].name, files[k].data, false))
    && (forall k :: 0 <= k < |files| ==> index[k].name == files[k].name && index[k].md5 == md5(files[k].data))
  }

  lemma MatchedMore(entries: seq<seq<byte>>, index: seq<Info>, files: seq<File>, md5: seq<byte> -> seq<byte>, f: File,
                    i: Info)
    requires Matched(entries, index, files, md5) && i.Valid() && i.name == f.name && i.md5 == md5(f.data)
    ensures Matched(entries + [Entry(f.name, f.data, false)], index + [i], files + [f], md5)
  {
    hide Entry;
  }

  /** Number of chunks of a file; nothing is read in chunks of size 0. */
  function ChunkCount(n: nat, part: nat): (k: nat) {
    if part == 0 then 0 else (n + part - 1) / part
  }

  /** After k chunks the position is k full chunks on, or at the end of the file. */
  ghost predicate Filled(pos: nat, k: nat, n: nat, part: nat) {
    if pos < n then pos == k * part else (k == 0 && n == 0) || (k > 0 && (k - 1) * part < n <= k * part)
  }

  lemma FilledStep(pos: nat, k: nat, n: nat, part: nat, len: nat)
    requires Filled(pos, k, n, part) && pos + len <= n && len <= part && (len == 0 <==> part == 0 || pos == n)
    requires len > 0 ==> len == part || pos + len == n
    ensures len > 0 ==> Filled(pos + len, k + 1, n, part)
    ensures len == 0 ==> k == ChunkCount(n, part) || (part == 0 && k > 0)
  {
    assert (k + 1) * part == k * part + part;
    if len == 0 && part > 0 {
      if k == 0 {
        DivModUnique(part - 1, 0, part - 1, part);
      } else {
        assert (k - 1) * part == k * part - part;
        DivModUnique(n + part - 1, k, n + part - 1 - k * part, part);
      }
    }
  }

  /** The octets at position pos, the number of chunks before being k, are chunk k. */
  lemma ChunkHere(file: Input, part: nat, pos: nat, k: nat, chunk: seq<byte>, digest: seq<byte>)
    requires Filled(pos, k, |file.content|, part) && pos < |file.content|
    requires chunk == file.content[pos..if pos + part < |file.content| then pos + part else |file.content|]
    ensures var name := ChunkName(file.name, k);
      IsChunk(file, part, k, File(name, chunk), Info(file.addr + pos, 0, name, digest))
  {
    hide ChunkName;
  }

  class Writer {
    const partSize: nat
    const md5: seq<byte> -> seq<byte>
    const crc: seq<byte> -> nat
    const pid: nat
    var entries: seq<seq<byte>>
    var index: seq<Info>
    /** The files added so far. */
    ghost var files: seq<File>

    ghost predicate Valid()
      reads this
      ensures Valid() ==> |index| == |files|
    {
      pid < 0x1_0000 && (forall s :: crc(s) < 0x1_0000_0000) && Matched(entries, index, files, md5)
    }

    constructor (partSize: nat, pid: nat, md5: seq<byte> -> seq<byte>, crc: seq<byte> -> nat)
      requires pid < 0x1_0000 && forall s :: crc(s) < 0x1_0000_0000
      ensures Valid() && files == [] && index == []
      ensures this.partSize == partSize && this.pid == pid && this.md5 == md5 && this.crc == crc
    {
      this.partSize, this.pid, this.md5, this.crc := partSize, pid, md5, crc;
      entries, index, files := [], [], [];
    }

    /** Add one file and its index record. */
    method AddFlashEntry(name: seq<byte>, addr: nat, data: seq<byte>, flags: nat)
      requires Valid() && addr < 0x1_0000_0000 && flags < 0x1_0000_0000
      modifies this
      ensures Valid() && files == old(files) + [File(name, data)]
      ensures index == old(index) + [Info(addr, flags, name, md5(data))]
      ensures FlashOf(index, files) == old(FlashOf(index, files)) + Written(addr, flags, data)
    {
      FlashOneMore(index, files, Info(addr, flags, name, md5(data)), File(name, data));
      MatchedMore(entries, index, files, md5, File(name, data), Info(addr, flags, name, md5(data)));
      hide FlashOf, Placed, Written, Entry, Matched;
      index := index + [Info(addr, flags, name, md5(data))];
      entries := entries + [Entry(name, data, false)];
      files := files + [File(name, data)];
    }

    /** Add the file that describes the flash chip; it is not written to flash. */
    method AddFlashParams(flashSize: nat)
      requires Valid() && flashSize < 0x1_0000_0000
      modifies this
      ensures Valid() && files == old(files) + [File(FLASH_PARAMS, FlashParams(flashSize))]
      ensures index == old(index) + [Info(0, FLAG_PARAM + 8 + 16, FLASH_PARAMS, md5(FlashParams(flashSize)))]
      ensures FlashOf(index, files) == old(FlashOf(index, files))
    {
      assert (FLAG_PARAM + 8 + 16) / FLAG_PARAM % 2 == 1;
      AddFlashEntry(FLASH_PARAMS, 0, FlashParams(flashSize), FLAG_PARAM + 8 + 16);
    }

    /** Everything added so far, plus a file of this name, can be read back. */
    ghost predicate Nameable(name: seq<byte>)
      reads this
    {
      Storable(files) && name != TRAILER && |name| < 0x8000_0000
    }

    /** The first k chunks of a file, `pos` octets, have been added to what `before` and n files were. */
    ghost predicate Partly(file: Input, pos: nat, k: nat, before: map<nat, byte>, n: nat, nameable: bool)
      reads this
      ensures Partly(file, pos, k, before, n, nameable) ==> Valid() && k <= pos <= |file.content|
    {
      && Valid() && k <= pos <= |file.content|
      && FlashOf(index, files) == before + Placed(file.addr, file.content[..pos])
      && |files| == n + k && Filled(pos, k, |file.content|, partSize) && (partSize == 0 ==> k == 0)
      && (nameable ==> Nameable(file.name)) && ChunksFrom(file, partSize, files, index, n, k)
    }

    /** Add the chunk at one position of a file; there is none at the end, or if chunks have size 0. */
    method AddChunk(file: Input, pos: nat, k: nat, ghost before: map<nat, byte>, ghost n: nat, ghost nameable: bool)
      returns (chunk: seq<byte>)
      requires file.addr + |file.content| < 0x1_0000_0000 && Partly(file, pos, k, before, n, nameable)
      modifies this
      ensures pos + |chunk| <= |file.content| && (chunk == [] <==> partSize == 0 || pos == |file.content|)
      ensures Partly(file, pos + |chunk|, if chunk == [] then k else k + 1, before, n, nameable)
      ensures old(files) <= files && old(index) <= index
    {
      hide Placed, FlashOf, Entry, Decimal, Filled, ChunkName, Matched, ChunksFrom, IsChunk, ChunkFile;
      var content := file.content;
      chunk := content[pos..if pos + partSize < |content| then pos + partSize else |content|];
      FilledStep(pos, k, |content|, partSize, |chunk|);
      if chunk != [] {
        PlacedSplit(file.addr, content[..pos], chunk, before);
        assert content[..pos] + chunk == content[..pos + |chunk|];
        var name := ChunkName(file.name, k);
        ChunkHere(file, partSize, pos, k, chunk, md5(chunk));
        ChunksMore(file, partSize, files, index, n, k, File(name, chunk), Info(file.addr + pos, 0, name, md5(chunk)));
        AddFlashEntry(name, file.addr + pos, chunk, 0);
      }
    }

    /** Add a file in chunks; the chunks together place exactly its content at its address. */
    method AddFile(file: Input)
      requires Valid() && file.addr + |file.content| < 0x1_0000_0000
      modifies this
      ensures Valid() && |files| == |old(files)| + ChunkCount(|file.content|, partSize)
      ensures old(files) <= files && old(index) <= index
      ensures ChunksFrom(file, partSize, files, index, |old(files)|, ChunkCount(|file.content|, partSize))
      ensures partSize > 0 ==> FlashOf(index, files) == old(FlashOf(index, files)) + Placed(file.addr, file.content)
      ensures old(Nameable(file.name)) ==> Nameable(file.name)
    {
      hide *;
      ghost var before, n, nameable := FlashOf(index, files), |files|, Nameable(file.name);
      NothingAdded(file);
      var pos: nat, k: nat := 0, 0;
      while true
        invariant Partly(file, pos, k, before, n, nameable) && old(files) <= files && old(index) <= index
        decreases |file.content| - pos
      {
        var chunk := AddChunk(file, pos, k, before, n, nameable);
        if chunk == [] {
          break;
        }
        pos, k := pos + |chunk|, k + 1;
      }
      AllAdded(file, pos, k, before, n, nameable);
    }

    lemma NothingAdded(file: Input)
      requires Valid()
      ensures Partly(file, 0, 0, FlashOf(index, files), |files|, Nameable(file.name))
    {
      hide Placed, FlashOf;
      PlacedNothing(file.addr, file.content, FlashOf(index, files));
    }

    lemma AllAdded(file: Input, pos: nat, k: nat, before: map<nat, byte>, n: nat, nameable: bool)
      requires Partly(file, pos, k, before, n, nameable) && (partSize == 0 || pos == |file.content|)
      ensures |files| == n + ChunkCount(|file.content|, partSize) && (nameable ==> Nameable(file.name))
      ensures ChunksFrom(file, partSize, files, index, n, ChunkCount(|file.content|, partSize))
      ensures partSize > 0 ==> FlashOf(index, files) == before + Placed(file.addr, file.content)
    {
      hide Placed, FlashOf;
      FilledStep(pos, k, |file.content|, partSize, 0);
      assert pos == |file.content| ==> file.content[..pos] == file.content;
    }

    /** Put the index in front and the trailer at the end, pad, and close with the DFU suffix and its checksum. */
    method Finish() returns (out: seq<byte>)
      requires Valid()
      modifies this`entries
      ensures |out| % BLOCK == 16 && ReadsAsDfu(out, pid, crc)
      ensures var n := |Concat(entries)|;
        n <= |out| - 16 < n + BLOCK && out[..n] == Concat(entries) && Blank(out, n, |out| - 16)
      ensures Storable(files) && INFO_SIZE * |files| < 0x1_0000_0000 ==>
        ReadArchive(out) == Some([File(DFUINFO, PackIndex(index))] + files)
    {
      hide Entry, Entries, ReadArchive, Close, Suffix, PackInfo, ReadsAsDfu, LE32;
      ConcatEntries(entries, files);
      ConcatEnds(Entry(DFUINFO, PackIndex(index), false), entries, Entry(TRAILER, [], true));
      var info := PackIndex(index);
      entries := [Entry(DFUINFO, info, false)] + entries;
      entries := entries + [Entry(TRAILER, [], true)];
      out := Close(Concat(entries), pid, crc);
      CloseFacts(Concat(entries), pid, crc);
      SuffixReads(out, pid, crc);
      if Storable(files) && INFO_SIZE * |files| < 0x1_0000_0000 {
        WholeReadsBack(info, files, out);
      }
    }
  }

  /** Pad the archive and add suffix and checksum. */
  function Close(all: seq<byte>, pid: nat, crc: seq<byte> -> nat): (out: seq<byte>)
    requires pid < 0x1_0000 && forall s :: crc(s) < 0x1_0000_0000
  {
    RoundUpBounds(|all|, BLOCK);
    var body := Pad(all, BLOCK) + Suffix(pid);
    body + LE32(crc(body))
  }

  /** Two octets, low one first, as a reader takes them. */
  function Word16(s: seq<byte>, at: nat): (v: nat)
    requires at + 2 <= |s|
  {
    s[at] as nat + 0x100 * s[at + 1] as nat
  }

  /** A reader finds at the end of an image: device 0xFFFF, product and vendor, DFU version 0x0100, "UFD", the length of
      the suffix, and the checksum of everything before it. */
  ghost predicate ReadsAsDfu(out: seq<byte>, pid: nat, crc: seq<byte> -> nat) {
    && |out| >= 16
    && var n := |out|;
       && Word16(out, n - 16) == 0xFFFF && Word16(out, n - 14) == pid && Word16(out, n - 12) == 12346
       && Word16(out, n - 10) == 0x0100 && out[n - 8..n - 5] == [85, 70, 68] && out[n - 5] == 16
       && UnLE32(out[n - 4..]) == crc(out[..n - 4])
  }

  lemma SuffixReads(out: seq<byte>, pid: nat, crc: seq<byte> -> nat)
    requires pid < 0x1_0000 && |out| >= 16 && crc(out[..|out| - 4]) < 0x1_0000_0000
    requires out[|out| - 16..|out| - 4] == Suffix(pid) && out[|out| - 4..] == LE32(crc(out[..|out| - 4]))
    ensures ReadsAsDfu(out, pid, crc)
  {
    UnLE32Reads(crc(out[..|out| - 4]));
    hide LE32, UnLE32;
    var t, n := Suffix(pid), |out|;
    assert forall i :: 0 <= i < 12 ==> out[n - 16 + i] == t[i];
    assert out[n - 8..n - 5] == t[8..11];
  }

  lemma CloseFacts(all: seq<byte>, pid: nat, crc: seq<byte> -> nat)
    requires pid < 0x1_0000 && forall s :: crc(s) < 0x1_0000_0000
    ensures var out := Close(all, pid, crc);
      && |out| >= 16 && |out| % BLOCK == 16 && out[|out| - 16..|out| - 4] == Suffix(pid)
      && out[|out| - 4..] == LE32(crc(out[..|out| - 4])) && all <= out
      && |all| <= |out| - 16 < |all| + BLOCK && Blank(out, |all|, |out| - 16)
  {
    hide Suffix, LE32, RoundUp;
    RoundUpBounds(|all|, BLOCK);
    var p := Pad(all, BLOCK);
    var body := p + Suffix(pid);
    var out := Close(all, pid, crc);
    assert out[..|out| - 4] == body && out[|p|..|p| + 12] == Suffix(pid);
    assert all <= p <= out;
  }

  /** The closed image reads as the index file followed by the files. */
  lemma WholeReadsBack(info: seq<byte>, files: seq<File>, out: seq<byte>)
    requires Storable(files) && |info| < 0x1_0000_0000
    requires Entry(DFUINFO, info, false) + Entries(files) + Entry(TRAILER, [], true) <= out
    ensures ReadArchive(out) == Some([File(DFUINFO, info)] + files)
  {
    hide Entry, ReadArchive;
    var all := [File(DFUINFO, info)] + files;
    var whole := Entry(DFUINFO, info, false) + Entries(files) + Entry(TRAILER, [], true);
    assert all[1..] == files && Storable(all);
    assert out == whole + out[|whole|..];
    ArchiveReadsBack(all, out[|whole|..]);
  }

  const BLOCK: nat := 10240

  /** Device, product and vendor id, DFU version, signature and length of the suffix. */
  function Suffix(pid: nat): (s: seq<byte>)
    requires pid < 0x1_0000
    ensures |s| == 12
  {
    LE16(0xFFFF) + LE16(pid) + LE16(12346) + LE16(0x0100) + [85, 70, 68] + [16]
  }

  lemma {:induction false} ConcatEntries(entries: seq<seq<byte>>, files: seq<File>)
    requires |entries| == |files|
    requires forall k :: 0 <= k < |files| ==> entries[k] == Entry(files[k].name, files[k].data, false)
    ensures Concat(entries) == Entries(files)
    decreases |files|
  {
    hide Entry;
    if files != [] {
      ConcatEntries(entries[1..], files[1..]);
    }
  }

  lemma ConcatEnds(first: seq<byte>, entries: seq<seq<byte>>, last: seq<byte>)
    ensures Concat([first] + entries + [last]) == first + Concat(entries) + last
  {
    ConcatOneMore(entries, last);
    assert ([first] + entries + [last])[1..] == entries + [last];
  }

  /** What flash is to hold: each input at its address, later ones over earlier ones. */
  function Wanted(inputs: seq<Input>): (m: map<nat, byte>) {
    if inputs == [] then map[]
    else Wanted(inputs[..|inputs| - 1]) + Placed(inputs[|inputs| - 1].addr, inputs[|inputs| - 1].content)
  }

  function TotalChunks(inputs: seq<Input>, part: nat): (n: nat) {
    if inputs == [] then 0
    else TotalChunks(inputs[..|inputs| - 1], part) + ChunkCount(|inputs[|inputs| - 1].content|, part)
  }

  lemma NoInputs(inputs: seq<Input>, part: nat)
    ensures Wanted(inputs[..0]) == map[] == FlashOf([], []) && TotalChunks(inputs[..0], part) == 0
  {
  }

  lemma NextInput(inputs: seq<Input>, i: nat, part: nat)
    requires i < |inputs|
    ensures Wanted(inputs[..i + 1]) == Wanted(inputs[..i]) + Placed(inputs[i].addr, inputs[i].content)
    ensures TotalChunks(inputs[..i + 1], part) == TotalChunks(inputs[..i], part) + ChunkCount(|inputs[i].content|, part)
  {
    hide Placed, ChunkCount;
    assert inputs[..i + 1][..i] == inputs[..i];
  }

  /** What a reader writes to flash: each file at the address its index record gives. */
  function Rebuilt(view: seq<Record>, files: seq<File>): (m: map<nat, byte>)
    requires |view| == |files|
  {
    if files == [] then map[]
    else
      var last := |files| - 1;
      Rebuilt(view[..last], files[..last]) + Written(view[last].address, view[last].flags, files[last].data)
  }

  lemma {:induction false} RebuiltIsFlash(index: seq<Info>, files: seq<File>)
    requires |index| == |files|
    ensures Rebuilt(IndexView(index), files) == FlashOf(index, files)
    decreases |files|
  {
    if files != [] {
      var last := |files| - 1;
      RebuiltIsFlash(index[..last], files[..last]);
      assert IndexView(index)[..last] == IndexView(index[..last]);
    }
  }

  /** Chunk j of input i is where it belongs: behind the chip parameters and the chunks of the inputs before. */
  ghost predicate InPlace(files: seq<File>, view: seq<Record>, inputs: seq<Input>, part: nat, i: nat, j: nat)
    requires i < |inputs|
  {
    var at := 1 + TotalChunks(inputs[..i], part) + j;
    j < ChunkCount(|inputs[i].content|, part) ==>
      && at < |files| == |view| && j * part < |inputs[i].content| && files[at] == ChunkFile(inputs[i], part, j)
      && view[at].address == inputs[i].addr + j * part && view[at].flags == 0
  }

  ghost predicate Listed(files: seq<File>, view: seq<Record>, inputs: seq<Input>, part: nat) {
    forall i: nat, j: nat :: i < |inputs| ==> InPlace(files, view, inputs, part, i, j)
  }

  lemma ListedMore(files: seq<File>, index: seq<Info>, files': seq<File>, index': seq<Info>, inputs: seq<Input>,
                   part: nat, n: nat)
    requires n < |inputs| && files <= files' && index <= index' && |files| == |index| && |files'| == |index'|
    requires |files| == 1 + TotalChunks(inputs[..n], part) && Listed(files, IndexView(index), inputs[..n], part)
    requires ChunksFrom(inputs[n], part, files', index', |files|, ChunkCount(|inputs[n].content|, part))
    ensures Listed(files', IndexView(index'), inputs[..n + 1], part)
  {
    var view, view', now := IndexView(index), IndexView(index'), inputs[..n + 1];
    hide ChunkCount, ChunkFile, TotalChunks;
    forall i: nat, j: nat | i < n + 1
      ensures InPlace(files', view', now, part, i, j)
    {
      assert now[..i] == inputs[..i] && now[i] == inputs[i];
      if i < n {
        assert InPlace(files, view, inputs[..n], part, i, j);
        assert inputs[..n][..i] == inputs[..i];
      } else if j < ChunkCount(|inputs[n].content|, part) {
        assert HoldsChunk(inputs[n], part, files', index', |files|, j);
      }
    }
  }

  /** The image reads as an index file followed by one file per index record, and a reader that follows the index finds
      right digests and puts every input at its flash address. */
  ghost predicate Faithful(out: seq<byte>, inputs: seq<Input>, md5: seq<byte> -> seq<byte>) {
    match ReadArchive(out)
    case None => false
    case Some(all) =>
      && all != [] && all[0].name == DFUINFO
      && var view := ReadIndex(all[0].data);
         && |view| == |all| - 1
         && (forall k :: 0 <= k < |view| ==> view[k].name == Fit(all[k + 1].name, 64))
         && (forall k :: 0 <= k < |view| ==> view[k].md5 == Fit(md5(all[k + 1].data), 16))
         && Rebuilt(view, all[1..]) == Wanted(inputs)
  }

  lemma FaithfulImage(out: seq<byte>, index: seq<Info>, files: seq<File>, inputs: seq<Input>,
                      md5: seq<byte> -> seq<byte>)
    requires AllValid(index) && |index| == |files|
    requires forall k :: 0 <= k < |files| ==> index[k].name == files[k].name && index[k].md5 == md5(files[k].data)
    requires ReadArchive(out) == Some([File(DFUINFO, PackIndex(index))] + files)
    requires FlashOf(index, files) == Wanted(inputs)
    ensures Faithful(out, inputs, md5)
  {
    hide ReadArchive, Wanted, FlashOf, PackIndex, ReadIndex, Rebuilt;
    var all := [File(DFUINFO, PackIndex(index))] + files;
    assert all[1..] == files;
    IndexReadsBack(index);
    RebuiltIsFlash(index, files);
  }

  /** Right behind its index the image carries the chip parameters, marked as not to be written, and then all chunks of
      the inputs in order, each under its name and at its address. */
  ghost predicate Described(out: seq<byte>, flashSize: nat, inputs: seq<Input>, part: nat) {
    match ReadArchive(out)
    case None => false
    case Some(all) =>
      && |all| > 1
      && var view := ReadIndex(all[0].data);
         && |view| > 0 && view[0].address == 0 && view[0].flags == 0x1C
         && all[1].name == FLASH_PARAMS && ReadsAsChip(all[1].data, flashSize)
         && Listed(all[1..], view, inputs, part)
  }

  lemma DescribedImage(out: seq<byte>, index: seq<Info>, files: seq<File>, inputs: seq<Input>, part: nat,
                       flashSize: nat)
    requires AllValid(index) && |index| == |files| > 0 && flashSize < 0x1_0000_0000
    requires ReadArchive(out) == Some([File(DFUINFO, PackIndex(index))] + files)
    requires files[0] == File(FLASH_PARAMS, FlashParams(flashSize)) && index[0].address == 0 && index[0].flags == 28
    requires Listed(files, IndexView(index), inputs, part)
    ensures Described(out, flashSize, inputs, part)
  {
    ChipReadsBack(flashSize);
    IndexReadsBack(index);
    hide ReadArchive, PackIndex, ReadIndex, ReadsAsChip, FlashParams, Listed;
    var all := [File(DFUINFO, PackIndex(index))] + files;
    assert all[1..] == files;
  }

  /** From input files to the finished image. */
  method MakeImage(inputs: seq<Input>, flashSize: nat, partSize: nat, pid: nat,
                   md5: seq<byte> -> seq<byte>, crc: seq<byte> -> nat) returns (out: seq<byte>)
    requires pid < 0x1_0000 && flashSize < 0x1_0000_0000 && forall s :: crc(s) < 0x1_0000_0000
    requires forall i :: 0 <= i < |inputs| ==> inputs[i].addr + |inputs[i].content| < 0x1_0000_0000
    ensures |out| % BLOCK == 16 && ReadsAsDfu(out, pid, crc)
    ensures partSize > 0 && INFO_SIZE * (1 + TotalChunks(inputs, partSize)) < 0x1_0000_0000
      && (forall i :: 0 <= i < |inputs| ==> inputs[i].name != TRAILER && |inputs[i].name| < 0x8000_0000)
      ==> Faithful(out, inputs, md5) && Described(out, flashSize, inputs, partSize)
  {
    hide FlashOf, Placed, Entry, Wanted, TotalChunks, ReadArchive, Faithful, ChunkCount, FlashParams, Listed;
    hide ChunksFrom;
    var w := new Writer(partSize, pid, md5, crc);
    ghost var named := forall i :: 0 <= i < |inputs| ==> inputs[i].name != TRAILER && |inputs[i].name| < 0x8000_0000;
    NoInputs(inputs, partSize);
    w.AddFlashParams(flashSize);
    assert Small(w.files[0]) && w.files[0].name != TRAILER;
    ghost var files, index := w.files, w.index;
    NothingListed(files, IndexView(index), inputs[..0], partSize);
    for i := 0 to |inputs|
      invariant w.Valid() && fresh(w) && w.partSize == partSize && w.pid == pid && w.md5 == md5 && w.crc == crc
      invariant partSize > 0 ==> FlashOf(w.index, w.files) == Wanted(inputs[..i])
      invariant |w.files| == 1 + TotalChunks(inputs[..i], partSize)
      invariant files <= w.files && index <= w.index
      invariant named ==> Storable(w.files)
      invariant Listed(w.files, IndexView(w.index), inputs[..i], partSize)
    {
      NextInput(inputs, i, partSize);
      ghost var wasFiles, wasIndex := w.files, w.index;
      w.AddFile(inputs[i]);
      ListedMore(wasFiles, wasIndex, w.files, w.index, inputs, partSize, i);
    }
    assert inputs[..|inputs|] == inputs;
    out := w.Finish();
    if partSize > 0 && INFO_SIZE * (1 + TotalChunks(inputs, partSize)) < 0x1_0000_0000 && named {
      FaithfulImage(out, w.index, w.files, inputs, md5);
      DescribedImage(out, w.index, w.files, inputs, partSize, flashSize);
    }
  }

  lemma NothingListed(files: seq<File>, view: seq<Record>, inputs: seq<Input>, part: nat)
    requires inputs == []
    ensures Listed(files, view, inputs, part)
  {
  }
}
