/**
 * The build script's GzipCompressingStream (shared/gzip_compressing_stream.py): a write-only
 * stream that frames deflate output as one gzip member, following section 2.3 of RFC 1952.
 * Deflate itself (zlib.compressobj) is foreign: what it returns for each call is a parameter.
 */
module GzipStream {
  import opened Common

  // ---------------------------------------------------------------- file names

  predicate EndsWith(s: string, suffix: string) {
    |suffix| <= |s| && s[|s| - |suffix|..] == suffix
  }

  /** `__init__`: ".gz" is appended unless the name already ends with it. */
  function GzName(filename: string): (r: string)
    ensures EndsWith(r, ".gz")
    ensures EndsWith(filename, ".gz") <==> r == filename
    ensures !EndsWith(filename, ".gz") ==> r == filename + ".gz"
  {
    if EndsWith(filename, ".gz") then filename
    else
      assert (filename + ".gz")[|filename|..] == ".gz";
      filename + ".gz"
  }

  lemma GzNameIdempotent(filename: string)
    ensures GzName(GzName(filename)) == GzName(filename)
  {
  }

  /** The position just after the last '/', 0 when there is none. */
  function AfterLastSlash(p: string): (r: nat)
    ensures r <= |p|
    ensures forall k :: r <= k < |p| ==> p[k] != '/'
    ensures r > 0 ==> p[r - 1] == '/'
    decreases |p|
  {
    if p == [] then 0
    else if p[|p| - 1] == '/' then |p|
    else AfterLastSlash(p[..|p| - 1])
  }

  /** os.path.basename on POSIX: the part after the last '/'. */
  function BaseName(p: string): (r: string)
    ensures '/' !in r
    ensures EndsWith(p, r)
  {
    var i := AfterLastSlash(p);
    assert forall k :: 0 <= k < |p[i..]| ==> p[i..][k] == p[i + k];
    p[i..]
  }

  /** `s[:-3]`: all but the last three characters, empty when there are fewer. */
  function DropLast3(s: string): (r: string)
    ensures |r| == if |s| < 3 then 0 else |s| - 3
  {
    if |s| < 3 then [] else s[..|s| - 3]
  }

  /** The name stored in the header: the base name of the ".gz" file without its ".gz". */
  function StoredName(gzName: string): string {
    DropLast3(BaseName(gzName))
  }

  /** `str.encode('latin-1')`: each code point below 256 becomes one byte; any other fails. */
  function Latin1(s: string): (r: Option<seq<byte>>)
    ensures r.Some? ==> |r.value| == |s|
    ensures r.Some? <==> forall k :: 0 <= k < |s| ==> s[k] as int < 256
    decreases |s|
  {
    if s == [] then Some([])
    else if s[0] as int >= 256 then None
    else
      match Latin1(s[1..])
      case None => None
      case Some(rest) => Some([s[0] as int] + rest)
  }

  // ---------------------------------------------------------------- header

  const ID1: byte := 0x1f
  const ID2: byte := 0x8b
  const CM_DEFLATE: byte := 8
  const FNAME: byte := 0x08
  const OS_UNKNOWN: byte := 0xff

  /** XFL: 2 for level 9 (maximum compression), 4 for level 1 (fastest), 0 otherwise. */
  function ExtraFlags(compresslevel: int): byte {
    if compresslevel == 9 then 2 else if compresslevel == 1 then 4 else 0
  }

  /** The header for a stored name: FNAME and the NUL-terminated name when the name is non-empty. */
  function HeaderFor(name: seq<byte>, compresslevel: int): (h: seq<byte>)
    ensures |h| == 10 + (if name == [] then 0 else |name| + 1)
  {
    [ID1, ID2, CM_DEFLATE] + [if name != [] then FNAME else 0] + [0, 0, 0, 0]
    + [ExtraFlags(compresslevel)] + [OS_UNKNOWN] + (if name != [] then name + [0] else [])
  }

  /**
   * `_write_gzip_header` as the `except` branch evidently intends: a name that latin-1 cannot
   * encode is dropped and the header carries no FNAME.
   */
  function Header(gzName: string, compresslevel: int): seq<byte> {
    var name := Latin1(StoredName(gzName));
    HeaderFor(if name.Some? then name.value else [], compresslevel)
  }

  /** How `_write_gzip_header` ends: the header it wrote, or the exception it raised. */
  datatype HeaderOutcome = Wrote(header: seq<byte>) | Raised(partial: seq<byte>, error: string)

  /**
   * `_write_gzip_header` as written: its `except` branch formats `self.name`, which the stream
   * (an io.RawIOBase) does not have, so an unencodable name raises AttributeError after the
   * three magic bytes.
   */
  function HeaderAsWritten(gzName: string, compresslevel: int): HeaderOutcome {
    var name := Latin1(StoredName(gzName));
    if name.None? then Raised([ID1, ID2, CM_DEFLATE], "AttributeError")
    else Wrote(HeaderFor(name.value, compresslevel))
  }

  /** The two agree on every name latin-1 can encode. */
  lemma HeaderAsWrittenAgrees(gzName: string, compresslevel: int)
    requires Latin1(StoredName(gzName)).Some?
    ensures HeaderAsWritten(gzName, compresslevel) == Wrote(Header(gzName, compresslevel))
  {
  }

  /** A stream for "caf\u{20ac}.bin" cannot be created as written; the intended header has no name. */
  lemma HeaderAsWrittenRaises()
    ensures HeaderAsWritten("caf\U{20ac}.bin.gz", 9).Raised?
    ensures Header("caf\U{20ac}.bin.gz", 9) == [0x1f, 0x8b, 8, 0, 0, 0, 0, 0, 2, 0xff]
  {
    var gz := "caf\U{20ac}.bin.gz";
    assert AfterLastSlash(gz) == 0;
    assert BaseName(gz) == gz;
    assert StoredName(gz) == "caf\U{20ac}.bin";
    assert StoredName(gz)[3] as int >= 256;
  }

  /** The fixed fields of section 2.3.1 of RFC 1952, at their offsets. */
  lemma HeaderFields(name: seq<byte>, compresslevel: int)
    ensures var h := HeaderFor(name, compresslevel);
      && h[0] == 0x1f && h[1] == 0x8b && h[2] == 8
      && (h[3] == FNAME <==> name != []) && (h[3] == 0 <==> name == [])
      && h[4..8] == [0, 0, 0, 0]
      && h[8] == ExtraFlags(compresslevel) && h[9] == 0xff
      && (name != [] ==> h[10..] == name + [0])
  {
  }

  /** The header fields a reader takes from the front of a member. */
  datatype HeaderInfo = HeaderInfo(flags: byte, extraFlags: byte, os: byte, name: seq<byte>)

  /** The position of the first 0 byte at or after `i`, or |s|. */
  function ZeroFrom(s: seq<byte>, i: nat): (r: nat)
    requires i <= |s|
    ensures i <= r <= |s|
    ensures forall k :: i <= k < r ==> s[k] != 0
    ensures r < |s| ==> s[r] == 0
    decreases |s| - i
  {
    if i == |s| || s[i] == 0 then i else ZeroFrom(s, i + 1)
  }

  /**
   * A reader of section 2.3 of RFC 1952 restricted to the fields this writer can set: the magic
   * bytes and method, FLG (only FNAME), MTIME, XFL, OS and a NUL-terminated name; returns the
   * header fields and where the compressed data starts.
   */
  function ReadHeader(s: seq<byte>): Option<(HeaderInfo, nat)> {
    if |s| < 10 || s[0] != ID1 || s[1] != ID2 || s[2] != CM_DEFLATE || (s[3] != 0 && s[3] != FNAME) then None
    else if s[3] == 0 then Some((HeaderInfo(0, s[8], s[9], []), 10))
    else
      var z := ZeroFrom(s, 10);
      if z == |s| then None else Some((HeaderInfo(FNAME, s[8], s[9], s[10..z]), z + 1))
  }

  predicate ZeroFree(s: seq<byte>) {
    forall k :: 0 <= k < |s| ==> s[k] != 0
  }

  /** What the writer puts in front of any data, the reader takes back, name included. */
  lemma ReadHeaderRoundTrip(name: seq<byte>, compresslevel: int, rest: seq<byte>)
    requires ZeroFree(name)
    ensures var h := HeaderFor(name, compresslevel);
      ReadHeader(h + rest)
      == Some((HeaderInfo(if name == [] then 0 else FNAME, ExtraFlags(compresslevel), OS_UNKNOWN, name), |h|))
  {
    var h := HeaderFor(name, compresslevel);
    var s := h + rest;
    if name != [] {
      assert s[10..10 + |name|] == name;
      assert s[10 + |name|] == 0;
      ZeroFromStops(s, 10, 10 + |name|);
    }
  }

  lemma ZeroFromStops(s: seq<byte>, i: nat, z: nat)
    requires i <= z < |s| && s[z] == 0
    requires forall k :: i <= k < z ==> s[k] != 0
    ensures ZeroFrom(s, i) == z
  {
  }

  // ---------------------------------------------------------------- CRC-32

  /** One bit of the reflected CRC-32 of ISO 3309 (polynomial 0xEDB88320), as zlib computes it. */
  function CrcShift(c: bv32, bits: nat): bv32
    decreases bits
  {
    if bits == 0 then c
    else CrcShift(if c & 1 == 1 then (c >> 1) ^ 0xEDB88320 else c >> 1, bits - 1)
  }

  /** One byte: xored into the low end of the register, then eight shifts. */
  function CrcByte(c: bv32, b: byte): bv32 {
    CrcShift(c ^ (b as bv32), 8)
  }

  function CrcRegister(c: bv32, data: seq<byte>): bv32
    decreases |data|
  {
    if data == [] then c else CrcRegister(CrcByte(c, data[0]), data[1..])
  }

  /** The register is inverted before the first byte and after the last. */
  function Invert(c: bv32): bv32 {
    c ^ 0xFFFF_FFFF
  }

  lemma InvertTwice(c: bv32)
    ensures Invert(Invert(c)) == c
  {
  }

  /** `zlib.crc32(data, value)`: continues the CRC `value` over `data`. */
  function Crc32(data: seq<byte>, value: bv32): bv32 {
    Invert(CrcRegister(Invert(value), data))
  }

  lemma {:induction false} CrcRegisterAppend(c: bv32, a: seq<byte>, b: seq<byte>)
    ensures CrcRegister(c, a + b) == CrcRegister(CrcRegister(c, a), b)
    decreases |a|
  {
    if a == [] {
      assert a + b == b;
    } else {
      assert (a + b)[0] == a[0] && (a + b)[1..] == a[1..] + b;
      CrcRegisterAppend(CrcByte(c, a[0]), a[1..], b);
    }
  }

  /** Feeding the data in pieces, each call continuing from the last value, is one call over all of it. */
  lemma Crc32Continues(a: seq<byte>, b: seq<byte>, value: bv32)
    ensures Crc32(b, Crc32(a, value)) == Crc32(a + b, value)
  {
    InvertTwice(CrcRegister(Invert(value), a));
    CrcRegisterAppend(Invert(value), a, b);
  }

  lemma CheckFirstBytes()
    ensures CrcByte(0xFFFF_FFFF, 0x31) == 0x7C23_1048
    ensures CrcByte(0x7C23_1048, 0x32) == 0xB0AC_BB32
    ensures CrcByte(0xB0AC_BB32, 0x33) == 0x77B7_9C2D
  {
  }

  lemma CheckMiddleBytes()
    ensures CrcByte(0x77B7_9C2D, 0x34) == 0x641C_1F5C
    ensures CrcByte(0x641C_1F5C, 0x35) == 0x340A_C5E3
    ensures CrcByte(0x340A_C5E3, 0x36) == 0xF68D_2C9E
  {
  }

  lemma CheckLastBytes()
    ensures CrcByte(0xF68D_2C9E, 0x37) == 0xAFFC_9660
    ensures CrcByte(0xAFFC_9660, 0x38) == 0x651F_2550
    ensures CrcByte(0x651F_2550, 0x39) == 0x340B_C6D9
  {
  }

  /** The check value of CRC-32: "123456789" gives 0xCBF43926. */
  lemma Crc32CheckValue()
    ensures Crc32([0x31, 0x32, 0x33, 0x34, 0x35, 0x36, 0x37, 0x38, 0x39], 0) == 0xCBF4_3926
  {
    var first, middle, last := [0x31, 0x32, 0x33], [0x34, 0x35, 0x36], [0x37, 0x38, 0x39];
    assert [0x31, 0x32, 0x33, 0x34, 0x35, 0x36, 0x37, 0x38, 0x39] == first + middle + last;
    CheckFirstBytes();
    CrcRegisterThree(0xFFFF_FFFF, 0x31, 0x32, 0x33);
    CheckMiddleBytes();
    CrcRegisterThree(0x77B7_9C2D, 0x34, 0x35, 0x36);
    CheckLastBytes();
    CrcRegisterThree(0xF68D_2C9E, 0x37, 0x38, 0x39);
    CrcRegisterAppend(0xFFFF_FFFF, first, middle);
    CrcRegisterAppend(0xFFFF_FFFF, first + middle, last);
    assert Invert(0) == 0xFFFF_FFFF && Invert(0x340B_C6D9) == 0xCBF4_3926;
  }

  lemma CrcRegisterThree(c: bv32, x: byte, y: byte, z: byte)
    ensures CrcRegister(c, [x, y, z]) == CrcByte(CrcByte(CrcByte(c, x), y), z)
  {
    assert [x, y, z][1..] == [y, z] && [y, z][1..] == [z] && [z][1..] == [];
    assert CrcRegister(c, [x, y, z]) == CrcRegister(CrcByte(c, x), [y, z]);
    assert CrcRegister(CrcByte(c, x), [y, z]) == CrcRegister(CrcByte(CrcByte(c, x), y), [z]);
  }

  // ---------------------------------------------------------------- trailer fields

  const TWO_POW_32: nat := 0x1_0000_0000

  /** `struct.pack("<L", x)` for `x` below 2^32: four bytes, least significant first. */
  function LittleEndian32(x: nat): (r: seq<byte>)
    requires x < TWO_POW_32
    ensures |r| == 4
  {
    [x % 256, (x / 256) % 256, (x / 65536) % 256, x / 16777216]
  }

  /** `struct.pack("<L", self.crc)`. */
  function CrcBytes(crc: bv32): (r: seq<byte>)
    ensures |r| == 4
  {
    LittleEndian32(crc as nat)
  }

  function ReadLittleEndian32(s: seq<byte>): nat
    requires |s| == 4
  {
    s[0] as int + 256 * s[1] as int + 65536 * s[2] as int + 16777216 * s[3] as int
  }

  lemma LittleEndian32RoundTrip(x: nat)
    requires x < TWO_POW_32
    ensures ReadLittleEndian32(LittleEndian32(x)) == x
  {
  }

  // ---------------------------------------------------------------- the stream

  /** The `data` argument of `write`. */
  datatype Data = Bytes(bytes: seq<byte>) | ByteArray(bytes: seq<byte>) | Str(text: string) | Other

  /** UTF-8 of one code point: one to four bytes. */
  function Utf8(c: char): (r: seq<byte>)
    ensures 1 <= |r| <= 4
    ensures |r| == 1 <==> c as int < 0x80
  {
    var n := c as int;
    if n < 0x80 then [n]
    else if n < 0x800 then [0xC0 + n / 64, 0x80 + n % 64]
    else if n < 0x10000 then [0xE0 + n / 4096, 0x80 + (n / 64) % 64, 0x80 + n % 64]
    else [0xF0 + n / 262144, 0x80 + (n / 4096) % 64, 0x80 + (n / 64) % 64, 0x80 + n % 64]
  }

  /** `str.encode("utf-8")`: never shorter than the text, as long as it when all of it is ASCII. */
  function EncodeUtf8(s: string): (r: seq<byte>)
    ensures |r| >= |s|
    ensures (forall k :: 0 <= k < |s| ==> s[k] as int < 0x80) ==> |r| == |s|
    decreases |s|
  {
    if s == [] then [] else Utf8(s[0]) + EncodeUtf8(s[1..])
  }

  /** The bytes `write` accounts for: the encoded text, or the bytes themselves. */
  function Payload(data: Data): seq<byte>
    requires !data.Other?
  {
    if data.Str? then EncodeUtf8(data.text) else data.bytes
  }

  datatype WriteResult = Written(length: nat) | ValueError(message: string)

  class CompressingStream {
    /** What has gone to the output file. */
    var output: seq<byte>
    var size: nat
    var crc: bv32
    var closed: bool
    /** Every byte accounted for by `write`, in order. */
    ghost var input: seq<byte>

    ghost predicate Valid()
      reads this
    {
      size == |input| && crc == Crc32(input, 0)
    }

    /**
     * `__init__`: the ".gz" name is opened, the CRC starts at `zlib.crc32(b'')` (0) and the
     * header is written.
     */
    constructor (filename: string, compresslevel: int)
      ensures Valid() && !closed && input == [] && size == 0 && crc == 0
      ensures output == Header(GzName(filename), compresslevel)
    {
      output := Header(GzName(filename), compresslevel);
      size := 0;
      crc := Crc32([], 0);
      closed := false;
      input := [];
    }

    /**
     * `write`: ValueError on a closed stream or an unsupported type; otherwise the length of the
     * payload, and a non-empty payload's deflate output `deflated` goes to the file while size
     * and CRC take the payload in.
     */
    method Write(data: Data, deflated: seq<byte>) returns (result: WriteResult)
      requires Valid()
      modifies this
      ensures Valid() && closed == old(closed)
      ensures old(closed) ==> result == ValueError("Cannot write to closed file") && unchanged(this)
      ensures !old(closed) && data.Other? ==> result == ValueError("Can only write bytes, bytearray, or str")
                                              && unchanged(this)
      ensures !old(closed) && !data.Other? ==>
                && result == Written(|Payload(data)|)
                && input == old(input) + Payload(data)
                && size == old(size) + |Payload(data)|
                && output == old(output) + (if |Payload(data)| > 0 then deflated else [])
    {
      if closed {
        return ValueError("Cannot write to closed file");
      }
      var bytes: seq<byte>;
      if data.Str? {
        bytes := EncodeUtf8(data.text);
      } else if !data.Other? {
        bytes := data.bytes;
      } else {
        return ValueError("Can only write bytes, bytearray, or str");
      }
      var length := |bytes|;
      if length > 0 {
        Absorb(bytes, deflated);
      } else {
        assert input + bytes == input;
      }
      return Written(length);
    }

    /** Appends the compressed block and folds `bytes` into the size and the running CRC. */
    method Absorb(bytes: seq<byte>, deflated: seq<byte>)
      requires Valid()
      modifies this
      ensures Valid() && closed == old(closed)
      ensures input == old(input) + bytes && size == old(size) + |bytes|
      ensures output == old(output) + deflated
    {
      output := output + deflated;
      size := size + |bytes|;
      Crc32Continues(input, bytes, 0);
      crc := Crc32(bytes, crc);
      input := input + bytes;
    }

    /**
     * `close`: the first call appends the deflate tail `flushed`, then CRC32 and ISIZE (the size
     * modulo 2^32), each as four little-endian bytes; a closed stream is left as it is.
     * `super().close()` calls the overridden `flush`, which writes a Z_SYNC_FLUSH output before
     * `compress.flush()` writes the final one: `flushed` stands for both outputs, in that order.
     */
    method Close(flushed: seq<byte>)
      requires Valid()
      modifies this
      ensures Valid() && closed && input == old(input)
      ensures old(closed) ==> unchanged(this)
      ensures !old(closed) ==>
                output == old(output) + flushed + CrcBytes(crc) + LittleEndian32(size % TWO_POW_32)
    {
      if closed {
        return;
      }
      closed := true;
      output := output + flushed;
      output := output + CrcBytes(crc);
      output := output + LittleEndian32(size % TWO_POW_32);
    }
  }

  /** The trailer of a closed stream: CRC32 of all the input, then its length modulo 2^32. */
  lemma TrailerReadsBack(input: seq<byte>)
    ensures var trailer := CrcBytes(Crc32(input, 0)) + LittleEndian32(|input| % TWO_POW_32);
      && ReadLittleEndian32(trailer[..4]) == Crc32(input, 0) as nat
      && ReadLittleEndian32(trailer[4..]) == |input| % TWO_POW_32
  {
    var a := CrcBytes(Crc32(input, 0));
    var b := LittleEndian32(|input| % TWO_POW_32);
    assert (a + b)[..4] == a && (a + b)[4..] == b;
    LittleEndian32RoundTrip(Crc32(input, 0) as nat);
    LittleEndian32RoundTrip(|input| % TWO_POW_32);
  }
}
