/** The binary formats a module brings with it (src/modules/module.h): the 32-byte
    `ModuleHeader` at the start of the image file, and the `ModuleExportTable` with its
    embedded `ModuleInfo` that the module's data holds at `export_offset`.
    Fields are little-endian 32-bit words as on the i386 target; pointers are 32 bits and
    an enumeration is stored in one word. */
module ModuleImage {
  import opened Kernel

  const Magic: U32 := 0x4D4F4455   // "MODU"
  const HeaderSize: nat := 32      // eight u32 fields
  const InfoSize: nat := 220       // 32 + 16 + 32 + 128 + 3 words
  const SlotCount: nat := 15       // generic function slots
  const InfoOffset: nat := 72      // after init, exit, query and the 15 slots
  const ExportTableSize: nat := 296 // InfoOffset + InfoSize + the private-data pointer

  // ---------------------------------------------------------------- words

  /** The u32 stored little-endian at `s[off..off+4]`. */
  function ReadWord(s: seq<Byte>, off: nat): (w: U32)
    requires off + 4 <= |s|
  {
    var b0: int, b1: int, b2: int, b3: int := s[off], s[off + 1], s[off + 2], s[off + 3];
    b0 + 256 * b1 + 65536 * b2 + 16777216 * b3
  }

  function EncodeWord(w: U32): (s: seq<Byte>)
    ensures |s| == 4
  {
    [w % 256, (w / 256) % 256, (w / 65536) % 256, w / 16777216]
  }

  lemma ReadEncodeWord(w: U32, rest: seq<Byte>)
    ensures ReadWord(EncodeWord(w) + rest, 0) == w
  {
    var s := EncodeWord(w) + rest;
    var q1 := w / 256;
    var q2 := q1 / 256;
    assert w / 65536 == q2;
    assert w / 16777216 == q2 / 256;
    assert w == w % 256 + 256 * q1;
    assert q1 == q1 % 256 + 256 * q2;
    assert q2 == q2 % 256 + 256 * (q2 / 256);
  }

  lemma EncodeReadWord(s: seq<Byte>, off: nat)
    requires off + 4 <= |s|
    ensures EncodeWord(ReadWord(s, off)) == s[off..off + 4]
  {
    var w := ReadWord(s, off);
    var a: int, b: int, c: int, d: int := s[off], s[off + 1], s[off + 2], s[off + 3];
    assert w == a + 256 * (b + 256 * (c + 256 * d));
    assert w % 256 == a && w / 256 == b + 256 * (c + 256 * d);
    var q1 := w / 256;
    assert q1 % 256 == b && q1 / 256 == c + 256 * d;
    assert w / 65536 == q1 / 256;
    var q2 := q1 / 256;
    assert q2 % 256 == c && q2 / 256 == d;
    assert w / 16777216 == q2 / 256;
  }

  /** `n` consecutive words starting at `off`. */
  function ReadWords(s: seq<Byte>, off: nat, n: nat): (ws: seq<U32>)
    requires off + 4 * n <= |s|
    ensures |ws| == n
  {
    seq(n, k requires 0 <= k < n => ReadWord(s, off + 4 * k))
  }

  function EncodeWords(ws: seq<U32>): (s: seq<Byte>)
    ensures |s| == 4 * |ws|
  {
    if ws == [] then [] else EncodeWord(ws[0]) + EncodeWords(ws[1..])
  }

  /** Word `k` of an encoding reads back as the k-th value, whatever follows it. */
  lemma {:induction false} ReadEncodedWord(ws: seq<U32>, rest: seq<Byte>, k: nat)
    requires k < |ws|
    ensures ReadWord(EncodeWords(ws) + rest, 4 * k) == ws[k]
  {
    var tail := EncodeWords(ws[1..]) + rest;
    assert EncodeWords(ws) + rest == EncodeWord(ws[0]) + tail;
    if k == 0 {
      ReadEncodeWord(ws[0], tail);
    } else {
      ReadEncodedWord(ws[1..], rest, k - 1);
      assert ReadWord(EncodeWord(ws[0]) + tail, 4 * k) == ReadWord(tail, 4 * (k - 1));
    }
  }

  lemma ReadEncodedWords(ws: seq<U32>, rest: seq<Byte>)
    ensures ReadWords(EncodeWords(ws) + rest, 0, |ws|) == ws
  {
    forall k | 0 <= k < |ws|
      ensures ReadWords(EncodeWords(ws) + rest, 0, |ws|)[k] == ws[k]
    {
      ReadEncodedWord(ws, rest, k);
    }
  }

  lemma {:induction false} EncodeReadWords(s: seq<Byte>, off: nat, n: nat)
    requires off + 4 * n <= |s|
    ensures EncodeWords(ReadWords(s, off, n)) == s[off..off + 4 * n]
    decreases n
  {
    if n > 0 {
      var ws := ReadWords(s, off, n);
      assert ws[1..] == ReadWords(s, off + 4, n - 1);
      EncodeReadWords(s, off + 4, n - 1);
      EncodeReadWord(s, off);
      assert off + 4 + 4 * (n - 1) == off + 4 * n;
      assert s[off..off + 4 * n] == s[off..off + 4] + s[off + 4..off + 4 * n];
    }
  }

  // ---------------------------------------------------------------- header

  /** `ModuleHeader` (module.h:9-18), parsed from the first 32 bytes of an image. */
  datatype Header = Header(
    magic: U32, version: U32, textSize: U32, dataSize: U32,
    bssSize: U32, exportOffset: U32, importOffset: U32, checksum: U32)

  function HeaderFields(h: Header): (ws: seq<U32>)
    ensures |ws| == 8
  {
    [h.magic, h.version, h.textSize, h.dataSize, h.bssSize, h.exportOffset, h.importOffset, h.checksum]
  }

  function ParseHeader(file: seq<Byte>): Header
    requires HeaderSize <= |file|
  {
    var w := ReadWords(file, 0, 8);
    Header(w[0], w[1], w[2], w[3], w[4], w[5], w[6], w[7])
  }

  function EncodeHeader(h: Header): (s: seq<Byte>)
    ensures |s| == HeaderSize
  {
    EncodeWords(HeaderFields(h))
  }

  /** The header round trip: an encoded header parses back, whatever code follows it. */
  lemma ParseEncodedHeader(h: Header, body: seq<Byte>)
    ensures ParseHeader(EncodeHeader(h) + body) == h
  {
    ReadEncodedWords(HeaderFields(h), body);
  }

  /** The other direction: the first 32 bytes of any image are the encoding of its header. */
  lemma EncodeParsedHeader(file: seq<Byte>)
    requires HeaderSize <= |file|
    ensures EncodeHeader(ParseHeader(file)) == file[..HeaderSize]
  {
    var w := ReadWords(file, 0, 8);
    assert HeaderFields(ParseHeader(file)) == w;
    EncodeReadWords(file, 0, 8);
  }

  // ---------------------------------------------------------------- info

  /** `ModuleInfo` (kernel.h:86-94): fixed character arrays kept as raw bytes, the
      `ModuleType` as its stored word, then `api_version` and `flags`. */
  datatype ModuleInfo = ModuleInfo(
    name: seq<Byte>, version: seq<Byte>, author: seq<Byte>, description: seq<Byte>,
    kind: U32, apiVersion: U32, flags: U32)
  {
    ghost predicate WellFormed() {
      |name| == 32 && |version| == 16 && |author| == 32 && |description| == 128
    }
  }

  function DecodeInfo(s: seq<Byte>): (info: ModuleInfo)
    requires |s| == InfoSize
    ensures info.WellFormed()
  {
    ModuleInfo(s[0..32], s[32..48], s[48..80], s[80..208],
               ReadWord(s, 208), ReadWord(s, 212), ReadWord(s, 216))
  }

  function EncodeInfo(info: ModuleInfo): (s: seq<Byte>)
    requires info.WellFormed()
    ensures |s| == InfoSize
  {
    info.name + info.version + info.author + info.description
      + EncodeWords([info.kind, info.apiVersion, info.flags])
  }

  lemma DecodeEncodedInfo(info: ModuleInfo)
    requires info.WellFormed()
    ensures DecodeInfo(EncodeInfo(info)) == info
  {
    var s := EncodeInfo(info);
    var tail := EncodeWords([info.kind, info.apiVersion, info.flags]);
    assert s[208..] == tail;
    assert s[0..32] == info.name;
    assert s[32..48] == info.version;
    assert s[48..80] == info.author;
    assert s[80..208] == info.description;
    assert forall k :: 0 <= k < 3 ==> ReadWord(s, 208 + 4 * k) == ReadWord(tail, 4 * k);
    ReadEncodedWord([info.kind, info.apiVersion, info.flags], [], 0);
    ReadEncodedWord([info.kind, info.apiVersion, info.flags], [], 1);
    ReadEncodedWord([info.kind, info.apiVersion, info.flags], [], 2);
    assert tail + [] == tail;
  }

  lemma EncodeDecodedInfo(s: seq<Byte>)
    requires |s| == InfoSize
    ensures EncodeInfo(DecodeInfo(s)) == s
  {
    var info := DecodeInfo(s);
    assert [info.kind, info.apiVersion, info.flags] == ReadWords(s, 208, 3);
    EncodeReadWords(s, 208, 3);
    assert s == s[0..32] + s[32..48] + s[48..80] + s[80..208] + s[208..220];
  }

  // ---------------------------------------------------------------- export table

  /** `ModuleExportTable` of module.h:23-37: the three lifecycle hooks and the 15 generic
      slots as code addresses (0 is an empty slot), the embedded info and the module's
      private-data pointer. */
  datatype ExportTable = ExportTable(
    init: U32, exit: U32, query: U32, functions: seq<U32>, info: ModuleInfo, privateData: U32)
  {
    ghost predicate WellFormed() {
      |functions| == SlotCount && info.WellFormed()
    }
  }

  /** The table as it lies in `ExportTableSize` bytes of module memory. */
  function DecodeExports(s: seq<Byte>): (t: ExportTable)
    requires |s| == ExportTableSize
    ensures t.WellFormed()
  {
    var w := ReadWords(s, 0, 18);
    ExportTable(w[0], w[1], w[2], w[3..18], DecodeInfo(s[InfoOffset..InfoOffset + InfoSize]),
                ReadWord(s, 292))
  }

  function EncodeExports(t: ExportTable): (s: seq<Byte>)
    requires t.WellFormed()
    ensures |s| == ExportTableSize
  {
    EncodeWords([t.init, t.exit, t.query] + t.functions) + EncodeInfo(t.info) + EncodeWord(t.privateData)
  }

  lemma DecodeEncodedExports(t: ExportTable)
    requires t.WellFormed()
    ensures DecodeExports(EncodeExports(t)) == t
  {
    var ws := [t.init, t.exit, t.query] + t.functions;
    var infoBytes := EncodeInfo(t.info);
    var s := EncodeExports(t);
    ReadEncodedWords(ws, infoBytes + EncodeWord(t.privateData));
    assert s == EncodeWords(ws) + (infoBytes + EncodeWord(t.privateData));
    assert ReadWords(s, 0, 18) == ws;
    assert s[InfoOffset..InfoOffset + InfoSize] == infoBytes;
    DecodeEncodedInfo(t.info);
    assert s[292..] == EncodeWord(t.privateData);
    ReadEncodeWord(t.privateData, []);
    assert ReadWord(s, 292) == ReadWord(EncodeWord(t.privateData) + [], 0);
    assert ws[3..18] == t.functions;
  }

  lemma EncodeDecodedExports(s: seq<Byte>)
    requires |s| == ExportTableSize
    ensures EncodeExports(DecodeExports(s)) == s
  {
    var t := DecodeExports(s);
    var w := ReadWords(s, 0, 18);
    assert [t.init, t.exit, t.query] + t.functions == w;
    EncodeReadWords(s, 0, 18);
    EncodeDecodedInfo(s[InfoOffset..InfoOffset + InfoSize]);
    EncodeReadWord(s, 292);
    assert s == s[0..72] + s[InfoOffset..InfoOffset + InfoSize] + s[292..296];
  }
}
