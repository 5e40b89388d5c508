/**
 What a table file consists of (table/format.h, table/format.cc): blocks with a type byte and a checksum, handles that
 say where a block lies, and a footer of fixed size at the end.
 */
module TableFormat {
  import opened Keys
  import opened Coding
  import opened Checksums

  /** Where a block lies in the file. */
  datatype BlockHandle = BlockHandle(offset: nat, size: nat) {
    predicate Fits() {
      offset < TWO64 - 1 && size < TWO64 - 1
    }
  }

  /** BlockHandle::EncodeTo. */
  function EncodeHandle(h: BlockHandle): Bytes {
    Varint(h.offset) + Varint(h.size)
  }

  /** BlockHandle::DecodeFrom: the handle in front of `input`, and what follows it. */
  function DecodeHandle(input: Bytes): Option<(BlockHandle, Bytes)> {
    match ReadVarint64(input)
    case None => None
    case Some((offset, r1)) =>
      match ReadVarint64(r1)
      case None => None
      case Some((size, r2)) => Some((BlockHandle(offset, size), r2))
  }

  lemma HandleRoundTrip(h: BlockHandle, rest: Bytes)
    requires h.Fits()
    ensures DecodeHandle(EncodeHandle(h) + rest) == Some((h, rest))
  {
    Varint64RoundTrip(h.offset, Varint(h.size) + rest);
    Varint64RoundTrip(h.size, rest);
    assert EncodeHandle(h) + rest == Varint(h.offset) + (Varint(h.size) + rest);
  }

  const MAX_ENCODED_LENGTH: nat := 20
  const FOOTER_LENGTH: nat := 48
  const MAGIC_LO: U32 := 0x8b80fb57
  const MAGIC_HI: U32 := 0xdb477524

  lemma HandleShort(h: BlockHandle)
    requires h.Fits()
    ensures |EncodeHandle(h)| <= MAX_ENCODED_LENGTH
  {
    Pow128Ten();
    VarintShort(h.offset, 10);
    VarintShort(h.size, 10);
  }

  lemma Pow128Ten()
    ensures Pow128(10) > TWO64
  {
    assert Pow128(5) == 128 * 128 * 128 * 128 * 128;
    assert Pow128(10) == 128 * 128 * 128 * 128 * 128 * Pow128(5);
  }

  function Padding(n: nat): (r: Bytes)
    ensures |r| == n
  {
    seq(n, _ => 0 as byte)
  }

  /** std::string::resize. */
  function Resized(s: Bytes, n: nat): (r: Bytes)
    ensures |r| == n
  {
    if |s| <= n then s + Padding(n - |s|) else s[..n]
  }

  /** Footer::EncodeTo: two handles, padded to their longest form, and the magic number. */
  function EncodeFooter(meta: BlockHandle, index: BlockHandle): (r: Bytes)
    ensures |r| == FOOTER_LENGTH
  {
    Resized(EncodeHandle(meta) + EncodeHandle(index), 2 * MAX_ENCODED_LENGTH) + EncodeFixed32(MAGIC_LO)
      + EncodeFixed32(MAGIC_HI)
  }

  datatype FooterResult = BadMagic | BadHandle | Footer(meta: BlockHandle, index: BlockHandle)

  /** Footer::DecodeFrom. */
  function DecodeFooter(input: Bytes): FooterResult
    requires |input| == FOOTER_LENGTH
  {
    if DecodeFixed32(input[40..44]) != MAGIC_LO || DecodeFixed32(input[44..48]) != MAGIC_HI then BadMagic
    else
      match DecodeHandle(input)
      case None => BadHandle
      case Some((meta, rest)) =>
        match DecodeHandle(rest)
        case None => BadHandle
        case Some((index, _)) => Footer(meta, index)
  }

  lemma FooterRoundTrip(meta: BlockHandle, index: BlockHandle)
    requires meta.Fits() && index.Fits()
    ensures DecodeFooter(EncodeFooter(meta, index)) == Footer(meta, index)
  {
    HandleShort(meta);
    HandleShort(index);
    hide EncodeHandle, DecodeHandle, EncodeFixed32, DecodeFixed32;
    var f := EncodeFooter(meta, index);
    assert f[40..44] == EncodeFixed32(MAGIC_LO) && f[44..48] == EncodeFixed32(MAGIC_HI);
    Fixed32RoundTrip(MAGIC_LO);
    Fixed32RoundTrip(MAGIC_HI);
    var rest := Padding(40 - |EncodeHandle(meta) + EncodeHandle(index)|) + EncodeFixed32(MAGIC_LO)
      + EncodeFixed32(MAGIC_HI);
    assert f == EncodeHandle(meta) + (EncodeHandle(index) + rest);
    HandleRoundTrip(meta, EncodeHandle(index) + rest);
    HandleRoundTrip(index, rest);
  }

  // ---------- blocks in the file ----------

  const TRAILER: nat := 5

  /** The type byte of a block that is not compressed, and its checksum. */
  function Trailer(crc: Crc, contents: Bytes): (r: Bytes)
    ensures |r| == TRAILER
  {
    [0 as byte] + EncodeFixed32(Mask(crc(contents + [0])))
  }

  /** The block `contents` is stored where `h` says. */
  ghost predicate StoredAt(file: Bytes, h: BlockHandle, contents: Bytes, crc: Crc) {
    && h.size == |contents| && h.offset + h.size + TRAILER <= |file|
    && file[h.offset..h.offset + h.size + TRAILER] == contents + Trailer(crc, contents)
  }

  lemma StillStored(file: Bytes, longer: Bytes, h: BlockHandle, contents: Bytes, crc: Crc)
    requires StoredAt(file, h, contents, crc) && file <= longer
    ensures StoredAt(longer, h, contents, crc)
  {
    assert longer[..|file|] == file;
    assert longer[h.offset..h.offset + h.size + TRAILER] == file[h.offset..h.offset + h.size + TRAILER];
  }

  datatype BlockResult = ShortRead | BadChecksum | Compressed | BadType | Contents(data: Bytes)

  /** RandomAccessFile::Read: as many bytes as there are, up to `n`. */
  function ReadAt(file: Bytes, offset: nat, n: nat): Bytes {
    if offset > |file| then [] else if offset + n > |file| then file[offset..] else file[offset..offset + n]
  }

  /** ReadBlock. */
  method ReadBlock(file: Bytes, verifyChecksums: bool, handle: BlockHandle, crc: Crc, ghost stored: Bytes)
    returns (r: BlockResult)
    ensures StoredAt(file, handle, stored, crc) ==> r == Contents(stored)
    ensures handle.offset + handle.size + TRAILER > |file| ==> r == ShortRead
    ensures r.Contents? ==>
              handle.offset + handle.size + TRAILER <= |file|
              && r.data == file[handle.offset..handle.offset + handle.size]
              && file[handle.offset + handle.size] == 0
    ensures r.Contents? && verifyChecksums ==>
              var end := handle.offset + handle.size;
              crc(r.data + [0]) == Unmask(DecodeFixed32(file[end + 1..end + TRAILER]))
  {
    hide EncodeFixed32, DecodeFixed32, Mask;
    var n := handle.size;
    var contents := ReadAt(file, handle.offset, n + TRAILER);
    if |contents| != n + TRAILER { return ShortRead; }
    var data := contents;
    if StoredAt(file, handle, stored, crc) { StoredParts(stored, crc); }
    if verifyChecksums {
      var sum := Unmask(DecodeFixed32(data[n + 1..]));
      var actual := crc(data[..n + 1]);
      if actual != sum { return BadChecksum; }
      assert data[n + 1..] == file[handle.offset + n + 1..handle.offset + n + TRAILER];
    }
    assert data[n] == 0 ==> data[..n + 1] == data[..n] + [0];
    if data[n] == 0 {
      r := Contents(data[..n]);
    } else if data[n] == 1 {
      r := Compressed;
    } else {
      r := BadType;
    }
  }

  lemma StoredParts(contents: Bytes, crc: Crc)
    ensures var all, n := contents + Trailer(crc, contents), |contents|;
            && all[..n] == contents && all[n] == 0 && all[..n + 1] == contents + [0]
            && Unmask(DecodeFixed32(all[n + 1..])) == crc(contents + [0])
  {
    hide EncodeFixed32, DecodeFixed32, Mask, Unmask;
    var all, n := contents + Trailer(crc, contents), |contents|;
    assert all[n + 1..] == EncodeFixed32(Mask(crc(contents + [0])));
    Fixed32RoundTrip(Mask(crc(contents + [0])));
    UnmaskMask(crc(contents + [0]));
  }
}
