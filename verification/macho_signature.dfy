/** MachOCodeSignature (runtime/vm/mach_o.cc:1384-1501): an ad-hoc, linker
    signed embedded signature, written as the last contents of the file. It is
    a superblob with one index entry pointing at a code directory, followed by
    the signing identifier and one SHA-256 digest per 4 KiB page of the file
    before the signature. Its size depends on its own file offset, since that
    offset decides how many pages there are to hash. */
module MachOSignature {
  import opened Alignment
  import opened CStrings
  import opened MachOStream
  import opened MachOFields

  /** Header alignment of the blobs and alignment of the digests. */
  const HeaderAlignment: nat := 8
  const HashAlignment: nat := 16

  /** sizeof(cs_superblob) (magic, length, count), sizeof(cs_blob_index)
      (type, offset) and sizeof(cs_code_directory), from Apple's
      <kern/cs_blobs.h>. */
  const SuperblobSize: nat := 12
  const BlobIndexSize: nat := 8
  const CodeDirectorySize: nat := 88

  /** Magic numbers and flags of the blobs, from Apple's <kern/cs_blobs.h>. */
  const CSMAGIC_EMBEDDED_SIGNATURE: nat := 0xfade_0cc0
  const CSMAGIC_CODEDIRECTORY: nat := 0xfade_0c02
  const CSSLOT_CODEDIRECTORY: nat := 0
  const CS_SUPPORTSEXECSEG: nat := 0x2_0400
  const CS_ADHOC: nat := 0x2
  const CS_LINKER_SIGNED: nat := 0x2_0000
  const CS_HASHTYPE_SHA256: nat := 2
  /** The base 2 logarithm of ChunkSize, the page size field. */
  const ChunkShift: nat := 12

  /** DirectoryOffset: the code directory follows the superblob and its single
      index entry, rounded up to the header alignment. */
  function DirectoryOffset(): (r: nat)
    ensures r == 24 && r % HeaderAlignment == 0 && r >= SuperblobSize + BlobIndexSize
  {
    RoundUp(SuperblobSize + BlobIndexSize, HeaderAlignment)
  }

  /** IdentOffset: the identifier follows the code directory structure, placed
      so that it is header-aligned in the signature; relative to the code
      directory. */
  function IdentOffset(): (r: nat)
    ensures r == 88 && (DirectoryOffset() + r) % HeaderAlignment == 0 && r >= CodeDirectorySize
  {
    RoundUp(DirectoryOffset() + CodeDirectorySize, HeaderAlignment) - DirectoryOffset()
  }

  /** HashOffset: the digests follow the NUL-terminated identifier, placed so
      that they are hash-aligned in the signature; relative to the code
      directory. */
  function HashOffset(identifier: CString): (r: nat)
    ensures (DirectoryOffset() + r) % HashAlignment == 0
    ensures IdentOffset() + |identifier| + 1 <= r < IdentOffset() + |identifier| + 1 + HashAlignment
  {
    RoundUp(DirectoryOffset() + IdentOffset() + |identifier| + 1, HashAlignment) - DirectoryOffset()
  }

  /** ExpectedNumHashes as the source computes it, with integer division. */
  function ExpectedNumHashes(fileOffset: nat): (r: nat) {
    (fileOffset + ChunkSize - 1) / ChunkSize
  }

  /** The source's rounded-up division is the number of pages started. */
  lemma ExpectedNumHashesIsPages(fileOffset: nat)
    ensures ExpectedNumHashes(fileOffset) == CeilDiv(fileOffset, ChunkSize)
  {
    var q := ExpectedNumHashes(fileOffset);
    var r := (fileOffset + ChunkSize - 1) % ChunkSize;
    assert fileOffset + ChunkSize - 1 == q * ChunkSize + r;
    CeilDivUnique(fileOffset, ChunkSize, q);
  }

  /** DirectoryLength: the code directory up to and including the digests. */
  function DirectoryLength(identifier: CString, fileOffset: nat): (r: nat)
    ensures r == HashOffset(identifier) + CeilDiv(fileOffset, ChunkSize) * HashSize
  {
    ExpectedNumHashesIsPages(fileOffset);
    HashOffset(identifier) + ExpectedNumHashes(fileOffset) * HashSize
  }

  /** SelfMemorySize (and the file size, as the signature has contents). */
  function SelfMemorySize(identifier: CString, fileOffset: nat): nat {
    DirectoryOffset() + DirectoryLength(identifier, fileOffset)
  }

  // ---------------------------------------------------------------------
  // WriteSelf, as the fields it writes.

  /** The superblob with its one index entry, then header alignment. */
  function SuperblobFields(fileSize: nat): seq<Field> {
    [U32s([CSMAGIC_EMBEDDED_SIGNATURE, fileSize, 1, CSSLOT_CODEDIRECTORY, DirectoryOffset()]),
     AlignTo(HeaderAlignment)]
  }

  /** The code directory structure, then header alignment. The execution
      segment is the text segment, given by its file offset and size. */
  function DirectoryFields(identifier: CString, fileOffset: nat, numHashes: nat,
                           textOffset: nat, textSize: nat): seq<Field> {
    [U32s([CSMAGIC_CODEDIRECTORY, HashOffset(identifier) + numHashes * HashSize,
           CS_SUPPORTSEXECSEG, CS_ADHOC + CS_LINKER_SIGNED,
           HashOffset(identifier), IdentOffset(), 0, numHashes, fileOffset]),
     U8s([HashSize, CS_HASHTYPE_SHA256, 0, ChunkShift]),
     U32s([0, 0, 0, 0]),
     U64s([0, textOffset, textSize, 0]),
     AlignTo(HeaderAlignment)]
  }

  /** The identifier with its NUL, hash alignment, then the digests. */
  function IdentifierFields(identifier: CString): seq<Field> {
    [FixedName(identifier, |identifier| + 1), AlignTo(HashAlignment)]
  }

  function HashFields(numHashes: nat): seq<Field> {
    [Bytes(numHashes * HashSize)]
  }

  function SignatureFields(identifier: CString, fileOffset: nat, numHashes: nat,
                           textOffset: nat, textSize: nat): seq<Field> {
    SuperblobFields(DirectoryOffset() + HashOffset(identifier) + numHashes * HashSize) +
    DirectoryFields(identifier, fileOffset, numHashes, textOffset, textSize) +
    IdentifierFields(identifier) + HashFields(numHashes)
  }

  lemma SuperblobEnd(start: nat, fileSize: nat)
    requires start % HeaderAlignment == 0
    ensures AlignmentsPositive(SuperblobFields(fileSize))
    ensures End(start, SuperblobFields(fileSize)) == start + DirectoryOffset()
  {
    var fs := SuperblobFields(fileSize);
    assert AlignmentsDivide(fs, start);
    EndShift(start, 0, fs);
    var align := AlignTo(HeaderAlignment);
    EndCons(20, align, []);
    EndCons(0, fs[0], [align]);
    assert fs == [fs[0]] + [align];
  }

  /** The shape of the code directory fields: nine 32-bit words, four
      bytes, four words, four 64-bit words, then header alignment. */
  predicate DirectoryShaped(fs: seq<Field>) {
    |fs| == 5 && fs[0].U32s? && |fs[0].values| == 9 && fs[1].U8s? && |fs[1].values| == 4 &&
    fs[2].U32s? && |fs[2].values| == 4 && fs[3].U64s? && |fs[3].values| == 4 &&
    fs[4] == AlignTo(HeaderAlignment)
  }

  lemma DirectoryShapes(identifier: CString, fileOffset: nat, numHashes: nat, textOffset: nat, textSize: nat)
    ensures DirectoryShaped(DirectoryFields(identifier, fileOffset, numHashes, textOffset, textSize))
  {
  }

  /** The code directory structure, started header-aligned, ends IdentOffset
      bytes later. */
  lemma DirectoryEnd(start: nat, fs: seq<Field>)
    requires start % HeaderAlignment == 0 && DirectoryShaped(fs)
    ensures AlignmentsPositive(fs) && End(start, fs) == start + IdentOffset()
  {
    assert AlignmentsDivide(fs, start);
    EndShift(start, 0, fs);
    DirectoryFromZero(fs, fs[0], fs[1], fs[2], fs[3]);
  }

  lemma DirectoryFromZero(fs: seq<Field>, f0: Field, f1: Field, f2: Field, f3: Field)
    requires DirectoryShaped(fs) && fs[0] == f0 && fs[1] == f1 && fs[2] == f2 && fs[3] == f3
    ensures AlignmentsPositive(fs) && End(0, fs) == 88
  {
    var align := AlignTo(HeaderAlignment);
    EndCons(88, align, []);
    EndCons(56, f3, [align]);
    EndCons(40, f2, [f3, align]);
    EndCons(36, f1, [f2, f3, align]);
    EndCons(0, f0, [f1, f2, f3, align]);
    assert fs == [f0] + [f1, f2, f3, align];
  }

  /** WriteSelf's assertions: started at a hash-aligned file offset, the
      signature writes its code directory at DirectoryOffset, the identifier
      at IdentOffset and the digests at HashOffset of the code directory, and
      when the stream holds ExpectedNumHashes digests it ends DirectoryLength
      past the directory, SelfMemorySize past its start. */
  lemma WriteSelfLayout(start: nat, identifier: CString, numHashes: nat, textOffset: nat, textSize: nat)
    requires start % HashAlignment == 0
    ensures var sb := SuperblobFields(DirectoryOffset() + HashOffset(identifier) + numHashes * HashSize);
            var dir := DirectoryFields(identifier, start, numHashes, textOffset, textSize);
            AlignmentsPositive(sb) && AlignmentsPositive(dir) && AlignmentsPositive(IdentifierFields(identifier)) &&
            End(start, sb) == start + DirectoryOffset() &&
            End(start, sb + dir) == start + DirectoryOffset() + IdentOffset() &&
            End(start, sb + dir + IdentifierFields(identifier)) == start + DirectoryOffset() + HashOffset(identifier)
    ensures AlignmentsPositive(SignatureFields(identifier, start, numHashes, textOffset, textSize))
    ensures numHashes == ExpectedNumHashes(start) ==>
              End(start, SignatureFields(identifier, start, numHashes, textOffset, textSize)) ==
              start + SelfMemorySize(identifier, start)
  {
    var sb := SuperblobFields(DirectoryOffset() + HashOffset(identifier) + numHashes * HashSize);
    var dir := DirectoryFields(identifier, start, numHashes, textOffset, textSize);
    var id := IdentifierFields(identifier);
    PrefixLayout(start, identifier, DirectoryOffset() + HashOffset(identifier) + numHashes * HashSize,
                 numHashes, textOffset, textSize, sb, dir, id);
    WholeLayout(start, identifier, numHashes, sb + dir + id);
  }

  /** The superblob, code directory and identifier, one after the other. */
  lemma PrefixLayout(start: nat, identifier: CString, fileSize: nat, numHashes: nat, textOffset: nat, textSize: nat,
                     sb: seq<Field>, dir: seq<Field>, id: seq<Field>)
    requires start % HashAlignment == 0
    requires sb == SuperblobFields(fileSize)
    requires dir == DirectoryFields(identifier, start, numHashes, textOffset, textSize)
    requires id == IdentifierFields(identifier)
    ensures AlignmentsPositive(sb) && AlignmentsPositive(dir) && AlignmentsPositive(id)
    ensures End(start, sb) == start + DirectoryOffset()
    ensures End(start, sb + dir) == start + DirectoryOffset() + IdentOffset()
    ensures End(start, sb + dir + id) == start + DirectoryOffset() + HashOffset(identifier)
  {
    DirectoryShapes(identifier, start, numHashes, textOffset, textSize);
    HeadersLayout(start, fileSize, sb, dir);
    IdentifierEnd(start, identifier);
    EndAppend(start, sb + dir, id);
  }

  /** The superblob, then the code directory structure. */
  lemma HeadersLayout(start: nat, fileSize: nat, sb: seq<Field>, dir: seq<Field>)
    requires start % HashAlignment == 0
    requires sb == SuperblobFields(fileSize) && DirectoryShaped(dir)
    ensures AlignmentsPositive(sb) && AlignmentsPositive(dir)
    ensures End(start, sb) == start + DirectoryOffset()
    ensures End(start, sb + dir) == start + DirectoryOffset() + IdentOffset()
  {
    var x := start + DirectoryOffset();
    DirectoryAligned(start, x);
    SuperblobEnd(start, fileSize);
    DirectoryEnd(x, dir);
    Chain(start, sb, dir, x, x + IdentOffset());
  }

  /** The code directory of a hash-aligned signature is header-aligned. */
  lemma DirectoryAligned(start: nat, x: nat)
    requires start % HashAlignment == 0 && x == start + DirectoryOffset()
    ensures x % HeaderAlignment == 0
  {
    AlignedDivides(start, HeaderAlignment, HashAlignment);
    ModAddMultiple(start, 3, HeaderAlignment);
  }

  /** Two runs of fields whose ends are known. */
  lemma Chain(start: nat, a: seq<Field>, b: seq<Field>, ea: nat, eb: nat)
    requires AlignmentsPositive(a) && AlignmentsPositive(b) && End(start, a) == ea && End(ea, b) == eb
    ensures AlignmentsPositive(a + b) && End(start, a + b) == eb
  {
    EndAppend(start, a, b);
  }

  /** The digests after the identifier: ExpectedNumHashes of them end the
      signature SelfMemorySize past its start. */
  lemma WholeLayout(start: nat, identifier: CString, numHashes: nat, prefix: seq<Field>)
    requires AlignmentsPositive(prefix)
    requires End(start, prefix) == start + DirectoryOffset() + HashOffset(identifier)
    ensures AlignmentsPositive(prefix + HashFields(numHashes))
    ensures numHashes == ExpectedNumHashes(start) ==>
              End(start, prefix + HashFields(numHashes)) == start + SelfMemorySize(identifier, start)
  {
    var hs := HashFields(numHashes);
    EndAppend(start, prefix, hs);
    EndCons(End(start, prefix), hs[0], []);
    assert hs == [hs[0]] + [];
    ExpectedNumHashesIsPages(start);
  }

  lemma IdentifierEnd(start: nat, identifier: CString)
    requires start % HashAlignment == 0
    ensures AlignmentsPositive(IdentifierFields(identifier))
    ensures End(start + DirectoryOffset() + IdentOffset(), IdentifierFields(identifier)) ==
            start + DirectoryOffset() + HashOffset(identifier)
  {
    var fs := IdentifierFields(identifier);
    var x := DirectoryOffset() + IdentOffset();
    assert AlignmentsDivide(fs, start);
    EndShift(start, x, fs);
    var align := AlignTo(HashAlignment);
    EndCons(x + |identifier| + 1, align, []);
    EndCons(x, fs[0], [align]);
    assert fs == [fs[0]] + [align];
  }

  /** The stream holds ExpectedNumHashes digests when the signature is
      written: whatever was written before it, and however the buffer grew,
      finalizing the hashed content after `fileOffset` bytes yields one digest
      per page started, the count ExpectedNumHashes predicts from the
      signature's file offset. */
  lemma NumHashesAtSignature(ops: seq<WriteOp>, fileOffset: nat)
    requires |Concat(ops)| == fileOffset
    ensures |FinalizeHashedContent(RunWrites(Initial, ops)).hashes| == ExpectedNumHashes(fileOffset)
  {
    HashesOfEverythingWritten(ops);
    ExpectedNumHashesIsPages(fileOffset);
  }
}
