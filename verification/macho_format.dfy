/** The fixed numbers of the Mach-O format for a 64-bit target, as written by
    the Mach-O snapshot writer (runtime/vm/mach_o.cc): structure sizes and
    codes from Apple's <mach-o/loader.h>, <mach-o/nlist.h> and the code
    signing blob layout, the writer's own page and chunk sizes, the packed
    version numbers of load commands, and section type flags. */
module MachOFormat {
  import opened Alignment
  import opened CStrings

  /** compiler::target::kWordSize; also kLoadCommandAlignment. */
  const WordSize: nat := 8
  /** MachOWriter::kPageSize: 16 KiB, the page size of arm64 Apple targets. */
  const PageSize: nat := 0x4000

  /** sizeof of the 64-bit load-command structures. */
  const MachHeaderSize: nat := 32
  const SegmentCommandSize: nat := 72
  const SectionHeaderSize: nat := 80
  const NlistSize: nat := 16
  const SymtabCommandSize: nat := 24
  const DysymtabCommandSize: nat := 80
  const LinkeditDataCommandSize: nat := 16
  const UuidCommandSize: nat := 24
  const BuildVersionCommandSize: nat := 24
  const DylibCommandSize: nat := 24
  /** Width of the segname and sectname fields. */
  const NameFieldSize: nat := 16

  /** Names of the standard segments and sections. */
  const SEG_TEXT: string := "__TEXT"
  const SEG_LINKEDIT: string := "__LINKEDIT"
  const SECT_TEXT: string := "__text"
  const SEG_DATA: string := "__DATA"
  const SECT_CONST: string := "__const"
  const SECT_BSS: string := "__bss"

  /** MachOLoadDylib::kSystemDylibName. */
  const SystemDylibName: CString := "/usr/lib/libSystem.B.dylib"

  /** Load command codes. */
  const LC_SYMTAB: nat := 0x2
  const LC_DYSYMTAB: nat := 0xb
  const LC_LOAD_DYLIB: nat := 0xc
  const LC_ID_DYLIB: nat := 0xd
  const LC_SEGMENT_64: nat := 0x19
  const LC_UUID: nat := 0x1b
  const LC_CODE_SIGNATURE: nat := 0x1d
  const LC_BUILD_VERSION: nat := 0x32

  /** Header file types and flags. */
  const MH_DYLIB: nat := 0x6
  const MH_DSYM: nat := 0xa
  const MH_NOUNDEFS: nat := 0x1
  const MH_DYLDLINK: nat := 0x4
  const MH_NO_REEXPORTED_DYLIBS: nat := 0x10_0000

  /** Section types (the low byte of a section's flags) and attributes. */
  const S_REGULAR: nat := 0x0
  const S_ZEROFILL: nat := 0x1
  const S_GB_ZEROFILL: nat := 0xc
  const S_NO_ATTRIBUTES: nat := 0x0
  const S_ATTR_SOME_INSTRUCTIONS: nat := 0x400
  const S_ATTR_DEBUG: nat := 0x0200_0000
  const S_ATTR_PURE_INSTRUCTIONS: nat := 0x8000_0000

  /** Virtual memory protections. */
  const VM_PROT_READ: nat := 0x1
  const VM_PROT_WRITE: nat := 0x2
  const VM_PROT_EXECUTE: nat := 0x4

  /** Symbol table entry types and descriptions. */
  const N_EXT: nat := 0x01
  const N_TYPE: nat := 0x0e
  const N_SECT: nat := 0x0e
  const N_STAB: nat := 0xe0
  const N_GSYM: nat := 0x20
  const N_FUN: nat := 0x24
  const N_STSYM: nat := 0x26
  const N_BNSYM: nat := 0x2e
  const N_ENSYM: nat := 0x4e
  const N_OSO: nat := 0x66
  const N_ALT_ENTRY: nat := 0x0200
  /** N_SECT | N_EXT, the type of an external symbol defined in a section. */
  const N_SECT_EXT: nat := 0x0f
  /** The section index of a symbol in no section; real sections count from 1. */
  const NO_SECT: nat := 0

  /** MACHO_XYZ_VERSION_ENCODING(x, y, z): `(x << 16) | (y << 8) | z`. The
      three fields occupy disjoint bits for the arguments the writer uses, so
      the bitwise or is a sum. */
  function VersionEncoding(x: nat, y: nat, z: nat): (r: nat)
    requires x < 0x1_0000 && y < 0x100 && z < 0x100
    ensures r < 0x1_0000_0000
  {
    x * 0x1_0000 + y * 0x100 + z
  }

  /** The encoding is a bijection on its domain: each field reads back. */
  lemma VersionEncodingDecodes(x: nat, y: nat, z: nat)
    requires x < 0x1_0000 && y < 0x100 && z < 0x100
    ensures VersionEncoding(x, y, z) / 0x1_0000 == x
    ensures (VersionEncoding(x, y, z) / 0x100) % 0x100 == y
    ensures VersionEncoding(x, y, z) % 0x100 == z
  {
    var r := VersionEncoding(x, y, z);
    DivModUnique(r, 0x1_0000, x, y * 0x100 + z);
    DivModUnique(r, 0x100, x * 0x100 + y, z);
    DivModUnique(x * 0x100 + y, 0x100, x, y);
  }

  /** MachOBuildVersion's minimum OS and SDK versions, and the versions the
      load command for libSystem carries. */
  const MinMacOSVersion: nat := 0xf_0000
  const MacOSSdkVersion: nat := 0xf_0400
  const NoVersion: nat := 0
  const SystemCurrentVersion: nat := 0x547_0000
  const SystemCompatVersion: nat := 0x1_0000

  /** The build version's minimum OS and SDK versions are the encodings of
      15.0.0 and 15.4.0, and a missing version encodes 0.0.0. */
  lemma BuildVersionConstants()
    ensures MinMacOSVersion == VersionEncoding(15, 0, 0)
    ensures MacOSSdkVersion == VersionEncoding(15, 4, 0)
    ensures NoVersion == VersionEncoding(0, 0, 0)
  {
  }

  /** libSystem's current and compatibility versions are the encodings of
      1351.0.0 and 1.0.0. */
  lemma SystemVersionConstants()
    ensures SystemCurrentVersion == VersionEncoding(1351, 0, 0)
    ensures SystemCompatVersion == VersionEncoding(1, 0, 0)
  {
  }

  predicate IsZerofillType(t: nat) { t == S_ZEROFILL || t == S_GB_ZEROFILL }

  /** The zerofill check of the MachOSection constructor as written: it
      guards the assertion with `type == S_ZEROFILL && type == S_GB_ZEROFILL`,
      which no type satisfies, so the check passes for every section. */
  function ZerofillCheckAsWritten(sectionType: nat, hasContents: bool): (passes: bool)
    ensures passes
  {
    if sectionType == S_ZEROFILL && sectionType == S_GB_ZEROFILL then !hasContents else true
  }

  /** A zerofill section that claims file contents gets through the check as
      written, although a zerofill section occupies no file space. */
  lemma ZerofillCheckAdmitsContents()
    ensures ZerofillCheckAsWritten(S_ZEROFILL, true) && IsZerofillType(S_ZEROFILL)
    ensures ZerofillCheckAsWritten(S_GB_ZEROFILL, true) && IsZerofillType(S_GB_ZEROFILL)
  {
  }
}
