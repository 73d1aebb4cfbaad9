/** The record a descriptor string is parsed into (`struct bee_version`), as the value
    its fields spell out, and the fixed list of architectures the parser accepts. */
module BeeTypes {

  /** The text of each field of `struct bee_version`; a field that was never set is
      the empty string (its pointer rests on the terminator of the input copy). */
  datatype Descriptor = Descriptor(
    prefix: seq<char>,
    name: seq<char>,
    extraname: seq<char>,
    version: seq<char>,
    extraversion: seq<char>,
    revision: seq<char>,
    arch: seq<char>,
    suffix: seq<char>)

  /** The descriptor right after setup: every field empty. */
  const EMPTY: Descriptor := Descriptor([], [], [], [], [], [], [], [])

  /** SUPPORTED_ARCHITECTURES, in the order the header lists them. */
  const SUPPORTED_ARCHITECTURES: seq<seq<char>> :=
    ["noarch", "any",
     "x86_64", "i686", "i386", "i486", "i586",
     "alpha", "arm", "m68k", "sparc", "mips", "ppc"]

  // Parse modes (BEE_VERSION_MODE_*); mode 5 (no-bee) is not part of this model.
  const MODE_AUTO: nat := 0
  const MODE_BEEPKG: nat := 1
  const MODE_BEEVERSION: nat := 2
  const MODE_BEEFILE: nat := 3
  const MODE_BEEPARTIAL: nat := 4

  predicate ValidMode(mode: nat) { mode <= MODE_BEEPARTIAL }
}
