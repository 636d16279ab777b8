/** Annotation flags, section 12.5.3 of ISO 32000-1, as bits of a 32-bit
    word: Print is bit 3 and Locked is bit 8, counting from 1. */
module Flags {
  const Print: bv32 := 1 << 2
  const Locked: bv32 := 1 << 7

  /** The flags of the signature widget: printed, and locked against
      being moved or deleted. */
  function AnnotationFlags(): (f: nat)
    ensures f == 132
  {
    (Print | Locked) as nat
  }
}
