/**
 * The modifier bits of a class (the access flags of section 4.1 of the Java
 * Virtual Machine Specification) and how an InnerClasses record that
 * describes the class itself merges its flags into them.
 */
module ClassModifiers {
  /** Access flags (table 4.1-B of the JVM specification). */
  const ACC_PUBLIC: bv16 := 0x0001
  const ACC_PRIVATE: bv16 := 0x0002
  const ACC_PROTECTED: bv16 := 0x0004
  const ACC_INTERFACE: bv16 := 0x0200
  const ACC_SYNTHETIC: bv16 := 0x1000

  /** The three bits of the access level. */
  const ACCESS_BITS: bv16 := ACC_PUBLIC | ACC_PRIVATE | ACC_PROTECTED

  /** The modifier bits other than the access level. */
  function NonAccessBits(m: bv16): bv16 {
    m & !ACCESS_BITS
  }

  /**
   * The modifiers of a class after an InnerClasses record that describes it:
   * the record's flags are added, and when they say private or protected the
   * access level the class file gave is dropped first.
   */
  function MergeInnerFlags(modifiers: bv16, flags: bv16): bv16 {
    if flags & (ACC_PRIVATE | ACC_PROTECTED) != 0 then
      (modifiers & !ACCESS_BITS) | flags
    else
      modifiers | flags
  }

  /** The record's flags all end up set. */
  lemma MergeSetsFlags(modifiers: bv16, flags: bv16)
    ensures MergeInnerFlags(modifiers, flags) & flags == flags
  {
  }

  /** Flags saying private or protected give the class their access level alone. */
  lemma MergeTakesAccessLevel(modifiers: bv16, flags: bv16)
    requires flags & (ACC_PRIVATE | ACC_PROTECTED) != 0
    ensures MergeInnerFlags(modifiers, flags) & ACCESS_BITS == flags & ACCESS_BITS
  {
  }

  /** Other flags only add bits. */
  lemma MergeOnlyAdds(modifiers: bv16, flags: bv16)
    requires flags & (ACC_PRIVATE | ACC_PROTECTED) == 0
    ensures MergeInnerFlags(modifiers, flags) == modifiers | flags
  {
  }

  /** Merging sets no bit that neither the class's modifiers nor the record's flags have. */
  lemma MergeSetsNothingElse(modifiers: bv16, flags: bv16)
    ensures MergeInnerFlags(modifiers, flags) & !(modifiers | flags) == 0
  {
  }

  /** Merging the same record twice changes nothing more. */
  lemma MergeInnerFlagsIdempotent(modifiers: bv16, flags: bv16)
    ensures MergeInnerFlags(MergeInnerFlags(modifiers, flags), flags) == MergeInnerFlags(modifiers, flags)
  {
    if flags & (ACC_PRIVATE | ACC_PROTECTED) != 0 {
      ClearThenSetTwice(modifiers, flags, !ACCESS_BITS);
    } else {
      SetTwice(modifiers, flags);
    }
  }

  lemma ClearThenSetTwice(a: bv16, f: bv16, keep: bv16)
    ensures (((a & keep) | f) & keep) | f == (a & keep) | f
  {
  }

  lemma SetTwice(a: bv16, f: bv16)
    ensures (a | f) | f == a | f
  {
  }

  /** Merging keeps every modifier bit outside the access level. */
  lemma MergeKeepsNonAccess(modifiers: bv16, flags: bv16)
    ensures NonAccessBits(modifiers) & MergeInnerFlags(modifiers, flags) == NonAccessBits(modifiers)
  {
  }
}
