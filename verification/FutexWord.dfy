/**
 * The bit operations that EventFlag performs on its shared 32-bit word.  A word or a mask is the set of its bit
 * positions: union is |, intersection is &, difference is & ~, and the empty set is 0.
 */
module FutexWord {

  type Bit = b: nat | b < 32
  type Bits = set<Bit>

  /** The bits of a wake mask that the word did not have yet; the futex syscall is skipped when there are none. */
  function NewBits(word: Bits, mask: Bits): Bits { mask - word }

  /** The word after atomic_fetch_or(mask). */
  function Raised(word: Bits, mask: Bits): Bits { word + mask }

  /** The bits a waiter takes, reported through efState. */
  function Taken(word: Bits, mask: Bits): Bits { word * mask }

  /** The word after atomic_fetch_and(~mask). */
  function Cleared(word: Bits, mask: Bits): Bits { word - mask }
}
