/** The count word of a refcounted payload, under the atomic and the plain policy. */
module CountWord {
  import opened CowProtocol

  /** The word between two steps of its owners; `owners` is how many have not released the payload. */
  class Count {
    var word: nat
    ghost var owners: nat

    ghost predicate Valid()
      reads this
    {
      word == owners % COUNT_MODULUS
    }

    /** rc_construct: born with one owner. */
    constructor ()
      ensures Valid() && owners == 1
    {
      word, owners := 1, 1;
    }

    /** rc_load: up to 2^32 owners, 1 means sole ownership. */
    method Load() returns (n: nat)
      requires Valid() && 0 < owners <= COUNT_MODULUS
      ensures n == 1 <==> owners == 1
      ensures owners < COUNT_MODULUS ==> n == owners
    {
      n := word;
    }

    /** rc_increment, by an existing owner. */
    method Increment()
      requires Valid() && owners > 0
      modifies this
      ensures Valid() && owners == old(owners) + 1
    {
      word := (word + 1) % COUNT_MODULUS;
      owners := owners + 1;
    }

    /** rc_decrement_is_last of the atomic policy: a sole owner is told by the load and leaves the word
        alone; any other owner is taken off it. */
    method DecrementIsLast() returns (last: bool)
      requires Valid() && 0 < owners <= COUNT_MODULUS
      modifies this
      ensures last <==> old(owners) == 1
      ensures owners == old(owners) - 1
      ensures if last then word == old(word) else Valid()
    {
      owners := owners - 1;
      if word == 1 {
        return true;
      }
      var before := word;
      word := (word + COUNT_MODULUS - 1) % COUNT_MODULUS;
      last := before == 1;
    }

    /** rc_decrement_is_last of the plain policy: the same verdict, the word always taken down. */
    method PlainDecrementIsLast() returns (last: bool)
      requires Valid() && 0 < owners <= COUNT_MODULUS
      modifies this
      ensures last <==> old(owners) == 1
      ensures owners == old(owners) - 1 && Valid()
    {
      owners := owners - 1;
      word := (word + COUNT_MODULUS - 1) % COUNT_MODULUS;
      last := word == 0;
    }
  }
}
