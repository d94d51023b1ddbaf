/** Byte strings and the read side of binary streams. */
module Streams {
  newtype byte = i: int | 0 <= i < 256

  type bytes = seq<byte>

  function Min(a: int, b: int): int {
    if a <= b then a else b
  }

  /** The bytes of a list of fragments, in order. */
  function Flatten(fragments: seq<bytes>): bytes {
    if fragments == [] then [] else fragments[0] + Flatten(fragments[1..])
  }

  lemma {:induction false} FlattenAppend(fragments: seq<bytes>, last: bytes)
    ensures Flatten(fragments + [last]) == Flatten(fragments) + last
  {
    if fragments == [] {
      assert [] + [last] == [last];
    } else {
      assert (fragments + [last])[1..] == fragments[1..] + [last];
      FlattenAppend(fragments[1..], last);
    }
  }

  /**
   * A readable binary stream: a response body or a rewound spool file. A read may
   * hand over fewer bytes than asked for: `pace(i)`, when positive, caps the i-th read.
   * Only an exhausted stream answers a positive read with nothing.
   */
  class ByteStream {
    const data: bytes
    const pace: nat -> nat
    var position: nat
    var calls: nat

    ghost predicate Valid()
      reads this
    {
      position <= |data|
    }

    /** What is still to be read. */
    ghost function Rest(): (rest: bytes)
      requires Valid()
      reads this
    {
      data[position..]
    }

    /** Every read hands over all it was asked for, as far as the stream goes. */
    ghost predicate Eager() {
      forall i :: pace(i) == 0
    }

    constructor (data: bytes, pace: nat -> nat, position: nat)
      requires position <= |data|
      ensures Valid() && this.data == data && this.pace == pace
      ensures Rest() == data[position..]
    {
      this.data := data;
      this.pace := pace;
      this.position := position;
      this.calls := 0;
    }

    method Read(size: nat) returns (raw: bytes)
      requires Valid()
      modifies this
      ensures Valid()
      ensures raw + Rest() == old(Rest())
      ensures |raw| <= size
      ensures raw == [] <==> size == 0 || old(Rest()) == []
      ensures Eager() ==> |raw| == Min(size, |old(Rest())|)
    {
      var available := Min(size, |data| - position);
      var cap := pace(calls);
      var taken := if cap == 0 then available else Min(cap, available);
      raw := data[position..position + taken];
      position := position + taken;
      calls := calls + 1;
    }
  }
}
