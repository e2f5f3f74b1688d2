/** A bitmap in 32-bit words, read as the set of its indices. The table's dirty flags and the
    MQTT adapter's synced flags both use this layout. */
module Bitmap {
  import opened Words
  import opened Bitwise

  // ----- the words as a set -----

  predicate Test(words: seq<uint32>, i: nat)
    requires i < 32 * |words|
  {
    Bit(words[i / 32], i % 32)
  }

  /** The indices below n whose bit is set. */
  function Members(words: seq<uint32>, n: nat): set<nat>
    requires n <= 32 * |words|
  {
    set i: nat | i < n && Test(words, i)
  }

  /** `words[i / 32] |= 1 << (i % 32)` adds exactly the index i. */
  lemma {:induction false} SetMembers(words: seq<uint32>, i: nat, n: nat)
    requires i < n <= 32 * |words|
    ensures Members(words[i / 32 := WordWith(words[i / 32], i % 32)], n) == Members(words, n) + {i}
  {
    var after := words[i / 32 := WordWith(words[i / 32], i % 32)];
    forall j: nat | j < n
      ensures Test(after, j) == (j == i || Test(words, j))
    {
      OrBit(words[i / 32], Shl1(i % 32), j % 32);
      MaskBit(i % 32, j % 32);
    }
  }

  /** `words[i / 32] &= ~(1 << (i % 32))` removes exactly the index i. */
  lemma {:induction false} ClearMembers(words: seq<uint32>, i: nat, n: nat)
    requires i < n <= 32 * |words|
    ensures Members(words[i / 32 := WordWithout(words[i / 32], i % 32)], n) == Members(words, n) - {i}
  {
    var after := words[i / 32 := WordWithout(words[i / 32], i % 32)];
    forall j: nat | j < n
      ensures Test(after, j) == (j != i && Test(words, j))
    {
      AndNotBit(words[i / 32], Shl1(i % 32), j % 32);
      MaskBit(i % 32, j % 32);
    }
  }

  lemma {:induction false} EmptyMembers(words: seq<uint32>, n: nat)
    requires n <= 32 * |words|
    requires forall k :: 0 <= k < |words| ==> words[k] == 0
    ensures Members(words, n) == {}
  {
    forall i: nat | i < n
      ensures !Test(words, i)
    {
      ZeroBit(i % 32);
    }
  }
}
