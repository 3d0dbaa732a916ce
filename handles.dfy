/** Opaque membership handles.

    The multiplexer draws each new handle from a monotonically increasing
    counter (a sequence generator seeded with 1) and turns the counter value
    into a string. The model encodes the counter as its decimal digits; all the
    rest of the model relies on is that the encoding can be decoded again, so
    two distinct counter values never give the same handle.
 */
module Handles {

  /** The character for a decimal digit. */
  function DigitChar(d: nat): (c: char)
    requires d < 10
    ensures '0' <= c <= '9'
  {
    ('0' as int + d) as char
  }

  /** The value of a decimal digit character; any other character reads as 0. */
  function DigitValue(c: char): (d: nat)
    ensures d < 10
  {
    if '0' <= c <= '9' then c as int - '0' as int else 0
  }

  /** The handle issued for counter value `id`. */
  function Handle(id: nat): (h: string)
    ensures |h| > 0
    ensures forall i | 0 <= i < |h| :: '0' <= h[i] <= '9'
    decreases id
  {
    if id < 10 then [DigitChar(id)] else Handle(id / 10) + [DigitChar(id % 10)]
  }

  /** The counter value a handle stands for (its decimal reading). */
  function HandleId(h: string): (id: nat)
  {
    if h == [] then 0 else 10 * HandleId(h[..|h| - 1]) + DigitValue(h[|h| - 1])
  }

  /** Decoding a handle gives back the counter value it was made from. */
  lemma {:induction false} HandleIdOfHandle(id: nat)
    ensures HandleId(Handle(id)) == id
    decreases id
  {
    var h := Handle(id);
    if id < 10 {
      assert h[..|h| - 1] == [];
    } else {
      HandleIdOfHandle(id / 10);
      assert h[..|h| - 1] == Handle(id / 10);
      assert DigitValue(h[|h| - 1]) == id % 10;
    }
  }

  /** Distinct counter values give distinct handles, and conversely. */
  lemma HandleInjective(a: nat, b: nat)
    ensures Handle(a) == Handle(b) <==> a == b
  {
    HandleIdOfHandle(a);
    HandleIdOfHandle(b);
  }
}
