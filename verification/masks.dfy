/** Pin masks. The driver builds each register value as an OR of `1 << pin`
    terms; a mask is modelled as the set of pins whose bit is set, so OR is
    union and the all-zero sample value is the empty set. */
module Masks {

  type Mask = set<nat>

  /** `1 << pin`: the mask of one pin. */
  function Bit(pin: nat): Mask
  {
    {pin}
  }

  /** The per-pin masks of a pin list, in order (the `...Bin` lists). */
  function Bits(pins: seq<nat>): (r: seq<Mask>)
    ensures |r| == |pins|
    ensures forall i :: 0 <= i < |pins| ==> r[i] == {pins[i]}
  {
    if pins == [] then [] else [Bit(pins[0])] + Bits(pins[1..])
  }

  /** OR of a list of masks, starting from zero. */
  function OrAll(masks: seq<Mask>): (r: Mask)
    ensures forall p :: p in r <==> exists i :: 0 <= i < |masks| && p in masks[i]
  {
    if masks == [] then {} else OrAll(masks[..|masks| - 1]) + masks[|masks| - 1]
  }

  /** ORing the masks of a pin list sets exactly the listed pins. */
  lemma {:induction false} OrAllBits(pins: seq<nat>)
    ensures forall p :: p in OrAll(Bits(pins)) <==> p in pins
  {
    var bs := Bits(pins);
    forall p
      ensures p in OrAll(bs) <==> p in pins
    {
      if p in pins {
        var i :| 0 <= i < |pins| && pins[i] == p;
        assert p in bs[i];
      }
    }
  }
}
