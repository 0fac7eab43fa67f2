/**
  The endpoint split in the `FelicaReader` constructor: each endpoint of the
  interface is taken as the IN endpoint when bit 0x80 of its address is set
  and as the OUT endpoint when it is clear. A later endpoint replaces an
  earlier one of the same direction.
 */
module Endpoints {
  import opened Bytes
  import opened Wrappers

  /**
    Bit 0x80 of an endpoint address is set. Java masks the sign-extended
    `byte`, which leaves the same bit as masking the raw value.
   */
  predicate IsInAddress(address: byte)
  {
    (address as bv8) & 0x80 == 0x80
  }

  /** Bit 0x80 of an endpoint address is clear. */
  predicate IsOutAddress(address: byte)
  {
    (address as bv8) & 0x80 == 0x00
  }

  /** Every address is exactly one of IN (0x80 and above) and OUT (below 0x80). */
  lemma DirectionByRange(address: byte)
    ensures IsInAddress(address) <==> address >= 0x80
    ensures IsOutAddress(address) <==> !IsInAddress(address)
  {
  }

  /**
    The loop over the interface's endpoint addresses, in list order. The
    results are positions in that list; `None` stands for an endpoint
    variable left `null`.
   */
  method SelectEndpoints(addresses: seq<byte>) returns (inIndex: Option<nat>, outIndex: Option<nat>)
    ensures inIndex.Some? ==>
              inIndex.value < |addresses| && IsInAddress(addresses[inIndex.value])
              && forall j :: inIndex.value < j < |addresses| ==> !IsInAddress(addresses[j])
    ensures inIndex.None? <==> forall j :: 0 <= j < |addresses| ==> !IsInAddress(addresses[j])
    ensures outIndex.Some? ==>
              outIndex.value < |addresses| && IsOutAddress(addresses[outIndex.value])
              && forall j :: outIndex.value < j < |addresses| ==> !IsOutAddress(addresses[j])
    ensures outIndex.None? <==> forall j :: 0 <= j < |addresses| ==> !IsOutAddress(addresses[j])
  {
    inIndex, outIndex := None, None;
    var i := 0;
    while i < |addresses|
      invariant 0 <= i <= |addresses|
      invariant inIndex.Some? ==>
                  inIndex.value < i && IsInAddress(addresses[inIndex.value])
                  && forall j :: inIndex.value < j < i ==> !IsInAddress(addresses[j])
      invariant inIndex.None? ==> forall j :: 0 <= j < i ==> !IsInAddress(addresses[j])
      invariant outIndex.Some? ==>
                  outIndex.value < i && IsOutAddress(addresses[outIndex.value])
                  && forall j :: outIndex.value < j < i ==> !IsOutAddress(addresses[j])
      invariant outIndex.None? ==> forall j :: 0 <= j < i ==> !IsOutAddress(addresses[j])
    {
      if IsInAddress(addresses[i]) {
        inIndex := Some(i);
      } else if IsOutAddress(addresses[i]) {
        outIndex := Some(i);
      }
      i := i + 1;
    }
  }
}
