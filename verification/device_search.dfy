/**
  `FelicaReader.findDevice`: a search of the USB hub tree for the first
  device, in pre-order, whose descriptor carries the wanted vendor and
  product ids. The hub passed in is not itself a candidate; its attached
  devices are, each one before the devices attached below it.
 */
module DeviceSearch {
  import opened Bytes
  import opened Wrappers

  /** The two descriptor fields the search reads, as raw 16-bit values. */
  datatype Descriptor = Descriptor(idVendor: uint16, idProduct: uint16)

  /** A USB device; a hub has devices attached to it. */
  datatype UsbDevice =
    | Peripheral(desc: Descriptor)
    | Hub(desc: Descriptor, attached: seq<UsbDevice>)

  /**
    The descriptor test. `idVendor()` and `idProduct()` return Java `short`,
    widened to `int` before comparing with the `int` arguments, so an id of
    0x8000 or above is seen as negative.
   */
  predicate Matches(d: UsbDevice, vendorId: int, productId: int)
  {
    SignedShort(d.desc.idVendor) == vendorId && SignedShort(d.desc.idProduct) == productId
  }

  /** Number of devices in the tree rooted at `d`, `d` included. */
  function Size(d: UsbDevice): nat
  {
    match d
    case Peripheral(_) => 1
    case Hub(_, attached) => 1 + SizeAll(attached)
  }

  /** Number of devices in the trees rooted at `ds`. */
  function SizeAll(ds: seq<UsbDevice>): nat
  {
    if ds == [] then 0 else Size(ds[0]) + SizeAll(ds[1..])
  }

  /** Every device attached to a hub is a smaller tree than the hub. */
  lemma {:induction false} SizeOfAttached(ds: seq<UsbDevice>, i: nat)
    requires i < |ds|
    ensures Size(ds[i]) <= SizeAll(ds)
    decreases |ds|
  {
    if i > 0 {
      SizeOfAttached(ds[1..], i - 1);
    }
  }

  /** Reference order: the trees rooted at `ds` in pre-order, each device before its attached devices. */
  function PreOrder(ds: seq<UsbDevice>): seq<UsbDevice>
    decreases SizeAll(ds)
  {
    if ds == [] then []
    else
      assert SizeAll(ds) == Size(ds[0]) + SizeAll(ds[1..]);
      [ds[0]] + (if ds[0].Hub? then PreOrder(ds[0].attached) else []) + PreOrder(ds[1..])
  }

  /** Reference search: the first device of `ds` that matches. */
  function FirstMatch(ds: seq<UsbDevice>, vendorId: int, productId: int): (r: Option<UsbDevice>)
    ensures r.Some? ==> r.value in ds && Matches(r.value, vendorId, productId)
    ensures r.None? <==> forall d :: d in ds ==> !Matches(d, vendorId, productId)
  {
    if ds == [] then None
    else if Matches(ds[0], vendorId, productId) then Some(ds[0])
    else FirstMatch(ds[1..], vendorId, productId)
  }

  /** The first match in `a + b` is the first in `a`, or else the first in `b`. */
  lemma {:induction false} FirstMatchAppend(a: seq<UsbDevice>, b: seq<UsbDevice>, vendorId: int, productId: int)
    ensures FirstMatch(a + b, vendorId, productId) ==
            if FirstMatch(a, vendorId, productId).Some? then FirstMatch(a, vendorId, productId)
            else FirstMatch(b, vendorId, productId)
    decreases |a|
  {
    if a != [] {
      assert (a + b)[0] == a[0];
      assert (a + b)[1..] == a[1..] + b;
      FirstMatchAppend(a[1..], b, vendorId, productId);
    } else {
      assert a + b == b;
    }
  }

  /** Pre-order of a list extended by one tree: the old order, then that tree in pre-order. */
  lemma {:induction false} PreOrderSnoc(ds: seq<UsbDevice>, d: UsbDevice)
    ensures PreOrder(ds + [d]) ==
            PreOrder(ds) + [d] + (if d.Hub? then PreOrder(d.attached) else [])
    decreases |ds|
  {
    if ds == [] {
      assert ds + [d] == [d];
      assert [d][1..] == [];
    } else {
      assert (ds + [d])[0] == ds[0];
      assert (ds + [d])[1..] == ds[1..] + [d];
      PreOrderSnoc(ds[1..], d);
    }
  }

  /**
    `findDevice(hub, vendorId, productId)`: the loop over the hub's attached
    devices, returning a matching device at once and otherwise descending
    into it when it is a hub. The result is the first match in pre-order.
   */
  method FindDevice(hub: UsbDevice, vendorId: int, productId: int) returns (r: Option<UsbDevice>)
    requires hub.Hub?
    ensures r == FirstMatch(PreOrder(hub.attached), vendorId, productId)
    ensures r.Some? ==> Matches(r.value, vendorId, productId) && r.value in PreOrder(hub.attached)
    ensures r.None? <==> forall d :: d in PreOrder(hub.attached) ==> !Matches(d, vendorId, productId)
    decreases Size(hub)
  {
    var devices := hub.attached;
    var i := 0;
    while i < |devices|
      invariant 0 <= i <= |devices|
      invariant FirstMatch(PreOrder(devices[..i]), vendorId, productId) == None
    {
      var device := devices[i];
      SearchStep(devices, i, vendorId, productId);
      if Matches(device, vendorId, productId) {
        PrefixMatchIsFirst(devices, i + 1, vendorId, productId);
        return Some(device);
      }
      if device.Hub? {
        SizeOfAttached(devices, i);
        var found := FindDevice(device, vendorId, productId);
        if found.Some? {
          PrefixMatchIsFirst(devices, i + 1, vendorId, productId);
          return found;
        }
      }
      i := i + 1;
    }
    assert devices[..i] == devices;
    return None;
  }

  /** One step of the search loop: how the first match over a prefix grows by one attached device. */
  lemma SearchStep(ds: seq<UsbDevice>, i: nat, vendorId: int, productId: int)
    requires i < |ds|
    ensures var before := FirstMatch(PreOrder(ds[..i]), vendorId, productId);
            FirstMatch(PreOrder(ds[..i + 1]), vendorId, productId) ==
              if before.Some? then before
              else if Matches(ds[i], vendorId, productId) then Some(ds[i])
              else if ds[i].Hub? then FirstMatch(PreOrder(ds[i].attached), vendorId, productId)
              else None
  {
    var d := ds[i];
    var prefix := PreOrder(ds[..i]);
    var below := if d.Hub? then PreOrder(d.attached) else [];
    assert ds[..i + 1] == ds[..i] + [d];
    PreOrderSnoc(ds[..i], d);
    assert prefix + [d] + below == prefix + ([d] + below);
    FirstMatchAppend(prefix, [d] + below, vendorId, productId);
    assert ([d] + below)[0] == d;
    assert ([d] + below)[1..] == below;
  }

  /** A match within the pre-order of a prefix is the first match of the whole list. */
  lemma PrefixMatchIsFirst(ds: seq<UsbDevice>, k: nat, vendorId: int, productId: int)
    requires k <= |ds|
    requires FirstMatch(PreOrder(ds[..k]), vendorId, productId).Some?
    ensures FirstMatch(PreOrder(ds), vendorId, productId) == FirstMatch(PreOrder(ds[..k]), vendorId, productId)
  {
    PreOrderAppend(ds[..k], ds[k..]);
    assert ds[..k] + ds[k..] == ds;
    FirstMatchAppend(PreOrder(ds[..k]), PreOrder(ds[k..]), vendorId, productId);
  }

  /** Pre-order distributes over concatenation of device lists. */
  lemma {:induction false} PreOrderAppend(a: seq<UsbDevice>, b: seq<UsbDevice>)
    ensures PreOrder(a + b) == PreOrder(a) + PreOrder(b)
    decreases |a|
  {
    if a == [] {
      assert a + b == b;
    } else {
      assert (a + b)[0] == a[0];
      assert (a + b)[1..] == a[1..] + b;
      PreOrderAppend(a[1..], b);
    }
  }
}
