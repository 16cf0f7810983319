/**
  Audio patches of audio/hal/audio_hw.c: each stream records the handle of the patch it is
  part of, 0 when there is none.  Every operation holds the device lock.
 */
module AudioPatch {

  const NO_PATCH: int := 0
  const PATCH_PORTS_MAX: nat := 16

  /** A stream: its identity (address), its io handle, its patch handle and its routed devices. */
  datatype Stream = Stream(id: nat, handle: int, patch: int, devices: seq<int>)

  datatype Port = DevicePort(device: int) | MixPort(handle: int) | OtherPort

  /** The lists of open streams and the patch counter. */
  datatype Device = Device(outs: seq<Stream>, ins: seq<Stream>, next: int)

  // ---------------------------------------------------------------- lookups

  /** The first stream with an io handle, or the length of the list. */
  function FirstByHandle(ss: seq<Stream>, h: int): (i: nat)
    ensures i <= |ss| && (i < |ss| ==> ss[i].handle == h)
    ensures forall k :: 0 <= k < i ==> ss[k].handle != h
  {
    if ss == [] then 0 else if ss[0].handle == h then 0 else 1 + FirstByHandle(ss[1..], h)
  }

  /** The first stream with a patch handle, or the length of the list. */
  function FirstByPatch(ss: seq<Stream>, p: int): (i: nat)
    ensures i <= |ss| && (i < |ss| ==> ss[i].patch == p)
    ensures forall k :: 0 <= k < i ==> ss[k].patch != p
  {
    if ss == [] then 0 else if ss[0].patch == p then 0 else 1 + FirstByPatch(ss[1..], p)
  }

  /** `get_stream_in_by_io_handle_l` and `get_stream_out_by_io_handle_l` */
  method FindByHandle(ss: seq<Stream>, h: int) returns (i: nat)
    ensures i == FirstByHandle(ss, h) && i <= |ss| && (i < |ss| ==> ss[i].handle == h)
    ensures forall k :: 0 <= k < i ==> ss[k].handle != h
  {
    i := 0;
    while i < |ss|
      invariant 0 <= i <= |ss|
      invariant FirstByHandle(ss, h) == i + FirstByHandle(ss[i..], h)
    {
      assert ss[i..][1..] == ss[i + 1..];
      if ss[i].handle == h {
        return;
      }
      i := i + 1;
    }
  }

  /** `get_stream_in_by_patch_handle_l` and `get_stream_out_by_patch_handle_l` */
  method FindByPatch(ss: seq<Stream>, p: int) returns (i: nat)
    ensures i == FirstByPatch(ss, p) && i <= |ss| && (i < |ss| ==> ss[i].patch == p)
    ensures forall k :: 0 <= k < i ==> ss[k].patch != p
  {
    i := 0;
    while i < |ss|
      invariant 0 <= i <= |ss|
      invariant FirstByPatch(ss, p) == i + FirstByPatch(ss[i..], p)
    {
      assert ss[i..][1..] == ss[i + 1..];
      if ss[i].patch == p {
        return;
      }
      i := i + 1;
    }
  }

  // ---------------------------------------------------------------- operations

  /** The port combinations `adev_create_audio_patch` admits. */
  predicate ValidPorts(sources: seq<Port>, sinks: seq<Port>) {
    && |sources| == 1 && 1 <= |sinks| <= PATCH_PORTS_MAX
    && match sources[0]
       case DevicePort(_) => |sinks| == 1 && sinks[0].MixPort?
       case MixPort(_) => forall i :: 0 <= i < |sinks| ==> sinks[i].DevicePort?
       case OtherPort => false
  }

  function DevicesOf(ports: seq<Port>): seq<int>
    requires forall i :: 0 <= i < |ports| ==> ports[i].DevicePort?
  {
    seq(|ports|, i requires 0 <= i < |ports| => ports[i].device)
  }

  /** Records patch `p` on the stream with io handle `h`, if the handle is new or already recorded there. */
  function Patched(ss: seq<Stream>, h: int, p: int, generated: bool, devices: seq<int>): seq<Stream> {
    var i := FirstByHandle(ss, h);
    if i == |ss| || (!generated && ss[i].patch != p) then ss
    else ss[i := ss[i].(patch := p, devices := devices)]
  }

  /** Whether `Patched` finds its stream. */
  predicate Accepts(ss: seq<Stream>, h: int, p: int, generated: bool) {
    var i := FirstByHandle(ss, h);
    i < |ss| && (generated || ss[i].patch == p)
  }

  /** The device after `adev_create_audio_patch` with `*handle == p`. */
  function Created(d: Device, sources: seq<Port>, sinks: seq<Port>, p: int): Device {
    if !ValidPorts(sources, sinks) then d
    else
      var generated := p == NO_PATCH;
      var next := if generated then d.next + 1 else d.next;
      var q := if generated then next else p;
      match sources[0]
      case DevicePort(dev) => Device(d.outs, Patched(d.ins, sinks[0].handle, q, generated, [dev]), next)
      case MixPort(h) => Device(Patched(d.outs, h, q, generated, DevicesOf(sinks)), d.ins, next)
      case OtherPort => d
  }

  /** The handle it leaves in `*handle`. */
  function CreatedHandle(d: Device, sources: seq<Port>, sinks: seq<Port>, p: int): int {
    if !ValidPorts(sources, sinks) || p != NO_PATCH then p
    else
      var found := match sources[0]
        case DevicePort(_) => Accepts(d.ins, sinks[0].handle, d.next + 1, true)
        case MixPort(h) => Accepts(d.outs, h, d.next + 1, true)
        case OtherPort => false;
      if found then d.next + 1 else NO_PATCH
  }

  function Cleared(s: Stream): Stream { s.(patch := NO_PATCH, devices := []) }

  predicate Recorded(d: Device, p: int) {
    FirstByPatch(d.outs, p) < |d.outs| || FirstByPatch(d.ins, p) < |d.ins|
  }

  /** The device after `adev_release_audio_patch`. */
  function Released(d: Device, p: int): Device {
    var o, i := FirstByPatch(d.outs, p), FirstByPatch(d.ins, p);
    if o < |d.outs| then d.(outs := d.outs[o := Cleared(d.outs[o])])
    else if i < |d.ins| then d.(ins := d.ins[i := Cleared(d.ins[i])])
    else d
  }

  function RemoveId(ss: seq<Stream>, id: nat): seq<Stream> {
    if ss == [] then [] else if ss[0].id == id then ss[1..] else [ss[0]] + RemoveId(ss[1..], id)
  }

  datatype Op =
    | OpenOut(id: nat, handle: int)
    | OpenIn(id: nat, handle: int, device: int)
    | CloseOut(id: nat)
    | CloseIn(id: nat)
    | Create(sources: seq<Port>, sinks: seq<Port>, patch: int)
    | Release(patch: int)

  function Apply(d: Device, op: Op): Device {
    match op
    case OpenOut(id, h) => d.(outs := d.outs + [Stream(id, h, NO_PATCH, [])])
    case OpenIn(id, h, dev) => d.(ins := d.ins + [Stream(id, h, NO_PATCH, [dev])])
    case CloseOut(id) => d.(outs := RemoveId(d.outs, id))
    case CloseIn(id) => d.(ins := RemoveId(d.ins, id))
    case Create(sources, sinks, p) => Created(d, sources, sinks, p)
    case Release(p) => Released(d, p)
  }

  const FRESH: Device := Device([], [], 0)

  function Run(ops: seq<Op>): Device {
    if ops == [] then FRESH else Apply(Run(ops[..|ops| - 1]), ops[|ops| - 1])
  }

  // ---------------------------------------------------------------- what every operation keeps

  /** Patch handles of a list are between 0 and `n`, and no non-zero handle occurs twice. */
  ghost predicate Unique(ss: seq<Stream>, n: int) {
    && (forall i :: 0 <= i < |ss| ==> 0 <= ss[i].patch <= n)
    && (forall i, j :: 0 <= i < j < |ss| && ss[i].patch != NO_PATCH ==> ss[i].patch != ss[j].patch)
  }

  ghost predicate Apart(a: seq<Stream>, b: seq<Stream>) {
    forall i, j :: 0 <= i < |a| && 0 <= j < |b| && a[i].patch != NO_PATCH ==> a[i].patch != b[j].patch
  }

  /** Non-zero handles are pairwise distinct over all streams and never exceed the counter. */
  ghost predicate Inv(d: Device) {
    d.next >= 0 && Unique(d.outs, d.next) && Unique(d.ins, d.next) && Apart(d.outs, d.ins)
  }

  /** Recording a new handle, or the handle already recorded, keeps handles apart. */
  lemma PatchedKeeps(ss: seq<Stream>, other: seq<Stream>, h: int, p: int, generated: bool, devices: seq<int>, n: int)
    requires n >= 0 && Unique(ss, n) && Unique(other, n) && Apart(ss, other)
    requires generated ==> p == n + 1
    requires !generated ==> p != NO_PATCH
    ensures var next := if generated then n + 1 else n;
      Unique(Patched(ss, h, p, generated, devices), next) && Unique(other, next)
      && Apart(Patched(ss, h, p, generated, devices), other)
  {
  }

  /** Closing removes the first stream with the identity, and nothing if there is none. */
  lemma {:induction false} RemoveIdIs(ss: seq<Stream>, id: nat) returns (k: nat)
    ensures k <= |ss| && RemoveId(ss, id) == ss[..k] + if k < |ss| then ss[k + 1..] else []
    ensures (k < |ss| ==> ss[k].id == id) && forall i :: 0 <= i < k ==> ss[i].id != id
  {
    if ss == [] || ss[0].id == id {
      k := 0;
    } else {
      var j := RemoveIdIs(ss[1..], id);
      k := j + 1;
      assert ss[..k] == [ss[0]] + ss[1..][..j];
      assert k < |ss| ==> ss[k + 1..] == ss[1..][j + 1..];
    }
  }

  function Past(k: nat, i: nat): nat { if i < k then i else i + 1 }

  /** `r` is `ss` without the stream at `k`. */
  ghost predicate Dropped(ss: seq<Stream>, r: seq<Stream>, k: nat) {
    forall i :: 0 <= i < |r| ==> Past(k, i) < |ss| && r[i] == ss[Past(k, i)]
  }

  lemma DroppedUnique(ss: seq<Stream>, r: seq<Stream>, k: nat, n: int)
    requires Dropped(ss, r, k) && Unique(ss, n)
    ensures Unique(r, n)
  {
    forall i, j | 0 <= i < j < |r| && r[i].patch != NO_PATCH ensures r[i].patch != r[j].patch {
      assert Past(k, i) < Past(k, j);
    }
  }

  lemma DroppedApart(ss: seq<Stream>, r: seq<Stream>, k: nat, other: seq<Stream>)
    requires Dropped(ss, r, k) && Apart(ss, other)
    ensures Apart(r, other)
  {
  }

  lemma RemoveKeeps(ss: seq<Stream>, other: seq<Stream>, id: nat, n: int)
    requires Unique(ss, n) && Apart(ss, other)
    ensures Unique(RemoveId(ss, id), n) && Apart(RemoveId(ss, id), other)
  {
    hide Unique, Apart, RemoveId;
    var k := RemoveIdIs(ss, id);
    DroppedUnique(ss, RemoveId(ss, id), k, n);
    DroppedApart(ss, RemoveId(ss, id), k, other);
  }

  lemma OpenKeeps(ss: seq<Stream>, other: seq<Stream>, n: int, s: Stream)
    requires n >= 0 && Unique(ss, n) && Apart(ss, other) && Apart(other, ss) && s.patch == NO_PATCH
    ensures Unique(ss + [s], n) && Apart(ss + [s], other) && Apart(other, ss + [s])
  {
  }

  lemma ClearKeeps(ss: seq<Stream>, other: seq<Stream>, n: int, i: nat)
    requires n >= 0 && Unique(ss, n) && Apart(ss, other) && Apart(other, ss) && i < |ss|
    ensures var t := ss[i := Cleared(ss[i])]; Unique(t, n) && Apart(t, other) && Apart(other, t)
  {
  }

  lemma ApartSymmetric(a: seq<Stream>, b: seq<Stream>)
    requires Apart(a, b)
    ensures Apart(b, a)
  {
  }

  lemma CreateKeeps(d: Device, sources: seq<Port>, sinks: seq<Port>, p: int)
    requires Inv(d)
    ensures Inv(Created(d, sources, sinks, p)) && Created(d, sources, sinks, p).next >= d.next
  {
    hide Unique, Apart, Patched;
    if ValidPorts(sources, sinks) {
      var generated := p == NO_PATCH;
      var q := if generated then d.next + 1 else p;
      match sources[0]
      case DevicePort(dev) =>
        ApartSymmetric(d.outs, d.ins);
        PatchedKeeps(d.ins, d.outs, sinks[0].handle, q, generated, [dev], d.next);
        ApartSymmetric(Created(d, sources, sinks, p).ins, d.outs);
      case MixPort(h) =>
        PatchedKeeps(d.outs, d.ins, h, q, generated, DevicesOf(sinks), d.next);
      case OtherPort =>
    }
  }

  lemma ApplyKeeps(d: Device, op: Op)
    requires Inv(d)
    ensures Inv(Apply(d, op)) && Apply(d, op).next >= d.next
  {
    hide Unique, Apart, Created;
    ApartSymmetric(d.outs, d.ins);
    match op
    case OpenOut(id, h) =>
      OpenKeeps(d.outs, d.ins, d.next, Stream(id, h, NO_PATCH, []));
    case OpenIn(id, h, dev) =>
      OpenKeeps(d.ins, d.outs, d.next, Stream(id, h, NO_PATCH, [dev]));
    case CloseOut(id) =>
      RemoveKeeps(d.outs, d.ins, id, d.next);
    case CloseIn(id) =>
      RemoveKeeps(d.ins, d.outs, id, d.next);
      ApartSymmetric(RemoveId(d.ins, id), d.outs);
    case Create(sources, sinks, p) =>
      CreateKeeps(d, sources, sinks, p);
    case Release(p) =>
      var o, i := FirstByPatch(d.outs, p), FirstByPatch(d.ins, p);
      if o < |d.outs| {
        ClearKeeps(d.outs, d.ins, d.next, o);
      } else if i < |d.ins| {
        ClearKeeps(d.ins, d.outs, d.next, i);
      }
  }

  /** Over every run of opens, closes, creates and releases. */
  lemma {:induction false} RunKeeps(ops: seq<Op>)
    ensures Inv(Run(ops))
  {
    if ops != [] {
      RunKeeps(ops[..|ops| - 1]);
      ApplyKeeps(Run(ops[..|ops| - 1]), ops[|ops| - 1]);
    }
  }

  // ---------------------------------------------------------------- release

  function Patches(d: Device): seq<int> {
    seq(|d.outs|, i requires 0 <= i < |d.outs| => d.outs[i].patch) +
    seq(|d.ins|, i requires 0 <= i < |d.ins| => d.ins[i].patch)
  }

  /** Releasing a recorded handle clears it from exactly one stream; releasing it again finds nothing. */
  lemma ReleaseOnce(d: Device, p: int)
    requires Inv(d) && p != NO_PATCH && Recorded(d, p)
    ensures exists k :: 0 <= k < |Patches(d)| && Patches(d)[k] == p &&
                        Patches(Released(d, p)) == Patches(d)[k := NO_PATCH]
    ensures p !in Patches(Released(d, p))
    ensures !Recorded(Released(d, p), p)
  {
    var o, i, r := FirstByPatch(d.outs, p), FirstByPatch(d.ins, p), Released(d, p);
    var k := if o < |d.outs| then o else |d.outs| + i;
    assert Patches(d)[k] == p && Patches(r) == Patches(d)[k := NO_PATCH];
    forall j | 0 <= j < |Patches(d)| && j != k ensures Patches(d)[j] != p {
      if o < |d.outs| {
        assert d.outs[o].patch == p;
      } else {
        assert d.ins[i].patch == p;
      }
    }
    assert forall j :: 0 <= j < |r.outs| ==> Patches(r)[j] == r.outs[j].patch;
    assert forall j :: 0 <= j < |r.ins| ==> Patches(r)[|r.outs| + j] == r.ins[j].patch;
  }

  /** A second release of the same handle fails, exactly when the handle is not 0. */
  lemma SecondReleaseFailsIff(d: Device, p: int)
    requires Inv(d) && Recorded(d, p)
    ensures !Recorded(Released(d, p), p) <==> p != NO_PATCH
  {
    if p != NO_PATCH {
      ReleaseOnce(d, p);
    } else {
      var o, i, r := FirstByPatch(d.outs, p), FirstByPatch(d.ins, p), Released(d, p);
      if o < |d.outs| {
        assert r.outs[o].patch == NO_PATCH;
      } else {
        assert r.ins[i].patch == NO_PATCH;
      }
    }
  }

  /** A handle handed out is new: no stream had it, and it is above every handle handed out before. */
  lemma NewHandle(d: Device, sources: seq<Port>, sinks: seq<Port>)
    requires Inv(d)
    ensures var q := CreatedHandle(d, sources, sinks, NO_PATCH);
      q != NO_PATCH ==>
        && q > d.next && q == Created(d, sources, sinks, NO_PATCH).next
        && q !in Patches(d) && q in Patches(Created(d, sources, sinks, NO_PATCH))
  {
    var q, c := CreatedHandle(d, sources, sinks, NO_PATCH), Created(d, sources, sinks, NO_PATCH);
    if q != NO_PATCH {
      match sources[0]
      case DevicePort(_) =>
        var i := FirstByHandle(d.ins, sinks[0].handle);
        assert c.ins[i].patch == q;
        assert Patches(c)[|c.outs| + i] == q;
      case MixPort(h) =>
        var i := FirstByHandle(d.outs, h);
        assert c.outs[i].patch == q;
        assert Patches(c)[i] == q;
      case OtherPort =>
    }
  }

  // ---------------------------------------------------------------- what a patch does to its stream

  /** `i` is the first stream of the list with the io handle. */
  ghost predicate FirstWithHandle(ss: seq<Stream>, h: int, i: nat) {
    i < |ss| && ss[i].handle == h && forall k :: 0 <= k < i ==> ss[k].handle != h
  }

  /**
    A patch from a mix to devices: the first output stream with the mix's handle is routed to the
    devices of all sinks and records the handle, which is new if none was given and must be its
    own otherwise.  Nothing else changes; without such a stream nothing changes at all.
   */
  lemma CreateFromMix(d: Device, h: int, sinks: seq<Port>, p: int, i: nat)
    requires ValidPorts([MixPort(h)], sinks)
    ensures var c, q := Created(d, [MixPort(h)], sinks, p), CreatedHandle(d, [MixPort(h)], sinks, p);
      && c.ins == d.ins && c.next == (if p == 0 then d.next + 1 else d.next) && |c.outs| == |d.outs|
      && ((forall k :: 0 <= k < |d.outs| ==> d.outs[k].handle != h) ==> c.outs == d.outs && q == p)
      && (FirstWithHandle(d.outs, h, i) && (p == 0 || d.outs[i].patch == p) ==>
            && q == (if p == 0 then d.next + 1 else p)
            && c.outs[i].id == d.outs[i].id && c.outs[i].handle == h && c.outs[i].patch == q
            && |c.outs[i].devices| == |sinks|
            && (forall k :: 0 <= k < |sinks| ==> sinks[k] == DevicePort(c.outs[i].devices[k]))
            && (forall k :: 0 <= k < |d.outs| && k != i ==> c.outs[k] == d.outs[k]))
      && (FirstWithHandle(d.outs, h, i) && p != 0 && d.outs[i].patch != p ==> c.outs == d.outs && q == p)
  {
    var j := FirstByHandle(d.outs, h);
    if FirstWithHandle(d.outs, h, i) {
      assert i == j;
    }
  }

  /** A patch from a device to a mix, for the input streams. */
  lemma CreateFromDevice(d: Device, dev: int, h: int, p: int, i: nat)
    ensures var c := Created(d, [DevicePort(dev)], [MixPort(h)], p);
      var q := CreatedHandle(d, [DevicePort(dev)], [MixPort(h)], p);
      && c.outs == d.outs && c.next == (if p == 0 then d.next + 1 else d.next) && |c.ins| == |d.ins|
      && ((forall k :: 0 <= k < |d.ins| ==> d.ins[k].handle != h) ==> c.ins == d.ins && q == p)
      && (FirstWithHandle(d.ins, h, i) && (p == 0 || d.ins[i].patch == p) ==>
            && q == (if p == 0 then d.next + 1 else p)
            && c.ins[i] == Stream(d.ins[i].id, h, q, [dev])
            && (forall k :: 0 <= k < |d.ins| && k != i ==> c.ins[k] == d.ins[k]))
      && (FirstWithHandle(d.ins, h, i) && p != 0 && d.ins[i].patch != p ==> c.ins == d.ins && q == p)
  {
    var j := FirstByHandle(d.ins, h);
    if FirstWithHandle(d.ins, h, i) {
      assert i == j;
    }
  }

  /** A release clears handle and devices of the first output stream with the handle, else of the first input stream. */
  lemma ReleaseIs(d: Device, p: int, i: nat)
    ensures var r := Released(d, p);
      && r.next == d.next && |r.outs| == |d.outs| && |r.ins| == |d.ins|
      && (i < |d.outs| && d.outs[i].patch == p && (forall k :: 0 <= k < i ==> d.outs[k].patch != p) ==>
            && r.outs[i] == Stream(d.outs[i].id, d.outs[i].handle, 0, []) && r.ins == d.ins
            && forall k :: 0 <= k < |d.outs| && k != i ==> r.outs[k] == d.outs[k])
      && ((forall k :: 0 <= k < |d.outs| ==> d.outs[k].patch != p) &&
          i < |d.ins| && d.ins[i].patch == p && (forall k :: 0 <= k < i ==> d.ins[k].patch != p) ==>
            && r.ins[i] == Stream(d.ins[i].id, d.ins[i].handle, 0, []) && r.outs == d.outs
            && forall k :: 0 <= k < |d.ins| && k != i ==> r.ins[k] == d.ins[k])
  {
    var o, j := FirstByPatch(d.outs, p), FirstByPatch(d.ins, p);
  }

  // ---------------------------------------------------------------- the device

  class AudioDevice {
    var outs: seq<Stream>
    var ins: seq<Stream>
    var next: int

    ghost function Value(): Device
      reads this
    {
      Device(outs, ins, next)
    }

    constructor ()
      ensures Value() == FRESH
    {
      outs, ins, next := [], [], NO_PATCH;
    }

    /** The part of `adev_open_output_stream` that adds the stream: it has no patch yet. */
    method OpenOutput(id: nat, handle: int)
      modifies this
      ensures Value() == Apply(old(Value()), OpenOut(id, handle))
      ensures outs == old(outs) + [Stream(id, handle, 0, [])] && ins == old(ins) && next == old(next)
    {
      outs := outs + [Stream(id, handle, NO_PATCH, [])];
    }

    /** The part of `adev_open_input_stream` that adds the stream. */
    method OpenInput(id: nat, handle: int, device: int)
      modifies this
      ensures Value() == Apply(old(Value()), OpenIn(id, handle, device))
      ensures ins == old(ins) + [Stream(id, handle, 0, [device])] && outs == old(outs) && next == old(next)
    {
      ins := ins + [Stream(id, handle, NO_PATCH, [device])];
    }

    /** The part of `adev_close_output_stream` that removes the stream. */
    method CloseOutput(id: nat)
      modifies this
      ensures Value() == Apply(old(Value()), CloseOut(id))
    {
      outs := RemoveId(outs, id);
    }

    /** The part of `adev_close_input_stream` that removes the stream. */
    method CloseInput(id: nat)
      modifies this
      ensures Value() == Apply(old(Value()), CloseIn(id))
    {
      ins := RemoveId(ins, id);
    }

    /** `adev_create_audio_patch`: the return code is 0 for all valid ports, whether or not a stream was found. */
    method CreatePatch(sources: seq<Port>, sinks: seq<Port>, handle: int) returns (ok: bool, handle': int)
      requires Inv(Value())
      modifies this
      ensures Inv(Value()) && Value() == Apply(old(Value()), Create(sources, sinks, handle))
      ensures ok == ValidPorts(sources, sinks)
      ensures ok <==>
        && |sources| == 1 && 1 <= |sinks| <= 16
        && ((sources[0].DevicePort? && |sinks| == 1 && sinks[0].MixPort?) ||
            (sources[0].MixPort? && forall k :: 0 <= k < |sinks| ==> sinks[k].DevicePort?))
      ensures handle' == CreatedHandle(old(Value()), sources, sinks, handle)
    {
      hide Inv, Unique, Apart, RemoveId, Released;
      ApplyKeeps(Value(), Create(sources, sinks, handle));
      handle' := handle;
      if !ValidPorts(sources, sinks) {
        return false, handle';
      }
      var generated := false;
      var failed := false;
      if handle' == NO_PATCH {
        next := next + 1;
        handle' := next;
        generated := true;
      }
      if sources[0].DevicePort? {
        var i := FindByHandle(ins, sinks[0].handle);
        if i == |ins| || (!generated && ins[i].patch != handle') {
          failed := true;
        } else {
          ins := ins[i := ins[i].(devices := [sources[0].device], patch := handle')];
        }
      } else {
        var i := FindByHandle(outs, sources[0].handle);
        if i == |outs| || (!generated && outs[i].patch != handle') {
          failed := true;
        } else {
          outs := outs[i := outs[i].(devices := DevicesOf(sinks), patch := handle')];
        }
      }
      if failed && generated {
        handle' := NO_PATCH;
      }
      ok := true;
    }

    /** `adev_release_audio_patch`: succeeds exactly when some stream records the handle. */
    method ReleasePatch(p: int) returns (ok: bool)
      requires Inv(Value())
      modifies this
      ensures Inv(Value()) && Value() == Apply(old(Value()), Release(p))
      ensures ok == Recorded(old(Value()), p)
      ensures ok <==>
        || (exists k :: 0 <= k < |old(outs)| && old(outs)[k].patch == p)
        || (exists k :: 0 <= k < |old(ins)| && old(ins)[k].patch == p)
    {
      ApplyKeeps(Value(), Release(p));
      var o := FindByPatch(outs, p);
      if o < |outs| {
        outs := outs[o := outs[o].(devices := [], patch := NO_PATCH)];
        return true;
      }
      var i := FindByPatch(ins, p);
      if i < |ins| {
        ins := ins[i := ins[i].(devices := [], patch := NO_PATCH)];
        return true;
      }
      ok := false;
    }
  }
}
