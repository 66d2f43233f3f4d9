/** The copies of libusb's descriptor trees: configurations, interfaces, alternate settings and
    endpoints, each level an allocated array, with extra bytes at three of the levels. */
module Descriptors {
  import opened Bytes
  import Link

  // ---- libusb's trees ----

  /** The fixed part of a descriptor: nine bytes; byte 4 of an interface or configuration
      descriptor counts what hangs below it. */
  datatype LibEndpoint = LibEndpoint(header: seq<Byte>, extra: seq<Byte>)
  datatype LibSetting = LibSetting(header: seq<Byte>, endpoints: seq<LibEndpoint>, extra: seq<Byte>)
  datatype LibInterface = LibInterface(settings: seq<LibSetting>)
  datatype LibConfig = LibConfig(header: seq<Byte>, interfaces: seq<LibInterface>, extra: seq<Byte>)

  predicate GoodSetting(s: LibSetting) {
    |s.header| == 9 && s.header[4] == |s.endpoints|
  }

  predicate GoodInterface(t: LibInterface) {
    forall i {:trigger t.settings[i]} :: 0 <= i < |t.settings| ==> GoodSetting(t.settings[i])
  }

  /** The counts libusb puts into the descriptors are the lengths of the arrays. */
  predicate GoodConfig(c: LibConfig) {
    && |c.header| == 9 && c.header[4] == |c.interfaces|
    && forall i {:trigger c.interfaces[i]} :: 0 <= i < |c.interfaces| ==> GoodInterface(c.interfaces[i])
  }

  // ---- the host's trees ----

  datatype Endpoint = Endpoint(header: seq<Byte>, extra: array?<Byte>, extralen: int)
  datatype Setting = Setting(header: seq<Byte>, endpoint: array?<Endpoint>, extra: array?<Byte>, extralen: int)
  datatype Interface = Interface(altsetting: array?<Setting>, numAltsetting: int)
  datatype Config = Config(header: seq<Byte>, interface: array?<Interface>, extra: array?<Byte>, extralen: int)

  // What memset leaves in a fresh array.
  const NO_HEADER: seq<Byte> := [0, 0, 0, 0, 0, 0, 0, 0, 0]
  const NO_ENDPOINT := Endpoint(NO_HEADER, null, 0)
  const NO_SETTING := Setting(NO_HEADER, null, null, 0)
  const NO_INTERFACE := Interface(null, 0)
  const NO_CONFIG := Config(NO_HEADER, null, null, 0)

  /** malloc and free, with a ledger of the blocks that are allocated and not yet freed. */
  class Heap {
    ghost var live: set<object>

    constructor ()
      ensures live == {}
    {
      live := {};
    }

    /** malloc, assumed to succeed, and memset. */
    method Calloc<T>(n: nat, zero: T) returns (block: array<T>)
      modifies this
      ensures fresh(block) && block.Length == n && live == old(live) + {block}
      ensures forall i :: 0 <= i < n ==> block[i] == zero
    {
      block := new T[n](_ => zero);
      live := live + {block};
    }

    /** malloc and memcpy. */
    method Duplicate(bytes: seq<Byte>) returns (block: array<Byte>)
      modifies this
      ensures fresh(block) && block[..] == bytes && live == old(live) + {block}
    {
      block := new Byte[|bytes|](i requires 0 <= i < |bytes| => bytes[i]);
      live := live + {block};
    }

    /** malloc of a device entry, which find_devices only gives its libusb device. */
    method NewDevice(dev: LibDevice) returns (d: UsbDevice)
      modifies this
      ensures fresh(d) && d.dev == dev && live == old(live) + {d}
    {
      d := new UsbDevice(dev);
      live := live + {d};
    }

    /** free: of a block that is allocated; a second time would not verify. */
    method Free(block: object)
      requires block in live
      modifies this
      ensures live == old(live) - {block}
    {
      live := live - {block};
    }
  }

  /** The blocks of a tree: those of its root, and those of the trees below. */
  datatype Footprint = Footprint(own: set<object>, parts: seq<Footprint>)

  ghost function All(f: Footprint): set<object> {
    f.own + set i, o | 0 <= i < |f.parts| && o in All(f.parts[i]) :: o
  }

  /** No block occurs twice in the tree. */
  ghost predicate Separate(f: Footprint) {
    && (forall i {:trigger f.parts[i]} :: 0 <= i < |f.parts| ==> Separate(f.parts[i]) && f.own !! All(f.parts[i]))
    && (forall i, j :: 0 <= i < j < |f.parts| ==> All(f.parts[i]) !! All(f.parts[j]))
  }

  ghost function ExtraBlocks(extra: array?<Byte>): set<object> {
    if extra == null then {} else {extra}
  }

  /** Extra bytes are copied into a block of their own, if there are any. */
  ghost predicate ExtraAt(extra: array?<Byte>, extralen: int, src: seq<Byte>)
    reads ExtraBlocks(extra)
  {
    extralen == |src| && if src == [] then extra == null else extra != null && extra[..] == src
  }

  ghost predicate EndpointAt(e: Endpoint, src: LibEndpoint, f: Footprint)
    reads All(f)
  {
    && f == Footprint(ExtraBlocks(e.extra), [])
    && e.header == src.header && ExtraAt(e.extra, e.extralen, src.extra)
  }

  ghost predicate SettingAt(s: Setting, src: LibSetting, f: Footprint)
    reads All(f)
  {
    && s.endpoint != null && f.own == {s.endpoint} + ExtraBlocks(s.extra)
    && s.header == src.header && ExtraAt(s.extra, s.extralen, src.extra)
    && s.endpoint.Length == |src.endpoints| == |f.parts|
    && forall i {:trigger f.parts[i]} :: 0 <= i < |f.parts| ==> EndpointAt(s.endpoint[i], src.endpoints[i], f.parts[i])
  }

  ghost predicate InterfaceAt(t: Interface, src: LibInterface, f: Footprint)
    reads All(f)
  {
    && t.altsetting != null && f.own == {t.altsetting}
    && t.numAltsetting == t.altsetting.Length == |src.settings| == |f.parts|
    && forall i {:trigger f.parts[i]} :: 0 <= i < |f.parts| ==> SettingAt(t.altsetting[i], src.settings[i], f.parts[i])
  }

  /** The host's tree in memory is structurally equal to libusb's, and its blocks are those of
      the footprint. */
  ghost predicate ConfigAt(c: Config, src: LibConfig, f: Footprint)
    reads All(f)
  {
    && c.interface != null && f.own == {c.interface} + ExtraBlocks(c.extra)
    && c.header == src.header && ExtraAt(c.extra, c.extralen, src.extra)
    && c.interface.Length == |src.interfaces| == |f.parts|
    && forall i {:trigger f.parts[i]} :: 0 <= i < |f.parts| ==> InterfaceAt(c.interface[i], src.interfaces[i], f.parts[i])
  }

  lemma PartsApart(f: Footprint)
    requires Separate(f)
    ensures forall i {:trigger f.parts[i]} :: 0 <= i < |f.parts| ==>
      All(f.parts[i]) <= All(f) && f.own !! All(f.parts[i]) && Separate(f.parts[i])
  {
  }

  /** One more tree below the root. */
  lemma Grown(f: Footprint, p: Footprint)
    ensures var g := Footprint(f.own, f.parts + [p]);
            && All(g) == All(f) + All(p)
            && (Separate(f) && Separate(p) && All(f) !! All(p) ==> Separate(g))
  {
    var g := Footprint(f.own, f.parts + [p]);
    AllGrown(f, p);
    if Separate(f) && Separate(p) && All(f) !! All(p) {
      hide All;
      PartsApart(f);
      RootIn(f);
      assert g.parts[|f.parts|] == p;
      assert forall i :: 0 <= i < |f.parts| ==> g.parts[i] == f.parts[i];
    }
  }

  lemma RootIn(f: Footprint)
    ensures f.own <= All(f)
  {
  }

  lemma AllGrown(f: Footprint, p: Footprint)
    ensures All(Footprint(f.own, f.parts + [p])) == All(f) + All(p)
  {
    var g := Footprint(f.own, f.parts + [p]);
    assert g.parts[|f.parts|] == p;
    forall o | o in All(f)
      ensures o in All(g)
    {
      if o !in f.own {
        var i :| 0 <= i < |f.parts| && o in All(f.parts[i]);
        assert g.parts[i] == f.parts[i];
      }
    }
  }

  /** More blocks at the root. */
  lemma Widened(f: Footprint, more: set<object>)
    ensures var g := Footprint(f.own + more, f.parts);
            && All(g) == All(f) + more
            && (Separate(f) && All(f) !! more ==> Separate(g))
  {
    forall i | 0 <= i < |f.parts|
      ensures All(f.parts[i]) <= All(f)
    {
    }
  }

  // The copy loses nothing: what is in memory is a copy of one source tree only.

  lemma SettingIsExact(s: Setting, a: LibSetting, b: LibSetting, f: Footprint, g: Footprint)
    requires SettingAt(s, a, f) && SettingAt(s, b, g)
    ensures a == b
  {
    forall i | 0 <= i < |a.endpoints|
      ensures a.endpoints[i] == b.endpoints[i]
    {
      assert EndpointAt(s.endpoint[i], a.endpoints[i], f.parts[i]) && EndpointAt(s.endpoint[i], b.endpoints[i], g.parts[i]);
    }
  }

  lemma InterfaceIsExact(t: Interface, a: LibInterface, b: LibInterface, f: Footprint, g: Footprint)
    requires InterfaceAt(t, a, f) && InterfaceAt(t, b, g)
    ensures a == b
  {
    hide SettingAt;
    forall i | 0 <= i < |a.settings|
      ensures a.settings[i] == b.settings[i]
    {
      assert SettingAt(t.altsetting[i], a.settings[i], f.parts[i]) && SettingAt(t.altsetting[i], b.settings[i], g.parts[i]);
      SettingIsExact(t.altsetting[i], a.settings[i], b.settings[i], f.parts[i], g.parts[i]);
    }
  }

  lemma ConfigIsExact(c: Config, a: LibConfig, b: LibConfig, f: Footprint, g: Footprint)
    requires ConfigAt(c, a, f) && ConfigAt(c, b, g)
    ensures a == b
  {
    hide InterfaceAt;
    forall i | 0 <= i < |a.interfaces|
      ensures a.interfaces[i] == b.interfaces[i]
    {
      assert InterfaceAt(c.interface[i], a.interfaces[i], f.parts[i]) && InterfaceAt(c.interface[i], b.interfaces[i], g.parts[i]);
      InterfaceIsExact(c.interface[i], a.interfaces[i], b.interfaces[i], f.parts[i], g.parts[i]);
    }
  }

  // ---- copying ----

  /** copy_endpoint_descriptor, into dest + i. */
  method CopyEndpoint(heap: Heap, dest: array<Endpoint>, i: nat, src: LibEndpoint) returns (ghost f: Footprint)
    requires i < dest.Length && dest[i] == NO_ENDPOINT
    modifies heap, dest
    ensures fresh(All(f)) && Separate(f) && EndpointAt(dest[i], src, f)
    ensures heap.live == old(heap.live) + All(f)
    ensures forall j :: 0 <= j < dest.Length && j != i ==> dest[j] == old(dest[j])
  {
    dest[i] := dest[i].(header := src.header);
    dest[i] := dest[i].(extralen := |src.extra|);
    if |src.extra| != 0 {
      var extra := heap.Duplicate(src.extra);
      dest[i] := dest[i].(extra := extra);
    }
    f := Footprint(ExtraBlocks(dest[i].extra), []);
  }

  lemma RootOnly(own: set<object>)
    ensures All(Footprint(own, [])) == own && Separate(Footprint(own, []))
  {
  }

  /** The loop of copy_interface_descriptor, over a cleared array. */
  method CopyEndpoints(heap: Heap, endpoint: array<Endpoint>, srcs: seq<LibEndpoint>) returns (ghost f: Footprint)
    requires endpoint in heap.live && endpoint.Length == |srcs| && forall j :: 0 <= j < |srcs| ==> endpoint[j] == NO_ENDPOINT
    modifies heap, endpoint
    ensures f.own == {endpoint} && |f.parts| == |srcs| && Separate(f)
    ensures endpoint in All(f) && fresh(All(f) - {endpoint}) && heap.live == old(heap.live) + All(f)
    ensures forall j {:trigger f.parts[j]} :: 0 <= j < |srcs| ==> EndpointAt(endpoint[j], srcs[j], f.parts[j])
  {
    hide Separate, All;
    f := Footprint({endpoint}, []);
    RootOnly(f.own);
    for k := 0 to |srcs|
      invariant f.own == {endpoint} && |f.parts| == k && endpoint in All(f)
      invariant fresh(All(f) - {endpoint}) && Separate(f)
      invariant heap.live == old(heap.live) + All(f)
      invariant forall j {:trigger f.parts[j]} :: 0 <= j < k ==> EndpointAt(endpoint[j], srcs[j], f.parts[j])
      invariant forall j :: k <= j < |srcs| ==> endpoint[j] == NO_ENDPOINT
    {
      ghost var p := CopyEndpoint(heap, endpoint, k, srcs[k]);
      Grown(f, p);
      f := Footprint(f.own, f.parts + [p]);
    }
  }

  /** copy_interface_descriptor */
  method CopySetting(heap: Heap, dest: array<Setting>, i: nat, src: LibSetting) returns (ghost f: Footprint)
    requires i < dest.Length && dest[i] == NO_SETTING && GoodSetting(src)
    modifies heap, dest
    ensures fresh(All(f)) && Separate(f) && SettingAt(dest[i], src, f)
    ensures heap.live == old(heap.live) + All(f)
    ensures forall j :: 0 <= j < dest.Length && j != i ==> dest[j] == old(dest[j])
  {
    hide Separate, All;
    dest[i] := dest[i].(header := src.header);
    var endpoint := heap.Calloc(src.header[4], NO_ENDPOINT);
    dest[i] := dest[i].(endpoint := endpoint);
    f := CopyEndpoints(heap, endpoint, src.endpoints);
    dest[i] := dest[i].(extralen := |src.extra|);
    if |src.extra| != 0 {
      var extra := heap.Duplicate(src.extra);
      dest[i] := dest[i].(extra := extra);
      Widened(f, {extra});
      f := Footprint(f.own + {extra}, f.parts);
    }
  }

  /** copy_interface: an array of alternate settings. */
  method CopyInterface(heap: Heap, dest: array<Interface>, i: nat, src: LibInterface) returns (ghost f: Footprint)
    requires i < dest.Length && dest[i] == NO_INTERFACE && GoodInterface(src)
    modifies heap, dest
    ensures fresh(All(f)) && Separate(f) && InterfaceAt(dest[i], src, f)
    ensures heap.live == old(heap.live) + All(f)
    ensures forall j :: 0 <= j < dest.Length && j != i ==> dest[j] == old(dest[j])
  {
    hide Separate, All;
    var numAltsetting := |src.settings|;
    dest[i] := dest[i].(numAltsetting := numAltsetting);
    var altsetting := heap.Calloc(numAltsetting, NO_SETTING);
    dest[i] := dest[i].(altsetting := altsetting);
    f := CopySettings(heap, altsetting, src);
  }

  /** The loop of copy_interface, over a cleared array. */
  method CopySettings(heap: Heap, altsetting: array<Setting>, src: LibInterface) returns (ghost f: Footprint)
    requires altsetting in heap.live && altsetting.Length == |src.settings| && GoodInterface(src)
    requires forall j :: 0 <= j < |src.settings| ==> altsetting[j] == NO_SETTING
    modifies heap, altsetting
    ensures f.own == {altsetting} && |f.parts| == |src.settings| && Separate(f)
    ensures altsetting in All(f) && fresh(All(f) - {altsetting}) && heap.live == old(heap.live) + All(f)
    ensures forall j {:trigger f.parts[j]} :: 0 <= j < |f.parts| ==> SettingAt(altsetting[j], src.settings[j], f.parts[j])
  {
    hide Separate, All, SettingAt, GoodSetting;
    f := Footprint({altsetting}, []);
    RootOnly(f.own);
    for k := 0 to |src.settings|
      invariant f.own == {altsetting} && |f.parts| == k && altsetting in All(f)
      invariant fresh(All(f) - {altsetting}) && Separate(f)
      invariant heap.live == old(heap.live) + All(f)
      invariant forall j {:trigger f.parts[j]} :: 0 <= j < k ==> SettingAt(altsetting[j], src.settings[j], f.parts[j])
      invariant forall j :: k <= j < |src.settings| ==> altsetting[j] == NO_SETTING
    {
      PartsApart(f);
      ghost var p := CopySetting(heap, altsetting, k, src.settings[k]);
      Grown(f, p);
      f := Footprint(f.own, f.parts + [p]);
    }
  }

  /** The loop of copy_config_descriptor, over a cleared array. */
  method CopyInterfaces(heap: Heap, interface: array<Interface>, src: LibConfig) returns (ghost f: Footprint)
    requires interface in heap.live && interface.Length == |src.interfaces| && GoodConfig(src)
    requires forall j :: 0 <= j < |src.interfaces| ==> interface[j] == NO_INTERFACE
    modifies heap, interface
    ensures f.own == {interface} && |f.parts| == |src.interfaces| && Separate(f)
    ensures interface in All(f) && fresh(All(f) - {interface}) && heap.live == old(heap.live) + All(f)
    ensures forall j {:trigger f.parts[j]} :: 0 <= j < |f.parts| ==> InterfaceAt(interface[j], src.interfaces[j], f.parts[j])
  {
    hide Separate, All, InterfaceAt, GoodInterface;
    f := Footprint({interface}, []);
    RootOnly(f.own);
    for k := 0 to |src.interfaces|
      invariant f.own == {interface} && |f.parts| == k && interface in All(f)
      invariant fresh(All(f) - {interface}) && Separate(f)
      invariant heap.live == old(heap.live) + All(f)
      invariant forall j {:trigger f.parts[j]} :: 0 <= j < k ==> InterfaceAt(interface[j], src.interfaces[j], f.parts[j])
      invariant forall j :: k <= j < |src.interfaces| ==> interface[j] == NO_INTERFACE
    {
      PartsApart(f);
      ghost var p := CopyInterface(heap, interface, k, src.interfaces[k]);
      Grown(f, p);
      f := Footprint(f.own, f.parts + [p]);
    }
  }

  /** copy_config_descriptor: the tree in dest[i] equals the source, all of its blocks are new and
      allocated exactly once, and so it shares none with the source or with anything else. */
  method CopyConfig(heap: Heap, dest: array<Config>, i: nat, src: LibConfig) returns (ghost f: Footprint)
    requires i < dest.Length && dest[i] == NO_CONFIG && GoodConfig(src)
    modifies heap, dest
    ensures fresh(All(f)) && Separate(f) && ConfigAt(dest[i], src, f)
    ensures heap.live == old(heap.live) + All(f)
    ensures forall j :: 0 <= j < dest.Length && j != i ==> dest[j] == old(dest[j])
  {
    hide Separate, All, InterfaceAt, GoodInterface;
    dest[i] := dest[i].(header := src.header);
    var interface := heap.Calloc(src.header[4], NO_INTERFACE);
    dest[i] := dest[i].(interface := interface);
    f := CopyInterfaces(heap, interface, src);
    PartsApart(f);
    dest[i] := dest[i].(extralen := |src.extra|);
    if |src.extra| != 0 {
      var extra := heap.Duplicate(src.extra);
      dest[i] := dest[i].(extra := extra);
      Widened(f, {extra});
      f := Footprint(f.own + {extra}, f.parts);
    }
  }

  // ---- clearing ----

  /** The blocks of the first n trees below the root. */
  ghost function Below(f: Footprint, n: nat): set<object>
    requires n <= |f.parts|
  {
    All(Footprint({}, f.parts[..n]))
  }

  lemma FrontApart(f: Footprint, n: nat)
    requires n < |f.parts| && Separate(f)
    ensures Below(f, n) !! All(f.parts[n])
  {
    var front := Footprint({}, f.parts[..n]);
    assert forall i :: 0 <= i < n ==> front.parts[i] == f.parts[i];
  }

  lemma BelowStep(f: Footprint, n: nat)
    requires n < |f.parts| && Separate(f)
    ensures Below(f, n + 1) == Below(f, n) + All(f.parts[n]) && Below(f, n) !! All(f.parts[n])
    ensures f.own !! All(f.parts[n])
  {
    hide All;
    TakeOneMore(f.parts, n);
    Grown(Footprint({}, f.parts[..n]), f.parts[n]);
    FrontApart(f, n);
  }

  lemma BelowEnds(f: Footprint)
    ensures Below(f, 0) == {} && All(f) == f.own + Below(f, |f.parts|)
    ensures Separate(f) ==> f.own !! Below(f, |f.parts|)
  {
    assert f.parts[..|f.parts|] == f.parts;
    Widened(Footprint({}, f.parts), f.own);
  }

  /** if (extra) free(extra); */
  method ClearExtra(heap: Heap, extra: array?<Byte>)
    requires ExtraBlocks(extra) <= heap.live
    modifies heap
    ensures heap.live == old(heap.live) - ExtraBlocks(extra)
  {
    if extra != null {
      heap.Free(extra);
    }
  }

  /** clear_endpoint_descriptor */
  method ClearEndpoint(heap: Heap, e: Endpoint, ghost src: LibEndpoint, ghost f: Footprint)
    requires heap !in All(f) && EndpointAt(e, src, f) && All(f) <= heap.live
    modifies heap
    ensures heap.live == old(heap.live) - All(f)
  {
    ClearExtra(heap, e.extra);
  }

  /** clear_interface_descriptor: the extra bytes, the endpoints' blocks, then their array. */
  method ClearSetting(heap: Heap, s: Setting, ghost src: LibSetting, ghost f: Footprint)
    requires heap !in All(f) && SettingAt(s, src, f) && GoodSetting(src) && Separate(f) && All(f) <= heap.live
    modifies heap
    ensures heap.live == old(heap.live) - All(f)
  {
    hide Separate, All, Below;
    PartsApart(f);
    BelowEnds(f);
    ClearExtra(heap, s.extra);
    if s.endpoint != null {
      for i := 0 to s.header[4]
        invariant heap.live == old(heap.live) - ExtraBlocks(s.extra) - Below(f, i)
      {
        BelowStep(f, i);
        ClearEndpoint(heap, s.endpoint[i], src.endpoints[i], f.parts[i]);
      }
      heap.Free(s.endpoint);
    }
  }

  /** clear_interface */
  method ClearInterface(heap: Heap, t: Interface, ghost src: LibInterface, ghost f: Footprint)
    requires heap !in All(f) && InterfaceAt(t, src, f) && GoodInterface(src) && Separate(f) && All(f) <= heap.live
    modifies heap
    ensures heap.live == old(heap.live) - All(f)
  {
    hide Separate, All, Below, SettingAt, GoodSetting;
    PartsApart(f);
    BelowEnds(f);
    if t.altsetting != null {
      for i := 0 to t.numAltsetting
        invariant heap.live == old(heap.live) - Below(f, i)
      {
        BelowStep(f, i);
        ClearSetting(heap, t.altsetting[i], src.settings[i], f.parts[i]);
      }
      heap.Free(t.altsetting);
    }
  }

  /** clear_config_descriptor: it frees exactly the blocks of the tree, each of them once. */
  method ClearConfig(heap: Heap, c: Config, ghost src: LibConfig, ghost f: Footprint)
    requires heap !in All(f) && Separate(f) && All(f) <= heap.live
    requires (c == NO_CONFIG && f == Footprint({}, [])) || (ConfigAt(c, src, f) && GoodConfig(src))
    modifies heap
    ensures heap.live == old(heap.live) - All(f)
  {
    hide Separate, All, Below, InterfaceAt, GoodInterface;
    PartsApart(f);
    BelowEnds(f);
    ClearExtra(heap, c.extra);
    if c.interface != null {
      for i := 0 to c.header[4]
        invariant heap.live == old(heap.live) - ExtraBlocks(c.extra) - Below(f, i)
      {
        BelowStep(f, i);
        ClearInterface(heap, c.interface[i], src.interfaces[i], f.parts[i]);
      }
      heap.Free(c.interface);
    }
  }

  // ---- devices ----

  /** libusb_get_config_descriptor */
  datatype GetConfig = NoConfig(code: int) | Got(config: LibConfig)

  /** libusb's side of a device: what its calls answer, and two counts: of the configurations it
      has lent out, and of the references held to it. */
  class LibDevice {
    const code: int  // of libusb_get_device_descriptor
    const configs: seq<GetConfig>
    var lent: int
    var refs: int

    constructor (code: int, configs: seq<GetConfig>)
      ensures this.code == code && this.configs == configs && lent == 0 && refs == 1
    {
      this.code, this.configs, lent, refs := code, configs, 0, 1;
    }

    /** There is one answer for each configuration the descriptor counts. */
    ghost predicate Good() {
      && |configs| < 0x100
      && forall i {:trigger configs[i]} :: 0 <= i < |configs| ==>
           match configs[i] case NoConfig(code) => code < 0 case Got(c) => GoodConfig(c)
    }
  }

  class UsbDevice {
    const dev: LibDevice
    var numConfigurations: Byte
    var config: array?<Config>

    /** The other fields are whatever malloc left there. */
    constructor (dev: LibDevice)
      ensures this.dev == dev
    {
      this.dev, numConfigurations, config := dev, 0, null;
    }
  }

  /** The configurations of the device are copies of libusb's. */
  ghost predicate ConfigsAt(config: array<Config>, srcs: seq<GetConfig>, f: Footprint)
    reads config, All(f)
  {
    && f.own == {config} && |f.parts| == |srcs| <= config.Length
    && forall i {:trigger f.parts[i]} :: 0 <= i < |f.parts| ==> srcs[i].Got? && ConfigAt(config[i], srcs[i].config, f.parts[i])
  }

  /** The first error libusb reports, if any. */
  function FirstError(code: int, configs: seq<GetConfig>): int {
    if code < 0 then Link.CompatErr(code)
    else if configs == [] then 0
    else if configs[0].NoConfig? then Link.CompatErr(configs[0].code)
    else FirstError(0, configs[1..])
  }

  /** There is none exactly if libusb gives the descriptor and every configuration; else it is the
      error of the descriptor, or of the first configuration that libusb does not give. */
  lemma {:induction false} FirstErrorIs(code: int, configs: seq<GetConfig>)
    ensures FirstError(code, configs) <= 0
    ensures FirstError(code, configs) == 0 <==> code >= 0 && forall i {:trigger configs[i]} :: 0 <= i < |configs| ==> configs[i].Got?
    ensures code < 0 ==> FirstError(code, configs) == Link.CompatErr(code)
    ensures forall i {:trigger configs[i]} :: code >= 0 && 0 <= i < |configs| && configs[i].NoConfig? && (forall j :: 0 <= j < i ==> configs[j].Got?) ==>
              FirstError(code, configs) == Link.CompatErr(configs[i].code)
    decreases |configs|
  {
    if code >= 0 && configs != [] && configs[0].Got? {
      var rest := configs[1..];
      FirstErrorIs(0, rest);
      assert forall i {:trigger configs[i]} :: 0 < i < |configs| ==> configs[i] == rest[i - 1];
      assert forall i {:trigger rest[i]} :: 0 <= i < |rest| ==> rest[i] == configs[i + 1];
    }
  }

  /** clear_device: the configurations copied so far; the others are still cleared. */
  method ClearDevice(heap: Heap, config: array<Config>, numConfigurations: nat, ghost srcs: seq<GetConfig>, ghost f: Footprint)
    requires ConfigsAt(config, srcs, f) && numConfigurations == config.Length
    requires forall i {:trigger srcs[i]} :: 0 <= i < |srcs| && srcs[i].Got? ==> GoodConfig(srcs[i].config)
    requires forall i :: |srcs| <= i < config.Length ==> config[i] == NO_CONFIG
    requires heap !in All(f) && Separate(f) && All(f) <= heap.live
    modifies heap
    ensures heap.live == old(heap.live) - Below(f, |f.parts|)
  {
    hide Separate, All, Below, ConfigAt, GoodConfig;
    PartsApart(f);
    BelowEnds(f);
    for i := 0 to numConfigurations
      invariant heap.live == old(heap.live) - Below(f, Min(i, |srcs|))
    {
      RootOnly({});
      ghost var src, part := LibConfig(NO_HEADER, [], []), Footprint({}, []);
      if i < |srcs| {
        BelowStep(f, i);
        src, part := srcs[i].config, f.parts[i];
      }
      ClearConfig(heap, config[i], src, part);
    }
  }

  lemma {:induction false} FirstErrorAt(configs: seq<GetConfig>, k: nat)
    requires k <= |configs| && forall i {:trigger configs[i]} :: 0 <= i < k ==> configs[i].Got?
    ensures FirstError(0, configs) == FirstError(0, configs[k..])
    decreases k
  {
    if k > 0 {
      assert forall i :: 0 <= i < k - 1 ==> configs[1..][i] == configs[i + 1];
      FirstErrorAt(configs[1..], k - 1);
      assert configs[1..][k - 1..] == configs[k..];
    }
  }

  /** What libusb reports for the configurations, read off after the first k of them. */
  lemma FirstErrorFrom(configs: seq<GetConfig>, k: nat)
    requires k <= |configs| && forall i {:trigger configs[i]} :: 0 <= i < k ==> configs[i].Got?
    ensures FirstError(0, configs) ==
      if k == |configs| then 0
      else if configs[k].NoConfig? then Link.CompatErr(configs[k].code)
      else FirstError(0, configs[k + 1..])
  {
    FirstErrorAt(configs, k);
    if k < |configs| {
      assert configs[k..][1..] == configs[k + 1..];
    }
  }

  /** The loop of initialize_device, over a cleared array: all configurations copied, or those
      before the first that libusb does not give. */
  method CopyConfigs(heap: Heap, lib: LibDevice, config: array<Config>) returns (ret: int, ghost f: Footprint)
    requires lib.Good() && config in heap.live && config.Length == |lib.configs|
    requires forall j :: 0 <= j < config.Length ==> config[j] == NO_CONFIG
    modifies heap, config, lib
    ensures ret == FirstError(0, lib.configs) <= 0 && (ret == 0 <==> |f.parts| == |lib.configs|)
    ensures |f.parts| <= |lib.configs| && ConfigsAt(config, lib.configs[..|f.parts|], f)
    ensures forall j :: |f.parts| <= j < config.Length ==> config[j] == NO_CONFIG
    ensures Separate(f) && config in All(f) && fresh(All(f) - {config}) && heap.live == old(heap.live) + All(f)
    ensures lib.lent == old(lib.lent) && lib.refs == old(lib.refs)
  {
    hide Separate, All, ConfigAt, GoodConfig, FirstError;
    f := Footprint({config}, []);
    RootOnly(f.own);
    for i := 0 to |lib.configs|
      invariant f.own == {config} && |f.parts| == i && config in All(f)
      invariant fresh(All(f) - {config}) && Separate(f) && heap.live == old(heap.live) + All(f)
      invariant lib.lent == old(lib.lent) && lib.refs == old(lib.refs)
      invariant forall j {:trigger lib.configs[j]} :: 0 <= j < i ==> lib.configs[j].Got?
      invariant forall j {:trigger f.parts[j]} :: 0 <= j < i ==> ConfigAt(config[j], lib.configs[j].config, f.parts[j])
      invariant forall j :: i <= j < config.Length ==> config[j] == NO_CONFIG
    {
      FirstErrorFrom(lib.configs, i);
      match lib.configs[i]
      case NoConfig(code) =>
        return Link.CompatErr(code), f;
      case Got(newlibConfig) =>
        lib.lent := lib.lent + 1;
        PartsApart(f);
        ghost var p := CopyConfig(heap, config, i, newlibConfig);
        lib.lent := lib.lent - 1;
        Grown(f, p);
        f := Footprint(f.own, f.parts + [p]);
    }
    FirstErrorFrom(lib.configs, |lib.configs|);
    ret := 0;
  }

  /** The device has a copy of each of libusb's configurations, in the blocks of the footprint. */
  ghost predicate Initialised(d: UsbDevice, f: Footprint)
    reads d, d.config, All(f)
  {
    && d.config != null && d.config.Length == d.numConfigurations == |d.dev.configs| && ConfigsAt(d.config, d.dev.configs, f)
    && Separate(f)
  }

  /** initialize_device: on success every configuration is a copy of libusb's; after an error,
      what was allocated until then is freed again. Either way libusb has its own configurations
      back. */
  method InitializeDevice(heap: Heap, d: UsbDevice) returns (ret: int, ghost f: Footprint)
    requires d.dev.Good()
    modifies heap, d, d.dev
    ensures ret == FirstError(d.dev.code, d.dev.configs)
    ensures ret == 0 <==> d.dev.code >= 0 && forall i {:trigger d.dev.configs[i]} :: 0 <= i < |d.dev.configs| ==> d.dev.configs[i].Got?
    ensures ret == 0 ==> Initialised(d, f) && fresh(All(f)) && heap.live == old(heap.live) + All(f)
    ensures ret != 0 ==> heap.live == old(heap.live)
    ensures d.dev.lent == old(d.dev.lent) && d.dev.refs == old(d.dev.refs) + if ret == 0 then 1 else 0
  {
    hide Separate, All, Below, ConfigAt, GoodConfig;
    FirstErrorIs(d.dev.code, d.dev.configs);
    f := Footprint({}, []);
    if d.dev.code < 0 {
      return Link.CompatErr(d.dev.code), f;
    }
    d.numConfigurations := |d.dev.configs|;
    var config := heap.Calloc(d.numConfigurations, NO_CONFIG);
    d.config := config;
    ret, f := CopyConfigs(heap, d.dev, config);
    if ret < 0 {
      BelowEnds(f);
      ClearDevice(heap, config, d.numConfigurations, d.dev.configs[..|f.parts|], f);
      heap.Free(config);
      return;
    }
    assert d.dev.configs[..|f.parts|] == d.dev.configs;
    d.dev.refs := d.dev.refs + 1;
  }

  /** free_device, of a device that initialised: its tree is freed, each block once, and libusb's
      reference is given back. */
  method FreeDevice(heap: Heap, d: UsbDevice, ghost f: Footprint)
    requires d in heap.live && d !in All(f) && heap !in All(f) && d.dev.Good() && Initialised(d, f) && All(f) <= heap.live
    modifies heap, d.dev`refs
    ensures heap.live == old(heap.live) - All(f) - {d} && d.dev.refs == old(d.dev.refs) - 1
  {
    hide Separate, All, Below, ConfigAt, GoodConfig;
    BelowEnds(f);
    ClearDevice(heap, d.config, d.numConfigurations, d.dev.configs, f);
    heap.Free(d.config);
    d.dev.refs := d.dev.refs - 1;
    heap.Free(d);
  }

  /** What usb_find_devices does with a device it does not know: an entry is allocated and
      initialised; if that fails the entry is freed again and nothing is left of it. */
  method AddDevice(heap: Heap, lib: LibDevice) returns (ret: int, d: UsbDevice, ghost f: Footprint)
    requires lib.Good()
    modifies heap, lib
    ensures fresh(d) && d.dev == lib && ret == FirstError(lib.code, lib.configs)
    ensures ret == 0 ==>
      && Initialised(d, f) && fresh(All(f)) && d !in All(f)
      && heap.live == old(heap.live) + {d} + All(f) && lib.refs == old(lib.refs) + 1
    ensures ret != 0 ==> heap.live == old(heap.live) && lib.refs == old(lib.refs)
    ensures lib.lent == old(lib.lent)
  {
    hide Initialised, FirstError;
    d := heap.NewDevice(lib);
    ret, f := InitializeDevice(heap, d);
    if ret != 0 {
      heap.Free(d);
    }
  }

  /** The life of a device, from the scan that finds it to the one that misses it: whatever libusb
      answers, every block allocated on the way is freed, once, and libusb has all of its
      references and configurations back. */
  method AddThenRemove(heap: Heap, lib: LibDevice) returns (ret: int)
    requires lib.Good()
    modifies heap, lib
    ensures heap.live == old(heap.live) && lib.refs == old(lib.refs) && lib.lent == old(lib.lent)
    ensures ret == FirstError(lib.code, lib.configs)
  {
    hide Initialised, FirstError;
    var d;
    ghost var f;
    ret, d, f := AddDevice(heap, lib);
    if ret == 0 {
      FreeDevice(heap, d, f);
    }
  }
}
