/**
  The registry of src/interfacesServer.c: interfaces and their devices, the ids they are
  given, and the index that finds a device by its name.  Names are in lower case, as every
  lookup of the source compares them.
 */
module Registry {
  import opened Wrappers

  const FIRST_INTERFACE_ID := 100
  const FIRST_DEVICE_ID := 1000

  datatype InterfaceInfo =
    InterfaceInfo(idType: int, description: string, parameters: string, dev: string, state: int)

  /** An interface; one from the configuration file may have no list of devices at all. */
  datatype Interface = Interface(id: int, info: InterfaceInfo, hasDevices: bool)

  datatype DeviceInfo = DeviceInfo(idType: int, state: int, parameters: string, description: string)

  /** A device node: under `owner` in the tree, carrying its own id and its parent's. */
  datatype Device = Device(name: string, owner: string, id: int, parent: int, info: DeviceInfo)

  /** Interfaces by name, device nodes by address, the index of devices, and the next ids. */
  datatype State = State(
    interfaces: map<string, Interface>,
    devices: map<nat, Device>,
    index: map<string, nat>,
    nextInterface: int,
    nextDevice: int,
    brk: nat)

  // ----- What a request brings --------------------------------------------------------

  /** A field of a request: missing, of another JSON type, or given. */
  datatype Field<T> = Absent | Mistyped | Given(value: T)

  datatype InterfaceData = InterfaceData(
    name: Field<string>, idType: Field<int>, description: Field<string>,
    parameters: Field<string>, dev: Field<string>, state: Field<int>)

  datatype DeviceData = DeviceData(
    name: Field<string>, idType: Field<int>, state: Field<real>,
    parameters: Field<string>, description: Field<string>)

  function Or<T>(f: Field<T>, otherwise: T): T {
    if f.Given? then f.value else otherwise
  }

  const TEMPLATE := InterfaceInfo(-1, "", "", "", -1)

  function Filled(info: InterfaceInfo, d: InterfaceData): InterfaceInfo {
    InterfaceInfo(Or(d.idType, info.idType), Or(d.description, info.description), Or(d.parameters, info.parameters),
                  Or(d.dev, info.dev), Or(d.state, info.state))
  }

  /** What the source checks before it adds a device: the error code, or 0. */
  function Refusal(deviceType: int -> bool, d: DeviceData): int {
    if !d.name.Given? then -2
    else if !d.idType.Given? || !deviceType(d.idType.value) then -3
    else if !d.state.Given? || (d.state.value != 0.0 && d.state.value != 1.0) then -4
    else if d.parameters.Mistyped? then -5
    else if d.description.Mistyped? then -6
    else 0
  }

  function Bit(x: real): int {
    if x == 0.0 then 0 else 1
  }

  // ----- Lookups -------------------------------------------------------------------------

  predicate IsDevice(devices: map<nat, Device>, owner: string, name: string, a: nat) {
    a in devices && devices[a].owner == owner && devices[a].name == name
  }

  predicate HasDevice(devices: map<nat, Device>, owner: string, name: string) {
    exists a :: a in devices && IsDevice(devices, owner, name, a)
  }

  /** The index without the entries whose device carries this interface id. */
  function Unindexed(index: map<string, nat>, devices: map<nat, Device>, id: int): map<string, nat> {
    map n | n in index && !(index[n] in devices && devices[index[n]].parent == id) :: index[n]
  }

  // ----- Requests ---------------------------------------------------------------------------

  function AddInterface(s: State, d: InterfaceData): (State, int) {
    var name, info := Or(d.name, ""), Filled(TEMPLATE, d);
    if |name| < 3 || !(0 <= info.state <= 2) || info.idType < 0 then (s, -1)
    else
      var s1 := s.(nextInterface := s.nextInterface + 1);
      if name in s.interfaces then (s1, -1)
      else (s1.(interfaces := s.interfaces[name := Interface(s.nextInterface, info, true)]), 0)
  }

  /** The interface is replaced by a copy, devices and all, and its devices indexed anew. */
  ghost function UpdateInterface(s: State, name: string, d: InterfaceData): (State, int) {
    if name !in s.interfaces then (s, 0)
    else
      var i := s.interfaces[name];
      var copies := Copies(s.devices, name, s.brk);
      (s.(interfaces := s.interfaces[name := i.(info := Filled(i.info, d))],
          devices := Others(s.devices, name) + copies,
          index := Unindexed(s.index, s.devices, i.id) + Names(s.devices, name, s.brk),
          brk := s.brk + s.brk),
       0)
  }

  function Others(devices: map<nat, Device>, owner: string): map<nat, Device> {
    map a | a in devices && devices[a].owner != owner :: devices[a]
  }

  /** Copies of an interface's devices, at fresh addresses. */
  function Copies(devices: map<nat, Device>, owner: string, brk: nat): map<nat, Device> {
    map b | b in Moved(devices, owner, brk) :: devices[Down(b, brk)]
  }

  /** The address of a copy, and what it is a copy of. */
  function Up(a: nat, brk: nat): nat {
    a + brk
  }

  function Down(b: nat, brk: nat): nat {
    if b >= brk then b - brk else 0
  }

  lemma UpDown(a: nat, brk: nat)
    ensures Down(Up(a, brk), brk) == a && Up(a, brk) >= brk && (a < brk ==> Up(a, brk) < brk + brk)
  {
  }

  function Moved(devices: map<nat, Device>, owner: string, brk: nat): (bs: set<nat>)
    ensures forall a :: a in devices && devices[a].owner == owner ==> Up(a, brk) in bs
    ensures forall b :: b in bs ==>
      Down(b, brk) in devices && devices[Down(b, brk)].owner == owner && Up(Down(b, brk), brk) == b && b >= brk
  {
    set a | a in devices && devices[a].owner == owner :: Up(a, brk)
  }

  ghost function Names(devices: map<nat, Device>, owner: string, brk: nat): map<string, nat> {
    map n | n in DeviceNames(devices, owner) :: Up(Addressed(devices, owner, n), brk)
  }

  function DeviceNames(devices: map<nat, Device>, owner: string): set<string> {
    set a | a in devices && devices[a].owner == owner :: devices[a].name
  }

  ghost function Addressed(devices: map<nat, Device>, owner: string, name: string): (a: nat)
    requires name in DeviceNames(devices, owner)
    ensures a in devices && devices[a].owner == owner && devices[a].name == name
  {
    var a :| a in devices && devices[a].owner == owner && devices[a].name == name;
    a
  }

  function DeleteInterface(s: State, name: string): (State, int) {
    if name !in s.interfaces then (s, -1)
    else
      (s.(interfaces := s.interfaces - {name}, devices := Others(s.devices, name),
          index := Unindexed(s.index, s.devices, s.interfaces[name].id)),
       0)
  }

  function AddDevice(deviceType: int -> bool, s: State, owner: string, d: DeviceData): (State, int) {
    var code := Refusal(deviceType, d);
    if code != 0 then (s, code)
    else
      var s1 := s.(nextDevice := s.nextDevice + 1);
      if owner !in s.interfaces then (s1, -10)
      else if !s.interfaces[owner].hasDevices then (s1, -11)
      else if HasDevice(s.devices, owner, d.name.value) then (s1, -12)
      else
        var info := DeviceInfo(d.idType.value, Bit(d.state.value), Or(d.parameters, ""), Or(d.description, ""));
        var dev := Device(d.name.value, owner, s.nextDevice, s.interfaces[owner].id, info);
        (s1.(devices := s.devices[s.brk := dev], index := s.index[d.name.value := s.brk], brk := s.brk + 1), 0)
  }

  /** Given fields replace the device's own, in the same node. */
  function Changed(info: DeviceInfo, d: DeviceData): DeviceInfo {
    DeviceInfo(
      if d.idType.Given? && d.idType.value >= 0 then d.idType.value else info.idType,
      if d.state.Given? then Bit(d.state.value) else info.state,
      Or(d.parameters, info.parameters), Or(d.description, info.description))
  }

  function UpdateDevice(deviceType: int -> bool, s: State, owner: string, name: string, d: DeviceData): (State, int) {
    if d.idType.Given? && !deviceType(d.idType.value) then (s, -3)
    else if d.state.Given? && d.state.value != 0.0 && d.state.value != 1.0 then (s, -4)
    else if owner !in s.interfaces then (s, -10)
    else if !s.interfaces[owner].hasDevices then (s, -11)
    else if !HasDevice(s.devices, owner, name) then (s, -12)
    else
      (s.(devices := map a | a in s.devices ::
            if IsDevice(s.devices, owner, name, a) then s.devices[a].(info := Changed(s.devices[a].info, d))
            else s.devices[a]),
       0)
  }

  /** The name leaves the index whether or not this interface has such a device. */
  function DeleteDevice(s: State, owner: string, name: string): (State, int) {
    if owner !in s.interfaces then (s, -2)
    else if !s.interfaces[owner].hasDevices then (s, -3)
    else
      (s.(index := s.index - {name},
          devices := map a | a in s.devices && !IsDevice(s.devices, owner, name, a) :: s.devices[a]),
       0)
  }

  // ----- Loading ------------------------------------------------------------------------------

  /** An interface of the configuration file, with its devices if it has a list of them. */
  datatype Loaded = Loaded(name: string, info: InterfaceInfo, list: Option<seq<(string, DeviceInfo)>>) {
    function Devices(): seq<(string, DeviceInfo)> {
      if list.Some? then list.value else []
    }
  }

  function LinkInterface(s: State, i: Loaded): State {
    s.(interfaces := s.interfaces[i.name := Interface(s.nextInterface, i.info, i.list.Some?)],
       nextInterface := s.nextInterface + 1)
  }

  function LinkDevice(s: State, owner: string, id: int, name: string, info: DeviceInfo): State {
    s.(devices := s.devices[s.brk := Device(name, owner, s.nextDevice, id, info)], index := s.index[name := s.brk],
       nextDevice := s.nextDevice + 1, brk := s.brk + 1)
  }

  function LinkDevices(s: State, owner: string, id: int, ds: seq<(string, DeviceInfo)>): State {
    if ds == [] then s
    else LinkDevice(LinkDevices(s, owner, id, ds[..|ds| - 1]), owner, id, ds[|ds| - 1].0, ds[|ds| - 1].1)
  }

  const EMPTY := State(map[], map[], map[], FIRST_INTERFACE_ID, FIRST_DEVICE_ID, 0)

  /** Relinked and indexed: ids in file order, from the first of each kind. */
  function Load(tree: seq<Loaded>): State {
    if tree == [] then EMPTY
    else
      var s := Load(tree[..|tree| - 1]);
      var i := tree[|tree| - 1];
      LinkDevices(LinkInterface(s, i), i.name, s.nextInterface, i.Devices())
  }

  // ----- The invariant --------------------------------------------------------------------------

  predicate InterfacesApart(interfaces: map<string, Interface>, next: int) {
    && (forall m :: m in interfaces ==> FIRST_INTERFACE_ID <= interfaces[m].id < next)
    && (forall m, n :: m in interfaces && n in interfaces && interfaces[m].id == interfaces[n].id ==> m == n)
  }

  predicate DevicesApart(devices: map<nat, Device>, next: int, brk: nat) {
    && (forall a :: a in devices ==> a < brk && FIRST_DEVICE_ID <= devices[a].id < next)
    && (forall a, b :: a in devices && b in devices && devices[a].id == devices[b].id ==> a == b)
  }

  predicate Parented(devices: map<nat, Device>, interfaces: map<string, Interface>) {
    forall a :: a in devices ==> devices[a].owner in interfaces && devices[a].parent == interfaces[devices[a].owner].id
  }

  /** The index has exactly the device names of the tree, each leading to that very node. */
  predicate Indexed(devices: map<nat, Device>, index: map<string, nat>) {
    && (forall n :: n in index ==> index[n] in devices && devices[index[n]].name == n)
    && (forall a :: a in devices ==> devices[a].name in index && index[devices[a].name] == a)
  }

  predicate Good(s: State) {
    && InterfacesApart(s.interfaces, s.nextInterface) && DevicesApart(s.devices, s.nextDevice, s.brk)
    && Parented(s.devices, s.interfaces) && Indexed(s.devices, s.index)
    && FIRST_INTERFACE_ID <= s.nextInterface && FIRST_DEVICE_ID <= s.nextDevice
  }

  datatype Op =
    | DoAddInterface(d: InterfaceData)
    | DoUpdateInterface(name: string, d: InterfaceData)
    | DoDeleteInterface(name: string)
    | DoAddDevice(owner: string, device: DeviceData)
    | DoUpdateDevice(owner: string, name: string, device: DeviceData)
    | DoDeleteDevice(owner: string, name: string)

  ghost function Step(deviceType: int -> bool, s: State, op: Op): State {
    match op
    case DoAddInterface(d) => AddInterface(s, d).0
    case DoUpdateInterface(name, d) => UpdateInterface(s, name, d).0
    case DoDeleteInterface(name) => DeleteInterface(s, name).0
    case DoAddDevice(owner, d) => AddDevice(deviceType, s, owner, d).0
    case DoUpdateDevice(owner, name, d) => UpdateDevice(deviceType, s, owner, name, d).0
    case DoDeleteDevice(owner, name) => DeleteDevice(s, owner, name).0
  }

  /**
    What keeps the registry right: an addition is refused, or its device has a name that is
    not in the index; a deletion names the interface that owns the device.
   */
  predicate Proper(deviceType: int -> bool, s: State, op: Op) {
    match op
    case DoAddDevice(owner, d) => AddDevice(deviceType, s, owner, d).1 != 0 || d.name.value !in s.index
    case DoDeleteDevice(owner, name) => NamesOwner(s, owner, name)
    case _ => true
  }

  /** The interface has the device of this name, if it has devices and there is one. */
  predicate NamesOwner(s: State, owner: string, name: string) {
    owner in s.interfaces && s.interfaces[owner].hasDevices && name in s.index && s.index[name] in s.devices ==>
      s.devices[s.index[name]].owner == owner
  }

  lemma AddInterfaceGood(s: State, d: InterfaceData)
    requires Good(s)
    ensures Good(AddInterface(s, d).0)
  {
    hide Indexed, DevicesApart;
  }

  lemma UnindexedExactly(s: State, name: string)
    requires Good(s) && name in s.interfaces
    ensures
      var u := Unindexed(s.index, s.devices, s.interfaces[name].id);
      && (forall n :: n in u <==> n in s.index && s.devices[s.index[n]].owner != name)
      && forall n :: n in u ==> u[n] == s.index[n]
    ensures Indexed(Others(s.devices, name), Unindexed(s.index, s.devices, s.interfaces[name].id))
  {
    hide DevicesApart;
    var u := Unindexed(s.index, s.devices, s.interfaces[name].id);
    forall n | n in s.index
      ensures n in u <==> s.devices[s.index[n]].owner != name
    {
      var v := s.devices[s.index[n]];
      assert v.owner in s.interfaces;
    }
  }

  lemma OthersAre(devices: map<nat, Device>, owner: string)
    ensures forall a :: a in Others(devices, owner) <==> a in devices && devices[a].owner != owner
    ensures forall a :: a in Others(devices, owner) ==> Others(devices, owner)[a] == devices[a]
  {
  }

  lemma CopiesAre(devices: map<nat, Device>, owner: string, brk: nat)
    ensures
      var copies := Copies(devices, owner, brk);
      forall b :: b in copies ==>
        var a := Down(b, brk);
        b >= brk && b == Up(a, brk) && a in devices && devices[a].owner == owner && copies[b] == devices[a]
    ensures
      var copies := Copies(devices, owner, brk);
      forall a :: a in devices && devices[a].owner == owner ==>
        Up(a, brk) in copies && copies[Up(a, brk)] == devices[a]
  {
    hide Moved, Up, Down;
    forall a | a in devices && devices[a].owner == owner
      ensures Down(Up(a, brk), brk) == a
    {
      UpDown(a, brk);
    }
  }

  lemma CopiesKeep(s: State, name: string)
    requires Good(s) && name in s.interfaces
    ensures
      var devices := Others(s.devices, name) + Copies(s.devices, name, s.brk);
      forall a :: a in devices ==>
        if a < s.brk then a in s.devices && s.devices[a].owner != name && devices[a] == s.devices[a]
        else
          var o := Down(a, s.brk);
          a < s.brk + s.brk && a == Up(o, s.brk) && o in s.devices && s.devices[o].owner == name
            && devices[a] == s.devices[o]
    ensures
      var devices := Others(s.devices, name) + Copies(s.devices, name, s.brk);
      forall a :: a in s.devices ==>
        if s.devices[a].owner == name then Up(a, s.brk) in devices && devices[Up(a, s.brk)] == s.devices[a]
        else a in devices && devices[a] == s.devices[a]
  {
    hide *;
    AllOld(s);
    OthersAre(s.devices, name);
    CopiesAre(s.devices, name, s.brk);
    var copies := Copies(s.devices, name, s.brk);
    forall a | a in copies
      ensures a < s.brk + s.brk
    {
      UpDown(Down(a, s.brk), s.brk);
    }
    forall a | a in s.devices
      ensures Up(a, s.brk) >= s.brk
    {
      UpDown(a, s.brk);
    }
  }

  lemma CopiesApart(s: State, name: string)
    requires Good(s) && name in s.interfaces
    ensures DevicesApart(Others(s.devices, name) + Copies(s.devices, name, s.brk), s.nextDevice, s.brk + s.brk)
    ensures Parented(Others(s.devices, name) + Copies(s.devices, name, s.brk), s.interfaces)
  {
    hide Copies, Others, Indexed, InterfacesApart, Up, Down;
    CopiesKeep(s, name);
  }

  lemma NamesExactly(s: State, name: string)
    requires Good(s) && name in s.interfaces
    ensures
      var names := Names(s.devices, name, s.brk);
      forall n :: n in names <==> n in s.index && s.devices[s.index[n]].owner == name
    ensures
      var names := Names(s.devices, name, s.brk);
      forall n :: n in names ==> names[n] == Up(s.index[n], s.brk)
  {
    hide Up, InterfacesApart, DevicesApart, Parented;
  }

  lemma CopiesIndexed(s: State, name: string)
    requires Good(s) && name in s.interfaces
    ensures
      Indexed(Others(s.devices, name) + Copies(s.devices, name, s.brk),
              Unindexed(s.index, s.devices, s.interfaces[name].id) + Names(s.devices, name, s.brk))
  {
    hide Copies, Others, Unindexed, Names, InterfacesApart, DevicesApart, Parented, Up, Down;
    CopiesKeep(s, name);
    UnindexedExactly(s, name);
    NamesExactly(s, name);
    assert forall n :: n in s.index ==> s.index[n] in s.devices;
    AllOld(s);
  }

  lemma AllOld(s: State)
    requires Good(s)
    ensures forall a :: a in s.devices ==> a < s.brk && s.devices[a].name in s.index
  {
  }

  lemma UpdateInterfaceGood(s: State, name: string, d: InterfaceData)
    requires Good(s)
    ensures Good(UpdateInterface(s, name, d).0)
  {
    hide InterfacesApart, DevicesApart, Parented, Indexed, Copies, Others, Unindexed, Names, Filled;
    if name in s.interfaces {
      var i := s.interfaces[name].(info := Filled(s.interfaces[name].info, d));
      CopiesApart(s, name);
      CopiesIndexed(s, name);
      SameIdOn(s, Others(s.devices, name) + Copies(s.devices, name, s.brk), name, i);
    }
  }

  lemma SameIdOn(s: State, devices: map<nat, Device>, name: string, i: Interface)
    requires InterfacesApart(s.interfaces, s.nextInterface) && Parented(devices, s.interfaces)
    requires name in s.interfaces && i.id == s.interfaces[name].id
    ensures InterfacesApart(s.interfaces[name := i], s.nextInterface) && Parented(devices, s.interfaces[name := i])
  {
  }

  lemma DeleteInterfaceGood(s: State, name: string)
    requires Good(s)
    ensures Good(DeleteInterface(s, name).0)
  {
    hide Indexed, Unindexed;
    if name in s.interfaces {
      UnindexedExactly(s, name);
    }
  }

  lemma NewDeviceGood(s: State, d: Device)
    requires DevicesApart(s.devices, s.nextDevice, s.brk) && Indexed(s.devices, s.index)
    requires Parented(s.devices, s.interfaces)
    requires d.id == s.nextDevice && FIRST_DEVICE_ID <= s.nextDevice
    requires forall a :: a in s.devices ==> s.devices[a].name != d.name
    requires d.owner in s.interfaces && d.parent == s.interfaces[d.owner].id
    ensures s.brk !in s.devices && DevicesApart(s.devices[s.brk := d], s.nextDevice + 1, s.brk + 1)
    ensures Indexed(s.devices[s.brk := d], s.index[d.name := s.brk])
    ensures Parented(s.devices[s.brk := d], s.interfaces)
  {
  }

  lemma NextDeviceUnused(devices: map<nat, Device>, next: int, brk: nat)
    requires DevicesApart(devices, next, brk)
    ensures DevicesApart(devices, next + 1, brk)
  {
  }

  /** An addition keeps the index right exactly when it is refused, or its device has a name not yet indexed. */
  lemma AddDeviceExactly(deviceType: int -> bool, s: State, owner: string, d: DeviceData)
    requires Good(s)
    ensures Good(AddDevice(deviceType, s, owner, d).0) <==>
            AddDevice(deviceType, s, owner, d).1 != 0 || d.name.value !in s.index
  {
    hide InterfacesApart, DevicesApart, Parented, Indexed;
    var (s1, code) := AddDevice(deviceType, s, owner, d);
    NextDeviceUnused(s.devices, s.nextDevice, s.brk);
    AllOld(s);
    if code == 0 {
      var dev := s1.devices[s.brk];
      if d.name.value in s.index {
        NamedTwice(s, dev);
      } else {
        NewDeviceGood(s, dev);
      }
    }
  }

  /** A second device of an indexed name takes the first one's place in the index. */
  lemma NamedTwice(s: State, d: Device)
    requires Good(s) && d.name in s.index
    ensures !Indexed(s.devices[s.brk := d], s.index[d.name := s.brk])
  {
    var a := s.index[d.name];
    assert a in s.devices[s.brk := d] && a != s.brk;
  }

  /** A device named as another interface's: it is added, and the other leaves the index. */
  lemma TwiceNamedExample(deviceType: int -> bool, i: InterfaceInfo, d: DeviceInfo, data: DeviceData)
    requires Refusal(deviceType, data) == 0 && data.name.value == "d"
    ensures
      var s := TwoInterfaces(i, d);
      var (s1, code) := AddDevice(deviceType, s, "i1", data);
      && Good(s) && code == 0 && !Good(s1)
      && 0 in s1.devices && s1.devices[0].name == "d" && s1.index["d"] == 1
  {
    var s := TwoInterfaces(i, d);
    assert "i1" != "i2" by {
      assert "i1"[1] != "i2"[1];
    }
    assert !HasDevice(s.devices, "i1", "d");
    AddDeviceExactly(deviceType, s, "i1", data);
  }

  /** Two interfaces, and a device of the second. */
  function TwoInterfaces(i: InterfaceInfo, d: DeviceInfo): (s: State)
    ensures Good(s)
  {
    assert "i1" != "i2" by {
      assert "i1"[1] != "i2"[1];
    }
    State(map["i1" := Interface(100, i, true), "i2" := Interface(101, i, true)],
          map[0 := Device("d", "i2", 1000, 101, d)], map["d" := 0], 102, 1001, 1)
  }

  lemma UpdateDeviceGood(deviceType: int -> bool, s: State, owner: string, name: string, d: DeviceData)
    requires Good(s)
    ensures Good(UpdateDevice(deviceType, s, owner, name, d).0)
  {
    hide InterfacesApart, Changed;
  }

  /** A deletion keeps the index right exactly when it names the owner of the device, if there is one. */
  lemma DeleteDeviceExactly(s: State, owner: string, name: string)
    requires Good(s)
    ensures Good(DeleteDevice(s, owner, name).0) <==> NamesOwner(s, owner, name)
  {
    hide InterfacesApart;
    var s1 := DeleteDevice(s, owner, name).0;
    if !NamesOwner(s, owner, name) {
      assert s.index[name] in s1.devices;
    }
  }

  /** A device of one interface, deleted through the other: it stays in the tree and leaves the index. */
  lemma WrongOwnerExample(i: InterfaceInfo, d: DeviceInfo)
    ensures
      var s := TwoInterfaces(i, d);
      var s1 := DeleteDevice(s, "i1", "d").0;
      Good(s) && !Good(s1) && 0 in s1.devices && "d" !in s1.index
  {
    assert "i1" != "i2" by {
      assert "i1"[1] != "i2"[1];
    }
    DeleteDeviceExactly(TwoInterfaces(i, d), "i1", "d");
  }

  // ----- Runs ---------------------------------------------------------------------------------

  ghost predicate Runs(deviceType: int -> bool, s: State, ops: seq<Op>)
    decreases |ops|
  {
    ops == [] || (Proper(deviceType, s, ops[0]) && Runs(deviceType, Step(deviceType, s, ops[0]), ops[1..]))
  }

  ghost function After(deviceType: int -> bool, s: State, ops: seq<Op>): State
    decreases |ops|
  {
    if ops == [] then s else After(deviceType, Step(deviceType, s, ops[0]), ops[1..])
  }

  /** A device id below the old counter still belongs to the device of that name. */
  predicate IdsStay(s: State, s1: State) {
    && s.nextDevice <= s1.nextDevice && s.nextInterface <= s1.nextInterface
    && (forall a :: a in s1.devices && s1.devices[a].id < s.nextDevice ==>
          exists b :: b in s.devices && s.devices[b].id == s1.devices[a].id && s.devices[b].name == s1.devices[a].name)
    && (forall n :: n in s1.interfaces && s1.interfaces[n].id < s.nextInterface ==>
          n in s.interfaces && s.interfaces[n].id == s1.interfaces[n].id)
  }

  lemma IdsStayOn(s: State, s1: State, s2: State)
    ensures IdsStay(s, s)
    ensures IdsStay(s, s1) && IdsStay(s1, s2) ==> IdsStay(s, s2)
  {
  }

  lemma UpdateInterfaceKeepsIds(s: State, name: string, d: InterfaceData)
    requires Good(s)
    ensures IdsStay(s, UpdateInterface(s, name, d).0)
  {
    hide Copies, Others, Unindexed, Names, Filled, InterfacesApart, DevicesApart, Parented, Indexed, Up, Down;
    if name in s.interfaces {
      CopiesKeep(s, name);
      AllOld(s);
    }
  }

  /** A request keeps the invariant exactly when it is proper; and none gives an id that was given before. */
  lemma StepExactly(deviceType: int -> bool, s: State, op: Op)
    requires Good(s)
    ensures Good(Step(deviceType, s, op)) <==> Proper(deviceType, s, op)
    ensures IdsStay(s, Step(deviceType, s, op))
  {
    hide Good, NamesOwner, UpdateInterface, Refusal, Changed, Filled;
    match op
    case DoAddInterface(d) => AddInterfaceGood(s, d);
    case DoUpdateInterface(name, d) =>
      UpdateInterfaceGood(s, name, d);
      UpdateInterfaceKeepsIds(s, name, d);
    case DoDeleteInterface(name) => DeleteInterfaceGood(s, name);
    case DoAddDevice(owner, d) => AddDeviceExactly(deviceType, s, owner, d);
    case DoUpdateDevice(owner, name, d) => UpdateDeviceGood(deviceType, s, owner, name, d);
    case DoDeleteDevice(owner, name) => DeleteDeviceExactly(s, owner, name);
  }

  /** The registry is right at the start and after each request of the run. */
  ghost predicate GoodThroughout(deviceType: int -> bool, s: State, ops: seq<Op>)
    decreases |ops|
  {
    Good(s) && (ops == [] || GoodThroughout(deviceType, Step(deviceType, s, ops[0]), ops[1..]))
  }

  /**
    Over every run of additions, updates and deletions, exactly when each request is proper:
    ids are distinct and below the counters, each device carries its interface's id, the
    index has exactly the devices' names and leads to those very nodes; and no id is ever
    given twice.
   */
  lemma {:induction false} RegistryHolds(deviceType: int -> bool, s: State, ops: seq<Op>)
    requires Good(s)
    ensures GoodThroughout(deviceType, s, ops) <==> Runs(deviceType, s, ops)
    ensures Runs(deviceType, s, ops) ==>
      Good(After(deviceType, s, ops)) && IdsStay(s, After(deviceType, s, ops))
    decreases |ops|
  {
    hide Good, IdsStay, Step, Proper;
    if ops == [] {
      IdsStayOn(s, s, s);
    } else {
      var s1 := Step(deviceType, s, ops[0]);
      StepExactly(deviceType, s, ops[0]);
      if Good(s1) {
        RegistryHolds(deviceType, s1, ops[1..]);
        IdsStayOn(s, s1, After(deviceType, s, ops));
      }
    }
  }

  // ----- What loading gives ------------------------------------------------------------------

  function NamesOf(ds: seq<(string, DeviceInfo)>): seq<string> {
    seq(|ds|, i requires 0 <= i < |ds| => ds[i].0)
  }

  /** All device names of the file, in order. */
  function AllNames(tree: seq<Loaded>): seq<string> {
    if tree == [] then [] else AllNames(tree[..|tree| - 1]) + NamesOf(tree[|tree| - 1].Devices())
  }

  predicate NoRepeat(names: seq<string>) {
    forall i, j :: 0 <= i < j < |names| ==> names[i] != names[j]
  }

  /** The devices indexed are these, numbered in this order. */
  predicate Numbered(s: State, names: seq<string>) {
    && (forall n :: n in s.index ==> n in names)
    && (forall k :: 0 <= k < |names| ==>
          names[k] in s.index && s.index[names[k]] in s.devices
            && s.devices[s.index[names[k]]].id == FIRST_DEVICE_ID + k)
    && s.nextDevice == FIRST_DEVICE_ID + |names|
  }

  lemma NoRepeatParts(a: seq<string>, b: seq<string>)
    requires NoRepeat(a + b)
    ensures NoRepeat(a)
    ensures |b| == 1 ==> b[0] !in a
  {
    assert forall k :: 0 <= k < |a| ==> (a + b)[k] == a[k];
    assert |b| == 1 ==> (a + b)[|a|] == b[0];
  }

  lemma LinkDeviceGood(s: State, owner: string, name: string, info: DeviceInfo, names: seq<string>)
    requires Good(s) && owner in s.interfaces && Numbered(s, names) && name !in names
    ensures
      var s1 := LinkDevice(s, owner, s.interfaces[owner].id, name, info);
      Good(s1) && Numbered(s1, names + [name]) && s1.interfaces == s.interfaces && s1.nextInterface == s.nextInterface
  {
    hide InterfacesApart, DevicesApart, Parented, Indexed;
    var dev := Device(name, owner, s.nextDevice, s.interfaces[owner].id, info);
    AllOld(s);
    NewDeviceGood(s, dev);
  }

  lemma {:induction false} LinkDevicesGood(s: State, owner: string, ds: seq<(string, DeviceInfo)>, names: seq<string>)
    requires Good(s) && owner in s.interfaces && Numbered(s, names) && NoRepeat(names + NamesOf(ds))
    ensures
      var s1 := LinkDevices(s, owner, s.interfaces[owner].id, ds);
      && Good(s1) && Numbered(s1, names + NamesOf(ds))
      && s1.interfaces == s.interfaces && s1.nextInterface == s.nextInterface
  {
    hide Good, Numbered, NoRepeat, LinkDevice;
    if ds == [] {
      assert names + NamesOf(ds) == names;
    } else {
      var before, last := ds[..|ds| - 1], ds[|ds| - 1];
      assert names + NamesOf(ds) == (names + NamesOf(before)) + [last.0];
      NoRepeatParts(names + NamesOf(before), [last.0]);
      LinkDevicesGood(s, owner, before, names);
      LinkDeviceGood(LinkDevices(s, owner, s.interfaces[owner].id, before), owner, last.0, last.1,
        names + NamesOf(before));
    }
  }

  lemma LinkInterfaceGood(s: State, i: Loaded, names: seq<string>)
    requires Good(s) && i.name !in s.interfaces && Numbered(s, names)
    ensures
      var s1 := LinkInterface(s, i);
      Good(s1) && Numbered(s1, names) && i.name in s1.interfaces && s1.interfaces[i.name].id == s.nextInterface
  {
    hide Indexed, DevicesApart;
  }

  /** The interfaces are these, numbered in this order. */
  predicate Listed(s: State, tree: seq<Loaded>) {
    && s.nextInterface == FIRST_INTERFACE_ID + |tree|
    && (forall i :: 0 <= i < |tree| ==>
          tree[i].name in s.interfaces && s.interfaces[tree[i].name].id == FIRST_INTERFACE_ID + i)
    && (forall n :: n in s.interfaces ==> exists i :: 0 <= i < |tree| && tree[i].name == n)
  }

  predicate Unrepeated(tree: seq<Loaded>) {
    forall i, j :: 0 <= i < j < |tree| ==> tree[i].name != tree[j].name
  }

  lemma ListedNext(s: State, tree: seq<Loaded>, last: Loaded)
    requires Listed(s, tree) && Unrepeated(tree + [last])
    ensures last.name !in s.interfaces && Unrepeated(tree)
    ensures Listed(LinkInterface(s, last), tree + [last])
  {
    var all := tree + [last];
    assert all[|tree|] == last;
    assert forall i :: 0 <= i < |tree| ==> all[i] == tree[i];
  }

  lemma ListedSame(s: State, s1: State, tree: seq<Loaded>)
    requires Listed(s, tree) && s1.interfaces == s.interfaces && s1.nextInterface == s.nextInterface
    ensures Listed(s1, tree)
  {
  }

  /**
    A file whose interface names do not repeat loads into a registry that meets the invariant
    exactly when its device names do not repeat, over all interfaces; ids then follow the
    order of the file.
   */
  lemma LoadExactly(tree: seq<Loaded>)
    requires Unrepeated(tree)
    ensures Good(Load(tree)) <==> NoRepeat(AllNames(tree))
    ensures NoRepeat(AllNames(tree)) ==> Numbered(Load(tree), AllNames(tree)) && Listed(Load(tree), tree)
  {
    hide Numbered, Listed, InterfacesApart, DevicesApart, Parented, Load, AllNames;
    LoadNodes(tree);
    if NoRepeat(AllNames(tree)) {
      LoadGood(tree);
    }
  }

  /** The k-th device of the file is the k-th node. */
  predicate NodesAre(s: State, names: seq<string>) {
    && s.brk == |names|
    && forall k :: 0 <= k < |names| ==> k in s.devices && s.devices[k].name == names[k]
  }

  lemma {:induction false} LoadNodes(tree: seq<Loaded>)
    ensures NodesAre(Load(tree), AllNames(tree))
  {
    if tree != [] {
      var before, last := tree[..|tree| - 1], tree[|tree| - 1];
      LoadNodes(before);
      var s := LinkInterface(Load(before), last);
      LinkNodes(s, last.name, Load(before).nextInterface, last.Devices(), AllNames(before));
    }
  }

  lemma {:induction false} LinkNodes(
      s: State, owner: string, id: int, ds: seq<(string, DeviceInfo)>, names: seq<string>)
    requires NodesAre(s, names)
    ensures NodesAre(LinkDevices(s, owner, id, ds), names + NamesOf(ds))
  {
    if ds == [] {
      assert names + NamesOf(ds) == names;
    } else {
      var before := ds[..|ds| - 1];
      LinkNodes(s, owner, id, before, names);
      assert names + NamesOf(ds) == (names + NamesOf(before)) + [ds[|ds| - 1].0];
    }
  }

  lemma {:induction false} LoadGood(tree: seq<Loaded>)
    requires NoRepeat(AllNames(tree)) && Unrepeated(tree)
    ensures Good(Load(tree)) && Numbered(Load(tree), AllNames(tree)) && Listed(Load(tree), tree)
  {
    if tree == [] {
    } else {
      hide Good, Numbered, Listed, LinkDevices, NoRepeat, LinkInterface;
      var before, last := tree[..|tree| - 1], tree[|tree| - 1];
      assert tree == before + [last];
      NoRepeatParts(AllNames(before), NamesOf(last.Devices()));
      UnrepeatedPrefix(before, last);
      LoadGood(before);
      var s := Load(before);
      ListedNext(s, before, last);
      LinkInterfaceGood(s, last, AllNames(before));
      var s1 := LinkInterface(s, last);
      LinkDevicesGood(s1, last.name, last.Devices(), AllNames(before));
      ListedSame(s1, Load(tree), tree);
    }
  }

  lemma UnrepeatedPrefix(tree: seq<Loaded>, last: Loaded)
    requires Unrepeated(tree + [last])
    ensures Unrepeated(tree)
  {
    assert forall i :: 0 <= i < |tree| ==> (tree + [last])[i] == tree[i];
  }
}
