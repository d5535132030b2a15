/**
  What each request of src/interfacesServer.c does to the registry, field by field: what it
  answers, what it changes, and that everything else stays as it was.
 */
module RegistryEffects {
  import opened Wrappers
  import opened Registry

  /** After a deletion the interface, its devices and their index entries are gone, and nothing else is. */
  lemma DeleteInterfaceDoes(s: State, name: string)
    requires Good(s)
    ensures
      var (s1, code) := DeleteInterface(s, name);
      && code == (if name in s.interfaces then 0 else -1)
      && (code != 0 ==> s1 == s)
      && (code == 0 ==>
            && name !in s1.interfaces
            && (forall n :: n in s.interfaces && n != name ==>
                  n in s1.interfaces && s1.interfaces[n] == s.interfaces[n])
            && (forall n :: n in s1.interfaces ==> n in s.interfaces)
            && (forall a :: a in s1.devices <==> a in s.devices && s.devices[a].owner != name)
            && (forall a :: a in s1.devices ==> s1.devices[a] == s.devices[a])
            && (forall n :: n in s1.index <==> n in s.index && s.devices[s.index[n]].owner != name)
            && (forall n :: n in s1.index ==> s1.index[n] == s.index[n]))
      && s1.nextInterface == s.nextInterface && s1.nextDevice == s.nextDevice && s1.brk == s.brk
  {
    hide Unindexed, Others, DevicesApart, InterfacesApart, Parented, Indexed;
    if name in s.interfaces {
      UnindexedExactly(s, name);
      OthersAre(s.devices, name);
    }
  }

  /** What an addition needs: a name of three characters, a state from 0 to 2, and a type. */
  predicate ValidInterface(d: InterfaceData) {
    && d.name.Given? && |d.name.value| >= 3
    && d.state.Given? && 0 <= d.state.value <= 2
    && d.idType.Given? && d.idType.value >= 0
  }

  /** A valid interface of a new name is added with what was given; the id is used up even when the name is taken. */
  lemma AddInterfaceDoes(s: State, d: InterfaceData)
    ensures
      var (s1, code) := AddInterface(s, d);
      && (code == 0 <==> ValidInterface(d) && d.name.value !in s.interfaces)
      && (code != 0 ==> code == -1 && s1.interfaces == s.interfaces)
      && s1.nextInterface == s.nextInterface + (if ValidInterface(d) then 1 else 0)
      && s1.devices == s.devices && s1.index == s.index && s1.nextDevice == s.nextDevice && s1.brk == s.brk
      && (code == 0 ==>
            && d.name.value in s1.interfaces
            && (forall n :: n != d.name.value ==>
                  (n in s1.interfaces <==> n in s.interfaces)
                  && (n in s.interfaces ==> s1.interfaces[n] == s.interfaces[n]))
            && var i := s1.interfaces[d.name.value];
               && i.id == s.nextInterface && i.hasDevices
               && i.info.idType == d.idType.value && i.info.state == d.state.value
               && i.info.description == (if d.description.Given? then d.description.value else "")
               && i.info.parameters == (if d.parameters.Given? then d.parameters.value else "")
               && i.info.dev == (if d.dev.Given? then d.dev.value else ""))
  {
  }

  /** Given fields replace the interface's own, the others stay. */
  predicate InfoUpdated(was: InterfaceInfo, now: InterfaceInfo, d: InterfaceData) {
    && now.idType == (if d.idType.Given? then d.idType.value else was.idType)
    && now.state == (if d.state.Given? then d.state.value else was.state)
    && now.description == (if d.description.Given? then d.description.value else was.description)
    && now.parameters == (if d.parameters.Given? then d.parameters.value else was.parameters)
    && now.dev == (if d.dev.Given? then d.dev.value else was.dev)
  }

  /** An update changes the given fields of one interface, and moves its devices as they are. */
  lemma UpdateInterfaceDoes(s: State, name: string, d: InterfaceData)
    requires Good(s)
    ensures
      var (s1, code) := UpdateInterface(s, name, d);
      && code == 0
      && (name !in s.interfaces ==> s1 == s)
      && s1.interfaces.Keys == s.interfaces.Keys
      && (forall n :: n in s.interfaces && n != name ==> s1.interfaces[n] == s.interfaces[n])
      && (name in s.interfaces ==>
            && s1.interfaces[name].id == s.interfaces[name].id
            && s1.interfaces[name].hasDevices == s.interfaces[name].hasDevices
            && InfoUpdated(s.interfaces[name].info, s1.interfaces[name].info, d))
      && s1.nextInterface == s.nextInterface && s1.nextDevice == s.nextDevice
    ensures
      var s1 := UpdateInterface(s, name, d).0;
      && s1.index.Keys == s.index.Keys
      && forall n :: n in s.index ==>
           && s.index[n] in s.devices && s1.index[n] in s1.devices
           && s1.devices[s1.index[n]] == s.devices[s.index[n]]
  {
    hide Good, Copies, Others, Unindexed, Names;
    IndexLeads(s);
    if name in s.interfaces {
      SameDevices(s, name, d);
    }
  }

  lemma SameDevices(s: State, name: string, d: InterfaceData)
    requires Good(s) && name in s.interfaces
    ensures
      var s1 := UpdateInterface(s, name, d).0;
      && s1.index.Keys == s.index.Keys
      && forall n :: n in s.index ==>
           && s.index[n] in s.devices && s1.index[n] in s1.devices
           && s1.devices[s1.index[n]] == s.devices[s.index[n]]
  {
    hide *;
    UpdatedParts(s, name, d);
    IndexLeads(s);
    UnindexedExactly(s, name);
    NamesExactly(s, name);
    CopiesKeep(s, name);
  }

  lemma UpdatedParts(s: State, name: string, d: InterfaceData)
    requires name in s.interfaces
    ensures
      var s1 := UpdateInterface(s, name, d).0;
      && s1.devices == Others(s.devices, name) + Copies(s.devices, name, s.brk)
      && s1.index == Unindexed(s.index, s.devices, s.interfaces[name].id) + Names(s.devices, name, s.brk)
  {
  }

  lemma IndexLeads(s: State)
    requires Good(s)
    ensures forall n :: n in s.index ==> s.index[n] in s.devices
  {
  }

  /** A device of this name stands under this interface. */
  predicate Owned(s: State, owner: string, name: string) {
    exists a :: a in s.devices && s.devices[a].owner == owner && s.devices[a].name == name
  }

  lemma OwnedExactly(s: State, owner: string, name: string)
    ensures Owned(s, owner, name) <==> HasDevice(s.devices, owner, name)
  {
    if a :| a in s.devices && s.devices[a].owner == owner && s.devices[a].name == name {
      assert IsDevice(s.devices, owner, name, a);
    }
  }

  /** What an addition of a device answers, check by check. */
  lemma AddDeviceAnswers(deviceType: int -> bool, s: State, owner: string, d: DeviceData)
    ensures
      var code := AddDevice(deviceType, s, owner, d).1;
      var typed := d.idType.Given? && deviceType(d.idType.value);
      var stated := d.state.Given? && (d.state.value == 0.0 || d.state.value == 1.0);
      var listed := owner in s.interfaces && s.interfaces[owner].hasDevices;
      var good := d.name.Given? && typed && stated && !d.parameters.Mistyped? && !d.description.Mistyped?;
      && (code == -2 <==> !d.name.Given?)
      && (code == -3 <==> d.name.Given? && !typed)
      && (code == -4 <==> d.name.Given? && typed && !stated)
      && (code == -5 <==> d.name.Given? && typed && stated && d.parameters.Mistyped?)
      && (code == -6 <==> d.name.Given? && typed && stated && !d.parameters.Mistyped? && d.description.Mistyped?)
      && (code == -10 <==> good && owner !in s.interfaces)
      && (code == -11 <==> good && owner in s.interfaces && !listed)
      && (code == -12 <==> good && listed && Owned(s, owner, d.name.value))
      && (code == 0 <==> good && listed && !Owned(s, owner, d.name.value))
  {
    hide HasDevice, Owned;
    OwnedExactly(s, owner, if d.name.Given? then d.name.value else "");
  }

  /** A device added: one node more, with what was given, and the index leads to it. */
  lemma AddDeviceDoes(deviceType: int -> bool, s: State, owner: string, d: DeviceData)
    requires Good(s)
    ensures
      var (s1, code) := AddDevice(deviceType, s, owner, d);
      && s1.interfaces == s.interfaces && s1.nextInterface == s.nextInterface
      && (code != 0 ==> s1.devices == s.devices && s1.index == s.index && s1.brk == s.brk)
      && (code in {-2, -3, -4, -5, -6} ==> s1 == s)
      && (code !in {-2, -3, -4, -5, -6} ==> s1.nextDevice == s.nextDevice + 1)
      && (code == 0 ==>
            && d.name.Given? && d.idType.Given? && d.state.Given? && owner in s.interfaces
            && d.name.value in s1.index && s1.index[d.name.value] in s1.devices
            && s1.index[d.name.value] !in s.devices
            && s1.devices == s.devices[s1.index[d.name.value] := s1.devices[s1.index[d.name.value]]]
            && s1.index == s.index[d.name.value := s1.index[d.name.value]]
            && var v := s1.devices[s1.index[d.name.value]];
               && v.name == d.name.value && v.owner == owner && v.id == s.nextDevice
               && v.parent == s.interfaces[owner].id
               && v.info.idType == d.idType.value
               && v.info.state == (if d.state.value == 0.0 then 0 else 1)
               && v.info.parameters == (if d.parameters.Given? then d.parameters.value else "")
               && v.info.description == (if d.description.Given? then d.description.value else ""))
  {
    hide HasDevice, InterfacesApart, Parented, Indexed;
  }

  /** What an update of a device answers, and that it changes the given fields of that device alone. */
  lemma UpdateDeviceDoes(deviceType: int -> bool, s: State, owner: string, name: string, d: DeviceData)
    ensures
      var (s1, code) := UpdateDevice(deviceType, s, owner, name, d);
      var wrongType := d.idType.Given? && !deviceType(d.idType.value);
      var wrongState := d.state.Given? && d.state.value != 0.0 && d.state.value != 1.0;
      && (code == -3 <==> wrongType) && (code == -4 <==> !wrongType && wrongState)
      && (code == -10 <==> !wrongType && !wrongState && owner !in s.interfaces)
      && (code == -11 <==> !wrongType && !wrongState && owner in s.interfaces && !s.interfaces[owner].hasDevices)
      && (code == -12 <==>
            && !wrongType && !wrongState && owner in s.interfaces && s.interfaces[owner].hasDevices
            && !Owned(s, owner, name))
      && code in {-3, -4, -10, -11, -12, 0}
      && (code != 0 ==> s1 == s)
      && s1 == s.(devices := s1.devices) && s1.devices.Keys == s.devices.Keys
      && (code == 0 ==>
            forall a :: a in s.devices ==>
              var was, now := s.devices[a], s1.devices[a];
              && (was.owner != owner || was.name != name ==> now == was)
              && (was.owner == owner && was.name == name ==>
                    && now == was.(info := now.info)
                    && now.info.idType ==
                       (if d.idType.Given? && d.idType.value >= 0 then d.idType.value else was.info.idType)
                    && now.info.state ==
                       (if !d.state.Given? then was.info.state else if d.state.value == 0.0 then 0 else 1)
                    && now.info.parameters == (if d.parameters.Given? then d.parameters.value else was.info.parameters)
                    && now.info.description ==
                       (if d.description.Given? then d.description.value else was.info.description)))
  {
    hide HasDevice, Owned;
    OwnedExactly(s, owner, name);
  }

  /** What a deletion of a device answers; the device is gone, and its name from the index, and nothing else. */
  lemma DeleteDeviceDoes(s: State, owner: string, name: string)
    ensures
      var (s1, code) := DeleteDevice(s, owner, name);
      && code == (if owner !in s.interfaces then -2 else if !s.interfaces[owner].hasDevices then -3 else 0)
      && (code != 0 ==> s1 == s)
      && s1 == s.(devices := s1.devices, index := s1.index)
      && (code == 0 ==>
            && (forall a :: a in s1.devices <==>
                  a in s.devices && !(s.devices[a].owner == owner && s.devices[a].name == name))
            && (forall a :: a in s1.devices ==> s1.devices[a] == s.devices[a])
            && (forall n :: n in s1.index <==> n in s.index && n != name)
            && (forall n :: n in s1.index ==> s1.index[n] == s.index[n]))
  {
  }

  // ----- Loading ------------------------------------------------------------------------------

  /** The interfaces of the file hold what the file says, and have device lists where the file has them. */
  lemma {:induction false} LoadedInterfaces(tree: seq<Loaded>, i: nat)
    requires Unrepeated(tree) && i < |tree|
    ensures
      var s := Load(tree);
      && tree[i].name in s.interfaces
      && s.interfaces[tree[i].name] == Interface(FIRST_INTERFACE_ID + i, tree[i].info, tree[i].list.Some?)
    ensures Load(tree).nextInterface == FIRST_INTERFACE_ID + |tree|
    decreases |tree|
  {
    hide Unrepeated, LinkDevices;
    var before, last := tree[..|tree| - 1], tree[|tree| - 1];
    assert tree == before + [last];
    UnrepeatedPrefix(before, last);
    LastApart(tree, i);
    LinkKeepsInterfaces(LinkInterface(Load(before), last), last.name, Load(before).nextInterface, last.Devices());
    if before != [] {
      LoadedInterfaces(before, if i < |before| then i else 0);
    }
  }

  lemma LastApart(tree: seq<Loaded>, i: nat)
    requires Unrepeated(tree) && i < |tree|
    ensures i < |tree| - 1 ==> tree[i].name != tree[|tree| - 1].name
  {
  }

  lemma {:induction false} LinkKeepsInterfaces(s: State, owner: string, id: int, ds: seq<(string, DeviceInfo)>)
    ensures
      var s1 := LinkDevices(s, owner, id, ds);
      s1.interfaces == s.interfaces && s1.nextInterface == s.nextInterface
  {
    if ds != [] {
      LinkKeepsInterfaces(s, owner, id, ds[..|ds| - 1]);
    }
  }

  /** All devices of the file, in order, each with the interface it stands under and that one's id. */
  function AllDevices(tree: seq<Loaded>): seq<Device> {
    if tree == [] then []
    else
      var before := AllDevices(tree[..|tree| - 1]);
      before + DevicesOf(tree[|tree| - 1], FIRST_INTERFACE_ID + |tree| - 1, FIRST_DEVICE_ID + |before|)
  }

  function DevicesOf(i: Loaded, parent: int, first: int): seq<Device> {
    seq(|i.Devices()|, k requires 0 <= k < |i.Devices()| =>
          Device(i.Devices()[k].0, i.name, first + k, parent, i.Devices()[k].1))
  }

  /** The k-th device of the file is the k-th node, as it is. */
  predicate NodesHold(s: State, ds: seq<Device>) {
    && s.brk == |ds| && s.nextDevice == FIRST_DEVICE_ID + |ds|
    && forall k :: 0 <= k < |ds| ==> k in s.devices && s.devices[k] == ds[k]
  }

  lemma {:induction false} LoadedDevices(tree: seq<Loaded>)
    ensures NodesHold(Load(tree), AllDevices(tree)) && Load(tree).nextInterface == FIRST_INTERFACE_ID + |tree|
  {
    if tree != [] {
      var before, last := tree[..|tree| - 1], tree[|tree| - 1];
      LoadedDevices(before);
      var s := LinkInterface(Load(before), last);
      LinkHolds(s, last, Load(before).nextInterface, |last.Devices()|, AllDevices(before));
      LinkKeepsInterfaces(s, last.name, Load(before).nextInterface, last.Devices());
      assert last.Devices()[..|last.Devices()|] == last.Devices();
      var more := DevicesOf(last, FIRST_INTERFACE_ID + |tree| - 1, FIRST_DEVICE_ID + |AllDevices(before)|);
      assert more[..|last.Devices()|] == more;
    }
  }

  lemma {:induction false} LinkHolds(s: State, i: Loaded, id: int, n: nat, ds: seq<Device>)
    requires n <= |i.Devices()| && NodesHold(s, ds)
    ensures
      var more := DevicesOf(i, id, FIRST_DEVICE_ID + |ds|);
      NodesHold(LinkDevices(s, i.name, id, i.Devices()[..n]), ds + more[..n])
  {
    hide NodesHold, LinkDevice;
    var all, more := i.Devices(), DevicesOf(i, id, FIRST_DEVICE_ID + |ds|);
    if n == 0 {
      assert all[..0] == [] && ds + more[..0] == ds;
    } else {
      LinkHolds(s, i, id, n - 1, ds);
      assert all[..n][..n - 1] == all[..n - 1] && all[..n][n - 1] == all[n - 1];
      assert ds + more[..n] == (ds + more[..n - 1]) + [more[n - 1]];
      var (name, info) := all[n - 1];
      OneMoreHolds(LinkDevices(s, i.name, id, all[..n - 1]), ds + more[..n - 1], i.name, id, name, info);
    }
  }

  lemma OneMoreHolds(s: State, ds: seq<Device>, owner: string, id: int, name: string, info: DeviceInfo)
    requires NodesHold(s, ds)
    ensures NodesHold(LinkDevice(s, owner, id, name, info),
                      ds + [Device(name, owner, FIRST_DEVICE_ID + |ds|, id, info)])
  {
  }
}
