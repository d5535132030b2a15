/**
  The registry as the program updates it: each request of src/interfacesServer.c as a
  method, against its function in Registry.
 */
module RegistryInPlace {
  import opened Wrappers
  import opened R = Registry

  class Registry {
    var interfaces: map<string, Interface>
    var devices: map<nat, Device>
    var index: map<string, nat>
    var nextInterface: int
    var nextDevice: int
    var brk: nat

    function View(): State
      reads this
    {
      State(interfaces, devices, index, nextInterface, nextDevice, brk)
    }

    /** Relinks the ids of a configuration file and indexes its devices. */
    constructor (tree: seq<Loaded>)
      requires Unrepeated(tree)
      ensures View() == Load(tree) && (Good(View()) <==> NoRepeat(AllNames(tree)))
    {
      interfaces, devices, index, nextInterface, nextDevice, brk := map[], map[], map[], FIRST_INTERFACE_ID,
        FIRST_DEVICE_ID, 0;
      new;
      assert tree[..0] == [];
      for i := 0 to |tree|
        invariant View() == Load(tree[..i])
      {
        assert tree[..i + 1][..i] == tree[..i];
        var t := tree[i];
        var id := nextInterface;
        interfaces := interfaces[t.name := Interface(id, t.info, t.list.Some?)];
        nextInterface := nextInterface + 1;
        ghost var s := View();
        var ds := t.Devices();
        assert ds[..0] == [];
        for k := 0 to |ds|
          invariant View() == LinkDevices(s, t.name, id, ds[..k])
        {
          assert ds[..k + 1][..k] == ds[..k];
          devices := devices[brk := Device(ds[k].0, t.name, nextDevice, id, ds[k].1)];
          index := index[ds[k].0 := brk];
          nextDevice := nextDevice + 1;
          brk := brk + 1;
        }
        assert ds[..|ds|] == ds;
      }
      assert tree[..|tree|] == tree;
      LoadExactly(tree);
    }

    method RemoveDevicesFromIndex(id: int)
      modifies this`index
      ensures index == Unindexed(old(index), devices, id)
    {
      ghost var was := index;
      var left := index.Keys;
      while left != {}
        invariant left <= was.Keys && left <= index.Keys
        invariant forall n :: n in index ==> n in was && index[n] == was[n]
        invariant forall n :: n in was && n !in left ==>
          (n in index <==> !(was[n] in devices && devices[was[n]].parent == id))
        decreases left
      {
        var n :| n in left;
        if index[n] in devices && devices[index[n]].parent == id {
          index := index - {n};
        }
        left := left - {n};
      }
      assert index == Unindexed(was, devices, id);
    }

    method FindDevice(owner: string, name: string) returns (a: Option<nat>)
      ensures a.Some? ==> IsDevice(devices, owner, name, a.value)
      ensures a.None? ==> !HasDevice(devices, owner, name)
    {
      var left := devices.Keys;
      while left != {}
        invariant left <= devices.Keys
        invariant forall b :: b in devices && b !in left ==> !IsDevice(devices, owner, name, b)
        decreases left
      {
        var b :| b in left;
        if devices[b].owner == owner && devices[b].name == name {
          return Some(b);
        }
        left := left - {b};
      }
      return None;
    }

    method AddInterface(d: InterfaceData) returns (ret: int)
      requires Good(View())
      modifies this`interfaces, this`nextInterface
      ensures (View(), ret) == R.AddInterface(old(View()), d) && Good(View())
    {
      AddInterfaceGood(View(), d);
      hide Good;
      var name, info := Or(d.name, ""), Filled(TEMPLATE, d);
      if |name| < 3 {
        return -1;
      }
      if info.state < 0 || info.state > 2 {
        return -1;
      }
      if info.idType < 0 {
        return -1;
      }
      var id := nextInterface;
      nextInterface := nextInterface + 1;
      if name in interfaces {
        return -1;
      }
      interfaces := interfaces[name := Interface(id, info, true)];
      return 0;
    }

    /** Copies an interface's devices, and the index entries that lead to the copies. */
    method CopyDevices(name: string) returns (copies: map<nat, Device>, entries: map<string, nat>)
      requires Good(View()) && name in interfaces
      ensures copies == Copies(devices, name, brk) && entries == Names(devices, name, brk)
    {
      hide Good, Names, Copies, Moved, Up, Down;
      copies, entries := map[], map[];
      var left := devices.Keys;
      while left != {}
        invariant left <= devices.Keys
        invariant Copied(View(), name, left, copies, entries)
        decreases left
      {
        var a :| a in left;
        CopiedNext(View(), name, left, copies, entries, a);
        if devices[a].owner == name {
          copies := copies[Up(a, brk) := devices[a]];
          entries := entries[devices[a].name := Up(a, brk)];
        }
        left := left - {a};
      }
      CopiedAll(View(), name, copies, entries);
    }

    /** The interface is replaced by a copy, and its devices are indexed anew. */
    method UpdateInterface(name: string, d: InterfaceData) returns (ret: int)
      requires Good(View())
      modifies this
      ensures (View(), ret) == R.UpdateInterface(old(View()), name, d) && Good(View())
    {
      hide Good, Copies, Names, Unindexed, Others, Filled;
      UpdateInterfaceGood(View(), name, d);
      if name !in interfaces {
        return 0;
      }
      var copies, entries := CopyDevices(name);
      RemoveDevicesFromIndex(interfaces[name].id);
      interfaces := interfaces[name := interfaces[name].(info := Filled(interfaces[name].info, d))];
      devices := Others(devices, name) + copies;
      index := index + entries;
      brk := brk + brk;
      return 0;
    }

    method DeleteInterface(name: string) returns (ret: int)
      requires Good(View())
      modifies this`interfaces, this`devices, this`index
      ensures (View(), ret) == R.DeleteInterface(old(View()), name) && Good(View())
    {
      hide Good, Unindexed, Others;
      DeleteInterfaceGood(View(), name);
      if name !in interfaces {
        return -1;
      }
      RemoveDevicesFromIndex(interfaces[name].id);
      interfaces := interfaces - {name};
      devices := Others(devices, name);
      return 0;
    }

    method AddDevice(deviceType: int -> bool, owner: string, d: DeviceData) returns (ret: int)
      requires Good(View())
      modifies this`devices, this`index, this`nextDevice, this`brk
      ensures (View(), ret) == R.AddDevice(deviceType, old(View()), owner, d)
      ensures Good(View()) <==> ret != 0 || d.name.value !in old(index)
    {
      hide Good, HasDevice, IsDevice;
      AddDeviceExactly(deviceType, View(), owner, d);
      if !d.name.Given? {
        return -2;
      }
      if !d.idType.Given? || !deviceType(d.idType.value) {
        return -3;
      }
      if !d.state.Given? || (d.state.value != 0.0 && d.state.value != 1.0) {
        return -4;
      }
      if d.parameters.Mistyped? {
        return -5;
      }
      if d.description.Mistyped? {
        return -6;
      }
      var id := nextDevice;
      nextDevice := nextDevice + 1;
      if owner !in interfaces {
        return -10;
      }
      if !interfaces[owner].hasDevices {
        return -11;
      }
      var found := FindDevice(owner, d.name.value);
      FoundExactly(devices, owner, d.name.value, found);
      if found.Some? {
        return -12;
      }
      var info := DeviceInfo(d.idType.value, Bit(d.state.value), Or(d.parameters, ""), Or(d.description, ""));
      index := index[d.name.value := brk];
      devices := devices[brk := Device(d.name.value, owner, id, interfaces[owner].id, info)];
      brk := brk + 1;
      return 0;
    }

    method UpdateDevice(deviceType: int -> bool, owner: string, name: string, d: DeviceData) returns (ret: int)
      requires Good(View())
      modifies this`devices
      ensures (View(), ret) == R.UpdateDevice(deviceType, old(View()), owner, name, d) && Good(View())
    {
      hide Good, HasDevice, IsDevice, Changed;
      ghost var s := View();
      UpdateDeviceGood(deviceType, View(), owner, name, d);
      if d.idType.Given? && !deviceType(d.idType.value) {
        return -3;
      }
      if d.state.Given? && d.state.value != 0.0 && d.state.value != 1.0 {
        return -4;
      }
      if owner !in interfaces {
        return -10;
      }
      if !interfaces[owner].hasDevices {
        return -11;
      }
      var found := FindDevice(owner, name);
      FoundExactly(devices, owner, name, found);
      if found.None? {
        return -12;
      }
      OnlyDevice(s, owner, name, found.value);
      var a := found.value;
      devices := devices[a := devices[a].(info := Changed(devices[a].info, d))];
      assert devices == R.UpdateDevice(deviceType, s, owner, name, d).0.devices;
      return 0;
    }

    method DeleteDevice(owner: string, name: string) returns (ret: int)
      requires Good(View())
      modifies this`devices, this`index
      ensures (View(), ret) == R.DeleteDevice(old(View()), owner, name)
      ensures Good(View()) <==> NamesOwner(old(View()), owner, name)
    {
      hide Good, HasDevice, IsDevice, NamesOwner;
      DeleteDeviceExactly(View(), owner, name);
      if owner !in interfaces {
        return -2;
      }
      if !interfaces[owner].hasDevices {
        return -3;
      }
      var found := FindDevice(owner, name);
      FoundExactly(devices, owner, name, found);
      ghost var s := View();
      if name in index {
        index := index - {name};
      }
      assert index == s.index - {name};
      if found.Some? {
        OnlyDevice(s, owner, name, found.value);
        devices := devices - {found.value};
      }
      assert devices == R.DeleteDevice(s, owner, name).0.devices;
      return 0;
    }
  }

  /** The devices that are not left have been copied and have their entries. */
  ghost predicate Copied(s: State, name: string, left: set<nat>, copies: map<nat, Device>, entries: map<string, nat>) {
    && (forall b :: b in copies ==>
          b in Copies(s.devices, name, s.brk) && copies[b] == Copies(s.devices, name, s.brk)[b])
    && (forall n :: n in entries ==>
          n in Names(s.devices, name, s.brk) && entries[n] == Names(s.devices, name, s.brk)[n])
    && (forall a :: a in s.devices && a !in left && s.devices[a].owner == name ==>
          Up(a, s.brk) in copies && s.devices[a].name in entries)
  }

  lemma NameOfCopy(s: State, name: string, a: nat)
    requires Good(s) && name in s.interfaces && a in s.devices && s.devices[a].owner == name
    ensures
      var names := Names(s.devices, name, s.brk);
      s.devices[a].name in names && names[s.devices[a].name] == Up(a, s.brk)
  {
    hide Names, InterfacesApart, DevicesApart, Parented, Up;
    NamesExactly(s, name);
  }

  lemma CopiedNext(
      s: State, name: string, left: set<nat>, copies: map<nat, Device>, entries: map<string, nat>, a: nat)
    requires Good(s) && name in s.interfaces && a in left && a in s.devices && Copied(s, name, left, copies, entries)
    ensures s.devices[a].owner == name ==>
      Copied(s, name, left - {a}, copies[Up(a, s.brk) := s.devices[a]], entries[s.devices[a].name := Up(a, s.brk)])
    ensures s.devices[a].owner != name ==> Copied(s, name, left - {a}, copies, entries)
  {
    hide Good, Copies, Names, Up, Down;
    CopiesAre(s.devices, name, s.brk);
    if s.devices[a].owner == name {
      NameOfCopy(s, name, a);
    }
  }

  lemma CopiedAll(s: State, name: string, copies: map<nat, Device>, entries: map<string, nat>)
    requires Good(s) && name in s.interfaces && Copied(s, name, {}, copies, entries)
    ensures copies == Copies(s.devices, name, s.brk) && entries == Names(s.devices, name, s.brk)
  {
    hide Names, InterfacesApart, DevicesApart, Parented, Up, Down;
    NamesExactly(s, name);
    forall b | b in Copies(s.devices, name, s.brk)
      ensures b in copies
    {
      assert Up(Down(b, s.brk), s.brk) == b;
    }
    forall n | n in Names(s.devices, name, s.brk)
      ensures n in entries
    {
      assert s.devices[s.index[n]].name in entries;
    }
  }

  lemma FoundExactly(devices: map<nat, Device>, owner: string, name: string, found: Option<nat>)
    requires found.Some? ==> IsDevice(devices, owner, name, found.value)
    requires found.None? ==> !HasDevice(devices, owner, name)
    ensures found.Some? <==> HasDevice(devices, owner, name)
    ensures found.Some? ==> found.value in devices
    ensures found.None? ==> forall a :: a in devices ==> !IsDevice(devices, owner, name, a)
  {
  }

  /** A name is at most one device's. */
  lemma OnlyDevice(s: State, owner: string, name: string, a: nat)
    requires Good(s) && IsDevice(s.devices, owner, name, a)
    ensures forall b :: b in s.devices && IsDevice(s.devices, owner, name, b) ==> b == a
  {
  }
}
