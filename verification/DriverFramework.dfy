/** The registries of drivers and devices and the start-up loop (src/driver_framework.c). */
module DriverFramework {
  import opened DriverModel

  const MAX_DRIVERS: nat := 16
  const MAX_DEVICES: nat := 32

  const NO_DRIVER := Driver(NullString, false)
  const NO_DEVICE := Device(NullString, 0, NullString, 0, 0, false)

  class Framework {
    const driverRegistry: array<Driver>
    const deviceRegistry: array<Device>
    var driverCount: nat
    var deviceCount: nat

    /** Entries are named, and no two share a name. */
    ghost predicate Valid()
      reads this, driverRegistry, deviceRegistry
    {
      && driverRegistry.Length == MAX_DRIVERS && driverCount <= MAX_DRIVERS
      && deviceRegistry.Length == MAX_DEVICES && deviceCount <= MAX_DEVICES
      && (forall i :: 0 <= i < driverCount ==> driverRegistry[i].name.Text?)
      && (forall i, j :: 0 <= i < j < driverCount ==> driverRegistry[i].name != driverRegistry[j].name)
      && (forall i :: 0 <= i < deviceCount ==> deviceRegistry[i].name.Text? && deviceRegistry[i].driverName.Text?)
      && (forall i, j :: 0 <= i < j < deviceCount ==> deviceRegistry[i].name != deviceRegistry[j].name)
    }

    ghost function Drivers(): seq<Driver>
      requires Valid()
      reads this, driverRegistry, deviceRegistry
    {
      driverRegistry[..driverCount]
    }

    ghost function Devices(): seq<Device>
      requires Valid()
      reads this, driverRegistry, deviceRegistry
    {
      deviceRegistry[..deviceCount]
    }

    /** device_framework_init */
    constructor ()
      ensures Valid() && Drivers() == [] && Devices() == []
      ensures fresh(driverRegistry) && fresh(deviceRegistry)
    {
      driverRegistry := new Driver[MAX_DRIVERS](_ => NO_DRIVER);
      deviceRegistry := new Device[MAX_DEVICES](_ => NO_DEVICE);
      driverCount, deviceCount := 0, 0;
    }

    method DriverRegister(driver: Option<Driver>) returns (status: DeviceStatus)
      requires Valid()
      modifies driverRegistry, this`driverCount
      ensures Valid() && Devices() == old(Devices())
      ensures status == INVALID_PARAM <==> driver.None? || driver.value.name.NullString?
      ensures status == ALREADY_INITIALIZED <==>
              driver.Some? && driver.value.name.Text? && exists d :: d in old(Drivers()) && d.name == driver.value.name
      ensures status == ERROR ==> |old(Drivers())| == MAX_DRIVERS
      ensures status == OK ==> Drivers() == old(Drivers()) + [driver.value]
      ensures status != OK ==> Drivers() == old(Drivers())
      ensures status != NOT_FOUND
    {
      if driver.None? || driver.value.name.NullString? {
        return INVALID_PARAM;
      }
      for i := 0 to driverCount
        invariant forall j :: 0 <= j < i ==> driverRegistry[j].name != driver.value.name
      {
        if driverRegistry[i].name == driver.value.name {
          assert Drivers()[i] in Drivers();
          return ALREADY_INITIALIZED;
        }
      }
      if driverCount >= MAX_DRIVERS {
        return ERROR;
      }
      driverRegistry[driverCount] := driver.value;
      driverCount := driverCount + 1;
      return OK;
    }

    method DriverLookup(name: CString) returns (r: Option<nat>)
      requires Valid()
      ensures r == Lookup(Drivers(), name, 0)
    {
      if name.NullString? {
        return None;
      }
      for i := 0 to driverCount
        invariant Lookup(Drivers(), name, i) == Lookup(Drivers(), name, 0)
      {
        if driverRegistry[i].name == name {
          return Some(i);
        }
      }
      return None;
    }

    method DeviceRegister(dev: Option<Device>) returns (status: DeviceStatus)
      requires Valid()
      modifies deviceRegistry, this`deviceCount
      ensures Valid() && Drivers() == old(Drivers())
      ensures status == INVALID_PARAM <==> dev.None? || dev.value.name.NullString? || dev.value.driverName.NullString?
      ensures status == ALREADY_INITIALIZED <==>
              && dev.Some? && dev.value.name.Text? && dev.value.driverName.Text?
              && exists d :: d in old(Devices()) && d.name == dev.value.name
      ensures status == ERROR ==> |old(Devices())| == MAX_DEVICES
      ensures status == OK ==> Devices() == old(Devices()) + [dev.value]
      ensures status != OK ==> Devices() == old(Devices())
      ensures status != NOT_FOUND
    {
      if dev.None? || dev.value.name.NullString? || dev.value.driverName.NullString? {
        return INVALID_PARAM;
      }
      for i := 0 to deviceCount
        invariant forall j :: 0 <= j < i ==> deviceRegistry[j].name != dev.value.name
      {
        if deviceRegistry[i].name == dev.value.name {
          assert Devices()[i] in Devices();
          return ALREADY_INITIALIZED;
        }
      }
      if deviceCount >= MAX_DEVICES {
        return ERROR;
      }
      deviceRegistry[deviceCount] := dev.value;
      deviceCount := deviceCount + 1;
      return OK;
    }

    /** The search for the uninitialized device of lowest priority. */
    method FindNext() returns (next: Option<nat>)
      requires Valid()
      ensures next == Next(Devices())
    {
      var minPriority: Byte := 255;
      next := None;
      for i := 0 to deviceCount
        invariant next == None ==> minPriority == 255 && forall j :: 0 <= j < i ==> !Pending(deviceRegistry[j])
        invariant next.Some? ==> next.value < i && minPriority == deviceRegistry[next.value].initPriority
        invariant next.Some? ==> IsNext(deviceRegistry[..i], next.value)
      {
        if !deviceRegistry[i].initialized && deviceRegistry[i].initPriority < minPriority {
          minPriority := deviceRegistry[i].initPriority;
          next := Some(i);
        }
      }
      NextMeaning(Devices());
    }

    /** device_init_all; answers(i) is what the callback called in turn i gives back. */
    method DeviceInitAll(answers: nat -> Outcome) returns (status: DeviceStatus)
      requires Valid()
      modifies deviceRegistry
      ensures Valid() && Drivers() == old(Drivers())
      ensures var r := Start(old(Devices()), Drivers(), answers, 0, |old(Devices())|);
              Devices() == r.devices && status == FinalStatus(r.tries, OK)
    {
      status := OK;
      ghost var finish := Finish(Devices(), Drivers(), answers, 0, deviceCount, OK);
      for iter := 0 to deviceCount
        invariant Valid() && Drivers() == old(Drivers())
        invariant Finish(Devices(), Drivers(), answers, iter, deviceCount, status) == finish
      {
        var next := FindNext();
        if next.None? {
          break;
        }
        FirstTurn(Devices(), Drivers(), answers, iter, deviceCount, next.value, status);
        var outcome := AttemptAt(next.value, answers(iter));
        if outcome != OK {
          status := outcome;
        }
      }
    }

    /** One turn of the loop: driver lookup, callback, and the flag. */
    method AttemptAt(k: nat, answer: Outcome) returns (status: DeviceStatus)
      requires Valid() && k < deviceCount
      modifies deviceRegistry
      ensures Valid() && Drivers() == old(Drivers())
      ensures (Devices(), status) == Attempt(old(Devices()), Drivers(), k, answer)
    {
      ghost var devs := Devices();
      var driver := DriverLookup(deviceRegistry[k].driverName);
      if driver.None? {
        return NOT_FOUND;
      }
      if driverRegistry[driver.value].hasInit {
        deviceRegistry[k] := deviceRegistry[k].(driverData := answer.driverData);
        if answer.status != OK {
          return answer.status;
        }
      }
      deviceRegistry[k] := deviceRegistry[k].(initialized := true);
      assert Devices() == Mark(devs, k, deviceRegistry[k].driverData);
      return OK;
    }
  }
}
