/**
  The start-up of devices (src/driver_framework.c) on values. The callbacks of drivers belong to
  the environment: answers(i) is what the callback gives back in the i-th turn of the loop.
*/
module DriverModel {

  type Byte = b: int | 0 <= b < 256

  datatype Option<T> = None | Some(value: T)

  datatype DeviceStatus = OK | ERROR | NOT_FOUND | ALREADY_INITIALIZED | INVALID_PARAM

  /** A string pointer of C. */
  datatype CString = NullString | Text(text: string)

  datatype Device = Device(
    name: CString,
    id: Byte,
    driverName: CString,
    driverData: int,
    initPriority: Byte,
    initialized: bool)

  datatype Driver = Driver(name: CString, hasInit: bool)

  /** What a callback returns and leaves in driver_data. */
  datatype Outcome = Outcome(status: DeviceStatus, driverData: int)

  /** The position of the first driver of this name, from i on. */
  function Lookup(drivers: seq<Driver>, name: CString, i: nat): (r: Option<nat>)
    requires i <= |drivers|
    ensures r.Some? ==> r.value < |drivers|
    decreases |drivers| - i
  {
    if i == |drivers| || name.NullString? then None
    else if drivers[i].name == name then Some(i)
    else Lookup(drivers, name, i + 1)
  }

  lemma {:induction false} LookupMeaning(drivers: seq<Driver>, name: CString, i: nat)
    requires i <= |drivers|
    ensures var r := Lookup(drivers, name, i);
            && (r == None <==> name.NullString? || forall j :: i <= j < |drivers| ==> drivers[j].name != name)
            && (r.Some? ==> i <= r.value < |drivers| && drivers[r.value].name == name)
            && (r.Some? ==> forall j :: i <= j < r.value ==> drivers[j].name != name)
    decreases |drivers| - i
  {
    if i < |drivers| {
      LookupMeaning(drivers, name, i + 1);
    }
  }

  predicate HasDriver(drivers: seq<Driver>, d: Device) {
    Lookup(drivers, d.driverName, 0).Some?
  }

  /** The loop can choose this device: its search starts from priority 255. */
  predicate Pending(d: Device) {
    !d.initialized && d.initPriority < 255
  }

  /** The order of starting: by priority, then by place in the registry. */
  predicate Before(devs: seq<Device>, i: nat, j: nat)
    requires i < |devs| && j < |devs|
  {
    devs[i].initPriority < devs[j].initPriority || (devs[i].initPriority == devs[j].initPriority && i < j)
  }

  ghost predicate IsNext(devs: seq<Device>, k: nat) {
    && k < |devs| && Pending(devs[k])
    && forall j :: 0 <= j < |devs| && Pending(devs[j]) ==> j == k || Before(devs, k, j)
  }

  /** The pending device that comes first. */
  ghost function Next(devs: seq<Device>): Option<nat> {
    if k: nat :| IsNext(devs, k) then Some(k) else None
  }

  lemma {:induction false} SomeIsNext(devs: seq<Device>, j: nat) returns (k: nat)
    requires j < |devs| && Pending(devs[j])
    ensures IsNext(devs, k)
  {
    var n := |devs| - 1;
    var front := devs[..n];
    if i: nat :| i < n && Pending(front[i]) {
      k := SomeIsNext(front, i);
      if Pending(devs[n]) && devs[n].initPriority < devs[k].initPriority {
        NextWithOneMore(devs, k, n);
        k := n;
      } else {
        NextWithOneMore(devs, k, k);
      }
    } else {
      k := n;
      forall i | 0 <= i < n ensures !Pending(devs[i]) {
        assert !Pending(front[i]);
      }
    }
  }

  lemma NextWithOneMore(devs: seq<Device>, k: nat, r: nat)
    requires devs != [] && IsNext(devs[..|devs| - 1], k)
    requires r < |devs| && Pending(devs[r])
    requires r == k || r == |devs| - 1
    requires r == k || Before(devs, r, k)
    requires Pending(devs[|devs| - 1]) && r == k ==> Before(devs, k, |devs| - 1)
    ensures IsNext(devs, r)
  {
    forall j | 0 <= j < |devs| && Pending(devs[j]) ensures j == r || Before(devs, r, j) {
      if j < |devs| - 1 {
        assert devs[..|devs| - 1][j] == devs[j];
      }
    }
  }

  lemma NextMeaning(devs: seq<Device>)
    ensures Next(devs) == None <==> forall j :: 0 <= j < |devs| ==> !Pending(devs[j])
    ensures forall k: nat :: Next(devs) == Some(k) <==> IsNext(devs, k)
  {
    if j: nat :| j < |devs| && Pending(devs[j]) {
      var k := SomeIsNext(devs, j);
    }
  }

  function Mark(devs: seq<Device>, k: nat, data: int): seq<Device>
    requires k < |devs|
  {
    devs[k := devs[k].(initialized := true, driverData := data)]
  }

  /** One turn: the device chosen, its driver looked up and called. */
  function Attempt(devs: seq<Device>, drivers: seq<Driver>, k: nat, answer: Outcome): (seq<Device>, DeviceStatus)
    requires k < |devs|
  {
    match Lookup(drivers, devs[k].driverName, 0)
    case None => (devs, NOT_FOUND)
    case Some(i) =>
      if !drivers[i].hasInit then (Mark(devs, k, devs[k].driverData), OK)
      else if answer.status != OK then (devs[k := devs[k].(driverData := answer.driverData)], answer.status)
      else (Mark(devs, k, answer.driverData), OK)
  }

  datatype Try = Try(device: nat, status: DeviceStatus)

  datatype Boot = Boot(devices: seq<Device>, tries: seq<Try>)

  /** The turns of the loop from turn on: the devices at its end and the attempts it made. */
  ghost function Start(devs: seq<Device>, drivers: seq<Driver>, answers: nat -> Outcome, turn: nat, turns: nat): Boot
    requires turn <= turns
    decreases turns - turn
  {
    if turn == turns then Boot(devs, []) else
    match Next(devs)
    case None => Boot(devs, [])
    case Some(k) =>
      var (devs', status) := Attempt(devs, drivers, k, answers(turn));
      var rest := Start(devs', drivers, answers, turn + 1, turns);
      Boot(rest.devices, [Try(k, status)] + rest.tries)
  }

  /** The status variable after these attempts. */
  function FinalStatus(tries: seq<Try>, status: DeviceStatus): DeviceStatus {
    if tries == [] then status
    else FinalStatus(tries[1..], if tries[0].status == OK then status else tries[0].status)
  }

  /** Devices and result when the loop goes on from here with this value in its status variable. */
  ghost function Finish(devs: seq<Device>, drivers: seq<Driver>, answers: nat -> Outcome, turn: nat, turns: nat,
                        status: DeviceStatus): (seq<Device>, DeviceStatus)
    requires turn <= turns
  {
    var r := Start(devs, drivers, answers, turn, turns);
    (r.devices, FinalStatus(r.tries, status))
  }

  /** What a turn that chooses device k leaves to the turns after it. */
  lemma FirstTurn(devs: seq<Device>, drivers: seq<Driver>, answers: nat -> Outcome, turn: nat, turns: nat, k: nat,
                  status: DeviceStatus)
    requires turn < turns && k < |devs| && Next(devs) == Some(k)
    ensures var (devs', outcome) := Attempt(devs, drivers, k, answers(turn));
            Finish(devs, drivers, answers, turn, turns, status) ==
            Finish(devs', drivers, answers, turn + 1, turns, if outcome == OK then status else outcome)
  {
    var (devs', outcome) := Attempt(devs, drivers, k, answers(turn));
    var rest := Start(devs', drivers, answers, turn + 1, turns);
    assert ([Try(k, outcome)] + rest.tries)[1..] == rest.tries;
  }

  predicate AllOk(tries: seq<Try>) {
    forall i :: 0 <= i < |tries| ==> tries[i].status == OK
  }

  /** The result is the status of the last attempt that failed. */
  lemma {:induction false} FinalStatusMeaning(tries: seq<Try>, status: DeviceStatus)
    ensures AllOk(tries) ==> FinalStatus(tries, status) == status
    ensures forall i :: 0 <= i < |tries| && tries[i].status != OK && AllOk(tries[i + 1..]) ==>
              FinalStatus(tries, status) == tries[i].status
    ensures FinalStatus(tries, OK) == OK <==> AllOk(tries)
  {
    if tries != [] {
      var s := if tries[0].status == OK then status else tries[0].status;
      FinalStatusMeaning(tries[1..], s);
      if tries[0].status != OK {
        NeverOkAgain(tries[1..], tries[0].status);
      }
      assert forall i :: 0 < i < |tries| ==> tries[1..][i - 1] == tries[i];
      forall i | 0 < i < |tries| && tries[i].status != OK && AllOk(tries[i + 1..])
        ensures FinalStatus(tries, status) == tries[i].status
      {
        assert tries[1..][i..] == tries[i + 1..];
        assert tries[1..][i - 1] == tries[i];
      }
    }
  }

  lemma {:induction false} NeverOkAgain(tries: seq<Try>, status: DeviceStatus)
    requires status != OK
    ensures FinalStatus(tries, status) != OK
  {
    if tries != [] {
      NeverOkAgain(tries[1..], if tries[0].status == OK then status else tries[0].status);
    }
  }
}
