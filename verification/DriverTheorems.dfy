/** Which devices device_init_all starts, and in which order. */
module DriverTheorems {
  import opened DriverModel

  /** The registry entries that the loop does not write. */
  ghost predicate SameTable(a: seq<Device>, b: seq<Device>) {
    && |a| == |b|
    && forall i :: 0 <= i < |a| ==> b[i] == a[i].(driverData := b[i].driverData, initialized := b[i].initialized)
  }

  lemma AttemptMeaning(devs: seq<Device>, drivers: seq<Driver>, k: nat, answer: Outcome)
    requires IsNext(devs, k)
    ensures var (devs', status) := Attempt(devs, drivers, k, answer);
            && SameTable(devs, devs') && (forall i :: 0 <= i < |devs| && i != k ==> devs'[i] == devs[i])
            && (status == OK <==> devs'[k].initialized)
            && (status != OK ==> IsNext(devs', k))
  {
  }

  // ---------------------------------------------------------------------------------------------
  // Order
  // ---------------------------------------------------------------------------------------------

  /** Attempts go up the order: a failed one is followed by another at the same device, a
      successful one only by attempts at devices that come later. */
  ghost predicate InOrder(devs: seq<Device>, tries: seq<Try>) {
    && (forall i :: 0 <= i < |tries| ==> tries[i].device < |devs|)
    && (forall i, j :: 0 <= i < j < |tries| ==>
          if tries[i].device == tries[j].device then tries[i].status != OK
          else Before(devs, tries[i].device, tries[j].device))
    && (forall i, j :: 0 <= i < |tries| && j == i + 1 && j < |tries| && tries[i].status != OK ==>
          tries[j].device == tries[i].device)
  }

  lemma {:induction false} AttemptsAreOrdered(devs: seq<Device>, drivers: seq<Driver>,
                                              answers: nat -> Outcome, turn: nat, turns: nat)
    requires turn <= turns
    ensures var r := Start(devs, drivers, answers, turn, turns);
            && SameTable(devs, r.devices) && InOrder(devs, r.tries)
            && (forall i :: 0 <= i < |r.tries| ==> Pending(devs[r.tries[i].device]))
            && (r.tries != [] ==> IsNext(devs, r.tries[0].device))
    decreases turns - turn
  {
    NextMeaning(devs);
    if turn < turns && Next(devs).Some? {
      var k := Next(devs).value;
      var (devs', status) := Attempt(devs, drivers, k, answers(turn));
      AttemptMeaning(devs, drivers, k, answers(turn));
      AttemptsAreOrdered(devs', drivers, answers, turn + 1, turns);
      NextMeaning(devs');
      var rest := Start(devs', drivers, answers, turn + 1, turns).tries;
      forall i | 0 <= i < |rest| ensures if rest[i].device == k then status != OK else Before(devs, k, rest[i].device) {
        assert Pending(devs'[rest[i].device]);
      }
      Prepended(devs, devs', Try(k, status), rest);
    }
  }

  lemma Prepended(devs: seq<Device>, devs': seq<Device>, first: Try, rest: seq<Try>)
    requires SameTable(devs, devs') && InOrder(devs', rest) && first.device < |devs|
    requires forall i :: 0 <= i < |rest| ==>
               if rest[i].device == first.device then first.status != OK else Before(devs, first.device, rest[i].device)
    requires rest != [] && first.status != OK ==> rest[0].device == first.device
    ensures InOrder(devs, [first] + rest)
  {
    var tries := [first] + rest;
    forall i, j | 0 <= i < j < |tries|
      ensures if tries[i].device == tries[j].device then tries[i].status != OK
              else Before(devs, tries[i].device, tries[j].device)
    {
      assert tries[j] == rest[j - 1];
      if i > 0 {
        assert tries[i] == rest[i - 1];
      }
    }
  }

  // ---------------------------------------------------------------------------------------------
  // What is started
  // ---------------------------------------------------------------------------------------------

  /** A device is initialized afterwards exactly if it was before or an attempt at it succeeded. */
  lemma {:induction false} StartedBySuccess(devs: seq<Device>, drivers: seq<Driver>,
                                            answers: nat -> Outcome, turn: nat, turns: nat, i: nat)
    requires turn <= turns && i < |devs|
    ensures var r := Start(devs, drivers, answers, turn, turns);
            && |r.devices| == |devs|
            && (r.devices[i].initialized <==> devs[i].initialized || Try(i, OK) in r.tries)
            && ((forall status :: Try(i, status) !in r.tries) ==> r.devices[i] == devs[i])
    decreases turns - turn
  {
    NextMeaning(devs);
    if turn < turns && Next(devs).Some? {
      var k := Next(devs).value;
      var (devs', status) := Attempt(devs, drivers, k, answers(turn));
      AttemptMeaning(devs, drivers, k, answers(turn));
      StartedBySuccess(devs', drivers, answers, turn + 1, turns, i);
      var rest := Start(devs', drivers, answers, turn + 1, turns).tries;
      assert forall t :: t in [Try(k, status)] + rest <==> t == Try(k, status) || t in rest;
    }
  }

  /** While a device is left to start, nothing that comes after it has been touched. */
  lemma {:induction false} NothingAfterPending(devs: seq<Device>, drivers: seq<Driver>,
                                               answers: nat -> Outcome, turn: nat, turns: nat, i: nat, j: nat)
    requires turn <= turns && i < |devs| && j < |devs| && Before(devs, i, j)
    ensures var r := Start(devs, drivers, answers, turn, turns).devices;
            |r| == |devs| && (Pending(r[i]) ==> r[j] == devs[j])
    decreases turns - turn
  {
    NextMeaning(devs);
    if turn < turns && Next(devs).Some? {
      var k := Next(devs).value;
      var (devs', _) := Attempt(devs, drivers, k, answers(turn));
      AttemptMeaning(devs, drivers, k, answers(turn));
      NothingAfterPending(devs', drivers, answers, turn + 1, turns, i, j);
      if k == j {
        assert !Pending(devs[i]);
        StaysStarted(devs', drivers, answers, turn + 1, turns, i);
      }
    }
  }

  lemma {:induction false} StaysStarted(devs: seq<Device>, drivers: seq<Driver>,
                                        answers: nat -> Outcome, turn: nat, turns: nat, i: nat)
    requires turn <= turns && i < |devs| && !Pending(devs[i])
    ensures var r := Start(devs, drivers, answers, turn, turns).devices; |r| == |devs| && r[i] == devs[i]
    decreases turns - turn
  {
    NextMeaning(devs);
    if turn < turns && Next(devs).Some? {
      var k := Next(devs).value;
      AttemptMeaning(devs, drivers, k, answers(turn));
      StaysStarted(Attempt(devs, drivers, k, answers(turn)).0, drivers, answers, turn + 1, turns, i);
    }
  }

  /** Initialized devices are the first ones of the order. */
  ghost predicate DownwardClosed(devs: seq<Device>) {
    forall i, j :: 0 <= i < |devs| && 0 <= j < |devs| && Before(devs, i, j) && devs[j].initialized ==>
                     devs[i].initialized
  }

  lemma {:induction false} StartKeepsClosed(devs: seq<Device>, drivers: seq<Driver>,
                                            answers: nat -> Outcome, turns: nat)
    requires DownwardClosed(devs) && forall i :: 0 <= i < |devs| && devs[i].initialized ==> devs[i].initPriority < 255
    ensures DownwardClosed(Start(devs, drivers, answers, 0, turns).devices)
  {
    var r := Start(devs, drivers, answers, 0, turns).devices;
    AttemptsAreOrdered(devs, drivers, answers, 0, turns);
    forall i, j | 0 <= i < |r| && 0 <= j < |r| && Before(r, i, j) && r[j].initialized ensures r[i].initialized {
      NothingAfterPending(devs, drivers, answers, 0, turns, i, j);
      OthersStay(devs, drivers, answers, turns, i, j);
    }
  }

  lemma {:induction false} OthersStay(devs: seq<Device>, drivers: seq<Driver>,
                                      answers: nat -> Outcome, turns: nat, i: nat, j: nat)
    requires i < |devs| && j < |devs|
    ensures var r := Start(devs, drivers, answers, 0, turns).devices;
            && |r| == |devs|
            && (!Pending(devs[i]) ==> r[i] == devs[i])
            && (!Pending(devs[j]) ==> r[j] == devs[j])
  {
    AttemptsAreOrdered(devs, drivers, answers, 0, turns);
    if !Pending(devs[i]) {
      StaysStarted(devs, drivers, answers, 0, turns, i);
    }
    if !Pending(devs[j]) {
      StaysStarted(devs, drivers, answers, 0, turns, j);
    }
  }

  function PendingCount(devs: seq<Device>): (n: nat)
    ensures n <= |devs|
  {
    if devs == [] then 0 else (if Pending(devs[0]) then 1 else 0) + PendingCount(devs[1..])
  }

  lemma {:induction false} OneLess(devs: seq<Device>, devs': seq<Device>, k: nat)
    requires |devs| == |devs'| && k < |devs| && Pending(devs[k]) && !Pending(devs'[k])
    requires forall i :: 0 <= i < |devs| && i != k ==> devs'[i] == devs[i]
    ensures PendingCount(devs') == PendingCount(devs) - 1
  {
    if k > 0 {
      OneLess(devs[1..], devs'[1..], k - 1);
    } else {
      assert devs'[1..] == devs[1..];
    }
  }

  lemma {:induction false} SomePending(devs: seq<Device>, k: nat)
    requires k < |devs| && Pending(devs[k])
    ensures PendingCount(devs) > 0
  {
    if k > 0 {
      SomePending(devs[1..], k - 1);
    }
  }

  predicate NonePending(devs: seq<Device>) {
    forall i :: 0 <= i < |devs| ==> !Pending(devs[i])
  }

  /** A result without failure means that every device that the loop can choose was started. */
  lemma {:induction false} OkMeansStarted(devs: seq<Device>, drivers: seq<Driver>,
                                          answers: nat -> Outcome, turn: nat, turns: nat)
    requires turn <= turns && PendingCount(devs) <= turns - turn
    requires AllOk(Start(devs, drivers, answers, turn, turns).tries)
    ensures NonePending(Start(devs, drivers, answers, turn, turns).devices)
    decreases turns - turn
  {
    NextMeaning(devs);
    if Next(devs).Some? {
      var k := Next(devs).value;
      SomePending(devs, k);
      var (devs', status) := Attempt(devs, drivers, k, answers(turn));
      AttemptMeaning(devs, drivers, k, answers(turn));
      var r := Start(devs', drivers, answers, turn + 1, turns);
      var tries := [Try(k, status)] + r.tries;
      assert Start(devs, drivers, answers, turn, turns) == Boot(r.devices, tries);
      assert tries[0].status == OK;
      assert forall i :: 0 <= i < |r.tries| ==> r.tries[i] == tries[i + 1];
      OneLess(devs, devs', k);
      OkMeansStarted(devs', drivers, answers, turn + 1, turns);
    }
  }

  /** device_init_all: as many turns as there are devices. */
  ghost function InitAll(devs: seq<Device>, drivers: seq<Driver>, answers: nat -> Outcome): Boot {
    Start(devs, drivers, answers, 0, |devs|)
  }

  function Result(b: Boot): DeviceStatus {
    FinalStatus(b.tries, OK)
  }

  /** device_init_all returns OK only if exactly the devices of priority 255 are left out. */
  lemma OkResult(devs: seq<Device>, drivers: seq<Driver>, answers: nat -> Outcome, i: nat)
    requires i < |devs| && Result(InitAll(devs, drivers, answers)) == OK
    ensures var r := InitAll(devs, drivers, answers).devices;
            |r| == |devs| && (r[i].initialized <==> devs[i].initialized || devs[i].initPriority < 255)
  {
    FinalStatusMeaning(InitAll(devs, drivers, answers).tries, OK);
    AttemptsAreOrdered(devs, drivers, answers, 0, |devs|);
    OkMeansStarted(devs, drivers, answers, 0, |devs|);
    if !Pending(devs[i]) {
      StaysStarted(devs, drivers, answers, 0, |devs|, i);
    }
  }

  // ---------------------------------------------------------------------------------------------
  // When the result tells the truth
  // ---------------------------------------------------------------------------------------------

  function Oks(tries: seq<Try>): (n: nat)
    ensures n <= |tries|
    ensures n == |tries| <==> AllOk(tries)
  {
    if tries == [] then 0
    else
      assert AllOk(tries) <==> tries[0].status == OK && AllOk(tries[1..]) by {
        assert forall i :: 0 < i < |tries| ==> tries[i] == tries[1..][i - 1];
      }
      (if tries[0].status == OK then 1 else 0) + Oks(tries[1..])
  }

  lemma {:induction false} OksCons(first: Try, rest: seq<Try>)
    ensures Oks([first] + rest) == (if first.status == OK then 1 else 0) + Oks(rest)
  {
    assert ([first] + rest)[1..] == rest;
  }

  lemma {:induction false} StartIs(devs: seq<Device>, drivers: seq<Driver>, answers: nat -> Outcome,
                                   turn: nat, turns: nat, k: nat,
                                   devs': seq<Device>, status: DeviceStatus, rest: Boot)
    requires turn < turns && k < |devs| && Next(devs) == Some(k)
    requires (devs', status) == Attempt(devs, drivers, k, answers(turn))
    requires rest == Start(devs', drivers, answers, turn + 1, turns)
    ensures Start(devs, drivers, answers, turn, turns) == Boot(rest.devices, [Try(k, status)] + rest.tries)
  {
  }

  lemma {:induction false} OneTry(devs: seq<Device>, devs': seq<Device>, k: nat, status: DeviceStatus, rest: Boot)
    requires IsNext(devs, k) && |devs'| == |devs| && forall i :: 0 <= i < |devs| && i != k ==> devs'[i] == devs[i]
    requires if status == OK then devs'[k].initialized else Pending(devs'[k])
    requires PendingCount(rest.devices) + Oks(rest.tries) == PendingCount(devs')
    ensures PendingCount(rest.devices) + Oks([Try(k, status)] + rest.tries) == PendingCount(devs)
  {
    OksCons(Try(k, status), rest.tries);
    if status == OK {
      OneLess(devs, devs', k);
    } else {
      SameCount(devs, devs');
    }
  }

  /** Conservation: each success takes one device out of those left to start. */
  lemma {:induction false} SuccessesCount(devs: seq<Device>, drivers: seq<Driver>, answers: nat -> Outcome,
                                          turn: nat, turns: nat)
    requires turn <= turns
    ensures var r := Start(devs, drivers, answers, turn, turns);
            PendingCount(r.devices) + Oks(r.tries) == PendingCount(devs) && |r.tries| <= turns - turn
    decreases turns - turn
  {
    NextMeaning(devs);
    if turn < turns && Next(devs).Some? {
      var k := Next(devs).value;
      var (devs', status) := Attempt(devs, drivers, k, answers(turn));
      AttemptMeaning(devs, drivers, k, answers(turn));
      SuccessesCount(devs', drivers, answers, turn + 1, turns);
      var rest := Start(devs', drivers, answers, turn + 1, turns);
      OneTry(devs, devs', k, status, rest);
      StartIs(devs, drivers, answers, turn, turns, k, devs', status, rest);
    }
  }

  lemma {:induction false} SameCount(devs: seq<Device>, devs': seq<Device>)
    requires |devs| == |devs'| && forall i :: 0 <= i < |devs| ==> (Pending(devs[i]) <==> Pending(devs'[i]))
    ensures PendingCount(devs) == PendingCount(devs')
  {
    if devs != [] {
      SameCount(devs[1..], devs'[1..]);
    }
  }

  lemma {:induction false} NoneCount(devs: seq<Device>)
    ensures NonePending(devs) <==> PendingCount(devs) == 0
  {
    if devs != [] {
      NoneCount(devs[1..]);
      assert forall i :: 0 < i < |devs| ==> devs[i] == devs[1..][i - 1];
    }
  }

  /** The result is OK exactly if every device that the loop can choose was started. */
  predicate Truthful(b: Boot) {
    Result(b) == OK <==> NonePending(b.devices)
  }

  /** Without a turn to spare the result tells the truth, whatever drivers and callbacks do. */
  lemma {:induction false} NoSpareTurn(devs: seq<Device>, drivers: seq<Driver>, answers: nat -> Outcome)
    requires PendingCount(devs) == |devs|
    ensures Truthful(InitAll(devs, drivers, answers))
  {
    var b := InitAll(devs, drivers, answers);
    SuccessesCount(devs, drivers, answers, 0, |devs|);
    NoneCount(b.devices);
    FinalStatusMeaning(b.tries, OK);
    if Result(b) == OK {
      OkMeansStarted(devs, drivers, answers, 0, |devs|);
    }
  }

  lemma NoDriverIsTruthful(devs: seq<Device>, drivers: seq<Driver>, answers: nat -> Outcome, i: nat)
    requires i < |devs| && Pending(devs[i]) && !HasDriver(drivers, devs[i])
    ensures Truthful(InitAll(devs, drivers, answers))
  {
    var b := InitAll(devs, drivers, answers);
    NeverStarts(devs, drivers, answers, 0, |devs|, i);
    FinalStatusMeaning(b.tries, OK);
    if Result(b) == OK {
      OkMeansStarted(devs, drivers, answers, 0, |devs|);
    }
  }

  lemma {:induction false} NeverStarts(devs: seq<Device>, drivers: seq<Driver>, answers: nat -> Outcome,
                                       turn: nat, turns: nat, i: nat)
    requires turn <= turns && i < |devs| && Pending(devs[i]) && !HasDriver(drivers, devs[i])
    ensures var r := Start(devs, drivers, answers, turn, turns).devices; |r| == |devs| && Pending(r[i])
    decreases turns - turn
  {
    NextMeaning(devs);
    if turn < turns && Next(devs).Some? {
      var k := Next(devs).value;
      AttemptMeaning(devs, drivers, k, answers(turn));
      NeverStarts(Attempt(devs, drivers, k, answers(turn)).0, drivers, answers, turn + 1, turns, i);
    }
  }

  /** Starting this device calls into its driver. */
  predicate Calls(drivers: seq<Driver>, d: Device) {
    HasDriver(drivers, d) && drivers[Lookup(drivers, d.driverName, 0).value].hasInit
  }

  predicate NoCalls(devs: seq<Device>, drivers: seq<Driver>) {
    forall i :: 0 <= i < |devs| && Pending(devs[i]) ==> HasDriver(drivers, devs[i]) && !Calls(drivers, devs[i])
  }

  lemma {:induction false} NoCallsNoFailure(devs: seq<Device>, drivers: seq<Driver>, answers: nat -> Outcome,
                                            turn: nat, turns: nat)
    requires turn <= turns && NoCalls(devs, drivers)
    ensures AllOk(Start(devs, drivers, answers, turn, turns).tries)
    decreases turns - turn
  {
    NextMeaning(devs);
    if turn < turns && Next(devs).Some? {
      var k := Next(devs).value;
      AttemptMeaning(devs, drivers, k, answers(turn));
      NoCallsNoFailure(Attempt(devs, drivers, k, answers(turn)).0, drivers, answers, turn + 1, turns);
    }
  }

  /** Pending devices all have drivers, one of which is called. */
  ghost predicate SomeCall(devs: seq<Device>, drivers: seq<Driver>) {
    && (forall i :: 0 <= i < |devs| && Pending(devs[i]) ==> HasDriver(drivers, devs[i]))
    && exists i :: 0 <= i < |devs| && Pending(devs[i]) && Calls(drivers, devs[i])
  }

  /** Callbacks that fail once and then succeed. */
  function FailAt(t: nat): nat -> Outcome {
    turn => Outcome(if turn == t then ERROR else OK, 0)
  }

  ghost predicate Misleads(b: Boot) {
    Result(b) != OK && NonePending(b.devices)
  }

  /** With a turn to spare, a device is started on its second attempt, but its first failure stays
      in the result. */
  lemma {:induction false} StartedButNotOk(devs: seq<Device>, drivers: seq<Driver>, turn: nat, turns: nat)
      returns (t: nat)
    requires turn <= turns && PendingCount(devs) < turns - turn && SomeCall(devs, drivers)
    ensures turn <= t && Misleads(Start(devs, drivers, FailAt(t), turn, turns))
    decreases turns - turn
  {
    NextMeaning(devs);
    var i :| 0 <= i < |devs| && Pending(devs[i]) && Calls(drivers, devs[i]);
    SomePending(devs, i);
    var k := Next(devs).value;
    if Calls(drivers, devs[k]) {
      t := turn;
      FailsFirst(devs, drivers, turn, turns, k);
    } else {
      var devs' := Attempt(devs, drivers, k, Outcome(OK, 0)).0;
      AttemptMeaning(devs, drivers, k, Outcome(OK, 0));
      OneLess(devs, devs', k);
      t := StartedButNotOk(devs', drivers, turn + 1, turns);
      FirstTurn(devs, drivers, FailAt(t), turn, turns, k, OK);
    }
  }

  lemma {:induction false} FailsFirst(devs: seq<Device>, drivers: seq<Driver>, turn: nat, turns: nat, k: nat)
    requires turn < turns && PendingCount(devs) < turns - turn && SomeCall(devs, drivers)
    requires IsNext(devs, k) && Calls(drivers, devs[k])
    ensures Misleads(Start(devs, drivers, FailAt(turn), turn, turns))
  {
    var answers := FailAt(turn);
    NextMeaning(devs);
    var devs' := Attempt(devs, drivers, k, answers(turn)).0;
    AttemptMeaning(devs, drivers, k, answers(turn));
    SameCount(devs, devs');
    FirstTurn(devs, drivers, answers, turn, turns, k, OK);
    var r := Start(devs', drivers, answers, turn + 1, turns);
    NeverOkAgain(r.tries, ERROR);
    AllStart(devs', drivers, answers, turn + 1, turns);
  }

  lemma {:induction false} AllStart(devs: seq<Device>, drivers: seq<Driver>,
                                    answers: nat -> Outcome, turn: nat, turns: nat)
    requires turn <= turns && PendingCount(devs) <= turns - turn
    requires forall i :: 0 <= i < |devs| && Pending(devs[i]) ==> HasDriver(drivers, devs[i])
    requires forall t: nat :: turn <= t < turns ==> answers(t).status == OK
    ensures NonePending(Start(devs, drivers, answers, turn, turns).devices)
  {
    var r := Start(devs, drivers, answers, turn, turns).devices;
    AttemptsAreOrdered(devs, drivers, answers, turn, turns);
    forall i | 0 <= i < |r| ensures !Pending(r[i]) {
      StartedExactly(devs, drivers, answers, turn, turns, i);
      if !Pending(devs[i]) {
        StaysStarted(devs, drivers, answers, turn, turns, i);
      }
    }
  }

  /** The result tells the truth for every behaviour of the callbacks exactly if there is no turn to
      spare, or a device to start lacks its driver, or none calls into one. */
  lemma {:induction false} ResultIsTruthful(devs: seq<Device>, drivers: seq<Driver>)
    ensures (forall answers: nat -> Outcome :: Truthful(InitAll(devs, drivers, answers)))
            <==> PendingCount(devs) == |devs| || !SomeCall(devs, drivers)
  {
    if PendingCount(devs) < |devs| && SomeCall(devs, drivers) {
      var t := StartedButNotOk(devs, drivers, 0, |devs|);
      assert !Truthful(InitAll(devs, drivers, FailAt(t)));
    } else {
      forall answers: nat -> Outcome ensures Truthful(InitAll(devs, drivers, answers)) {
        if PendingCount(devs) == |devs| {
          NoSpareTurn(devs, drivers, answers);
        } else if i: nat :| i < |devs| && Pending(devs[i]) && !HasDriver(drivers, devs[i]) {
          NoDriverIsTruthful(devs, drivers, answers, i);
        } else {
          NoCallsIsTruthful(devs, drivers, answers);
        }
      }
    }
  }

  lemma NoCallsIsTruthful(devs: seq<Device>, drivers: seq<Driver>, answers: nat -> Outcome)
    requires NoCalls(devs, drivers)
    ensures Truthful(InitAll(devs, drivers, answers))
  {
    NoCallsNoFailure(devs, drivers, answers, 0, |devs|);
    OkMeansStarted(devs, drivers, answers, 0, |devs|);
    FinalStatusMeaning(InitAll(devs, drivers, answers).tries, OK);
  }

  // ---------------------------------------------------------------------------------------------
  // Devices that cannot be started
  // ---------------------------------------------------------------------------------------------

  /** No attempt at k from this turn on can succeed. */
  ghost predicate Hopeless(d: Device, drivers: seq<Driver>, answers: nat -> Outcome, turn: nat, turns: nat) {
    match Lookup(drivers, d.driverName, 0)
    case None => true
    case Some(i) =>
      i < |drivers| && drivers[i].hasInit && forall t: nat :: turn <= t < turns ==> answers(t).status != OK
  }

  /** Such a device is tried until the turns run out, and no other one is. */
  lemma {:induction false} KeepsFailing(devs: seq<Device>, drivers: seq<Driver>,
                                        answers: nat -> Outcome, turn: nat, turns: nat, k: nat)
    requires turn <= turns && IsNext(devs, k) && Hopeless(devs[k], drivers, answers, turn, turns)
    ensures var r := Start(devs, drivers, answers, turn, turns);
            && |r.tries| == turns - turn
            && (forall i :: 0 <= i < |r.tries| ==> r.tries[i].device == k && r.tries[i].status != OK)
            && (exists data :: r.devices == devs[k := devs[k].(driverData := data)])
    decreases turns - turn
  {
    NextMeaning(devs);
    LookupMeaning(drivers, devs[k].driverName, 0);
    if turn < turns {
      assert Next(devs) == Some(k);
      var (devs', status) := Attempt(devs, drivers, k, answers(turn));
      AttemptMeaning(devs, drivers, k, answers(turn));
      KeepsFailing(devs', drivers, answers, turn + 1, turns, k);
      var r := Start(devs', drivers, answers, turn + 1, turns).devices;
      var data :| r == devs'[k := devs'[k].(driverData := data)];
      assert devs'[k].(driverData := data) == devs[k].(driverData := data);
      assert r == devs[k := devs[k].(driverData := data)];
    } else {
      assert devs == devs[k := devs[k].(driverData := devs[k].driverData)];
    }
  }

  /** What the loop gets through when all callbacks succeed. */
  ghost predicate Reached(devs: seq<Device>, drivers: seq<Driver>, i: nat)
    requires i < |devs|
  {
    && Pending(devs[i])
    && forall j: nat :: j < |devs| && Pending(devs[j]) && (j == i || Before(devs, j, i)) ==> HasDriver(drivers, devs[j])
  }

  /** With callbacks that succeed, a device is started exactly if its priority is below 255 and
      neither it nor a device before it lacks its driver. */
  lemma {:induction false} StartedExactly(devs: seq<Device>, drivers: seq<Driver>,
                                          answers: nat -> Outcome, turn: nat, turns: nat, i: nat)
    requires turn <= turns && i < |devs| && PendingCount(devs) <= turns - turn
    requires forall t: nat :: turn <= t < turns ==> answers(t).status == OK
    ensures var r := Start(devs, drivers, answers, turn, turns).devices;
            |r| == |devs| && (r[i].initialized <==> devs[i].initialized || Reached(devs, drivers, i))
    decreases turns - turn
  {
    NextMeaning(devs);
    if Next(devs).Some? {
      var k := Next(devs).value;
      SomePending(devs, k);
      var devs' := Attempt(devs, drivers, k, answers(turn)).0;
      AttemptMeaning(devs, drivers, k, answers(turn));
      if HasDriver(drivers, devs[k]) {
        OneLess(devs, devs', k);
        StartedExactly(devs', drivers, answers, turn + 1, turns, i);
        ReachedLater(devs, devs', drivers, k, i);
      } else {
        KeepsFailing(devs, drivers, answers, turn, turns, k);
      }
    }
  }

  lemma ReachedLater(devs: seq<Device>, devs': seq<Device>, drivers: seq<Driver>, k: nat, i: nat)
    requires IsNext(devs, k) && i < |devs| && HasDriver(drivers, devs[k])
    requires SameTable(devs, devs') && devs'[k].initialized
    requires forall j :: 0 <= j < |devs| && j != k ==> devs'[j] == devs[j]
    ensures devs'[i].initialized || Reached(devs', drivers, i) <==> devs[i].initialized || Reached(devs, drivers, i)
  {
    if i == k {
      assert Reached(devs, drivers, k);
    } else if Reached(devs', drivers, i) {
      forall j: nat | j < |devs| && Pending(devs[j]) && (j == i || Before(devs, j, i))
        ensures HasDriver(drivers, devs[j]) {
        if j != k {
          assert Pending(devs'[j]);
        }
      }
    } else if Reached(devs, drivers, i) {
      forall j: nat | j < |devs| && Pending(devs'[j]) && (j == i || Before(devs', j, i))
        ensures HasDriver(drivers, devs'[j]) {
        assert j != k && Pending(devs[j]);
      }
    }
  }
}
