/** What the attempts of device_init_all return and leave behind, and what it returns itself. */
module DriverAnswers {
  import opened DriverModel
  import opened DriverTheorems

  predicate NoDriver(drivers: seq<Driver>, name: CString) {
    name.NullString? || forall j :: 0 <= j < |drivers| ==> drivers[j].name != name
  }

  /** Driver j is the first of this name. */
  predicate FirstDriver(drivers: seq<Driver>, name: CString, j: nat) {
    && name.Text? && j < |drivers| && drivers[j].name == name
    && forall i :: 0 <= i < j ==> drivers[i].name != name
  }

  /** The status of an attempt at d: that the driver is missing, what its callback answers, or OK. */
  ghost predicate Explains(d: Device, drivers: seq<Driver>, answer: Outcome, status: DeviceStatus) {
    && (NoDriver(drivers, d.driverName) ==> status == NOT_FOUND)
    && forall j: nat :: FirstDriver(drivers, d.driverName, j) ==>
                          status == if drivers[j].hasInit then answer.status else OK
  }

  lemma {:induction false} LookupFirst(drivers: seq<Driver>, name: CString)
    ensures Lookup(drivers, name, 0) == None <==> NoDriver(drivers, name)
    ensures forall j: nat :: FirstDriver(drivers, name, j) <==> Lookup(drivers, name, 0) == Some(j)
  {
    LookupMeaning(drivers, name, 0);
  }

  lemma AttemptExplained(devs: seq<Device>, drivers: seq<Driver>, k: nat, answer: Outcome)
    requires k < |devs|
    ensures var (devs', status) := Attempt(devs, drivers, k, answer);
            && Explains(devs[k], drivers, answer, status)
            && |devs'| == |devs| && devs'[k].driverName == devs[k].driverName
            && (NoDriver(drivers, devs[k].driverName) ==> devs' == devs)
            && forall j: nat :: FirstDriver(drivers, devs[k].driverName, j) ==>
                 devs'[k].driverData == if drivers[j].hasInit then answer.driverData else devs[k].driverData
  {
    LookupFirst(drivers, devs[k].driverName);
  }

  /** Every attempt says of its device what its driver and its callback's answer call for. */
  ghost predicate AllExplained(devs: seq<Device>, drivers: seq<Driver>, answers: nat -> Outcome, turn: nat,
                               tries: seq<Try>)
  {
    forall i :: 0 <= i < |tries| ==>
      && tries[i].device < |devs|
      && Explains(devs[tries[i].device], drivers, answers(turn + i), tries[i].status)
  }

  lemma OneMoreExplained(devs: seq<Device>, devs': seq<Device>, drivers: seq<Driver>, answers: nat -> Outcome,
                         turn: nat, first: Try, rest: seq<Try>)
    requires |devs'| == |devs| && forall i :: 0 <= i < |devs| ==> devs'[i].driverName == devs[i].driverName
    requires first.device < |devs| && Explains(devs[first.device], drivers, answers(turn), first.status)
    requires AllExplained(devs', drivers, answers, turn + 1, rest)
    ensures AllExplained(devs, drivers, answers, turn, [first] + rest)
  {
    var tries := [first] + rest;
    forall i | 0 <= i < |tries|
      ensures tries[i].device < |devs|
      ensures Explains(devs[tries[i].device], drivers, answers(turn + i), tries[i].status)
    {
      if i > 0 {
        var was := rest[i - 1];
        assert tries[i] == was;
        assert Explains(devs'[was.device], drivers, answers(turn + 1 + (i - 1)), was.status);
        assert turn + 1 + (i - 1) == turn + i;
      }
    }
  }

  /** Every attempt of every run of the loop. */
  lemma {:induction false} TriesExplained(devs: seq<Device>, drivers: seq<Driver>, answers: nat -> Outcome,
                                          turn: nat, turns: nat)
    requires turn <= turns
    ensures AllExplained(devs, drivers, answers, turn, Start(devs, drivers, answers, turn, turns).tries)
    decreases turns - turn
  {
    NextMeaning(devs);
    if turn < turns && Next(devs).Some? {
      var k := Next(devs).value;
      var (devs', status) := Attempt(devs, drivers, k, answers(turn));
      AttemptMeaning(devs, drivers, k, answers(turn));
      AttemptExplained(devs, drivers, k, answers(turn));
      TriesExplained(devs', drivers, answers, turn + 1, turns);
      var rest := Start(devs', drivers, answers, turn + 1, turns);
      StartIs(devs, drivers, answers, turn, turns, k, devs', status, rest);
      OneMoreExplained(devs, devs', drivers, answers, turn, Try(k, status), rest.tries);
    }
  }

  // ---------------------------------------------------------------------------------------------
  // The result
  // ---------------------------------------------------------------------------------------------

  predicate LastFailure(tries: seq<Try>, i: nat) {
    i < |tries| && tries[i].status != OK && forall l :: i < l < |tries| ==> tries[l].status == OK
  }

  lemma {:induction false} SomeFailureIsLast(tries: seq<Try>, n: nat) returns (i: nat)
    requires n <= |tries| && !AllOk(tries[..n]) && forall l :: n <= l < |tries| ==> tries[l].status == OK
    ensures LastFailure(tries, i)
  {
    if tries[n - 1].status != OK {
      i := n - 1;
    } else {
      assert forall l :: 0 <= l < n - 1 ==> tries[..n][l] == tries[..n - 1][l];
      i := SomeFailureIsLast(tries, n - 1);
    }
  }

  lemma {:induction false} LastFailureIsResult(tries: seq<Try>, i: nat)
    requires LastFailure(tries, i)
    ensures FinalStatus(tries, OK) == tries[i].status
  {
    var later := tries[i + 1..];
    forall l | 0 <= l < |later| ensures later[l].status == OK {
      assert later[l] == tries[i + 1 + l];
    }
    FinalStatusMeaning(tries, OK);
  }

  /** device_init_all returns OK if no attempt failed, and otherwise the status of the last one that
      did: that its driver is missing, or what its callback answered. */
  lemma ResultExplained(devs: seq<Device>, drivers: seq<Driver>, answers: nat -> Outcome)
    ensures var b := InitAll(devs, drivers, answers);
            && (Result(b) == OK <==> AllOk(b.tries))
            && (Result(b) != OK ==> exists i: nat :: LastFailure(b.tries, i))
            && forall i: nat :: LastFailure(b.tries, i) ==>
                 b.tries[i].device < |devs|
                 && Explains(devs[b.tries[i].device], drivers, answers(i), Result(b))
  {
    TriesExplained(devs, drivers, answers, 0, |devs|);
    TriesGiveResult(devs, drivers, answers, InitAll(devs, drivers, answers).tries);
  }

  lemma {:induction false} TriesGiveResult(devs: seq<Device>, drivers: seq<Driver>,
                                           answers: nat -> Outcome, tries: seq<Try>)
    requires AllExplained(devs, drivers, answers, 0, tries)
    ensures var r := FinalStatus(tries, OK);
            && (r == OK <==> AllOk(tries))
            && (r != OK ==> exists i: nat :: LastFailure(tries, i))
            && forall i: nat :: LastFailure(tries, i) ==>
                 tries[i].device < |devs| && Explains(devs[tries[i].device], drivers, answers(i), r)
  {
    FinalStatusMeaning(tries, OK);
    forall i: nat | LastFailure(tries, i)
      ensures tries[i].device < |devs|
      ensures Explains(devs[tries[i].device], drivers, answers(i), FinalStatus(tries, OK))
    {
      LastFailureIsResult(tries, i);
      assert answers(0 + i) == answers(i);
    }
    if !AllOk(tries) {
      assert tries[..|tries|] == tries;
      var i := SomeFailureIsLast(tries, |tries|);
    }
  }

  /** In particular a first device whose driver is not registered makes the result NOT_FOUND. */
  lemma MissingDriver(devs: seq<Device>, drivers: seq<Driver>, answers: nat -> Outcome, k: nat)
    requires IsNext(devs, k) && NoDriver(drivers, devs[k].driverName)
    ensures Result(InitAll(devs, drivers, answers)) == NOT_FOUND
  {
    LookupFirst(drivers, devs[k].driverName);
    KeepsFailing(devs, drivers, answers, 0, |devs|, k);
    ResultExplained(devs, drivers, answers);
    assert !AllOk(InitAll(devs, drivers, answers).tries) by {
      assert InitAll(devs, drivers, answers).tries[0].status != OK;
    }
  }

  // ---------------------------------------------------------------------------------------------
  // The data that callbacks leave
  // ---------------------------------------------------------------------------------------------

  predicate LastTry(tries: seq<Try>, k: nat, i: nat) {
    i < |tries| && tries[i].device == k && forall l :: i < l < |tries| ==> tries[l].device != k
  }

  predicate NeverTried(tries: seq<Try>, k: nat) {
    forall l :: 0 <= l < |tries| ==> tries[l].device != k
  }

  /** A device ends with the data that the last call of its callback left, or with what it had if no
      callback was called for it. */
  ghost predicate DataExplained(d: Device, d': Device, drivers: seq<Driver>, answers: nat -> Outcome, turn: nat,
                                tries: seq<Try>, k: nat)
  {
    && (NoDriver(drivers, d.driverName) || NeverTried(tries, k) ==> d'.driverData == d.driverData)
    && (forall j: nat :: FirstDriver(drivers, d.driverName, j) && !drivers[j].hasInit ==> d'.driverData == d.driverData)
    && forall j: nat, i: nat :: FirstDriver(drivers, d.driverName, j) && drivers[j].hasInit && LastTry(tries, k, i) ==>
                                  d'.driverData == answers(turn + i).driverData
  }

  lemma {:induction false} DataKept(devs: seq<Device>, drivers: seq<Driver>, answers: nat -> Outcome,
                                    turn: nat, turns: nat, k: nat)
    requires turn <= turns && k < |devs|
    ensures var r := Start(devs, drivers, answers, turn, turns);
            |r.devices| == |devs| && DataExplained(devs[k], r.devices[k], drivers, answers, turn, r.tries, k)
    decreases turns - turn
  {
    NextMeaning(devs);
    if turn < turns && Next(devs).Some? {
      var n := Next(devs).value;
      var (devs', status) := Attempt(devs, drivers, n, answers(turn));
      AttemptMeaning(devs, drivers, n, answers(turn));
      AttemptExplained(devs, drivers, n, answers(turn));
      DataKept(devs', drivers, answers, turn + 1, turns, k);
      var rest := Start(devs', drivers, answers, turn + 1, turns);
      StartIs(devs, drivers, answers, turn, turns, n, devs', status, rest);
      OneTryMore(devs[k], devs'[k], rest.devices[k], drivers, answers, turn, Try(n, status), rest.tries, k);
    }
  }

  lemma OneTryMore(d: Device, d1: Device, d': Device, drivers: seq<Driver>, answers: nat -> Outcome, turn: nat,
                   first: Try, rest: seq<Try>, k: nat)
    requires d1.driverName == d.driverName
    requires DataExplained(d1, d', drivers, answers, turn + 1, rest, k)
    requires first.device != k || NoDriver(drivers, d.driverName) ==> d1 == d
    requires forall j: nat :: first.device == k && FirstDriver(drivers, d.driverName, j) ==>
               d1.driverData == if drivers[j].hasInit then answers(turn).driverData else d.driverData
    ensures DataExplained(d, d', drivers, answers, turn, [first] + rest, k)
  {
    var tries := [first] + rest;
    assert forall l :: 0 < l < |tries| ==> tries[l] == rest[l - 1];
    if NeverTried(tries, k) {
      assert tries[0] == first;
      assert forall l :: 0 <= l < |rest| ==> rest[l] == tries[l + 1];
    }
    forall j: nat, i: nat | FirstDriver(drivers, d.driverName, j) && drivers[j].hasInit && LastTry(tries, k, i)
      ensures d'.driverData == answers(turn + i).driverData
    {
      assert forall l :: 0 <= l < |rest| ==> rest[l] == tries[l + 1];
      if i == 0 {
        assert NeverTried(rest, k);
      } else {
        assert LastTry(rest, k, i - 1);
        assert answers(turn + 1 + (i - 1)) == answers(turn + i);
      }
    }
  }
}
