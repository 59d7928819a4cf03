/** The serial transport as an abstract capability: each write either reaches the bus or
    fails, as decided by a fault oracle indexed by the write's attempt number. */
module Transport {

  /** The driver's error: `Comm` wraps the transport's own error (here its error code). */
  datatype Error = Comm(cause: nat)

  /** `Result<(), Error>` of the driver's I/O operations. */
  datatype Outcome = Ok | Err(error: Error)

  /** What the transport's write primitive reports. */
  datatype WriteResult = Written | Failed(code: nat)

  /** What the bus has seen: every write attempted, and the writes that went through. */
  datatype BusState = BusState(attempted: seq<seq<bv8>>, sent: seq<seq<bv8>>)

  /** One write on a bus whose oracle is `faults` (attempt number to transport error code). */
  function WriteStep(faults: map<nat, nat>, st: BusState, bytes: seq<bv8>): (r: (BusState, Outcome))
    ensures r.0.attempted == st.attempted + [bytes]
    ensures r.1.Ok? <==> |st.attempted| !in faults
    ensures r.0.sent == if r.1.Ok? then st.sent + [bytes] else st.sent
  {
    var n := |st.attempted|;
    if n in faults then (BusState(st.attempted + [bytes], st.sent), Err(Comm(faults[n])))
    else (BusState(st.attempted + [bytes], st.sent + [bytes]), Ok)
  }

  /** Writes `cmds` one after the other, each write's error returned at once (the `?`
      operator): the state after the run and its outcome. */
  function Run(faults: map<nat, nat>, st: BusState, cmds: seq<seq<bv8>>): (r: (BusState, Outcome))
    decreases |cmds|
  {
    if cmds == [] then (st, Ok)
    else
      var (st', o) := WriteStep(faults, st, cmds[0]);
      if o.Err? then (st', o) else Run(faults, st', cmds[1..])
  }

  /** Reference definition: how many of `cmds` go through before the first fault, on a bus
      whose next attempt number is `start`. */
  function Accepted(faults: map<nat, nat>, start: nat, cmds: seq<seq<bv8>>): (k: nat)
    ensures k <= |cmds|
    ensures forall i :: start <= i < start + k ==> i !in faults
    ensures k < |cmds| ==> start + k in faults
    decreases |cmds|
  {
    if cmds == [] || start in faults then 0 else 1 + Accepted(faults, start + 1, cmds[1..])
  }

  /** Reference definition of a run: the commands before the first fault are sent, the
      faulting one is attempted, none after it is attempted, and its error is returned; with
      no fault all commands are sent and the outcome is `Ok`. */
  function StopAtFirstFault(faults: map<nat, nat>, st: BusState, cmds: seq<seq<bv8>>): (r: (BusState, Outcome))
  {
    var k := Accepted(faults, |st.attempted|, cmds);
    if k == |cmds| then (BusState(st.attempted + cmds, st.sent + cmds), Ok)
    else (BusState(st.attempted + cmds[..k + 1], st.sent + cmds[..k]),
          Err(Comm(faults[|st.attempted| + k])))
  }

  /** A run stops at its first fault. */
  lemma {:induction false} RunStopsAtFirstFault(faults: map<nat, nat>, st: BusState, cmds: seq<seq<bv8>>)
    ensures Run(faults, st, cmds) == StopAtFirstFault(faults, st, cmds)
    decreases |cmds|
  {
    var n := |st.attempted|;
    if cmds == [] {
      assert st.attempted + cmds == st.attempted && st.sent + cmds == st.sent;
    } else if n in faults {
      assert st.attempted + cmds[..1] == st.attempted + [cmds[0]];
      assert st.sent + cmds[..0] == st.sent;
    } else {
      var st' := WriteStep(faults, st, cmds[0]).0;
      assert Run(faults, st, cmds) == Run(faults, st', cmds[1..]);
      RunStopsAtFirstFault(faults, st', cmds[1..]);
      StopAtFirstFaultStep(faults, st, cmds);
    }
  }

  /** One step of the reference run: a first command that goes through is sent, and the
      rest of the run starts from there. */
  lemma StopAtFirstFaultStep(faults: map<nat, nat>, st: BusState, cmds: seq<seq<bv8>>)
    requires cmds != [] && |st.attempted| !in faults
    ensures StopAtFirstFault(faults, st, cmds)
         == StopAtFirstFault(faults, WriteStep(faults, st, cmds[0]).0, cmds[1..])
  {
    var n := |st.attempted|;
    var st' := WriteStep(faults, st, cmds[0]).0;
    assert st' == BusState(st.attempted + [cmds[0]], st.sent + [cmds[0]]);
    var k := Accepted(faults, n, cmds);
    assert k == 1 + Accepted(faults, n + 1, cmds[1..]);
    if k < |cmds| {
      assert cmds[..k + 1] == [cmds[0]] + cmds[1..][..k];
      assert cmds[..k] == [cmds[0]] + cmds[1..][..k - 1];
      assert st.attempted + cmds[..k + 1] == st'.attempted + cmds[1..][..k];
      assert st.sent + cmds[..k] == st'.sent + cmds[1..][..k - 1];
    } else {
      assert cmds == [cmds[0]] + cmds[1..];
      assert st.attempted + cmds == st'.attempted + cmds[1..];
      assert st.sent + cmds == st'.sent + cmds[1..];
    }
  }

  /** Running `a` then `b` is running `a + b`, unless `a` fails, which ends the run. */
  lemma {:induction false} RunSplit(faults: map<nat, nat>, st: BusState, a: seq<seq<bv8>>, b: seq<seq<bv8>>)
    ensures Run(faults, st, a + b) ==
      var (st', o) := Run(faults, st, a);
      if o.Ok? then Run(faults, st', b) else (st', o)
    decreases |a|
  {
    if a != [] {
      assert (a + b)[0] == a[0] && (a + b)[1..] == a[1..] + b;
      var st' := WriteStep(faults, st, a[0]).0;
      RunSplit(faults, st', a[1..], b);
    } else {
      assert a + b == b;
    }
  }

  /** Extending a run that has succeeded so far by one command is one more write. */
  lemma RunExtend(faults: map<nat, nat>, st: BusState, cmds: seq<seq<bv8>>, i: nat)
    requires i < |cmds| && Run(faults, st, cmds[..i]).1 == Ok
    ensures Run(faults, st, cmds[..i + 1]) == Run(faults, Run(faults, st, cmds[..i]).0, [cmds[i]])
  {
    assert cmds[..i + 1] == cmds[..i] + [cmds[i]];
    RunSplit(faults, st, cmds[..i], [cmds[i]]);
  }

  /** Once a prefix of a run has failed, the rest of the run is never attempted. */
  lemma RunPrefixFails(faults: map<nat, nat>, st: BusState, cmds: seq<seq<bv8>>, i: nat)
    requires i <= |cmds| && Run(faults, st, cmds[..i]).1.Err?
    ensures Run(faults, st, cmds) == Run(faults, st, cmds[..i])
  {
    assert cmds == cmds[..i] + cmds[i..];
    RunSplit(faults, st, cmds[..i], cmds[i..]);
  }

  /** The bus: an exclusively owned handle whose writes are ordered. */
  class Bus {
    const faults: map<nat, nat>
    var attempts: nat
    ghost var attempted: seq<seq<bv8>>
    ghost var sent: seq<seq<bv8>>

    ghost predicate Valid()
      reads this
    {
      attempts == |attempted|
    }

    ghost function State(): BusState
      reads this
    {
      BusState(attempted, sent)
    }

    /** A bus on which nothing has been written yet. */
    constructor (faults: map<nat, nat>)
      ensures Valid() && this.faults == faults && State() == BusState([], [])
    {
      this.faults := faults;
      attempts := 0;
      attempted, sent := [], [];
    }

    /** Writes `bytes` to the bus; the oracle decides whether the write fails and with
        which transport error. */
    method Write(bytes: seq<bv8>) returns (r: WriteResult)
      requires Valid()
      modifies this
      ensures Valid()
      ensures State() == WriteStep(faults, old(State()), bytes).0
      ensures WriteStep(faults, old(State()), bytes).1
              == match r case Written => Ok case Failed(code) => Err(Comm(code))
    {
      if attempts in faults {
        r := Failed(faults[attempts]);
      } else {
        r := Written;
        sent := sent + [bytes];
      }
      attempts := attempts + 1;
      attempted := attempted + [bytes];
    }
  }
}
