/** The dispatcher `magma_dstedc_withZ`: it sizes the scratch buffers for the
    requested mode, allocates them, hands everything to LAPACK's DSTEDC,
    reports a nonzero INFO without stopping, and frees the buffers.

    The observable effects of a call (allocations, the solver call, messages,
    process exit, releases) are returned as a trace of events.  DSTEDC itself
    is foreign code: the model receives it as a function from the arguments it
    is given to the values it leaves in D, E and Z and its INFO. */
module Dispatcher {
  import opened Planner

  /** One observable effect of the dispatcher. */
  datatype Event =
    | ErrorMessage(jobz: char)   // the "ERROR JOBZ" message for an unknown mode
    | Exit(code: int)            // process termination
    | AllocWork(length: int)     // allocation of the real scratch buffer
    | AllocIWork(length: int)    // allocation of the integer scratch buffer
    | CallSolver(jobz: char, n: int, lwork: int, liwork: int)
    | Report(info: int)          // the "DSTEDC ERROR OCCURED" diagnostic
    | FreeIWork
    | FreeWork

  /** The arguments DSTEDC receives: the mode, the order, the contents of D, E
      and Z, the leading dimension of Z and the two scratch lengths. */
  datatype SolverCall = SolverCall(jobz: char, n: int, d: seq<real>, e: seq<real>, z: seq<real>,
                                   ldz: int, lwork: int, liwork: int)

  /** What DSTEDC leaves behind: the new contents of D, E and Z and INFO. */
  datatype SolverOutcome = SolverOutcome(d: seq<real>, e: seq<real>, z: seq<real>, info: int)

  /** DSTEDC overwrites D, E and Z in place, so it returns contents of the
      lengths it was given. */
  ghost predicate KeepsShapes(solver: SolverCall -> SolverOutcome)
  {
    forall c: SolverCall ::
      |solver(c).d| == |c.d| && |solver(c).e| == |c.e| && |solver(c).z| == |c.z|
  }

  /** The orders the dispatcher can be called with: ValidOrder for the mode
      the character names, and N >= 0 for a character that names none. */
  predicate CallableOrder(jobz: char, n: int)
  {
    n >= 0 && (jobz == 'V' ==> n >= 1)
  }

  /** The events of one call, given the mode character, the order and the INFO
      the solver returns. */
  function Trace(jobz: char, n: int, info: int): (t: seq<Event>)
    requires CallableOrder(jobz, n)
  {
    match ParseJobz(jobz)
    case None => [ErrorMessage(jobz), Exit(-1)]
    case Some(j) =>
      var w := Workspace(j, n);
      [AllocWork(w.lwork), AllocIWork(w.liwork), CallSolver(jobz, n, w.lwork, w.liwork)]
      + (if info != 0 then [Report(info)] else [])
      + [FreeIWork, FreeWork]
  }

  /** The state of the two scratch buffers: the length of each one held, if
      any, and whether the process has exited. */
  datatype Buffers = Buffers(work: Option<int>, iwork: Option<int>, exited: bool)

  const Idle := Buffers(None, None, false)

  /** The rules a trace must keep: nothing happens after exit; a buffer is
      allocated only when not held, with a length that can be allocated, and
      freed only when held; the solver is called only while both buffers are
      held, and is told their true lengths.  None means the event breaks a
      rule. */
  function Step(s: Buffers, e: Event): (r: Option<Buffers>)
  {
    if s.exited then None
    else match e
      case ErrorMessage(_) => Some(s)
      case Report(_) => Some(s)
      case Exit(_) => Some(s.(exited := true))
      case AllocWork(len) => if s.work.None? && len >= 0 then Some(s.(work := Some(len))) else None
      case AllocIWork(len) => if s.iwork.None? && len >= 0 then Some(s.(iwork := Some(len))) else None
      case CallSolver(_, _, lwork, liwork) =>
        if s.work == Some(lwork) && s.iwork == Some(liwork) then Some(s) else None
      case FreeWork => if s.work.Some? then Some(s.(work := None)) else None
      case FreeIWork => if s.iwork.Some? then Some(s.(iwork := None)) else None
  }

  /** Replays a trace from state s; None if some event breaks a rule. */
  function Run(t: seq<Event>, s: Buffers): Option<Buffers>
  {
    if t == [] then Some(s)
    else match Step(s, t[0])
      case None => None
      case Some(s') => Run(t[1..], s')
  }

  /** Replaying a concatenation replays the first part, then the second. */
  lemma {:induction false} RunAppend(a: seq<Event>, b: seq<Event>, s: Buffers)
    ensures Run(a + b, s) == match Run(a, s) case None => None case Some(s') => Run(b, s')
  {
    if a != [] {
      assert (a + b)[0] == a[0];
      assert (a + b)[1..] == a[1..] + b;
      match Step(s, a[0])
      case None =>
      case Some(s') => RunAppend(a[1..], b, s');
    } else {
      assert a + b == b;
    }
  }

  /** Every call keeps the buffer rules and ends holding no buffer: on an
      accepted mode both buffers are released after the solver call, on a
      rejected one none was ever taken and the process has exited. */
  lemma TraceKeepsBufferRules(jobz: char, n: int, info: int)
    requires CallableOrder(jobz, n)
    ensures Run(Trace(jobz, n, info), Idle) == Some(Buffers(None, None, ParseJobz(jobz).None?))
  {
    match ParseJobz(jobz)
    case None =>
      assert Run([Exit(-1)], Idle) == Some(Buffers(None, None, true));
    case Some(j) =>
      var w := Workspace(j, n);
      var held := Buffers(Some(w.lwork), Some(w.liwork), false);
      var start := [AllocWork(w.lwork), AllocIWork(w.liwork), CallSolver(jobz, n, w.lwork, w.liwork)];
      var report: seq<Event> := if info != 0 then [Report(info)] else [];
      var finish := [FreeIWork, FreeWork];
      var workHeld := Buffers(Some(w.lwork), None, false);
      assert Run(start, Idle) == Some(held) by {
        assert Run(start[1..][1..], held) == Some(held) by {
          assert start[1..][1..][1..] == [];
        }
        assert Run(start[1..], workHeld) == Some(held);
      }
      assert Run(report, held) == Some(held) by {
        if info != 0 {
          assert report[1..] == [];
        }
      }
      assert Run(finish, held) == Some(Idle) by {
        assert Run(finish[1..], Buffers(Some(w.lwork), None, false)) == Some(Idle) by {
          assert finish[1..][1..] == [];
        }
      }
      RunAppend(start, report, Idle);
      RunAppend(start + report, finish, Idle);
  }

  /** A rejected mode allocates nothing, never reaches the solver, and ends the
      process with status -1 after its message. */
  lemma RejectedModeTouchesNothing(jobz: char, n: int, info: int)
    requires CallableOrder(jobz, n)
    requires !(jobz == 'V' || jobz == 'I' || jobz == 'N')
    ensures var t := Trace(jobz, n, info);
      (forall k :: 0 <= k < |t| ==> !t[k].AllocWork? && !t[k].AllocIWork? && !t[k].CallSolver?)
      && t == [ErrorMessage(jobz), Exit(-1)]
  {
  }

  /** On an accepted mode the solver is called exactly once, with the planned
      lengths; the diagnostic appears exactly when INFO is nonzero, carries
      INFO, and the process never exits. */
  lemma AcceptedModeReportsInfo(jobz: char, n: int, info: int)
    requires CallableOrder(jobz, n)
    requires jobz == 'V' || jobz == 'I' || jobz == 'N'
    ensures var t := Trace(jobz, n, info);
      var w := Workspace(ParseJobz(jobz).value, n);
      (forall k :: 0 <= k < |t| ==> !t[k].Exit? && !t[k].ErrorMessage?)
      && (forall k :: 0 <= k < |t| && t[k].CallSolver? ==> t[k] == CallSolver(jobz, n, w.lwork, w.liwork))
      && (exists k :: 0 <= k < |t| && t[k].CallSolver?)
      && (forall k1, k2 :: 0 <= k1 < |t| && 0 <= k2 < |t| && t[k1].CallSolver? && t[k2].CallSolver? ==> k1 == k2)
      && ((exists k :: 0 <= k < |t| && t[k].Report?) <==> info != 0)
      && (forall k :: 0 <= k < |t| && t[k].Report? ==> t[k].info == info)
  {
    var t := Trace(jobz, n, info);
    assert t[2].CallSolver?;
    if info != 0 {
      assert t[3].Report?;
    }
  }

  /** DSTEDC, the foreign solver: it overwrites D, E and Z with what the
      solver returns for these arguments and passes back its INFO.  D, E and Z
      are distinct arrays, as Fortran requires of arguments it writes. */
  method Dstedc(solver: SolverCall -> SolverOutcome, jobz: char, n: int,
                d: array<real>, e: array<real>, z: array<real>, ldz: int,
                work: array<real>, iwork: array<int>) returns (info: int)
    requires d != e && d != z && e != z
    requires KeepsShapes(solver)
    modifies d, e, z
    ensures var out := solver(SolverCall(jobz, n, old(d[..]), old(e[..]), old(z[..]), ldz,
                                         work.Length, iwork.Length));
      d[..] == out.d && e[..] == out.e && z[..] == out.z && info == out.info
  {
    var out := solver(SolverCall(jobz, n, d[..], e[..], z[..], ldz, work.Length, iwork.Length));
    forall k | 0 <= k < d.Length {
      d[k] := out.d[k];
    }
    forall k | 0 <= k < e.Length {
      e[k] := out.e[k];
    }
    forall k | 0 <= k < z.Length {
      z[k] := out.z[k];
    }
    info := out.info;
  }

  /** magma_dstedc_withZ.  On a rejected mode character the call prints its
      message and exits before any allocation, leaving D, E and Z as they
      were.  Otherwise it allocates the planned buffers, calls the solver with
      exactly their lengths, so that D, E and Z become what the solver
      returns, reports a nonzero INFO, and frees both buffers; it returns no
      status. */
  method StedcWithZ(jobz: char, n: int, d: array<real>, e: array<real>, z: array<real>, ldz: int,
                    solver: SolverCall -> SolverOutcome) returns (trace: seq<Event>)
    requires CallableOrder(jobz, n)
    requires d != e && d != z && e != z
    requires KeepsShapes(solver)
    modifies d, e, z
    ensures ParseJobz(jobz).None? ==> unchanged(d, e, z) && trace == Trace(jobz, n, 0)
    ensures ParseJobz(jobz).Some? ==>
      var w := Workspace(ParseJobz(jobz).value, n);
      var out := solver(SolverCall(jobz, n, old(d[..]), old(e[..]), old(z[..]), ldz, w.lwork, w.liwork));
      d[..] == out.d && e[..] == out.e && z[..] == out.z && trace == Trace(jobz, n, out.info)
  {
    var mode := ParseJobz(jobz);
    if mode.None? {
      trace := [ErrorMessage(jobz), Exit(-1)];
      return;
    }
    var w := Workspace(mode.value, n);

    var work := new real[w.lwork];
    trace := [AllocWork(work.Length)];
    var iwork := new int[w.liwork];
    trace := trace + [AllocIWork(iwork.Length)];

    var info := Dstedc(solver, jobz, n, d, e, z, ldz, work, iwork);
    trace := trace + [CallSolver(jobz, n, work.Length, iwork.Length)];

    if info != 0 {
      trace := trace + [Report(info)];
    }

    trace := trace + [FreeIWork, FreeWork];
  }
}
