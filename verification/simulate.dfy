/**
 Fault injection on a node (`simulate.rs`): a crash flag and the request
 gate that answers 503 while the flag is set, except on the two control
 endpoints that set and clear it.
 */
module Simulate {

  /** `CrashState`: whether the node pretends to be down. */
  datatype CrashState = CrashState(crashed: bool)

  predicate IsCrashed(s: CrashState)
  {
    s.crashed
  }

  /** `CrashState::new`: a node starts up running. */
  function NewCrashState(): (s: CrashState)
    ensures !IsCrashed(s)
  {
    CrashState(false)
  }

  /** `crash`: from any state, the node is crashed afterwards. */
  function Crash(s: CrashState): (r: CrashState)
    ensures IsCrashed(r)
  {
    CrashState(true)
  }

  /** `recover`: from any state, the node runs afterwards. */
  function Recover(s: CrashState): (r: CrashState)
    ensures !IsCrashed(r)
  {
    CrashState(false)
  }

  /** Crash and recover overwrite the flag: the outcome does not depend on the state before. */
  lemma CrashAndRecoverForgetThePast(a: CrashState, b: CrashState)
    ensures Crash(a) == Crash(b) && Recover(a) == Recover(b)
    ensures Crash(Crash(a)) == Crash(a) && Recover(Recover(a)) == Recover(a)
  {
  }

  const SIM_CRASH_PATH: string := "/sim-crash"
  const SIM_RECOVER_PATH: string := "/sim-recover"

  /** What the middleware does with a request. */
  datatype GateDecision = ServiceUnavailable | PassToService(path: string)

  /**
   `CrashSimulatorMiddleware::call`: a 503 exactly when the node is crashed
   and the path is not one of the two control endpoints; otherwise the
   request goes on to the wrapped service with its path unchanged.
   */
  function Gate(s: CrashState, path: string): (d: GateDecision)
    ensures d == ServiceUnavailable <==> IsCrashed(s) && path != SIM_CRASH_PATH && path != SIM_RECOVER_PATH
    ensures d.PassToService? ==> d.path == path
  {
    var isControl := path == SIM_CRASH_PATH || path == SIM_RECOVER_PATH;
    if s.crashed && !isControl then ServiceUnavailable else PassToService(path)
  }

  /**
   The crash/recover cycle seen from outside: a fresh node serves
   everything, a crashed node refuses everything but the control
   endpoints, and a recovered node serves everything again.
   */
  lemma CrashRecoverCycle(path: string)
    ensures Gate(NewCrashState(), path) == PassToService(path)
    ensures path != SIM_CRASH_PATH && path != SIM_RECOVER_PATH ==>
              Gate(Crash(NewCrashState()), path) == ServiceUnavailable
    ensures Gate(Crash(NewCrashState()), SIM_RECOVER_PATH) == PassToService(SIM_RECOVER_PATH)
    ensures Gate(Recover(Crash(NewCrashState())), path) == PassToService(path)
  {
  }
}
