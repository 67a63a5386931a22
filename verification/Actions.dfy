/** The actions an agent may propose and the kernel's admission test. */
module Actions {
  import opened Bytes

  const SET_QUANTUM := 1
  const TRIM_CACHE := 4
  const REQUIRES_SNAPSHOT := 1

  datatype Action = Action(kind: nat, flags: nat, param1: nat, param2: nat, param3: nat)

  predicate IsAllowed(kind: nat) {
    kind == SET_QUANTUM || kind == TRIM_CACHE
  }

  /** A quantum is tested, and later written, as the low 32 bits of the parameter. */
  predicate ValidateParams(a: Action) {
    if a.kind == SET_QUANTUM then 100 <= a.param1 % U32_RANGE <= 50_000
    else a.kind == TRIM_CACHE && 0 < a.param1 <= 16 * 1024 * 1024
  }

  predicate Admissible(a: Action) {
    IsAllowed(a.kind) && ValidateParams(a)
  }
}
