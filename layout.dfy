/**
  The persisted layout under a base location: one directory per state id,
  holding the state document `state.json` and, while a lock is held or
  abandoned, the lock record `lock`.
*/
module Layout {

  const StateFileName: string := "state.json"
  const LockFileName: string := "lock"

  /** `base / stateId`. */
  function StateDir(base: string, stateId: string): string
  {
    base + "/" + stateId
  }

  /** `base / stateId / state.json`. */
  function StateFile(base: string, stateId: string): (p: string)
    ensures StateDir(base, stateId) + "/" <= p
  {
    StateDir(base, stateId) + "/" + StateFileName
  }

  /** `base / stateId / lock`. */
  function LockFile(base: string, stateId: string): (p: string)
    ensures StateDir(base, stateId) + "/" <= p
  {
    StateDir(base, stateId) + "/" + LockFileName
  }

  /** Distinct state ids have distinct state documents and distinct lock records. */
  lemma PathsInjective(base: string, a: string, b: string)
    ensures StateFile(base, a) == StateFile(base, b) ==> a == b
    ensures LockFile(base, a) == LockFile(base, b) ==> a == b
  {
    if StateFile(base, a) == StateFile(base, b) {
      assert a == StateFile(base, a)[|base| + 1..|base| + 1 + |a|];
    }
    if LockFile(base, a) == LockFile(base, b) {
      assert a == LockFile(base, a)[|base| + 1..|base| + 1 + |a|];
    }
  }

  /** No lock record is ever the state document of any state id. */
  lemma LockIsNeverState(base: string, a: string, b: string)
    ensures LockFile(base, a) != StateFile(base, b)
  {
    var l, s := LockFile(base, a), StateFile(base, b);
    assert l[|l| - 5] == '/';
    assert s[|s| - 5] == '.';
  }
}
