/**
  The state store manager: state documents and lock records kept in a
  storage tree, the timestamp lock protocol, and the state operations
  (set, get, delete, list, clear) built from single-file primitives.
*/
module Manager {
  import opened Wrappers
  import opened Layout
  import Decimal
  import Glob
  import Config

  /** The contents of one state id's directory: file name to file text. */
  type Dir = map<string, string>

  /** The storage under the base location: a directory per state id. */
  type Tree = map<string, Dir>

  /** A state entry: its id and its serialised document, read and written verbatim. */
  datatype State = State(stateId: string, document: string)

  datatype StoreError =
    | UnreadableLock(stateId: string, text: string)   // the lock record does not hold a timestamp
    | Raised(reason: string)                           // the protected section failed

  /** What the protected section under a lock did: the tree it left and the failure it raised, if any. */
  datatype BodyRun = BodyRun(tree: Tree, raised: Option<string>)

  predicate HasFile(t: Tree, stateId: string, name: string)
  {
    stateId in t && name in t[stateId]
  }

  /** The timestamp in the lock record of `stateId`, if there is a readable one. */
  function LockStamp(t: Tree, stateId: string): Option<nat>
  {
    if HasFile(t, stateId, LockFileName) then Decimal.Parse(t[stateId][LockFileName]) else None
  }

  predicate LockUnreadable(t: Tree, stateId: string)
  {
    HasFile(t, stateId, LockFileName) && LockStamp(t, stateId).None?
  }

  /** A lock written at `stamp` is valid up to and including `stamp + timeout`, and stale after. */
  predicate Expired(stamp: nat, now: int, timeout: int)
  {
    now > stamp + timeout
  }

  /** The tree with the directory of `stateId` created if it was missing. */
  function WithDir(t: Tree, stateId: string): (r: Tree)
    ensures stateId in r && r - {stateId} == t - {stateId}
    ensures stateId in t ==> r == t
    ensures stateId !in t ==> r[stateId] == map[]
  {
    if stateId in t then t else t[stateId := map[]]
  }

  /** The tree with the file `name` of `stateId` (over)written with `text`. */
  function WithFile(t: Tree, stateId: string, name: string, text: string): (r: Tree)
    requires stateId in t
    ensures stateId in r && r - {stateId} == t - {stateId}
    ensures r[stateId] == t[stateId][name := text]
  {
    t[stateId := t[stateId][name := text]]
  }

  /** The tree with the lock record of `stateId` removed; a missing record or directory is no error. */
  function WithoutLock(t: Tree, stateId: string): (r: Tree)
    ensures !HasFile(r, stateId, LockFileName)
    ensures r.Keys == t.Keys && r - {stateId} == t - {stateId}
    ensures stateId in t ==> r[stateId] == t[stateId] - {LockFileName}
  {
    if stateId in t then t[stateId := t[stateId] - {LockFileName}] else t
  }

  /** The number of polls that find a lock valid until `deadline` still held, polling every `retry` seconds from `now`. */
  function Waits(now: int, deadline: int, retry: int): nat
    requires retry > 0
    decreases deadline - now
  {
    if now > deadline then 0 else 1 + Waits(now + retry, deadline, retry)
  }

  /** The polls that find the lock of `stateId` in `t` held, the first at `now`. */
  function LockWaits(t: Tree, stateId: string, now: int, retry: int, timeout: int): nat
    requires retry > 0
  {
    match LockStamp(t, stateId)
    case Some(stamp) => Waits(now, stamp + timeout, retry)
    case None => 0
  }

  /** How long, in seconds, the lock of `stateId` stays valid after `now`. */
  function Remaining(t: Tree, stateId: string, now: int, timeout: int): nat
  {
    match LockStamp(t, stateId)
    case Some(stamp) => if Expired(stamp, now, timeout) then 0 else stamp + timeout - now + 1
    case None => 0
  }

  /**
    The sleeps acquisition takes when started at `now`: one per poll answered
    by another holder, then one per poll that finds the stored lock valid.
  */
  function Rounds(t: Tree, stateId: string, now: int, retry: int, timeout: int, heldElsewhere: nat): nat
    requires retry > 0
  {
    heldElsewhere + LockWaits(t, stateId, now + heldElsewhere * retry, retry, timeout)
  }

  lemma LockWaitsStep(t: Tree, stateId: string, now: int, retry: int, timeout: int)
    requires retry > 0
    requires LockStamp(t, stateId).Some? && !Expired(LockStamp(t, stateId).value, now, timeout)
    ensures LockWaits(t, stateId, now, retry, timeout) == 1 + LockWaits(t, stateId, now + retry, retry, timeout)
  {
  }

  lemma LockWaitsAtPoll(t: Tree, stateId: string, now: int, retry: int, timeout: int)
    requires retry > 0
    ensures LockStamp(t, stateId).None? || Expired(LockStamp(t, stateId).value, now, timeout) ==>
      LockWaits(t, stateId, now, retry, timeout) == 0
  {
  }

  /** The state ids listed under pattern `pattern` whose directory holds a state document. */
  function StateIds(t: Tree, pattern: Option<string>): set<string>
  {
    set stateId | stateId in t && StateFileName in t[stateId] && Listed(pattern, stateId)
  }

  /** No pattern, or an empty one, lists every child; otherwise the glob selects. */
  predicate Listed(pattern: Option<string>, name: string)
  {
    pattern.None? || pattern.value == "" || Glob.Matches(pattern.value, name)
  }

  function Elements(s: seq<string>): set<string>
  {
    set x | x in s
  }

  predicate Distinct(s: seq<string>)
  {
    forall i, j :: 0 <= i < j < |s| ==> s[i] != s[j]
  }

  /** A lock record's text stays what was written: the timestamp it holds is the writer's clock. */
  lemma WrittenLockStamp(t: Tree, stateId: string, stamp: nat)
    requires stateId in t
    ensures LockStamp(WithFile(t, stateId, LockFileName, Decimal.Show(stamp)), stateId) == Some(stamp)
  {
    Decimal.ParseShow(stamp);
  }

  /** The polls that find the lock held are exactly those up to its deadline, after which the waiter proceeds. */
  lemma {:induction false} WaitsBounds(now: int, deadline: int, retry: int)
    requires retry > 0
    ensures now + Waits(now, deadline, retry) * retry > deadline
    ensures Waits(now, deadline, retry) > 0 ==> now + (Waits(now, deadline, retry) - 1) * retry <= deadline
    decreases deadline - now
  {
    if now <= deadline {
      WaitsBounds(now + retry, deadline, retry);
      var w := Waits(now + retry, deadline, retry);
      assert now + (w + 1) * retry == now + retry + w * retry;
      if w > 0 {
        assert now + w * retry == now + retry + (w - 1) * retry;
      }
    }
  }

  /** A distinct listing has as many entries as the set of ids it lists. */
  lemma {:induction false} DistinctCardinality(s: seq<string>)
    requires Distinct(s)
    ensures |Elements(s)| == |s|
    decreases |s|
  {
    if s != [] {
      var rest := s[1..];
      DistinctCardinality(rest);
      assert Elements(s) == Elements(rest) + {s[0]};
      assert s[0] !in rest;
    }
  }

  class StateStoreManager {
    const fsUri: string
    const lockTimeoutSeconds: int
    const lockRetrySeconds: int
    const storageOptions: map<string, Config.OptionValue>

    /** The resolved base location, computed on first use and then kept. */
    var cachedPath: Option<string>

    /** Whether the base location exists, and what lies under it. */
    var baseExists: bool
    var tree: Tree

    /** The clock, in epoch seconds, and the durations slept so far. */
    var now: nat
    var sleeps: seq<int>

    ghost predicate Valid()
      reads this
    {
      && (baseExists || tree == map[])
      && (cachedPath.None? || cachedPath == Some(fsUri))
    }

    /** A manager over resolved settings and the storage as it stands at time `now`. */
    constructor (settings: Config.Settings, baseExists: bool, tree: Tree, now: nat)
      requires baseExists || tree == map[]
      ensures Valid()
      ensures fsUri == settings.fsUri && lockTimeoutSeconds == settings.lockTimeoutSeconds
      ensures lockRetrySeconds == settings.lockRetrySeconds && storageOptions == settings.storageOptions
      ensures cachedPath == None && this.baseExists == baseExists && this.tree == tree
      ensures this.now == now && sleeps == []
    {
      fsUri := settings.fsUri;
      lockTimeoutSeconds := settings.lockTimeoutSeconds;
      lockRetrySeconds := settings.lockRetrySeconds;
      storageOptions := settings.storageOptions;
      cachedPath := None;
      this.baseExists := baseExists;
      this.tree := tree;
      this.now := now;
      sleeps := [];
    }

    /** The base location, resolved once and cached for the manager's lifetime. */
    method Path() returns (p: string)
      requires Valid()
      modifies this`cachedPath
      ensures Valid()
      ensures p == fsUri && cachedPath == Some(fsUri)
    {
      if cachedPath.None? {
        cachedPath := Some(fsUri);
      }
      p := cachedPath.value;
    }

    /** Suspends for `seconds`: the clock advances and the wait is logged. */
    method Sleep(seconds: int)
      requires seconds >= 0
      modifies this`now, this`sleeps
      ensures now == old(now) + seconds && sleeps == old(sleeps) + [seconds]
    {
      now := now + seconds;
      sleeps := sleeps + [seconds];
    }

    /**
      Whether `stateId` is locked. A missing lock record means unlocked; a
      stale one is removed and reported unlocked; a record whose text is not a
      timestamp is an error that propagates.
    */
    method IsLocked(stateId: string) returns (r: Result<bool, StoreError>)
      requires Valid()
      modifies this`tree
      ensures Valid()
      ensures !HasFile(old(tree), stateId, LockFileName) ==> r == Ok(false) && tree == old(tree)
      ensures LockUnreadable(old(tree), stateId) ==>
        r == Err(UnreadableLock(stateId, old(tree)[stateId][LockFileName])) && tree == old(tree)
      ensures LockStamp(old(tree), stateId).Some? && Expired(LockStamp(old(tree), stateId).value, now, lockTimeoutSeconds) ==>
        r == Ok(false) && tree == WithoutLock(old(tree), stateId)
      ensures LockStamp(old(tree), stateId).Some? && !Expired(LockStamp(old(tree), stateId).value, now, lockTimeoutSeconds) ==>
        r == Ok(true) && tree == old(tree)
    {
      if !(stateId in tree && LockFileName in tree[stateId]) {
        return Ok(false);
      }
      var text := tree[stateId][LockFileName];
      var stamp := Decimal.Parse(text);
      if stamp.None? {
        return Err(UnreadableLock(stateId, text));
      }
      if now > stamp.value + lockTimeoutSeconds {
        tree := tree[stateId := tree[stateId] - {LockFileName}];
        return Ok(false);
      }
      r := Ok(true);
    }

    /** Creates the directory of `stateId`, and the base location with it; existing ones are kept. */
    method Mkdir(stateId: string)
      requires Valid()
      modifies this`tree, this`baseExists
      ensures Valid() && baseExists
      ensures tree == WithDir(old(tree), stateId)
    {
      baseExists := true;
      if stateId !in tree {
        tree := tree[stateId := map[]];
      }
    }

    /** Stores `s`, creating its directory and overwriting any earlier document; nothing else changes. */
    method Set(s: State)
      requires Valid()
      modifies this`tree, this`baseExists
      ensures Valid() && baseExists
      ensures tree == WithFile(WithDir(old(tree), s.stateId), s.stateId, StateFileName, s.document)
    {
      Mkdir(s.stateId);
      tree := tree[s.stateId := tree[s.stateId][StateFileName := s.document]];
    }

    /** The state stored for `stateId`, or None when it has no state document. */
    method Get(stateId: string) returns (r: Option<State>)
      ensures r.Some? <==> HasFile(tree, stateId, StateFileName)
      ensures r.Some? ==> r.value.stateId == stateId && r.value.document == tree[stateId][StateFileName]
    {
      if stateId in tree && StateFileName in tree[stateId] {
        r := Some(State(stateId, tree[stateId][StateFileName]));
      } else {
        r := None;
      }
    }

    /**
      Removes the directory of `stateId` with every file in it, one file at a
      time; a missing directory is no error, and other directories are untouched.
    */
    method Delete(stateId: string)
      requires Valid()
      modifies this`tree
      ensures Valid()
      ensures tree == old(tree) - {stateId}
    {
      if stateId !in tree {
        return;
      }
      var remaining := tree[stateId].Keys;
      while remaining != {}
        invariant remaining <= old(tree)[stateId].Keys
        invariant stateId in tree && tree - {stateId} == old(tree) - {stateId}
        invariant tree[stateId] == old(tree)[stateId] - (old(tree)[stateId].Keys - remaining)
        decreases remaining
      {
        var name :| name in remaining;
        tree := tree[stateId := tree[stateId] - {name}];
        remaining := remaining - {name};
      }
      tree := tree - {stateId};
    }

    /**
      The state ids present under the base location (or those whose name the
      glob `pattern` matches), each listed once; a directory without a state
      document is not listed, and a missing base location lists nothing.
    */
    method GetStateIds(pattern: Option<string>) returns (ids: seq<string>)
      requires Valid()
      ensures !baseExists ==> ids == []
      ensures forall x :: x in ids <==> x in StateIds(tree, pattern)
      ensures Distinct(ids) && |ids| == |StateIds(tree, pattern)|
    {
      ids := [];
      if !baseExists {
        return;
      }
      var children := tree.Keys;
      while children != {}
        invariant children <= tree.Keys
        invariant forall x :: x in ids <==> x in StateIds(tree, pattern) && x !in children
        invariant Distinct(ids)
        decreases children
      {
        var child :| child in children;
        children := children - {child};
        if StateFileName in tree[child] && Listed(pattern, child) {
          ids := ids + [child];
        }
      }
      DistinctCardinality(ids);
      assert Elements(ids) == StateIds(tree, pattern);
    }

    /**
      Deletes every listed state id and counts them; directories without a
      state document are left, so nothing is listed afterwards.
    */
    method ClearAll() returns (count: nat)
      requires Valid()
      modifies this`tree
      ensures Valid()
      ensures count == |StateIds(old(tree), None)|
      ensures tree == old(tree) - StateIds(old(tree), None)
      ensures StateIds(tree, None) == {}
    {
      var ids := GetStateIds(None);
      assert Elements(ids) == StateIds(tree, None);
      count := 0;
      for i := 0 to |ids|
        invariant Valid()
        invariant count == i
        invariant tree == old(tree) - Elements(ids[..i])
      {
        assert Elements(ids[..i + 1]) == Elements(ids[..i]) + {ids[i]};
        Delete(ids[i]);
        count := count + 1;
      }
      assert ids[..|ids|] == ids;
    }

    /** One poll of the acquisition loop: the first `heldElsewhere` polls find a lock held by another process. */
    method Poll(stateId: string, polls: nat, heldElsewhere: nat) returns (r: Result<bool, StoreError>)
      requires Valid()
      modifies this`tree
      ensures Valid()
      ensures polls < heldElsewhere ==> r == Ok(true) && tree == old(tree)
      ensures polls >= heldElsewhere && !HasFile(old(tree), stateId, LockFileName) ==> r == Ok(false) && tree == old(tree)
      ensures polls >= heldElsewhere && LockUnreadable(old(tree), stateId) ==>
        r == Err(UnreadableLock(stateId, old(tree)[stateId][LockFileName])) && tree == old(tree)
      ensures polls >= heldElsewhere && LockStamp(old(tree), stateId).Some? ==>
        if Expired(LockStamp(old(tree), stateId).value, now, lockTimeoutSeconds)
        then r == Ok(false) && tree == WithoutLock(old(tree), stateId)
        else r == Ok(true) && tree == old(tree)
    {
      if polls < heldElsewhere {
        return Ok(true);
      }
      r := IsLocked(stateId);
    }

    /**
      The poll loop of acquisition: polls every `retrySeconds` while the lock
      of `stateId` is held (the first `heldElsewhere` polls see another
      holder), and stops at the first poll that finds it free or unreadable.
    */
    method AwaitUnlocked(stateId: string, retrySeconds: int, heldElsewhere: nat) returns (locked: Result<bool, StoreError>)
      requires Valid() && stateId in tree
      requires retrySeconds > 0
      modifies this`tree, this`now, this`sleeps
      ensures Valid() && stateId in tree
      ensures !(locked.Ok? && locked.value)
      ensures now == old(now) + Rounds(old(tree), stateId, old(now), retrySeconds, lockTimeoutSeconds, heldElsewhere) * retrySeconds
      ensures sleeps == old(sleeps) + seq(Rounds(old(tree), stateId, old(now), retrySeconds, lockTimeoutSeconds, heldElsewhere), _ => retrySeconds)
      ensures locked.Err? <==> LockUnreadable(old(tree), stateId)
      ensures locked.Err? ==> locked.error == UnreadableLock(stateId, old(tree)[stateId][LockFileName]) && tree == old(tree)
      ensures locked.Ok? ==> tree == WithoutLock(old(tree), stateId)
    {
      ghost var t0 := tree;
      ghost var expected := LockWaits(t0, stateId, old(now) + heldElsewhere * retrySeconds, retrySeconds, lockTimeoutSeconds);
      var polls: nat := 0;
      locked := Poll(stateId, polls, heldElsewhere);
      LockWaitsAtPoll(t0, stateId, now, retrySeconds, lockTimeoutSeconds);
      if !HasFile(t0, stateId, LockFileName) {
        assert t0[stateId] - {LockFileName} == t0[stateId];
      }
      while locked.Ok? && locked.value
        invariant Valid() && stateId in tree
        invariant now == old(now) + polls * retrySeconds
        invariant sleeps == old(sleeps) + seq(polls, _ => retrySeconds)
        invariant (locked.Ok? && locked.value) ==> tree == t0
        invariant !(locked.Ok? && locked.value) ==> polls >= heldElsewhere
        invariant locked.Err? ==> LockUnreadable(t0, stateId) && tree == t0
        invariant locked.Err? ==> locked.error == UnreadableLock(stateId, t0[stateId][LockFileName])
        invariant (locked.Ok? && !locked.value) ==> !LockUnreadable(t0, stateId)
        invariant (locked.Ok? && !locked.value) ==> tree == WithoutLock(t0, stateId)
        invariant polls >= heldElsewhere ==>
          polls - heldElsewhere + LockWaits(t0, stateId, now, retrySeconds, lockTimeoutSeconds) == expected
        invariant polls >= heldElsewhere && (locked.Ok? && locked.value) ==>
          LockStamp(t0, stateId).Some? && !Expired(LockStamp(t0, stateId).value, now, lockTimeoutSeconds)
        invariant polls >= heldElsewhere && !(locked.Ok? && locked.value) ==>
          LockWaits(t0, stateId, now, retrySeconds, lockTimeoutSeconds) == 0
        decreases (if polls < heldElsewhere then heldElsewhere - polls else 0),
          Remaining(t0, stateId, now, lockTimeoutSeconds)
      {
        ghost var before := now;
        if polls >= heldElsewhere {
          LockWaitsStep(t0, stateId, before, retrySeconds, lockTimeoutSeconds);
        }
        Sleep(retrySeconds);
        assert (polls + 1) * retrySeconds == polls * retrySeconds + retrySeconds;
        assert seq(polls + 1, _ => retrySeconds) == seq(polls, _ => retrySeconds) + [retrySeconds];
        polls := polls + 1;
        locked := Poll(stateId, polls, heldElsewhere);
        LockWaitsAtPoll(t0, stateId, now, retrySeconds, lockTimeoutSeconds);
        if !HasFile(t0, stateId, LockFileName) {
          assert t0[stateId] - {LockFileName} == t0[stateId];
        }
      }
      assert polls == heldElsewhere + expected;
    }

    /**
      Acquires the lock of `stateId`: creates its directory, waits until the
      lock is free and writes the current time as the lock record. A lock
      record that is not a timestamp ends the attempt with its error.
    */
    method Acquire(stateId: string, retrySeconds: int, heldElsewhere: nat) returns (r: Outcome<StoreError>)
      requires Valid()
      requires retrySeconds > 0
      modifies this`tree, this`baseExists, this`now, this`sleeps
      ensures Valid() && baseExists
      ensures now == old(now) + Rounds(WithDir(old(tree), stateId), stateId, old(now), retrySeconds, lockTimeoutSeconds, heldElsewhere) * retrySeconds
      ensures sleeps == old(sleeps) + seq(Rounds(WithDir(old(tree), stateId), stateId, old(now), retrySeconds, lockTimeoutSeconds, heldElsewhere), _ => retrySeconds)
      ensures r.Fail? <==> LockUnreadable(WithDir(old(tree), stateId), stateId)
      ensures r.Fail? ==> r.error == UnreadableLock(stateId, WithDir(old(tree), stateId)[stateId][LockFileName])
      ensures r.Fail? ==> tree == WithDir(old(tree), stateId)
      ensures r.Pass? ==> tree == WithFile(WithDir(old(tree), stateId), stateId, LockFileName, Decimal.Show(now))
    {
      Mkdir(stateId);
      ghost var t0 := tree;
      var locked := AwaitUnlocked(stateId, retrySeconds, heldElsewhere);
      if locked.Err? {
        return Fail(locked.error);
      }
      assert (t0[stateId] - {LockFileName})[LockFileName := Decimal.Show(now)] == t0[stateId][LockFileName := Decimal.Show(now)];
      tree := tree[stateId := tree[stateId][LockFileName := Decimal.Show(now)]];
      r := Pass;
    }

    /** Removes the lock record of `stateId`; one that is already gone is no error. */
    method Release(stateId: string)
      requires Valid()
      modifies this`tree
      ensures Valid()
      ensures tree == WithoutLock(old(tree), stateId)
    {
      if stateId in tree && LockFileName in tree[stateId] {
        tree := tree[stateId := tree[stateId] - {LockFileName}];
      } else if stateId in tree {
        assert tree[stateId] - {LockFileName} == tree[stateId];
      }
    }

    /**
      Runs `body` holding the lock of `stateId`, and releases the lock when
      the body returns or raises, or when acquisition fails; the body's
      failure, or the acquisition's, is returned unchanged.
    */
    method WithLock(stateId: string, retrySeconds: int, heldElsewhere: nat, body: Tree -> BodyRun)
      returns (r: Outcome<StoreError>)
      requires Valid()
      requires retrySeconds > 0
      modifies this`tree, this`baseExists, this`now, this`sleeps
      ensures Valid() && baseExists
      ensures !HasFile(tree, stateId, LockFileName)
      ensures now == old(now) + Rounds(WithDir(old(tree), stateId), stateId, old(now), retrySeconds, lockTimeoutSeconds, heldElsewhere) * retrySeconds
      ensures sleeps == old(sleeps) + seq(Rounds(WithDir(old(tree), stateId), stateId, old(now), retrySeconds, lockTimeoutSeconds, heldElsewhere), _ => retrySeconds)
      ensures LockUnreadable(WithDir(old(tree), stateId), stateId) ==>
        && r == Fail(UnreadableLock(stateId, WithDir(old(tree), stateId)[stateId][LockFileName]))
        && tree == WithoutLock(WithDir(old(tree), stateId), stateId)
      ensures !LockUnreadable(WithDir(old(tree), stateId), stateId) ==>
        var run := body(WithFile(WithDir(old(tree), stateId), stateId, LockFileName, Decimal.Show(now)));
        && tree == WithoutLock(run.tree, stateId)
        && r == if run.raised.Some? then Fail(Raised(run.raised.value)) else Pass
    {
      r := Acquire(stateId, retrySeconds, heldElsewhere);
      if r.Pass? {
        var run := body(tree);
        tree := run.tree;
        if run.raised.Some? {
          r := Fail(Raised(run.raised.value));
        }
      }
      Release(stateId);
    }
  }
}
