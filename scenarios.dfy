/**
  Client programs that replay the repository's test scenarios against the
  model, relying only on the contracts of the configuration step and of the
  manager's operations.
*/
module Scenarios {
  import opened Wrappers
  import opened Layout
  import opened Config
  import opened Manager
  import Glob

  const FileSettings: Settings := Settings("file:///tmp/state", 60, 1, map[])

  /** Setting a state and getting it back; getting an id never set finds nothing. */
  method SetThenGet()
  {
    var m := new StateStoreManager(FileSettings, false, map[], 1735689600);
    var s := State("test_job", "{\"singer_state\": {\"complete\": 1}}");
    var before := m.Get(s.stateId);
    assert before == None;
    m.Set(s);
    var after := m.Get(s.stateId);
    assert after == Some(s);
  }

  /** On any manager and for any state, getting the id just set returns that state. */
  method SetThenGetAny(m: StateStoreManager, s: State)
    requires m.Valid()
    modifies m
  {
    m.Set(s);
    var got := m.Get(s.stateId);
    assert got == Some(s);
  }

  /** Deleting an absent id, then a stored one twice: never an error, and nothing is left behind. */
  method DeleteIsIdempotent()
  {
    var m := new StateStoreManager(FileSettings, false, map[], 1735689600);
    var s := State("test_job", "{}");
    m.Delete(s.stateId);
    m.Set(s);
    m.Delete(s.stateId);
    var got := m.Get(s.stateId);
    assert got == None;
    m.Delete(s.stateId);
    var ids := m.GetStateIds(None);
    assert s.stateId !in ids;
  }

  /** Under a trailing-star pattern, exactly the stored ids that start with the prefix are listed. */
  lemma StarListing(t: Tree, prefix: string, x: string)
    requires Glob.Literal(prefix)
    ensures x in StateIds(t, Some(prefix + "*")) <==> HasFile(t, x, StateFileName) && prefix <= x
  {
    Glob.PrefixStar(prefix, x);
  }

  /** The trailing-star patterns select the ids that start with their prefix. */
  method ListWithPattern()
  {
    var m := new StateStoreManager(FileSettings, false, map[], 1735689600);
    m.Set(State("test_job11", "{}"));
    m.Set(State("test_job12", "{}"));
    m.Set(State("test_job21", "{}"));
    ghost var t := m.tree;
    assert HasFile(t, "test_job11", StateFileName) && HasFile(t, "test_job12", StateFileName);
    assert HasFile(t, "test_job21", StateFileName);
    var ones := m.GetStateIds(Some("test_job1" + "*"));
    StarListing(t, "test_job1", "test_job11");
    StarListing(t, "test_job1", "test_job12");
    StarListing(t, "test_job1", "test_job21");
    assert "test_job11" in ones && "test_job12" in ones && "test_job21" !in ones;
  }

  /** The same store listed under the other prefix. */
  method ListWithOtherPattern()
  {
    var m := new StateStoreManager(FileSettings, false, map[], 1735689600);
    m.Set(State("test_job11", "{}"));
    m.Set(State("test_job21", "{}"));
    ghost var t := m.tree;
    assert HasFile(t, "test_job11", StateFileName) && HasFile(t, "test_job21", StateFileName);
    var twos := m.GetStateIds(Some("test_job2" + "*"));
    StarListing(t, "test_job2", "test_job11");
    StarListing(t, "test_job2", "test_job21");
    assert "test_job21" in twos && "test_job11" !in twos;
  }

  /** Clearing two stored ids counts two and lists nothing afterwards; a lock-only directory stays unlisted. */
  method ClearAllCounts()
  {
    var m := new StateStoreManager(FileSettings, false, map[], 1735689600);
    m.Set(State("test_job1", "{}"));
    m.Set(State("test_job2", "{}"));
    m.Mkdir("lock_only");
    assert StateIds(m.tree, None) == {"test_job1", "test_job2"};
    var n := m.ClearAll();
    assert n == 2;
    var ids := m.GetStateIds(None);
    assert ids == [];
    assert "lock_only" in m.tree;
  }

  /**
    A lock just written is held; 80 seconds later, with the default timeout
    of 60 seconds, it is stale and the check removes it; after release it
    stays free.
  */
  method LockExpires()
  {
    var rejectAll := (k: KeyKind, pem: string, passphrase: Option<string>) => false;
    var settings := ResolveSettings("file:///tmp/state", "file", reader := rejectAll);
    assert Filtered([], "file") == Ok(map[]);
    assert settings.Ok? && settings.value.lockTimeoutSeconds == 60;
    var m := new StateStoreManager(settings.value, false, map[], 1735689600);
    var r := m.Acquire("test_job", 5, 0);
    assert r.Pass?;
    assert m.now == 1735689600;
    WrittenLockStamp(WithDir(map[], "test_job"), "test_job", m.now);
    var held := m.IsLocked("test_job");
    assert held == Ok(true);
    m.now := m.now + 80;
    var stale := m.IsLocked("test_job");
    assert stale == Ok(false);
    assert !HasFile(m.tree, "test_job", LockFileName);
    m.Release("test_job");
    var free := m.IsLocked("test_job");
    assert free == Ok(false);
  }

  /** Five polls answered "locked" by another holder cost exactly five sleeps of the retry interval. */
  method RetriesSleepOncePerLockedPoll()
  {
    var m := new StateStoreManager(FileSettings, false, map[], 1735689600);
    var r := m.Acquire("test_job", 10, 5);
    assert r.Pass?;
    assert m.sleeps == [10, 10, 10, 10, 10];
    assert m.now == 1735689600 + 50;
  }

  /** A protected section that raises still has its lock released, and its failure is what is returned. */
  method ReleaseOnFailure()
  {
    var m := new StateStoreManager(FileSettings, false, map[], 1735689600);
    var body := (t: Tree) => BodyRun(t, Some("boom"));
    var r := m.WithLock("test_job", 1, 0, body);
    assert r == Fail(Raised("boom"));
    assert !HasFile(m.tree, "test_job", LockFileName);
  }

  // Option keys are written as prefix, dot and name, the way the filter splits them.
  const AzureOptions: seq<(string, string)> := [("azure" + "." + "account_name", "my-account-name"), ("s3" + "." + "key", "my_key")]
  const SftpOptions: seq<(string, string)> := [("sftp" + "." + "host", "localhost"), ("sftp" + "." + "pkey", "invalid key")]

  /** Two options, the first of the active backend and the second of another: only the first is kept. */
  lemma ForeignOptionDropped(p1: string, n1: string, v1: string, p2: string, n2: string, v2: string, active: string)
    requires '.' !in p1 && '.' !in n1 && '.' !in p2 && '.' !in n2
    requires ResolveProtocol(p1) == active && ResolveProtocol(p2) != active
    ensures Filtered([(p1 + "." + n1, v1), (p2 + "." + n2, v2)], active) == Ok(map[n1 := v1])
  {
    var e := [(p1 + "." + n1, v1), (p2 + "." + n2, v2)];
    NameForKey(p1, n1, active);
    NameForKey(p2, n2, active);
    assert e[..1] == [e[0]];
    assert [e[0]][..0] == [];
    assert Filtered([e[0]], active) == Ok(map[n1 := v1]);
  }

  /** Two options of the active backend: both are kept. */
  lemma BothOptionsKept(p: string, n1: string, v1: string, n2: string, v2: string)
    requires '.' !in p && '.' !in n1 && '.' !in n2
    ensures Filtered([(p + "." + n1, v1), (p + "." + n2, v2)], ResolveProtocol(p)) == Ok(map[n1 := v1][n2 := v2])
  {
    var e := [(p + "." + n1, v1), (p + "." + n2, v2)];
    NameForKey(p, n1, ResolveProtocol(p));
    NameForKey(p, n2, ResolveProtocol(p));
    assert e[..1] == [e[0]];
    assert [e[0]][..0] == [];
    assert Filtered([e[0]], ResolveProtocol(p)) == Ok(map[n1 := v1]);
  }

  /** The Azure alias reaches the URI scheme and the option prefixes; other backends' options are dropped. */
  method AzureConfiguration(reader: KeyReader)
  {
    ForeignOptionDropped("azure", "account_name", "my-account-name", "s3", "key", "my_key", "abfs");
    var r := ResolveSettings("fs://path/to/state", "azure", storageOptions := AzureOptions, reader := reader);
    assert r.Ok?;
    assert r.value.storageOptions.Keys == {"account_name"};
    assert r.value.storageOptions["account_name"] == Plain("my-account-name");
    assert r.value.lockTimeoutSeconds == 60 && r.value.lockRetrySeconds == 1;
  }

  /** An SFTP key that no supported format reads fails the whole configuration. */
  method UnsupportedKeyFormat()
  {
    BothOptionsKept("sftp", "host", "localhost", "pkey", "invalid key");
    var rejectAll := (k: KeyKind, pem: string, passphrase: Option<string>) => false;
    var r := ResolveSettings("fs://host/state", "sftp", storageOptions := SftpOptions, reader := rejectAll);
    assert r == Err(InvalidKeyFormat);
  }
}
