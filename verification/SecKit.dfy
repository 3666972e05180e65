/** The boot protocol that keeps one key alive across restarts through three shard files
    (crypto/src/snapshot_defense.rs, SecKit). */
module SecKit {
  import opened Gf256
  import opened Shamir
  import opened Wrappers

  const KEY_LEN: nat := 32
  const SHARD_LEN: nat := 1 + KEY_LEN

  type Files = map<nat, seq<bv8>>

  /** What statfs says about the state directory. */
  datatype Mount = Tmpfs | OtherDevice | ProbeFailed

  /** Everything a boot takes from its surroundings: the tmpfs policy and probe, the fresh key a first boot
      mints, the random slopes of this boot's split, the index of the first shard write that fails (3 or more: all
      three complete), and how it fails: before touching its file, or after truncating it and writing only some
      bytes of the shard. */
  datatype Env = Env(requireTmpfs: bool, mount: Mount, freshKey: seq<bv8>, coeffs: seq<bv8>, failAt: nat,
                     torn: Option<nat>)

  predicate ValidEnv(env: Env) {
    && |env.freshKey| == |env.coeffs| == KEY_LEN
    && (env.torn.Some? ==> env.torn.value < SHARD_LEN)
  }

  datatype Kit = Kit(key: seq<bv8>, shards: seq<Shard>)

  datatype Booted = Booted(files: Files, kit: SnapResult<Kit>)

  function AsBytes(s: Shard): seq<bv8> { [s.x] + s.y }

  function FromBytes(bytes: seq<bv8>): (r: SnapResult<Shard>)
    ensures r.Ok? <==> |bytes| == SHARD_LEN
    ensures r.Ok? ==> AsBytes(r.value) == bytes && |r.value.y| == KEY_LEN
  {
    if |bytes| != SHARD_LEN then Err(KeyLength(|bytes|)) else Ok(Shard(bytes[0], bytes[1..]))
  }

  function Readable(files: Files, i: nat): Option<Shard> {
    if i in files && FromBytes(files[i]).Ok? then Some(FromBytes(files[i]).value) else None
  }

  /** The first two readable shards, in provider order, starting from provider i. */
  function Scan(files: Files, i: nat, found: seq<Shard>): (all: seq<Shard>)
    requires |found| < 2
    requires forall s <- found :: |s.y| == KEY_LEN
    ensures |all| <= 2
    ensures forall s <- all :: |s.y| == KEY_LEN
    decreases 3 - i
  {
    if i >= 3 then found
    else
      var more := if Readable(files, i).Some? then found + [Readable(files, i).value] else found;
      if |more| >= 2 then more else Scan(files, i + 1, more)
  }

  /** The files after the first `done` writes. */
  function Written(files: Files, shards: seq<Shard>, done: nat): Files
    requires |shards| == 3
  {
    files + map i: nat | i < 3 && i < done :: AsBytes(shards[i])
  }

  /** A file after a failing write of `bytes`. */
  function Torn(files: Files, i: nat, bytes: seq<bv8>, torn: Option<nat>): Files {
    if torn.Some? && torn.value < |bytes| then files[i := bytes[..torn.value]] else files
  }

  /** The files after the three writes, or after the first failing one. */
  function Persisted(files: Files, shards: seq<Shard>, failAt: nat, torn: Option<nat>): Files
    requires |shards| == 3
  {
    if failAt < 3 then Torn(Written(files, shards, failAt), failAt, AsBytes(shards[failAt]), torn)
    else Written(files, shards, 3)
  }

  lemma WrittenNone(files: Files, shards: seq<Shard>)
    requires |shards| == 3
    ensures Written(files, shards, 0) == files
  {
    hide AsBytes;
  }

  lemma WrittenNext(files: Files, shards: seq<Shard>, i: nat)
    requires |shards| == 3 && i < 3
    ensures Written(files, shards, i + 1) == Written(files, shards, i)[i := AsBytes(shards[i])]
  {
    hide AsBytes;
  }

  function Sealed(files: Files, key: seq<bv8>, env: Env): Booted
    requires ValidEnv(env) && |key| == KEY_LEN
  {
    var shards := Split(key, env.coeffs);
    Booted(Persisted(files, shards, env.failAt, env.torn), if env.failAt < 3 then Err(Persist) else Ok(Kit(key, shards)))
  }

  function Bootstrapped(files: Files, env: Env): Booted
    requires ValidEnv(env)
  {
    if env.requireTmpfs && env.mount == ProbeFailed then Booted(files, Err(StatFs))
    else if env.requireTmpfs && env.mount == OtherDevice then Booted(files, Err(NotEphemeral))
    else Sealed(files, env.freshKey, env)
  }

  /** One boot: recover from the first two readable shards, else start afresh; then re-split. */
  function Boot(files: Files, env: Env): Booted
    requires ValidEnv(env)
  {
    var found := Scan(files, 0, []);
    if |found| < 2 then Bootstrapped(files, env)
    else Sealed(files, Interpolate(found[0], found[1]), env)
  }

  class StateDir {
    var files: Files

    constructor ()
      ensures files == map[]
    {
      files := map[];
    }

    method Persist(shards: seq<Shard>, failAt: nat, torn: Option<nat>) returns (ok: bool)
      requires |shards| == 3
      modifies this
      ensures files == Persisted(old(files), shards, failAt, torn)
      ensures ok <==> failAt >= 3
    {
      hide Written, AsBytes, Torn;
      WrittenNone(files, shards);
      for i := 0 to 3
        invariant i <= failAt
        invariant files == Written(old(files), shards, i)
      {
        if i == failAt {
          files := Torn(files, i, AsBytes(shards[i]), torn);
          return false;
        }
        WrittenNext(old(files), shards, i);
        files := files[i := AsBytes(shards[i])];
      }
      return true;
    }

    method Bootstrap(env: Env) returns (r: SnapResult<Kit>)
      requires ValidEnv(env)
      modifies this
      ensures Booted(files, r) == Bootstrapped(old(files), env)
    {
      if env.requireTmpfs {
        match env.mount
        case Tmpfs =>
        case OtherDevice => return Err(NotEphemeral);
        case ProbeFailed => return Err(StatFs);
      }
      var shards := SplitKey(env.freshKey, env.coeffs);
      var ok := Persist(shards, env.failAt, env.torn);
      r := if ok then Ok(Kit(env.freshKey, shards)) else Err(SnapError.Persist);
    }

    method RecoverOrBootstrap(env: Env) returns (r: SnapResult<Kit>)
      requires ValidEnv(env)
      modifies this
      ensures Booted(files, r) == Boot(old(files), env)
    {
      var found: seq<Shard> := [];
      var i := 0;
      while i < 3 && |found| < 2
        invariant i <= 3 && |found| <= 2
        invariant forall s <- found :: |s.y| == KEY_LEN
        invariant if |found| < 2 then Scan(files, i, found) == Scan(files, 0, []) else found == Scan(files, 0, [])
      {
        if i in files {
          var s := FromBytes(files[i]);
          if s.Ok? {
            found := found + [s.value];
          }
        }
        i := i + 1;
      }
      if |found| < 2 {
        r := Bootstrap(env);
        return;
      }
      var key := Reconstruct(found);
      var shards := SplitKey(key.value, env.coeffs);
      var ok := Persist(shards, env.failAt, env.torn);
      r := if ok then Ok(Kit(key.value, shards)) else Err(SnapError.Persist);
    }
  }

  // ----- What a boot recovers

  /** File i, when readable, is provider i's share of `key` on the line with slopes lines[i]. */
  ghost predicate SharesOf(files: Files, key: seq<bv8>, lines: seq<seq<bv8>>) {
    && |key| == KEY_LEN && |lines| == 3
    && (forall i :: 0 <= i < 3 ==> |lines[i]| == KEY_LEN)
    && forall i: nat :: i < 3 ==>
         Readable(files, i).Some? ==> Readable(files, i).value == Split(key, lines[i])[i]
  }

  /** i and j are the first two providers whose files can be read. */
  ghost predicate FirstTwo(files: Files, i: nat, j: nat) {
    && i < j < 3
    && Readable(files, i).Some? && Readable(files, j).Some?
    && forall k: nat :: k < j && k != i ==> Readable(files, k).None?
  }

  lemma ScanFirstTwo(files: Files, i: nat, j: nat)
    requires FirstTwo(files, i, j)
    ensures Scan(files, 0, []) == [Readable(files, i).value, Readable(files, j).value]
  {
    assert forall k: nat :: k < j && k != i ==> Readable(files, k).None?;
    if i == 0 && j == 1 {
    } else {
      assert Scan(files, 1, if i == 0 then [Readable(files, 0).value] else []) == Scan(files, 0, []);
    }
  }

  /** A boot that can read two shards gives back the key exactly when the first two lie on one line. */
  lemma RecoversExactly(files: Files, key: seq<bv8>, lines: seq<seq<bv8>>, i: nat, j: nat, env: Env)
    requires SharesOf(files, key, lines) && FirstTwo(files, i, j)
    requires ValidEnv(env) && env.failAt >= 3
    ensures Boot(files, env).kit.Ok?
    ensures Boot(files, env).kit.value.key == key <==> lines[i] == lines[j]
  {
    ScanFirstTwo(files, i, j);
    hide Split, Interpolate;
    SplitAt(key, lines[i], i);
    SplitAt(key, lines[j], j);
    ReconstructMixedExact(key, lines[i], lines[j], Index(i), Index(j));
  }

  lemma SplitAt(key: seq<bv8>, coeffs: seq<bv8>, i: nat)
    requires |key| == |coeffs| && i < 3
    ensures |Split(key, coeffs)| == 3
    ensures Split(key, coeffs)[i] == Shard(Index(i), ShareAt(key, coeffs, Index(i)))
    ensures Index(i) != 0
  {}

  // ----- When a boot yields a kit

  /** The providers from i on whose shard file is there and 33 bytes long. */
  function ReadableFrom(files: Files, i: nat): set<nat> { set j: nat | i <= j < 3 && j in files && |files[j]| == 33 }

  lemma {:induction false} ScanCounts(files: Files, i: nat, found: seq<Shard>)
    requires i <= 3 && |found| < 2
    requires forall s <- found :: |s.y| == KEY_LEN
    ensures |Scan(files, i, found)| == if |found| + |ReadableFrom(files, i)| < 2 then |found| + |ReadableFrom(files, i)| else 2
    decreases 3 - i
  {
    FromNext(files, i);
    hide ReadableFrom, Readable;
    if i < 3 {
      var more := if Readable(files, i).Some? then found + [Readable(files, i).value] else found;
      if |more| < 2 {
        ScanCounts(files, i + 1, more);
      }
    }
  }

  lemma FromNext(files: Files, i: nat)
    requires i <= 3
    ensures i == 3 ==> ReadableFrom(files, i) == {}
    ensures i < 3 ==>
              |ReadableFrom(files, i)| == |ReadableFrom(files, i + 1)| + if Readable(files, i).Some? then 1 else 0
  {
    if i < 3 && Readable(files, i).Some? {
      assert ReadableFrom(files, i) == ReadableFrom(files, i + 1) + {i};
    } else if i < 3 {
      assert ReadableFrom(files, i) == ReadableFrom(files, i + 1);
    }
  }

  /** With fewer than two readable shard files, the policy on and a mount that is not known to be tmpfs, a boot
      answers the probe's error before any key exists, and leaves the files as they were. */
  lemma RefusesDisk(files: Files, env: Env)
    requires ValidEnv(env) && |ReadableFrom(files, 0)| < 2
    requires env.requireTmpfs && env.mount != Tmpfs
    ensures Boot(files, env) == Booted(files, Err(if env.mount == OtherDevice then NotEphemeral else StatFs))
  {
    ScanCounts(files, 0, []);
  }

  /** When its writes complete, a boot yields a kit exactly when two shard files can be read, or the policy is off, or
      the mount is tmpfs; with fewer than two the kit's key is the fresh one. */
  lemma BootsExactly(files: Files, env: Env)
    requires ValidEnv(env) && env.failAt >= 3
    ensures Boot(files, env).kit.Ok? <==> |ReadableFrom(files, 0)| >= 2 || !env.requireTmpfs || env.mount == Tmpfs
    ensures Boot(files, env).kit.Ok? && |ReadableFrom(files, 0)| < 2 ==> Boot(files, env).kit.value.key == env.freshKey
  {
    hide Split, Interpolate;
    ScanCounts(files, 0, []);
  }

  /** A boot never touches the files unless it gets as far as writing: any other outcome than a kit or a failed write
      leaves them as they were. */
  lemma ErrorsKeepFiles(files: Files, env: Env)
    requires ValidEnv(env)
    ensures Boot(files, env).kit.Err? && Boot(files, env).kit.error != SnapError.Persist ==> Boot(files, env).files == files
    ensures env.failAt < 3 ==> Boot(files, env).kit.Err?
  {
    hide Split, Interpolate, Scan;
  }

  // ----- Runs of boots

  /** What happened to the shard files between two boots: at most file `lost` became unreadable. */
  ghost predicate AtMostOneLost(before: Files, after: Files, lost: nat) {
    forall i: nat :: i < 3 ==>
      Readable(after, i) == Readable(before, i) || (i == lost && Readable(after, i).None?)
  }

  /** One boot of a run: the files it finds and its surroundings. */
  datatype Start = Start(files: Files, lost: nat, env: Env)

  /** Starting from `files`, each boot finds what the previous one left minus at most one shard, and its three
      writes complete. */
  ghost predicate ValidRun(files: Files, run: seq<Start>)
    decreases |run|
  {
    run == [] ||
    (&& AtMostOneLost(files, run[0].files, run[0].lost)
     && ValidEnv(run[0].env) && run[0].env.failAt >= 3
     && ValidRun(Boot(run[0].files, run[0].env).files, run[1..]))
  }

  /** All three files can be read and hold the three shares of `key` with slopes `coeffs`. */
  ghost predicate Holds(files: Files, key: seq<bv8>, coeffs: seq<bv8>) {
    && |key| == |coeffs| == KEY_LEN
    && forall i: nat :: i < 3 ==> Readable(files, i) == Some(Split(key, coeffs)[i])
  }

  lemma AfterSealing(files: Files, key: seq<bv8>, env: Env)
    requires ValidEnv(env) && env.failAt >= 3 && |key| == KEY_LEN
    ensures Holds(Sealed(files, key, env).files, key, env.coeffs)
  {
    var b := Sealed(files, key, env);
    var shards := Split(key, env.coeffs);
    forall i: nat | i < 3
      ensures Readable(b.files, i) == Some(shards[i])
    {
      SplitAt(key, env.coeffs, i);
      assert b.files[i] == AsBytes(shards[i]);
      assert |AsBytes(shards[i])| == SHARD_LEN;
      assert AsBytes(shards[i])[1..] == shards[i].y;
    }
  }

  lemma TwoOfThree(files: Files, lost: nat)
    requires forall i: nat :: i < 3 && i != lost ==> Readable(files, i).Some?
    ensures exists i: nat, j: nat :: FirstTwo(files, i, j)
  {
    hide Readable;
    if Readable(files, 0).None? {
      assert FirstTwo(files, 1, 2);
    } else if Readable(files, 1).None? {
      assert FirstTwo(files, 0, 2);
    } else {
      assert FirstTwo(files, 0, 1);
    }
  }

  /** One boot of a run: the key survives, and all three files hold shares of it again. */
  lemma BootKeepsKey(before: Files, key: seq<bv8>, coeffs: seq<bv8>, start: Start)
    requires Holds(before, key, coeffs)
    requires AtMostOneLost(before, start.files, start.lost)
    requires ValidEnv(start.env)
    ensures Boot(start.files, start.env) == Sealed(start.files, key, start.env)
  {
    hide Split, Interpolate, Readable;
    TwoOfThree(start.files, start.lost);
    var i: nat, j: nat :| FirstTwo(start.files, i, j);
    ScanFirstTwo(start.files, i, j);
    SplitAt(key, coeffs, i);
    SplitAt(key, coeffs, j);
    ReconstructMixedExact(key, coeffs, coeffs, Index(i), Index(j));
  }

  /** Every boot of the run from position k on returns `key`, freshly split. */
  lemma {:induction false} RunKeepsKey(files: Files, key: seq<bv8>, coeffs: seq<bv8>, run: seq<Start>, k: nat)
    requires Holds(files, key, coeffs)
    requires ValidRun(files, run) && k < |run|
    ensures ValidEnv(run[k].env)
    ensures Boot(run[k].files, run[k].env).kit == Ok(Kit(key, Split(key, run[k].env.coeffs)))
    decreases k
  {
    hide Boot, AtMostOneLost, Split, Readable;
    BootKeepsKey(files, key, coeffs, run[0]);
    if k > 0 {
      AfterSealing(run[0].files, key, run[0].env);
      RunKeepsKey(Boot(run[0].files, run[0].env).files, key, run[0].env.coeffs, run[1..], k - 1);
    }
  }

  /** A boot that cannot read two shards, with tmpfs satisfied, mints its fresh key. */
  ghost predicate FirstBoot(start: Start) {
    && ValidEnv(start.env) && start.env.failAt >= 3
    && |Scan(start.files, 0, [])| < 2
    && (start.env.requireTmpfs ==> start.env.mount == Tmpfs)
  }

  /** From a first boot on, through every later boot that loses at most one shard file, whatever the random
      slopes and whichever file is lost, the key is the one the first boot minted. */
  lemma OneKeyForAllBoots(first: Start, later: seq<Start>, k: nat)
    requires FirstBoot(first)
    requires ValidRun(Boot(first.files, first.env).files, later) && k < |later|
    ensures Boot(first.files, first.env).kit == Ok(Kit(first.env.freshKey, Split(first.env.freshKey, first.env.coeffs)))
    ensures ValidEnv(later[k].env)
    ensures Boot(later[k].files, later[k].env).kit.Ok?
    ensures Boot(later[k].files, later[k].env).kit.value.key == first.env.freshKey
  {
    AfterSealing(first.files, first.env.freshKey, first.env);
    hide Split, Sealed, Scan, Holds, ValidRun;
    RunKeepsKey(Boot(first.files, first.env).files, first.env.freshKey, first.env.coeffs, later, k);
  }

  /** A re-split whose write number failAt fails leaves shares of two lines behind, and that file as it was or
      unreadable: the next boot, nothing else lost, gives the key back exactly unless the first write alone
      completed, with different slopes. */
  lemma InterruptedResplit(before: Files, key: seq<bv8>, coeffs: seq<bv8>, env: Env, next: Env)
    requires Holds(before, key, coeffs)
    requires ValidEnv(env) && env.failAt < 3
    requires ValidEnv(next) && next.failAt >= 3
    ensures Boot(before, env).kit == Err(SnapError.Persist)
    ensures Boot(Boot(before, env).files, next).kit.Ok?
    ensures Boot(Boot(before, env).files, next).kit.value.key == key
            <==> env.failAt != 1 || env.coeffs == coeffs
  {
    hide Split, Boot, Readable;
    BootKeepsKey(before, key, coeffs, Start(before, 3, env));
    var after := Sealed(before, key, env).files;
    var lines := LinesLeft(coeffs, env);
    forall i: nat | i < 3
      ensures Readable(after, i) == if i == env.failAt && env.torn.Some? then None else Some(Split(key, lines[i])[i])
    {
      InterruptedFile(before, key, coeffs, env, i);
    }
    hide Sealed;
    var (i, j) := if env.torn.None? || env.failAt == 2 then (0, 1) else if env.failAt == 0 then (1, 2) else (0, 2);
    RecoversExactly(after, key, lines, i, j, next);
  }

  /** The slopes of the line each readable file lies on after an interrupted re-split. */
  function LinesLeft(coeffs: seq<bv8>, env: Env): seq<seq<bv8>> {
    [if env.failAt > 0 then env.coeffs else coeffs, if env.failAt > 1 then env.coeffs else coeffs, coeffs]
  }

  lemma InterruptedFile(before: Files, key: seq<bv8>, coeffs: seq<bv8>, env: Env, i: nat)
    requires Holds(before, key, coeffs)
    requires ValidEnv(env) && env.failAt < 3 && i < 3
    ensures Readable(Sealed(before, key, env).files, i)
            == if i == env.failAt && env.torn.Some? then None else Some(Split(key, LinesLeft(coeffs, env)[i])[i])
  {
    var shards := Split(key, env.coeffs);
    var file := AsBytes(shards[i]);
    SplitAt(key, env.coeffs, i);
    assert |file| == SHARD_LEN && file[1..] == shards[i].y;
    hide Split, AsBytes;
    FileLeft(before, shards, env.failAt, env.torn, i);
  }

  lemma FileLeft(files: Files, shards: seq<Shard>, failAt: nat, torn: Option<nat>, i: nat)
    requires |shards| == 3 && failAt < 3 && i < 3
    ensures var left := Persisted(files, shards, failAt, torn);
            var shard := AsBytes(shards[i]);
            if i < failAt then i in left && left[i] == shard
            else if i == failAt && torn.Some? && torn.value < |shard| then i in left && left[i] == shard[..torn.value]
            else Readable(left, i) == Readable(files, i)
  {
    hide AsBytes, FromBytes;
  }
}
