/**
 The only file writer of the workspace, over an abstract file map.

 A `Disk` value says how the disk behaves during one call: a read can fail, the
 destination may not open, a write can stop part way and a sync can fail after it.
 */
module GuardedStores {
  import opened Bytes
  import opened Secrets

  type Path = Bytes

  datatype Landing = Whole | NotOpened | Torn(written: nat) | NotSynced
  datatype Disk = Disk(readable: bool, landing: Landing)
  datatype Outcome = Done | Refused | Failed

  /** `placed` says of each file how many secrets were known when its contents were last put in place. */
  datatype State = State(files: map<Path, Bytes>, secrets: seq<Secret>, placed: map<Path, nat>)

  datatype Op =
    | Write(path: Path, bytes: Bytes)
    | Append(path: Path, bytes: Bytes)
    | Copy(source: Path, destination: Path)
    | Rename(source: Path, destination: Path)

  /** One call: what the environment reveals as the lock is taken, the operation, and the disk's behaviour. */
  datatype Act = Act(environment: seq<Secret>, op: Op, disk: Disk)

  // Specification

  function Remembered(lib: Library, secrets: seq<Secret>, secret: Secret): seq<Secret>
  {
    if IsLongEnough(lib, secret.value) && secret !in secrets then secrets + [secret] else secrets
  }

  function Learned(lib: Library, secrets: seq<Secret>, environment: seq<Secret>): seq<Secret>
    decreases |environment|
  {
    if environment == [] then secrets
    else Remembered(lib, Learned(lib, secrets, environment[..|environment| - 1]), environment[|environment| - 1])
  }

  function AtMost(bytes: Bytes, n: nat): Bytes
  {
    if n <= |bytes| then bytes[..n] else bytes
  }

  /** The contents a write leaves: `kept` stays in front, `added` may be cut short. */
  function Landed(s: State, path: Path, kept: Bytes, added: Bytes, landing: Landing): State
  {
    match landing
    case NotOpened => s
    case Torn(n) => s.(files := s.files[path := kept + AtMost(added, n)], placed := s.placed[path := |s.secrets|])
    case _ => s.(files := s.files[path := kept + added], placed := s.placed[path := |s.secrets|])
  }

  function Put(lib: Library, s: State, path: Path, bytes: Bytes, landing: Landing): (State, Outcome)
  {
    if !Clean(lib, path, bytes, s.secrets) then (s, Refused)
    else (Landed(s, path, [], bytes, landing), if landing.Whole? then Done else Failed)
  }

  function Appended(lib: Library, s: State, path: Path, bytes: Bytes, disk: Disk): (State, Outcome)
  {
    var existing := if path in s.files then s.files[path] else [];
    if !Clean(lib, path, bytes, s.secrets) then (s, Refused)
    else if path in s.files && !disk.readable then (s, Failed)
    else if !Clean(lib, path, existing + bytes, s.secrets) then (s, Refused)
    else (Landed(s, path, existing, bytes, disk.landing), if disk.landing.Whole? then Done else Failed)
  }

  function Copied(lib: Library, s: State, source: Path, destination: Path, disk: Disk): (State, Outcome)
  {
    if !Clean(lib, source, [], s.secrets) then (s, Refused)
    else if source !in s.files || !disk.readable then (s, Failed)
    else Put(lib, s, destination, s.files[source], disk.landing)
  }

  function Moved(s: State, source: Path, destination: Path): State
    requires source in s.files
  {
    s.(files := (s.files - {source})[destination := s.files[source]],
       placed := (s.placed - {source})[destination := |s.secrets|])
  }

  function Renamed(lib: Library, s: State, source: Path, destination: Path, disk: Disk): (State, Outcome)
  {
    if !Clean(lib, source, [], s.secrets) || !Clean(lib, destination, [], s.secrets) then (s, Refused)
    else if source !in s.files || !disk.readable then (s, Failed)
    else if !Clean(lib, destination, s.files[source], s.secrets) then (s, Refused)
    else if !disk.landing.Whole? then (s, Failed)
    else (Moved(s, source, destination), Done)
  }

  function Settle(lib: Library, s: State, act: Act): (State, Outcome)
  {
    var known := s.(secrets := Learned(lib, s.secrets, act.environment));
    match act.op
    case Write(path, bytes) => Put(lib, known, path, bytes, act.disk.landing)
    case Append(path, bytes) => Appended(lib, known, path, bytes, act.disk)
    case Copy(source, destination) => Copied(lib, known, source, destination, act.disk)
    case Rename(source, destination) => Renamed(lib, known, source, destination, act.disk)
  }

  // What every call keeps

  /** Every file, contents and path, is free of the secrets known when it was last put in place. */
  ghost predicate Guarded(lib: Library, s: State)
  {
    forall path :: path in s.files ==> GuardedFile(lib, s, path)
  }

  ghost predicate GuardedFile(lib: Library, s: State, path: Path)
    requires path in s.files
  {
    path in s.placed && s.placed[path] <= |s.secrets| && Clean(lib, path, s.files[path], s.secrets[..s.placed[path]])
  }

  lemma {:induction false} LearningKeeps(lib: Library, secrets: seq<Secret>, environment: seq<Secret>)
    ensures secrets <= Learned(lib, secrets, environment)
    decreases |environment|
  {
    if environment != [] {
      LearningKeeps(lib, secrets, environment[..|environment| - 1]);
    }
  }

  /** Text of eight characters or more, or eight bytes or more that are no text. */
  predicate WorthKeeping(lib: Library, value: Bytes)
  {
    match lib.text(value)
    case Some(text) => |text| >= 8
    case None => |value| >= 8
  }

  /** Exactly the values worth keeping that the environment shows become known. */
  lemma {:induction false} LearnsEverySecret(lib: Library, secrets: seq<Secret>, environment: seq<Secret>,
      secret: Secret)
    ensures secret in Learned(lib, secrets, environment) <==>
      secret in secrets || (secret in environment && WorthKeeping(lib, secret.value))
    decreases |environment|
  {
    if environment != [] {
      var front, last := environment[..|environment| - 1], environment[|environment| - 1];
      LearnsEverySecret(lib, secrets, front, secret);
      assert environment == front + [last];
    }
  }

  /** Learning secrets moves no file out of its own guarantee. */
  lemma GuardedWhileLearning(lib: Library, s: State, more: seq<Secret>)
    requires Guarded(lib, s) && s.secrets <= more
    ensures Guarded(lib, s.(secrets := more))
  {
    hide Clean;
    forall path | path in s.files ensures GuardedFile(lib, s.(secrets := more), path) {
      assert GuardedFile(lib, s, path);
      assert more[..s.placed[path]] == s.secrets[..s.placed[path]];
    }
  }

  lemma LandedIsGuarded(lib: Library, s: State, path: Path, kept: Bytes, added: Bytes, landing: Landing)
    requires Guarded(lib, s) && Clean(lib, path, kept + added, s.secrets)
    ensures Guarded(lib, Landed(s, path, kept, added, landing))
  {
    hide Clean;
    var after := Landed(s, path, kept, added, landing);
    assert s.secrets[..|s.secrets|] == s.secrets;
    forall other | other in after.files ensures GuardedFile(lib, after, other) {
      if other != path || landing.NotOpened? {
        assert GuardedFile(lib, s, other);
      } else if landing.Torn? {
        var n := |kept + AtMost(added, landing.written)|;
        assert kept + AtMost(added, landing.written) == (kept + added)[0..n];
        PieceIsClean(lib, path, kept + added, 0, n, s.secrets);
      }
    }
  }

  lemma MovedIsGuarded(lib: Library, s: State, source: Path, destination: Path)
    requires Guarded(lib, s) && source in s.files && Clean(lib, destination, s.files[source], s.secrets)
    ensures Guarded(lib, Moved(s, source, destination))
  {
    hide Clean;
    var after := Moved(s, source, destination);
    assert s.secrets[..|s.secrets|] == s.secrets;
    forall other | other in after.files ensures GuardedFile(lib, after, other) {
      if other != destination {
        assert GuardedFile(lib, s, other);
      }
    }
  }

  lemma StepStaysGuarded(lib: Library, s: State, act: Act)
    requires Guarded(lib, s)
    ensures Guarded(lib, Settle(lib, s, act).0)
  {
    hide Guarded, Clean, Learned, Landed, Moved;
    var known := s.(secrets := Learned(lib, s.secrets, act.environment));
    LearningKeeps(lib, s.secrets, act.environment);
    GuardedWhileLearning(lib, s, known.secrets);
    match act.op
    case Write(path, bytes) => PutIsGuarded(lib, known, path, bytes, act.disk.landing);
    case Append(path, bytes) =>
      var existing := if path in known.files then known.files[path] else [];
      if Clean(lib, path, existing + bytes, known.secrets) {
        LandedIsGuarded(lib, known, path, existing, bytes, act.disk.landing);
      }
    case Copy(source, destination) =>
      if source in known.files {
        PutIsGuarded(lib, known, destination, known.files[source], act.disk.landing);
      }
    case Rename(source, destination) =>
      if source in known.files && Clean(lib, destination, known.files[source], known.secrets) {
        MovedIsGuarded(lib, known, source, destination);
      }
  }

  lemma PutIsGuarded(lib: Library, s: State, path: Path, bytes: Bytes, landing: Landing)
    requires Guarded(lib, s)
    ensures Guarded(lib, Put(lib, s, path, bytes, landing).0)
  {
    hide Guarded, Clean, Landed;
    if Clean(lib, path, bytes, s.secrets) {
      assert [] + bytes == bytes;
      LandedIsGuarded(lib, s, path, [], bytes, landing);
    }
  }

  /** A refused call leaves every file as it was, and forgets no secret. */
  lemma RefusalChangesNothing(lib: Library, s: State, act: Act)
    ensures var (after, outcome) := Settle(lib, s, act);
      && s.secrets <= after.secrets
      && (outcome.Refused? ==> after.files == s.files && after.placed == s.placed)
  {
    hide Clean, Learned;
    LearningKeeps(lib, s.secrets, act.environment);
  }

  /** The path a call puts contents at. */
  function Target(op: Op): Path
  {
    match op
    case Write(path, _) => path
    case Append(path, _) => path
    case Copy(_, destination) => destination
    case Rename(_, destination) => destination
  }

  /** What the target holds once a call has succeeded. */
  function Contents(s: State, op: Op): Bytes
  {
    match op
    case Write(_, bytes) => bytes
    case Append(path, bytes) => (if path in s.files then s.files[path] else []) + bytes
    case Copy(source, _) => if source in s.files then s.files[source] else []
    case Rename(source, _) => if source in s.files then s.files[source] else []
  }

  /** The files a call that succeeds leaves: only a rename takes one away. */
  function Left(s: State, op: Op): set<Path>
  {
    (if op.Rename? then s.files.Keys - {op.source} else s.files.Keys) + {Target(op)}
  }

  /**
   A call that succeeds puts its contents at its target, free of every secret known by
   then whatever was there before, and touches no other file.
   */
  lemma SuccessIsClean(lib: Library, s: State, act: Act)
    requires Settle(lib, s, act).1.Done?
    ensures var after := Settle(lib, s, act).0;
      && after.files.Keys == Left(s, act.op)
      && after.files[Target(act.op)] == Contents(s, act.op)
      && (forall other :: other in after.files && other != Target(act.op) ==> after.files[other] == s.files[other])
    ensures Clean(lib, Target(act.op), Contents(s, act.op), Learned(lib, s.secrets, act.environment))
  {
    hide Clean, Learned;
    match act.op
    case Write(_, bytes) => assert [] + bytes == bytes;
    case Append(_, _) =>
    case Copy(source, _) => assert [] + s.files[source] == s.files[source];
    case Rename(_, _) =>
  }

  /** A call the disk fails leaves its target as it was, or holding a beginning of what success would have put there. */
  lemma FailureIsABeginning(lib: Library, s: State, act: Act)
    requires Settle(lib, s, act).1.Failed?
    ensures var after := Settle(lib, s, act).0;
      && s.files.Keys <= after.files.Keys <= s.files.Keys + {Target(act.op)}
      && (forall other :: other in after.files && other != Target(act.op) ==> after.files[other] == s.files[other])
      && (after.files != s.files ==>
        Target(act.op) in after.files && after.files[Target(act.op)] <= Contents(s, act.op))
      && (act.op.Append? && Target(act.op) in s.files ==> s.files[Target(act.op)] <= after.files[Target(act.op)])
  {
    hide Clean, Learned;
    match act.op
    case Write(_, bytes) => assert [] + bytes == bytes;
    case Append(_, _) =>
    case Copy(source, _) =>
      if source in s.files {
        assert [] + s.files[source] == s.files[source];
      }
    case Rename(_, _) =>
  }

  /** A refusal means a secret was there: nothing clean is turned away. */
  lemma OnlySecretsAreRefused(lib: Library, s: State, act: Act)
    requires Settle(lib, s, act).1.Refused?
    ensures var known := Learned(lib, s.secrets, act.environment);
      || !Clean(lib, Target(act.op), Contents(s, act.op), known)
      || ((act.op.Copy? || act.op.Rename?) && !Clean(lib, act.op.source, [], known))
  {
    hide Learned;
    var known := Learned(lib, s.secrets, act.environment);
    match act.op
    case Write(_, _) =>
    case Append(path, bytes) =>
      var existing := if path in s.files then s.files[path] else [];
      if Clean(lib, path, existing + bytes, known) {
        assert (existing + bytes)[|existing|..|existing + bytes|] == bytes;
        PieceIsClean(lib, path, existing + bytes, |existing|, |existing + bytes|, known);
      }
    case Copy(_, _) =>
    case Rename(source, destination) =>
      if source in s.files && Clean(lib, destination, s.files[source], known) {
        assert s.files[source][0..0] == [];
        PieceIsClean(lib, destination, s.files[source], 0, 0, known);
      }
  }

  /** The paths a call checks before anything else; a copy checks its destination with the contents. */
  function PathsFirst(op: Op): set<Path>
  {
    match op
    case Write(path, _) => {path}
    case Append(path, _) => {path}
    case Copy(source, _) => {source}
    case Rename(source, destination) => {source, destination}
  }

  /** The bytes the caller brings along. */
  function Brought(op: Op): Bytes
  {
    match op
    case Write(_, bytes) => bytes
    case Append(_, bytes) => bytes
    case Copy(_, _) => []
    case Rename(_, _) => []
  }

  /** What the call has to read can be read: an append may start a file, a source must be there. */
  predicate Readable(s: State, act: Act)
  {
    match act.op
    case Write(_, _) => true
    case Append(path, _) => path in s.files ==> act.disk.readable
    case Copy(source, _) => source in s.files && act.disk.readable
    case Rename(source, _) => source in s.files && act.disk.readable
  }

  /**
   Every outcome exactly: refused when a path checked first, or what the caller brings, or what the target would
   hold is not clean; done when it is not refused and the disk plays along; failed otherwise, and a destination
   that does not open is left alone.
   */
  lemma OutcomesExactly(lib: Library, s: State, act: Act)
    ensures var (after, outcome), known := Settle(lib, s, act), Learned(lib, s.secrets, act.environment);
      && (outcome.Refused? <==>
            || (exists path :: path in PathsFirst(act.op) && !Clean(lib, path, Brought(act.op), known))
            || (Readable(s, act) && !Clean(lib, Target(act.op), Contents(s, act.op), known)))
      && (outcome.Done? <==> !outcome.Refused? && Readable(s, act) && act.disk.landing.Whole?)
      && (act.disk.landing.NotOpened? ==> after.files == s.files)
      && (act.op.Rename? && !outcome.Done? ==> after.files == s.files)
      && after.secrets == known
  {
    hide Clean, Learned;
    var known := Learned(lib, s.secrets, act.environment);
    match act.op
    case Write(path, bytes) =>
      assert path in PathsFirst(act.op) && [] + bytes == bytes;
    case Append(path, bytes) =>
      assert path in PathsFirst(act.op);
      var existing := if path in s.files then s.files[path] else [];
      if Clean(lib, path, existing + bytes, known) {
        assert (existing + bytes)[|existing|..|existing + bytes|] == bytes;
        PieceIsClean(lib, path, existing + bytes, |existing|, |existing + bytes|, known);
      }
    case Copy(source, _) =>
      assert source in PathsFirst(act.op);
      assert source in s.files ==> [] + s.files[source] == s.files[source];
    case Rename(source, destination) =>
      assert source in PathsFirst(act.op) && destination in PathsFirst(act.op);
      if source in s.files && Clean(lib, destination, s.files[source], known) {
        assert s.files[source][0..0] == [];
        PieceIsClean(lib, destination, s.files[source], 0, 0, known);
      }
  }

  // Runs

  function Run(lib: Library, s: State, acts: seq<Act>): State
    decreases |acts|
  {
    if acts == [] then s else Settle(lib, Run(lib, s, acts[..|acts| - 1]), acts[|acts| - 1]).0
  }

  /** Over any run of any calls on any disk, no file holds a secret that was known when it was put in place. */
  lemma {:induction false} RunStaysGuarded(lib: Library, acts: seq<Act>)
    ensures Guarded(lib, Run(lib, State(map[], [], map[]), acts))
    decreases |acts|
  {
    hide Settle;
    if acts != [] {
      RunStaysGuarded(lib, acts[..|acts| - 1]);
      StepStaysGuarded(lib, Run(lib, State(map[], [], map[]), acts[..|acts| - 1]), acts[|acts| - 1]);
    }
  }

  lemma {:induction false} SecretsAreNeverForgotten(lib: Library, s: State, acts: seq<Act>)
    ensures s.secrets <= Run(lib, s, acts).secrets
    decreases |acts|
  {
    hide Settle;
    if acts != [] {
      SecretsAreNeverForgotten(lib, s, acts[..|acts| - 1]);
      RefusalChangesNothing(lib, Run(lib, s, acts[..|acts| - 1]), acts[|acts| - 1]);
    }
  }

  /**
   A value worth keeping, once registered, is never written again: after any further calls, whatever is to be
   put at a path is refused when any piece of it, or of the path, gives the value away.
   */
  lemma RegisteredIsRefusedForGood(lib: Library, s: State, secret: Secret, acts: seq<Act>, act: Act, piece: Bytes)
    requires WorthKeeping(lib, secret.value) && secret.value != [] && ReadsAs(lib, piece, secret)
    requires var at := Run(lib, s.(secrets := Remembered(lib, s.secrets, secret)), acts);
      && Readable(at, act)
      && (IsPiece(piece, Contents(at, act.op)) || IsPiece(piece, Target(act.op)))
    ensures Settle(lib, Run(lib, s.(secrets := Remembered(lib, s.secrets, secret)), acts), act).1.Refused?
  {
    hide Run, ReadsAs, FreeOf, Settle, Learned;
    var registered := s.(secrets := Remembered(lib, s.secrets, secret));
    assert secret in registered.secrets by { KeptWhenRemembered(lib, s.secrets, secret); }
    SecretsAreNeverForgotten(lib, registered, acts);
    var at := Run(lib, registered, acts);
    var known, contents, path := Learned(lib, at.secrets, act.environment), Contents(at, act.op), Target(act.op);
    LearningKeeps(lib, at.secrets, act.environment);
    OutcomesExactly(lib, at, act);
    if Clean(lib, path, contents, known) {
      var k :| 0 <= k < |known| && known[k] == secret;
      assert FreeOf(lib, contents, secret) && FreeOf(lib, path, secret);
      if lo: nat, hi: nat :| lo <= hi <= |contents| && contents[lo..hi] == piece {
        NothingReadsAsTheSecret(lib, contents, secret, lo, hi);
      }
      if lo: nat, hi: nat :| lo <= hi <= |path| && path[lo..hi] == piece {
        NothingReadsAsTheSecret(lib, path, secret, lo, hi);
      }
      assert false;
    }
  }

  lemma KeptWhenRemembered(lib: Library, secrets: seq<Secret>, secret: Secret)
    requires WorthKeeping(lib, secret.value)
    ensures secret in Remembered(lib, secrets, secret)
  {
  }

  ghost predicate IsPiece(piece: Bytes, bytes: Bytes)
  {
    exists lo: nat, hi: nat :: lo <= hi <= |bytes| && bytes[lo..hi] == piece
  }

  /** Secrets all known before the first write: no piece of any file, nor of its path, ever gives one of them away. */
  lemma SecretsKnownInTimeNeverReachDisk(lib: Library, secrets: seq<Secret>, acts: seq<Act>, path: Path, secret: Secret)
    requires path in Run(lib, State(map[], secrets, map[]), acts).files
    requires secret in secrets && secret.value != []
    ensures var contents := Run(lib, State(map[], secrets, map[]), acts).files[path];
      forall lo, hi | 0 <= lo <= hi <= |contents| :: !ReadsAs(lib, contents[lo..hi], secret)
    ensures forall lo, hi | 0 <= lo <= hi <= |path| :: !ReadsAs(lib, path[lo..hi], secret)
  {
    hide Run, ReadsAs, FreeOf;
    var start := State(map[], secrets, map[]);
    KnownFromTheStart(lib, start, acts);
    var end := Run(lib, start, acts);
    assert GuardedFile(lib, end, path);
    var known := end.secrets[..end.placed[path]];
    assert secrets <= known;
    var k :| 0 <= k < |known| && known[k] == secret;
    assert FreeOf(lib, end.files[path], secret) && FreeOf(lib, path, secret);
    forall lo, hi | 0 <= lo <= hi <= |end.files[path]| ensures !ReadsAs(lib, end.files[path][lo..hi], secret) {
      NothingReadsAsTheSecret(lib, end.files[path], secret, lo, hi);
    }
    forall lo, hi | 0 <= lo <= hi <= |path| ensures !ReadsAs(lib, path[lo..hi], secret) {
      NothingReadsAsTheSecret(lib, path, secret, lo, hi);
    }
  }

  lemma {:induction false} KnownFromTheStart(lib: Library, start: State, acts: seq<Act>)
    requires start.files == map[]
    ensures var end := Run(lib, start, acts);
      && Guarded(lib, end) && start.secrets <= end.secrets
      && forall path :: path in end.files ==> path in end.placed && |start.secrets| <= end.placed[path]
    decreases |acts|
  {
    hide Guarded, Settle;
    if acts == [] {
      NothingIsGuarded(lib, start);
    } else {
      var before := Run(lib, start, acts[..|acts| - 1]);
      KnownFromTheStart(lib, start, acts[..|acts| - 1]);
      StepStaysGuarded(lib, before, acts[|acts| - 1]);
      RefusalChangesNothing(lib, before, acts[|acts| - 1]);
      PlacedNoEarlier(lib, before, acts[|acts| - 1], |start.secrets|);
    }
  }

  lemma NothingIsGuarded(lib: Library, s: State)
    requires s.files == map[]
    ensures Guarded(lib, s)
  {
  }

  lemma PlacedNoEarlier(lib: Library, s: State, act: Act, n: nat)
    requires n <= |s.secrets| && forall path :: path in s.files ==> path in s.placed && n <= s.placed[path]
    ensures var after := Settle(lib, s, act).0;
      forall path :: path in after.files ==> path in after.placed && n <= after.placed[path]
  {
    hide Clean, Learned;
    LearningKeeps(lib, s.secrets, act.environment);
  }

  // The writer

  class GuardedWriter {
    const lib: Library
    var files: map<Path, Bytes>
    var secrets: seq<Secret>
    ghost var placed: map<Path, nat>

    ghost function View(): State
      reads this
    {
      State(files, secrets, placed)
    }

    ghost predicate Valid()
      reads this
    {
      Guarded(lib, View())
    }

    constructor (lib: Library)
      ensures Valid() && this.lib == lib && View() == State(map[], [], map[])
    {
      this.lib := lib;
      files, secrets, placed := map[], [], map[];
    }

    /** Keeps a value that is long enough and not already kept under that name. */
    method RegisterSecret(name: string, value: Bytes)
      requires Valid()
      modifies this`secrets
      ensures Valid() && View() == old(View()).(secrets := Remembered(lib, old(secrets), Secret(name, value)))
      ensures Secret(name, value) in secrets <==> Secret(name, value) in old(secrets) || WorthKeeping(lib, value)
      ensures forall other :: other != Secret(name, value) ==> (other in secrets <==> other in old(secrets))
    {
      hide Guarded;
      GuardedWhileLearning(lib, View(), Remembered(lib, secrets, Secret(name, value)));
      if IsLongEnough(lib, value) && Secret(name, value) !in secrets {
        secrets := secrets + [Secret(name, value)];
      }
    }

    /** Takes the lock and learns what the environment holds by now. */
    method LockKnownSecrets(environment: seq<Secret>)
      requires Valid()
      modifies this`secrets
      ensures Valid() && View() == old(View()).(secrets := Learned(lib, old(secrets), environment))
    {
      hide Guarded, Remembered;
      for i := 0 to |environment|
        invariant Valid() && View() == old(View()).(secrets := Learned(lib, old(secrets), environment[..i]))
      {
        assert environment[..i + 1][..i] == environment[..i];
        RegisterSecret(environment[i].name, environment[i].value);
      }
      assert environment[..|environment|] == environment;
    }

    /** The bytes reach the disk as far as the disk lets them. */
    method Land(path: Path, kept: Bytes, added: Bytes, landing: Landing) returns (outcome: Outcome)
      modifies this`files, this`placed
      ensures View() == Landed(old(View()), path, kept, added, landing)
      ensures outcome == if landing.Whole? then Done else Failed
    {
      if landing.NotOpened? {
        return Failed;
      }
      files := files[path := kept + if landing.Torn? then AtMost(added, landing.written) else added];
      placed := placed[path := |secrets|];
      outcome := if landing.Whole? then Done else Failed;
    }

    method WriteFileLocked(path: Path, bytes: Bytes, landing: Landing) returns (outcome: Outcome)
      modifies this`files, this`placed
      ensures (View(), outcome) == Put(lib, old(View()), path, bytes, landing)
    {
      hide Clean, Landed;
      var refused := RefuseIfSecret(lib, path, bytes, secrets);
      if refused.Some? {
        return Refused;
      }
      outcome := Land(path, [], bytes, landing);
    }

    method WriteFile(path: Path, bytes: Bytes, environment: seq<Secret>, disk: Disk) returns (outcome: Outcome)
      requires Valid()
      modifies this
      ensures Valid()
      ensures (View(), outcome) == Settle(lib, old(View()), Act(environment, Write(path, bytes), disk))
    {
      hide Guarded, Put, Learned;
      StepStaysGuarded(lib, View(), Act(environment, Write(path, bytes), disk));
      LockKnownSecrets(environment);
      outcome := WriteFileLocked(path, bytes, disk.landing);
    }

    /** Checks the addition, then the whole of what the file would hold. */
    method AppendFile(path: Path, bytes: Bytes, environment: seq<Secret>, disk: Disk) returns (outcome: Outcome)
      requires Valid()
      modifies this
      ensures Valid()
      ensures (View(), outcome) == Settle(lib, old(View()), Act(environment, Append(path, bytes), disk))
    {
      hide Guarded, Clean, Learned, Landed;
      StepStaysGuarded(lib, View(), Act(environment, Append(path, bytes), disk));
      LockKnownSecrets(environment);
      var refused := RefuseIfSecret(lib, path, bytes, secrets);
      if refused.Some? {
        return Refused;
      }
      if path in files && !disk.readable {
        return Failed;
      }
      var existing := if path in files then files[path] else [];
      refused := RefuseIfSecret(lib, path, existing + bytes, secrets);
      if refused.Some? {
        return Refused;
      }
      outcome := Land(path, existing, bytes, disk.landing);
    }

    method CopyFile(source: Path, destination: Path, environment: seq<Secret>, disk: Disk) returns (outcome: Outcome)
      requires Valid()
      modifies this
      ensures Valid()
      ensures (View(), outcome) == Settle(lib, old(View()), Act(environment, Copy(source, destination), disk))
    {
      hide Guarded, Clean, Learned, Put;
      StepStaysGuarded(lib, View(), Act(environment, Copy(source, destination), disk));
      LockKnownSecrets(environment);
      var refused := RefuseIfSecret(lib, source, [], secrets);
      if refused.Some? {
        return Refused;
      }
      if source !in files || !disk.readable {
        return Failed;
      }
      outcome := WriteFileLocked(destination, files[source], disk.landing);
    }

    /** The move itself is all or nothing. */
    method RenameFile(source: Path, destination: Path, environment: seq<Secret>, disk: Disk) returns (outcome: Outcome)
      requires Valid()
      modifies this
      ensures Valid()
      ensures (View(), outcome) == Settle(lib, old(View()), Act(environment, Rename(source, destination), disk))
    {
      hide Guarded, Clean, Learned;
      StepStaysGuarded(lib, View(), Act(environment, Rename(source, destination), disk));
      LockKnownSecrets(environment);
      var refused := RefuseIfSecret(lib, source, [], secrets);
      if refused.Some? {
        return Refused;
      }
      refused := RefuseIfSecret(lib, destination, [], secrets);
      if refused.Some? {
        return Refused;
      }
      if source !in files || !disk.readable {
        return Failed;
      }
      var bytes := files[source];
      refused := RefuseIfSecret(lib, destination, bytes, secrets);
      if refused.Some? {
        return Refused;
      }
      if !disk.landing.Whole? {
        return Failed;
      }
      files := (files - {source})[destination := bytes];
      placed := (placed - {source})[destination := |secrets|];
      outcome := Done;
    }
  }
}
