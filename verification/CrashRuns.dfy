// The file stores with a crash possible between any two steps: change the
// map, write the temporary file, rename it (pkg/clients/*_store.go). The
// store's lock is held from the change to the end of the save, so operations
// do not overlap; what can intervene is a failure or the end of the process.
module CrashRuns {
  import opened Common
  import opened ByteStrings
  import opened StorageCrypto
  import opened FileStore

  datatype Phase<V> =
    | Idle
    | Changed(before: map<string, V>)
    | Written(before: map<string, V>)

  // `durable` records the map, as persisted, of the last rename that was
  // completed, or what the first process could read when there was none;
  // `inSync` that no save has failed since it or since a restart.
  datatype Machine<V> = Machine(
    memory: map<string, V>, file: Option<Bytes>, temp: Option<Bytes>, phase: Phase<V>,
    durable: map<string, V>, inSync: bool)

  datatype Action<V> =
    | Begin(change: Change<V>)
    | WritePart(partial: Bytes)
    | WriteAll(order: seq<string>, nonce: Bytes)
    | Rename
    | Fail
    | Crash

  ghost predicate Next<V(!new)>(m: Medium<V>, s: Machine<V>, a: Action<V>, s': Machine<V>) {
    match a
    case Begin(c) =>
      && s.phase.Idle? && Apply(m, s.memory, c).1.Done?
      && s' == s.(memory := Apply(m, s.memory, c).0, phase := Changed(s.memory))
    case WritePart(partial) => s.phase.Changed? && s' == s.(temp := Some(partial))
    case WriteAll(order, nonce) =>
      && s.phase.Changed? && Enumerates(order, s.memory) && |nonce| == NONCE_SIZE
      && s' == s.(temp := Some(Content(m, order, nonce, s.memory)), phase := Written(s.phase.before))
    case Rename =>
      && s.phase.Written?
      && s' == s.(file := s.temp, temp := None, phase := Idle, durable := Persisted(m, s.memory), inSync := true)
    case Fail => !s.phase.Idle? && s' == s.(phase := Idle, inSync := false)
    case Crash => s' == Restarted(m, s)
  }

  // A new process reads the file; one it cannot read leaves it empty.
  ghost function Restarted<V(!new)>(m: Medium<V>, s: Machine<V>): Machine<V> {
    s.(memory := Recovered(m, s.file), phase := Idle, inSync := true)
  }

  // A process has just started, on whatever file there is.
  ghost predicate Initial<V(!new)>(m: Medium<V>, s: Machine<V>) {
    s == Restarted(m, s) && s.durable == s.memory
  }

  ghost predicate Invariant<V(!new)>(m: Medium<V>, s: Machine<V>) {
    && KeyedById(m, s.memory)
    && Recovered(m, s.file) == s.durable
    && (s.phase.Written? ==> s.temp.Some? && Load(m, s.temp) == Ok(Persisted(m, s.memory)))
    && (s.inSync ==> s.durable == Persisted(m, if s.phase.Idle? then s.memory else s.phase.before))
  }

  lemma {:induction false} RestartInvariant<V(!new)>(m: Medium<V>, s: Machine<V>)
    requires LawfulMedium(m) && Recovered(m, s.file) == s.durable
    ensures Invariant(m, Restarted(m, s))
  {
    RecoveredIsKeyed(m, s.file);
    RecoveredIsPersisted(m, s.file);
  }

  lemma {:induction false} StepKeepsInvariant<V(!new)>(m: Medium<V>, s: Machine<V>, a: Action<V>, s': Machine<V>)
    requires LawfulMedium(m) && Invariant(m, s) && Next(m, s, a, s')
    ensures Invariant(m, s')
  {
    match a {
      case Begin(c) => ApplyKeepsKeys(m, s.memory, c);
      case WriteAll(order, nonce) => LoadOfContent(m, order, nonce, s.memory);
      case Crash => RestartInvariant(m, s);
      case _ =>
    }
  }

  ghost predicate IsRun<V(!new)>(m: Medium<V>, ss: seq<Machine<V>>, acts: seq<Action<V>>) {
    && |ss| == |acts| + 1
    && Initial(m, ss[0])
    && forall i :: 0 <= i < |acts| ==> Next(m, ss[i], acts[i], ss[i + 1])
  }

  lemma {:induction false} InvariantHolds<V(!new)>(m: Medium<V>, ss: seq<Machine<V>>, acts: seq<Action<V>>, i: nat)
    requires LawfulMedium(m) && IsRun(m, ss, acts) && i < |ss|
    ensures Invariant(m, ss[i])
  {
    if i == 0 {
      RestartInvariant(m, ss[0]);
    } else {
      InvariantHolds(m, ss, acts, i - 1);
      StepKeepsInvariant(m, ss[i - 1], acts[i - 1], ss[i - 1 + 1]);
    }
  }

  // At every moment of every run a crash loses nothing that a rename has
  // completed: the new process holds exactly the map of the last completed
  // rename. Unless a save has failed since, that is the state before the
  // operation in progress, or the present one when there is none.
  lemma {:induction false} CrashRecoversLastRename<V(!new)>(m: Medium<V>, ss: seq<Machine<V>>, acts: seq<Action<V>>, i: nat)
    requires LawfulMedium(m) && IsRun(m, ss, acts) && i < |ss|
    ensures Restarted(m, ss[i]).memory == ss[i].durable
    ensures ss[i].inSync ==>
              Restarted(m, ss[i]).memory == Persisted(m, if ss[i].phase.Idle? then ss[i].memory else ss[i].phase.before)
  {
    InvariantHolds(m, ss, acts, i);
  }

  // The rename is the one step that changes what a crash would recover, and
  // it moves it to the present map, with all earlier changes whose saves
  // failed: they were never taken out of the map.
  lemma {:induction false} OnlyRenameCommits<V(!new)>(m: Medium<V>, ss: seq<Machine<V>>, acts: seq<Action<V>>, i: nat)
    requires LawfulMedium(m) && IsRun(m, ss, acts) && i < |acts|
    ensures if acts[i].Rename? then Restarted(m, ss[i + 1]).memory == Persisted(m, ss[i].memory)
            else Restarted(m, ss[i + 1]).memory == Restarted(m, ss[i]).memory
    ensures !acts[i].Begin? && !acts[i].Crash? ==> ss[i + 1].memory == ss[i].memory
  {
    InvariantHolds(m, ss, acts, i);
    InvariantHolds(m, ss, acts, i + 1);
    assert Next(m, ss[i], acts[i], ss[i + 1]);
  }

  // ---- A file that cannot be read ---------------------------------------

  // The ID of the record an action creates, if it does.
  function CreatedBy<V>(m: Medium<V>, a: Action<V>): set<string> {
    if a.Begin? && a.change.Create? then {m.id(a.change.record)} else {}
  }

  function Created<V>(m: Medium<V>, acts: seq<Action<V>>): set<string> {
    if acts == [] then {} else Created(m, acts[..|acts| - 1]) + CreatedBy(m, acts[|acts| - 1])
  }

  predicate Renamed<V>(acts: seq<Action<V>>, i: nat)
    requires i <= |acts|
  {
    exists j :: 0 <= j < i && acts[j].Rename?
  }

  // A process that cannot read its file leaves it as it is until its first
  // rename, and holds only what has been created since, through restarts
  // too. That rename replaces the file: from then on it can be read, and of
  // what it held before nothing is left.
  lemma {:induction false} UnreadableFileIsLost<V(!new)>(m: Medium<V>, ss: seq<Machine<V>>, acts: seq<Action<V>>, i: nat)
    requires LawfulMedium(m) && IsRun(m, ss, acts) && Load(m, ss[0].file).Err? && i < |ss|
    ensures !Renamed(acts, i) ==> ss[i].file == ss[0].file
    ensures Load(m, ss[i].file).Ok? <==> Renamed(acts, i)
    ensures ss[i].memory.Keys + Restarted(m, ss[i]).memory.Keys <= Created(m, acts[..i])
  {
    FileUntilRename(m, ss, acts, i);
    OnlyCreatedIDs(m, ss, acts, i);
  }

  // Whether the file is that of the start, and whether it can be read.
  datatype FileState = FileState(same: bool, readable: bool)

  ghost function StateOfFile<V(!new)>(m: Medium<V>, start: Option<Bytes>, s: Machine<V>): FileState {
    FileState(s.file == start, Load(m, s.file).Ok?)
  }

  lemma {:induction false} FileUntilRename<V(!new)>(m: Medium<V>, ss: seq<Machine<V>>, acts: seq<Action<V>>, i: nat)
    requires LawfulMedium(m) && IsRun(m, ss, acts) && Load(m, ss[0].file).Err? && i < |ss|
    ensures var f := StateOfFile(m, ss[0].file, ss[i]); if Renamed(acts, i) then f.readable else f == FileState(true, false)
  {
    var fs := seq(|ss|, j requires 0 <= j < |ss| => StateOfFile(m, ss[0].file, ss[j]));
    forall j | 0 <= j < |acts|
      ensures FileStep(fs[j], acts[j], fs[j + 1])
    {
      FileInRun(m, ss, acts, j);
    }
    StatesUntilRename(fs, acts, i);
  }

  predicate FileStep<V>(f: FileState, a: Action<V>, f': FileState) {
    if a.Rename? then f'.readable else f' == f
  }

  lemma {:induction false} StatesUntilRename<V>(fs: seq<FileState>, acts: seq<Action<V>>, i: nat)
    requires |fs| == |acts| + 1 && fs[0] == FileState(true, false) && i < |fs|
    requires forall j :: 0 <= j < |acts| ==> FileStep(fs[j], acts[j], fs[j + 1])
    ensures if Renamed(acts, i) then fs[i].readable else fs[i] == FileState(true, false)
  {
    if i > 0 {
      StatesUntilRename(fs, acts, i - 1);
      RenamedNext(acts, i - 1);
      assert FileStep(fs[i - 1], acts[i - 1], fs[i - 1 + 1]);
    }
  }

  lemma {:induction false} FileInRun<V(!new)>(m: Medium<V>, ss: seq<Machine<V>>, acts: seq<Action<V>>, i: nat)
    requires LawfulMedium(m) && IsRun(m, ss, acts) && i < |acts|
    ensures FileStep(StateOfFile(m, ss[0].file, ss[i]), acts[i], StateOfFile(m, ss[0].file, ss[i + 1]))
  {
    InvariantHolds(m, ss, acts, i);
    FileByStep(m, ss[0].file, ss[i], acts[i], ss[i + 1]);
  }

  lemma {:induction false} RenamedNext<V>(acts: seq<Action<V>>, i: nat)
    requires i < |acts|
    ensures Renamed(acts, i + 1) <==> Renamed(acts, i) || acts[i].Rename?
  {
  }

  lemma {:induction false} FileByStep<V(!new)>(m: Medium<V>, start: Option<Bytes>, s: Machine<V>, a: Action<V>, s': Machine<V>)
    requires LawfulMedium(m) && Invariant(m, s) && Next(m, s, a, s')
    ensures FileStep(StateOfFile(m, start, s), a, StateOfFile(m, start, s'))
  {
  }

  ghost function KnownIDs<V(!new)>(m: Medium<V>, s: Machine<V>): set<string> {
    s.memory.Keys + Restarted(m, s).memory.Keys
  }

  lemma {:induction false} OnlyCreatedIDs<V(!new)>(m: Medium<V>, ss: seq<Machine<V>>, acts: seq<Action<V>>, i: nat)
    requires LawfulMedium(m) && IsRun(m, ss, acts) && Load(m, ss[0].file).Err? && i < |ss|
    ensures KnownIDs(m, ss[i]) <= Created(m, acts[..i])
  {
    if i > 0 {
      OnlyCreatedIDs(m, ss, acts, i - 1);
      InvariantHolds(m, ss, acts, i - 1);
      IDsByStep(m, ss[i - 1], acts[i - 1], ss[i - 1 + 1]);
      assert acts[..i][..i - 1] == acts[..i - 1];
    }
  }

  // One step brings in no ID but that of a record it creates.
  lemma {:induction false} IDsByStep<V(!new)>(m: Medium<V>, s: Machine<V>, a: Action<V>, s': Machine<V>)
    requires LawfulMedium(m) && Invariant(m, s) && Next(m, s, a, s')
    ensures KnownIDs(m, s') <= KnownIDs(m, s) + CreatedBy(m, a)
  {
    assert Persisted(m, s.memory).Keys == s.memory.Keys;
  }

  // A failed Create is seen by later calls, refuses a second attempt, and
  // reaches the file with the next save that succeeds.
  lemma {:induction false} FailedCreateSurfaces<V(!new)>(
    m: Medium<V>, s0: Machine<V>, v: V, s1: Machine<V>, s2: Machine<V>, c: Change<V>,
    s3: Machine<V>, order: seq<string>, nonce: Bytes, s4: Machine<V>, s5: Machine<V>)
    requires LawfulMedium(m) && Invariant(m, s0)
    requires Next(m, s0, Begin(Create(v)), s1) && Next(m, s1, Fail, s2)
    requires Next(m, s2, Begin(c), s3) && Next(m, s3, WriteAll(order, nonce), s4) && Next(m, s4, Rename, s5)
    ensures Restarted(m, s2).memory == s0.durable
    ensures Apply(m, s2.memory, Create(v)).1 == Exists
    ensures !(c.Delete? && c.id == m.id(v)) ==> m.id(v) in Restarted(m, s5).memory
  {
    StepKeepsInvariant(m, s0, Begin(Create(v)), s1);
    StepKeepsInvariant(m, s1, Fail, s2);
    StepKeepsInvariant(m, s2, Begin(c), s3);
    StepKeepsInvariant(m, s3, WriteAll(order, nonce), s4);
    StepKeepsInvariant(m, s4, Rename, s5);
  }

  // The steps one operation of the store object takes, by where its save fails.
  function StepsOf<V>(c: Change<V>, fault: Fault, order: seq<string>, nonce: Bytes): seq<Action<V>> {
    [Begin(c)] +
    match fault
    case NoFault => [WriteAll(order, nonce), Rename]
    case BeforeWrite => [Fail]
    case DuringWrite(partial) => [WritePart(partial), Fail]
    case DuringRename => [WriteAll(order, nonce), Fail]
  }

  // Every operation of the store object that changes the map is such a run
  // of the machine, ending in the map and the file its contract describes.
  lemma {:induction false} OperationsAreRuns<V(!new)>(
    m: Medium<V>, s: Machine<V>, c: Change<V>, fault: Fault, order: seq<string>, nonce: Bytes) returns (ss: seq<Machine<V>>)
    requires LawfulMedium(m) && Invariant(m, s) && s.phase.Idle? && Apply(m, s.memory, c).1.Done?
    requires Enumerates(order, Apply(m, s.memory, c).0) && |nonce| == NONCE_SIZE
    ensures var acts := StepsOf(c, fault, order, nonce);
            && |ss| == |acts| + 1 && ss[0] == s
            && (forall i :: 0 <= i < |acts| ==> Next(m, ss[i], acts[i], ss[i + 1]))
    ensures var end := ss[|ss| - 1];
            && end.memory == Apply(m, s.memory, c).0 && end.phase.Idle?
            && (if fault.NoFault? then Load(m, end.file) == Ok(Persisted(m, end.memory)) else end.file == s.file)
  {
    var s1 := s.(memory := Apply(m, s.memory, c).0, phase := Changed(s.memory));
    var content := Content(m, order, nonce, s1.memory);
    ApplyKeepsKeys(m, s.memory, c);
    LoadOfContent(m, order, nonce, s1.memory);
    match fault
    case NoFault =>
      var s2 := s1.(temp := Some(content), phase := Written(s.memory));
      ss := [s, s1, s2, s2.(file := s2.temp, temp := None, phase := Idle, durable := Persisted(m, s2.memory), inSync := true)];
    case BeforeWrite =>
      ss := [s, s1, s1.(phase := Idle, inSync := false)];
    case DuringWrite(partial) =>
      var s2 := s1.(temp := Some(partial));
      ss := [s, s1, s2, s2.(phase := Idle, inSync := false)];
    case DuringRename =>
      var s2 := s1.(temp := Some(content), phase := Written(s.memory));
      ss := [s, s1, s2, s2.(phase := Idle, inSync := false)];
  }
}
