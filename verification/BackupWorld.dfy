/** A directory that this process and others change: every step may fail, and
    others may act between any two steps. The world keeps the trace of the run. */
module BackupWorld {
  import opened Bytes
  import opened Results

  datatype Purpose = Work | Partial | Verify

  /** Names in the output's directory. A hidden name is built from the output's
      and longer than it, so the three kinds never meet. */
  datatype Name = Output | Hidden(purpose: Purpose, attempt: nat) | Foreign(id: string)

  datatype Node = FileNode(bytes: ByteString) | DirectoryNode | OtherNode

  type Files = map<Name, Node>

  /** Hidden names tried before giving up. */
  const ATTEMPTS: nat := 16

  /** What others do between two steps of this process. */
  datatype Act = Put(name: Name, node: Node) | Erase(name: Name)

  /** How a step fares: it works, it fails, or, if it writes, it leaves other
      bytes than it was given, with or without saying so. */
  datatype Fate = Works | Fails | Tears(bytes: ByteString, reported: bool)

  datatype Turn = Turn(others: seq<Act>, fate: Fate)

  /** Once the course is over, others are idle and every step works. */
  const IDLE: Turn := Turn([], Works)

  /** What stops a run short of a verdict on the archive. */
  datatype Stop =
    | OutputSeen | OutputUnknown | NoHiddenName(purpose: Purpose) | NotSnapshot | NotWritten
    | NotOwnerOnly | NotRead | NotLinked

  /** What this process does in one step: `create_new` or `mkdir`, `remove_file` or
      `remove_dir_all`, a write, a step that changes nothing here,
      `symlink_metadata` of the output, or `hard_link` to it. */
  datatype Kind =
    | Creating(name: Name, node: Node) | Removing(name: Name) | Writing(name: Name, bytes: ByteString)
    | Looking(stop: Stop) | Checking | Linking(name: Name)

  /** One step: `before` it, what it `met` once others had acted, and `after` it. */
  datatype Step = Step(kind: Kind, turn: Turn, owned: set<Name>, before: Files, met: Files, after: Files)

  // What one step does.

  function ActOn(files: Files, act: Act, owned: set<Name>): Files {
    if act.name in owned then files
    else match act
      case Put(name, node) => files[name := node]
      case Erase(name) => files - {name}
  }

  /** Others act on any name but this process's own. */
  function Acted(files: Files, acts: seq<Act>, owned: set<Name>): Files {
    if acts == [] then files
    else ActOn(Acted(files, acts[..|acts| - 1], owned), acts[|acts| - 1], owned)
  }

  /** What a step makes of the files it meets. Creating never opens what exists, and
      linking never replaces anything. */
  function Effect(kind: Kind, fate: Fate, met: Files): Files {
    if fate.Tears? && kind.Writing? then met[kind.name := FileNode(fate.bytes)]
    else if !fate.Works? then met
    else
      match kind
      case Creating(name, node) => if name in met then met else met[name := node]
      case Removing(name) => met - {name}
      case Writing(name, bytes) => met[name := FileNode(bytes)]
      case Linking(name) => if Output in met || name !in met then met else met[Output := met[name]]
      case _ => met
  }

  /** The names this process owns after the step: what it created and has not removed. */
  function Owns(kind: Kind, fate: Fate, met: Files, owned: set<Name>): set<Name> {
    if !fate.Works? then owned
    else
      match kind
      case Creating(name, _) => if name in met then owned else owned + {name}
      case Removing(name) => owned - {name}
      case _ => owned
  }

  /** This process creates hidden names only, and otherwise touches its own. */
  predicate IsAllowed(kind: Kind, owned: set<Name>) {
    match kind
    case Creating(name, _) => name.Hidden? && name !in owned
    case Removing(name) => name in owned
    case Writing(name, _) => name in owned
    case Linking(name) => name in owned
    case Looking(stop) => stop == NotSnapshot || stop == NotOwnerOnly || stop == NotRead
    case Checking => true
  }

  predicate IsStep(s: Step) {
    && IsAllowed(s.kind, s.owned)
    && s.met == Acted(s.before, s.turn.others, s.owned)
    && s.after == Effect(s.kind, s.turn.fate, s.met)
  }

  /** The name a step looks for. */
  function Target(kind: Kind): Name {
    if kind.Creating? then kind.name else Output
  }

  /** Whether the step stops the run, and why. */
  function StopOf(s: Step): Option<Stop> {
    match s.kind
    case Creating(name, _) =>
      if name.Hidden? && (!s.turn.fate.Works? || (name in s.met && name.attempt == ATTEMPTS - 1))
      then Some(NoHiddenName(name.purpose)) else None
    case Writing(_, _) =>
      if s.turn.fate.Fails? || (s.turn.fate.Tears? && s.turn.fate.reported) then Some(NotWritten) else None
    case Looking(stop) => if s.turn.fate.Works? then None else Some(stop)
    case Checking =>
      if !s.turn.fate.Works? then Some(OutputUnknown) else if Output in s.met then Some(OutputSeen) else None
    case Linking(_) =>
      if !s.turn.fate.Works? then Some(NotLinked) else if Output in s.met then Some(OutputSeen) else None
    case Removing(_) => None
  }

  // The trace of a run.

  function TurnAt(course: seq<Turn>, i: nat): Turn {
    if i < |course| then course[i] else IDLE
  }

  /** The steps lead from `start` to `files`, each with its turn of the course. */
  ghost predicate IsTrace(steps: seq<Step>, course: seq<Turn>, start: Files, files: Files, owned: set<Name>) {
    if steps == [] then files == start && owned == {}
    else
      var n := |steps| - 1;
      var last := steps[n];
      && IsStep(last) && last.turn == TurnAt(course, n)
      && files == last.after && owned == Owns(last.kind, last.turn.fate, last.met, last.owned)
      && IsTrace(steps[..n], course, start, last.before, last.owned)
  }

  /** What stopped the run last. */
  ghost function LastStop(steps: seq<Step>): Option<Stop> {
    if steps == [] then None
    else if StopOf(steps[|steps| - 1]).Some? then StopOf(steps[|steps| - 1])
    else LastStop(steps[..|steps| - 1])
  }

  /** The bytes the last torn write left. */
  ghost function LastTorn(steps: seq<Step>): Option<ByteString> {
    if steps == [] then None
    else
      var last := steps[|steps| - 1];
      if last.kind.Writing? && last.turn.fate.Tears? then Some(last.turn.fate.bytes)
      else LastTorn(steps[..|steps| - 1])
  }

  predicate FailsToRemove(s: Step, name: Name) { s.kind == Removing(name) && !s.turn.fate.Works? }

  /** The names whose removal failed. */
  ghost function FailedRemovals(steps: seq<Step>): set<Name> {
    if steps == [] then {}
    else
      var last := steps[|steps| - 1];
      FailedRemovals(steps[..|steps| - 1])
      + if last.kind.Removing? && !last.turn.fate.Works? then {last.kind.name} else {}
  }

  ghost function At(files: Files, name: Name): Option<Node> {
    if name in files then Some(files[name]) else None
  }

  /** Nothing but this process's own names changes, except for new names. */
  ghost predicate IsRespectful(s: Step) {
    forall name <- s.met :: name !in s.owned ==> name in s.after && s.after[name] == s.met[name]
  }

  ghost predicate LeavesOutput(s: Step) { At(s.after, Output) == At(s.met, Output) }

  /** More steps, none of which changes the output. */
  ghost predicate Quietly(steps: seq<Step>, steps': seq<Step>) {
    steps <= steps' && forall i :: |steps| <= i < |steps'| ==> LeavesOutput(steps'[i])
  }

  /** The step that puts a file at an output that is absent. */
  ghost predicate Links(s: Step, bytes: ByteString) {
    Output !in s.met && s.after == s.met[Output := FileNode(bytes)]
  }

  /** Nodes of these names are untouched. */
  ghost predicate Keeps(files: Files, files': Files, names: set<Name>) {
    forall name <- names :: name in files && name in files' && files'[name] == files[name]
  }

  /** The output and the hidden names, without anything else in the directory. */
  ghost function Seen(files: Files): Files {
    map name | name in files && !name.Foreign? :: files[name]
  }

  /** Every step works, and others keep to names of their own. */
  ghost predicate Harmless(script: seq<Turn>) {
    forall turn <- script :: IsHarmless(turn)
  }

  ghost predicate IsHarmless(turn: Turn) {
    turn.fate.Works? && forall act <- turn.others :: act.name.Foreign?
  }

  /** What a write of `archive` left. */
  ghost function Left(archive: ByteString, torn: Option<ByteString>): ByteString {
    if torn.Some? then torn.value else archive
  }

  lemma {:induction false} ActedKeeps(files: Files, acts: seq<Act>, owned: set<Name>)
    requires owned <= files.Keys
    ensures owned <= Acted(files, acts, owned).Keys && Keeps(files, Acted(files, acts, owned), owned)
    decreases |acts|
  {
    if acts != [] {
      ActedKeeps(files, acts[..|acts| - 1], owned);
    }
  }

  lemma {:induction false} ActedUnseen(files: Files, acts: seq<Act>, owned: set<Name>)
    requires forall act <- acts :: act.name.Foreign?
    ensures Seen(Acted(files, acts, owned)) == Seen(files)
    decreases |acts|
  {
    if acts != [] {
      ActedUnseen(files, acts[..|acts| - 1], owned);
      assert acts[|acts| - 1] in acts;
    }
  }

  lemma HarmlessActs(turn: Turn, files: Files, owned: set<Name>)
    requires IsHarmless(turn)
    ensures turn.fate.Works? && Seen(Acted(files, turn.others, owned)) == Seen(files)
  {
    hide Seen, Acted;
    ActedUnseen(files, turn.others, owned);
  }

  lemma IdleIsHarmless()
    ensures IsHarmless(IDLE)
  {
  }

  lemma TraceExtends(
    steps: seq<Step>, s: Step, course: seq<Turn>, start: Files, files: Files, owned: set<Name>)
    requires IsTrace(steps, course, start, files, owned)
    requires IsStep(s) && s.before == files && s.owned == owned && s.turn == TurnAt(course, |steps|)
    ensures IsTrace(steps + [s], course, start, s.after, Owns(s.kind, s.turn.fate, s.met, s.owned))
    ensures LastStop(steps + [s]) == if StopOf(s).Some? then StopOf(s) else LastStop(steps)
    ensures LastTorn(steps + [s]) ==
            if s.kind.Writing? && s.turn.fate.Tears? then Some(s.turn.fate.bytes) else LastTorn(steps)
    ensures FailedRemovals(steps + [s]) ==
            FailedRemovals(steps) + if s.kind.Removing? && !s.turn.fate.Works? then {s.kind.name} else {}
  {
    hide IsStep, StopOf, Owns;
    assert (steps + [s])[..|steps|] == steps;
  }

  /** The names owned after a step are there, hidden, and hold those stuck. */
  lemma StepKeepsOwned(kind: Kind, fate: Fate, met: Files, owned: set<Name>, stuck: set<Name>)
    requires owned <= met.Keys && stuck <= owned && forall name <- owned :: name.Hidden?
    requires IsAllowed(kind, owned) && (kind.Removing? ==> kind.name !in stuck)
    ensures Owns(kind, fate, met, owned) <= Effect(kind, fate, met).Keys
    ensures forall name <- Owns(kind, fate, met, owned) :: name.Hidden?
    ensures stuck + (if kind.Removing? && !fate.Works? then {kind.name} else {}) <= Owns(kind, fate, met, owned)
  {
  }

  class World {
    /** The directory at the start, and everything that happens at the steps. */
    ghost const start: Files
    ghost const course: seq<Turn>
    var files: Files
    /** What is still to happen. */
    var script: seq<Turn>
    /** Names this process created and has not removed. */
    var owned: set<Name>
    /** Every step this process took. */
    ghost var steps: seq<Step>
    /** The names it failed to remove, what stopped it, and what a torn write left. */
    ghost var stuck: set<Name>
    ghost var stop: Option<Stop>
    ghost var torn: Option<ByteString>

    ghost predicate Valid()
      reads this
    {
      && owned <= files.Keys && stuck <= owned
      && (forall name <- owned :: name.Hidden?)
      && Traced()
    }

    /** The files, and all that is recorded, are what the steps made of the start. */
    ghost predicate Traced()
      reads this
    {
      && IsTrace(steps, course, start, files, owned)
      && script == course[Min(|steps|, |course|)..]
      && stuck == FailedRemovals(steps) && stop == LastStop(steps) && torn == LastTorn(steps)
    }

    constructor (files: Files, script: seq<Turn>)
      ensures Valid() && this.files == files && this.script == script && start == files && course == script
      ensures owned == {} && steps == [] && stuck == {} && stop.None? && torn.None?
    {
      start, course := files, script;
      this.files, this.script, owned := files, script, {};
      steps, stuck, stop, torn := [], {}, None, None;
    }

    /** One step: others act, then the step fares as its turn says. */
    method Do(kind: Kind) returns (fate: Fate, there: bool, ghost s: Step)
      requires Valid() && IsAllowed(kind, owned) && (kind.Removing? ==> kind.name !in stuck)
      modifies this
      ensures Valid() && steps == old(steps) + [s] && IsStep(s)
      ensures s.kind == kind && s.owned == old(owned) && s.before == old(files) && s.after == files
      ensures owned == Owns(kind, fate, s.met, old(owned))
      ensures fate == s.turn.fate && there == (Target(kind) in s.met)
      ensures stop == if StopOf(s).Some? then StopOf(s) else old(stop)
      ensures torn == if kind.Writing? && fate.Tears? then Some(fate.bytes) else old(torn)
      ensures stuck == old(stuck) + if kind.Removing? && !fate.Works? then {kind.name} else {}
      ensures Keeps(old(files), s.met, old(owned))
      ensures Harmless(old(script)) ==> Harmless(script) && fate.Works? && Seen(s.met) == Seen(old(files))
    {
      hide StopOf, Seen, IsTrace, LastStop, LastTorn, FailedRemovals, Effect, Owns, IsAllowed, Acted, Keeps, Harmless;
      var turn := NextTurn();
      OthersAct(turn.others);
      if Harmless(old(script)) {
        HarmlessActs(turn, old(files), owned);
      }
      fate := turn.fate;
      there, s := Perform(kind, turn, old(files));
    }

    /** The step itself, once others have acted, and its record. */
    method Perform(kind: Kind, turn: Turn, ghost before: Files) returns (there: bool, ghost s: Step)
      requires owned <= files.Keys && stuck <= owned && forall name <- owned :: name.Hidden?
      requires IsAllowed(kind, owned) && (kind.Removing? ==> kind.name !in stuck)
      requires IsTrace(steps, course, start, before, owned)
      requires turn == TurnAt(course, |steps|) && script == course[Min(|steps| + 1, |course|)..]
      requires stuck == FailedRemovals(steps) && stop == LastStop(steps) && torn == LastTorn(steps)
      requires files == Acted(before, turn.others, owned)
      modifies this`files, this`owned, this`steps, this`stop, this`torn, this`stuck
      ensures Valid() && steps == old(steps) + [s] && IsStep(s)
      ensures s == Step(kind, turn, old(owned), before, old(files), files)
      ensures owned == Owns(kind, turn.fate, old(files), old(owned)) && there == (Target(kind) in old(files))
      ensures stop == if StopOf(s).Some? then StopOf(s) else old(stop)
      ensures torn == if kind.Writing? && turn.fate.Tears? then Some(turn.fate.bytes) else old(torn)
      ensures stuck == old(stuck) + if kind.Removing? && !turn.fate.Works? then {kind.name} else {}
    {
      hide StopOf, IsTrace, LastStop, LastTorn, FailedRemovals, Effect, Owns, IsAllowed, Acted;
      there := Target(kind) in files;
      s := Step(kind, turn, owned, before, files, Effect(kind, turn.fate, files));
      TraceExtends(steps, s, course, start, before, owned);
      StepKeepsOwned(kind, turn.fate, files, owned, stuck);
      owned := Owns(kind, turn.fate, files, owned);
      files := Effect(kind, turn.fate, files);
      steps := steps + [s];
      stop := if StopOf(s).Some? then StopOf(s) else stop;
      torn := if kind.Writing? && turn.fate.Tears? then Some(turn.fate.bytes) else torn;
      stuck := stuck + if kind.Removing? && !turn.fate.Works? then {kind.name} else {};
    }

    /** Takes the next turn off the script. */
    method NextTurn() returns (turn: Turn)
      requires script == course[Min(|steps|, |course|)..]
      modifies this`script
      ensures turn == TurnAt(course, |steps|) && script == course[Min(|steps| + 1, |course|)..]
      ensures Harmless(old(script)) ==> Harmless(script) && IsHarmless(turn)
    {
      hide IsHarmless;
      if script == [] {
        IdleIsHarmless();
        return IDLE;
      }
      turn := script[0];
      assert turn in script;
      script := script[1..];
    }

    method OthersAct(acts: seq<Act>)
      requires owned <= files.Keys
      modifies this`files
      ensures files == Acted(old(files), acts, owned)
      ensures owned <= files.Keys && Keeps(old(files), files, owned)
    {
      for i := 0 to |acts|
        invariant files == Acted(old(files), acts[..i], owned)
      {
        assert acts[..i + 1][..i] == acts[..i];
        files := ActOn(files, acts[i], owned);
      }
      assert acts[..|acts|] == acts;
      ActedKeeps(old(files), acts, owned);
    }
  }
}
