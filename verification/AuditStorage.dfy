/**
 Where audit writes go: the database, or the log file after a permanent downgrade. A database write may
 still be in flight when another one fails, so each write is a begin step and a finish step.
 */
module AuditStorage {
  import opened Common

  datatype Mode = Db | File | AutoPending | AutoFile

  type Id = int

  datatype State = State(mode: Mode, inFlight: set<Id>, inDb: set<Id>, inFile: set<Id>, thrown: set<Id>)

  datatype Event = Begin(id: Id) | Finish(id: Id, fails: bool)

  predicate UseFile(m: Mode) { m.File? || m.AutoFile? }

  function ModeOf(setting: string): Mode {
    if setting == "db" then Db else if setting == "file" then File else AutoPending
  }

  /**
   `writeWithFallback` for one record, or for one batch that stays together, as the interpreter can interleave
   it. The batching caller puts what was thrown back in its queue and begins it again later.
   */
  function Next(s: State, e: Event): State {
    match e
    case Begin(id) =>
      var taken := s.(thrown := s.thrown - {id});
      if UseFile(s.mode) then taken.(inFile := s.inFile + {id}) else taken.(inFlight := s.inFlight + {id})
    case Finish(id, fails) =>
      var landed := s.(inFlight := s.inFlight - {id});
      if id !in s.inFlight then s
      else if !fails then landed.(inDb := s.inDb + {id})
      else if !s.mode.AutoPending? then landed.(thrown := s.thrown + {id})
      else landed.(mode := AutoFile, inFile := s.inFile + {id})
  }

  predicate Seen(s: State, id: Id) { id in s.inFlight || id in s.inDb || id in s.inFile || id in s.thrown }

  /** Nothing stored or in flight is begun again; what was thrown may be. */
  predicate MayBegin(s: State, id: Id) { id !in s.inFlight && id !in s.inDb && id !in s.inFile }

  predicate Run(start: Mode, states: seq<State>, events: seq<Event>) {
    && |states| == |events| + 1
    && states[0] == State(start, {}, {}, {}, {})
    && forall k {:trigger events[k]} :: 0 <= k < |events| ==>
         && states[k + 1] == Next(states[k], events[k])
         && (events[k].Begin? ==> MayBegin(states[k], events[k].id))
  }

  predicate Apart(s: State) {
    && s.inFlight !! s.inDb && s.inFlight !! s.inFile && s.inFlight !! s.thrown
    && s.inDb !! s.inFile && s.inDb !! s.thrown && s.inFile !! s.thrown
  }

  /** The write of `events[k]` really fails at the database. */
  predicate FailsAt(states: seq<State>, events: seq<Event>, k: int)
    requires |states| == |events| + 1 && 0 <= k < |events|
  {
    events[k].Finish? && events[k].fails && events[k].id in states[k].inFlight
  }

  predicate FailedBefore(states: seq<State>, events: seq<Event>, j: int)
    requires |states| == |events| + 1 && j <= |events|
  {
    exists k :: 0 <= k < j && FailsAt(states, events, k)
  }

  /** In every reachable state each record begun is in exactly one place. */
  lemma {:induction false} OnePlace(start: Mode, states: seq<State>, events: seq<Event>, j: nat)
    requires Run(start, states, events) && j < |states|
    ensures Apart(states[j])
    ensures forall k {:trigger events[k]} :: 0 <= k < j && events[k].Begin? ==> Seen(states[j], events[k].id)
  {
    if j > 0 {
      var last := events[j - 1];
      OnePlace(start, states, events, j - 1);
    }
  }

  /** The mode tells whether a failure has happened: the downgrade is permanent and comes with the first. */
  lemma {:induction false} DowngradeExact(states: seq<State>, events: seq<Event>, j: nat)
    requires Run(AutoPending, states, events) && j < |states|
    ensures states[j].mode == AutoPending || states[j].mode == AutoFile
    ensures states[j].mode == AutoFile <==> FailedBefore(states, events, j)
  {
    if j > 0 {
      var last := events[j - 1];
      DowngradeExact(states, events, j - 1);
      assert FailsAt(states, events, j - 1) ==> FailedBefore(states, events, j);
      assert FailedBefore(states, events, j) ==> FailsAt(states, events, j - 1) || FailedBefore(states, events, j - 1);
    }
  }

  /**
   In auto mode a failing write throws, and its record is stored nowhere unless its caller tries again,
   exactly when another write had failed before it: only the first failure is redirected to the file.
   */
  lemma LostExact(states: seq<State>, events: seq<Event>, j: nat)
    requires Run(AutoPending, states, events) && j < |events| && FailsAt(states, events, j)
    ensures events[j].id in states[j + 1].thrown <==> FailedBefore(states, events, j)
    ensures events[j].id in states[j + 1].inFile <==> !FailedBefore(states, events, j)
  {
    var now := events[j];
    DowngradeExact(states, events, j);
    OnePlace(AutoPending, states, events, j);
  }

  lemma {:induction false} FileKeeps(start: Mode, states: seq<State>, events: seq<Event>, i: nat, j: nat, id: Id)
    requires Run(start, states, events) && i <= j < |states| && id in states[i].inFile
    ensures id in states[j].inFile
  {
    if i < j {
      var last := events[j - 1];
      FileKeeps(start, states, events, i, j - 1, id);
    }
  }

  lemma {:induction false} ThrownIsDowngraded(states: seq<State>, events: seq<Event>, j: nat)
    requires Run(AutoPending, states, events) && j < |states| && states[j].thrown != {}
    ensures states[j].mode == AutoFile
  {
    if j > 0 {
      var last := events[j - 1];
      DowngradeExact(states, events, j - 1);
      if states[j - 1].thrown != {} {
        ThrownIsDowngraded(states, events, j - 1);
      }
    }
  }

  /**
   What was thrown in auto mode is only delayed for a caller that tries again: the second attempt finds the
   downgrade done, so it is in the file at once, for good, and is never thrown again.
   */
  lemma RetryLands(states: seq<State>, events: seq<Event>, k: nat, j: nat)
    requires Run(AutoPending, states, events) && k < j < |states|
    requires events[k].Begin? && events[k].id in states[k].thrown
    ensures events[k].id in states[j].inFile && events[k].id !in states[j].thrown
  {
    ThrownIsDowngraded(states, events, k);
    FileKeeps(AutoPending, states, events, k + 1, j, events[k].id);
    OnePlace(AutoPending, states, events, j);
  }

  /** One write at a time: nothing else is in flight when a write begins. */
  predicate OneAtATime(states: seq<State>, events: seq<Event>) {
    |states| == |events| + 1
    && forall k {:trigger events[k]} :: 0 <= k < |events| && events[k].Begin? ==> states[k].inFlight == {}
  }

  lemma OnlyMember(ids: set<Id>, id: Id)
    requires |ids| <= 1 && id in ids
    ensures ids - {id} == {}
  {
    assert |ids - {id}| == 0;
  }

  /** Then auto mode loses nothing: every record begun and finished is in the database or in the file. */
  lemma {:induction false} SequentialLosesNothing(states: seq<State>, events: seq<Event>, j: nat)
    requires Run(AutoPending, states, events) && OneAtATime(states, events) && j < |states|
    ensures states[j].thrown == {}
    ensures states[j].mode == AutoPending || (states[j].mode == AutoFile && states[j].inFlight == {})
    ensures |states[j].inFlight| <= 1
    ensures forall k {:trigger events[k]} :: 0 <= k < j && events[k].Begin? ==>
              events[k].id in states[j].inFlight + states[j].inDb + states[j].inFile
  {
    OnePlace(AutoPending, states, events, j);
    if j > 0 {
      var last := events[j - 1];
      SequentialLosesNothing(states, events, j - 1);
      if last.Finish? && last.id in states[j - 1].inFlight {
        OnlyMember(states[j - 1].inFlight, last.id);
      }
    }
  }

  /** Two writes in flight, both refused: the second record is neither in the database nor in the file. */
  lemma OverlapLoses() returns (states: seq<State>, events: seq<Event>)
    ensures Run(AutoPending, states, events) && |events| == 4
    ensures states[4].inFile == {1} && states[4].thrown == {2} && states[4].inDb == {}
  {
    events := [Begin(1), Begin(2), Finish(1, true), Finish(2, true)];
    var s0 := State(AutoPending, {}, {}, {}, {});
    var s1 := Next(s0, events[0]);
    var s2 := Next(s1, events[1]);
    var s3 := Next(s2, events[2]);
    states := [s0, s1, s2, s3, Next(s3, events[3])];
  }

  /** Database mode never touches the file, file mode never the database; neither ever changes. */
  lemma {:induction false} FixedModesStay(start: Mode, states: seq<State>, events: seq<Event>, j: nat)
    requires Run(start, states, events) && j < |states| && (start.Db? || start.File?)
    ensures states[j].mode == start
    ensures start.Db? ==> states[j].inFile == {}
    ensures start.File? ==> states[j].inDb == {} && states[j].inFlight == {} && states[j].thrown == {}
  {
    if j > 0 {
      var last := events[j - 1];
      FixedModesStay(start, states, events, j - 1);
    }
  }

  /**
   What the setting decides over every run: "file" writes nothing to the database, "db" nothing to the file and
   throws what fails, and any other setting sends the first failure, and every write after it, to the file.
   */
  lemma SettingDecides(setting: string, states: seq<State>, events: seq<Event>, j: nat)
    requires Run(ModeOf(setting), states, events) && j < |events|
    ensures setting == "file" ==> states[j].inDb == {} && states[j].inFlight == {} && states[j].thrown == {}
    ensures setting == "db" ==> states[j].inFile == {}
    ensures setting == "db" && FailsAt(states, events, j) ==> events[j].id in states[j + 1].thrown
    ensures setting != "db" && setting != "file" && FailsAt(states, events, j) && !FailedBefore(states, events, j) ==>
              events[j].id in states[j + 1].inFile
    ensures setting != "db" && setting != "file" && events[j].Begin? && FailedBefore(states, events, j) ==>
              events[j].id in states[j + 1].inFile
  {
    var now := events[j];
    if setting == "db" || setting == "file" {
      FixedModesStay(ModeOf(setting), states, events, j);
    } else {
      DowngradeExact(states, events, j);
      OnePlace(AutoPending, states, events, j);
    }
  }

  /** The process-wide mode as the module keeps it: resolved on first use, then only ever downgraded. */
  class Storage {
    const setting: string
    var resolved: Option<Mode>

    constructor (setting: string)
      ensures this.setting == setting && resolved == None
    {
      this.setting, resolved := setting, None;
    }

    ghost function Mode(): Mode reads this {
      if resolved.Some? then resolved.value else ModeOf(setting)
    }

    method StorageMode() returns (m: Mode)
      modifies this`resolved
      ensures m == old(Mode()) == Mode() && resolved == Some(m)
    {
      if resolved.None? {
        resolved := Some(ModeOf(setting));
      }
      m := resolved.value;
    }

    /** `dbFails` is what the database does to this write if it is attempted. */
    method WriteWithFallback(dbFails: bool) returns (inDb: bool, inFile: bool, throws: bool)
      modifies this`resolved
      ensures inDb <==> !UseFile(old(Mode())) && !dbFails
      ensures inFile <==> UseFile(old(Mode())) || (old(Mode()).AutoPending? && dbFails)
      ensures throws <==> old(Mode()).Db? && dbFails
      ensures Mode() == if old(Mode()).AutoPending? && dbFails then AutoFile else old(Mode())
    {
      inDb, inFile, throws := false, false, false;
      var m := StorageMode();
      if UseFile(m) {
        inFile := true;
        return;
      }
      if !dbFails {
        inDb := true;
        return;
      }
      m := StorageMode();
      if !m.AutoPending? {
        throws := true;
        return;
      }
      resolved := Some(AutoFile);
      inFile := true;
    }
  }
}
