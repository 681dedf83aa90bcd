/**
 Admin calls that interleave: each call reads its target row, and later runs one guarded write
 transaction. Transactions are serialised by the row locks of the guard; between a call's read and
 its write any other call may commit.
 */
module AdminRuns {
  import opened Common
  import opened AdminAccounts

  datatype State = State(rows: seq<Row>, calls: map<nat, (Op, Row)>)

  datatype Step =
    | Insert(row: Row)
    | Fetch(call: nat, op: Op, username: string)
    | WriteBack(call: nat)
    | WriteUnsigned(username: string, w: Write)

  /** A fetch refuses a row whose signature does not verify, unless the call is there to repair it. */
  predicate Enabled(sign: Signer, s: State, step: Step) {
    match step
    case Insert(_) => true
    case Fetch(call, op, username) =>
      && call !in s.calls && Find(s.rows, username).Some?
      && (op.ResetSignature? || Verifies(sign, s.rows[Find(s.rows, username).value]))
    case WriteBack(call) => call in s.calls
    case WriteUnsigned(_, w) => w.SetNotify? || w.SetEmail? || w.Nothing?
  }

  function Apply(sign: Signer, s: State, step: Step): State
    requires Enabled(sign, s, step)
  {
    match step
    case Insert(row) => if Find(s.rows, row.username).Some? then s else s.(rows := s.rows + [row])
    case Fetch(call, op, username) => s.(calls := s.calls[call := (op, s.rows[Find(s.rows, username).value])])
    case WriteBack(call) =>
      var (op, read) := s.calls[call];
      s.(rows := Commit(sign, s.rows, op, read), calls := s.calls - {call})
    case WriteUnsigned(username, w) => s.(rows := Write1(s.rows, username, w))
  }

  ghost predicate Run(sign: Signer, init: seq<Row>, states: seq<State>, steps: seq<Step>) {
    && |states| == |steps| + 1 && states[0] == State(init, map[])
    && forall k {:trigger steps[k]} :: 0 <= k < |steps| ==>
         Enabled(sign, states[k], steps[k]) && states[k + 1] == Apply(sign, states[k], steps[k])
  }

  /** Would the write take an active SUPER_ADMIN's power away? */
  predicate Demotes(op: Op, read: Row) {
    match op
    case ChangeRole(role) => role != SuperAdmin
    case Delete => true
    case Revoke => true
    case Permit(active) => active == Some(false) && read.active
    case _ => false
  }

  /** The named account is the only active SUPER_ADMIN. */
  predicate IsOnlySuper(rows: seq<Row>, username: string) {
    HasActiveSuper(rows) && forall i :: 0 <= i < |rows| && ActiveSuper(rows[i]) ==> rows[i].username == username
  }

  /** What the guard relies on: a target that is an active SUPER_ADMIN now was read as one, with the same id. */
  predicate TargetStable(rows: seq<Row>, read: Row) {
    forall i :: 0 <= i < |rows| && rows[i].username == read.username && ActiveSuper(rows[i]) ==>
      ActiveSuper(read) && rows[i].id == read.id
  }

  lemma WriteSparesOthers(rows: seq<Row>, username: string, w: Write, i: nat)
    requires i < |rows| && rows[i].username != username
    ensures rows[i] in Write1(rows, username, w)
  {
    var at := Find(rows, username);
    if at.Some? {
      var result := Write1(rows, username, w);
      assert result[if w.Remove? && at.value < i then i - 1 else i] == rows[i];
    }
  }

  lemma InSuper(rows: seq<Row>, r: Row)
    requires r in rows && ActiveSuper(r)
    ensures HasActiveSuper(rows)
  {
    var i :| 0 <= i < |rows| && rows[i] == r;
  }

  /** A write that does not demote keeps an active SUPER_ADMIN where there was one. */
  lemma HarmlessKeeps(rows: seq<Row>, username: string, w: Write)
    requires HasActiveSuper(rows) && !w.Remove?
    requires w.SetRole? ==> w.role == SuperAdmin
    requires w.SetActive? ==> w.active
    ensures HasActiveSuper(Write1(rows, username, w))
  {
    var i :| 0 <= i < |rows| && ActiveSuper(rows[i]);
    var at := Find(rows, username);
    if at.Some? {
      assert ActiveSuper(Write1(rows, username, w)[i]);
    }
  }

  /**
   One write transaction, exactly: the table loses its last active SUPER_ADMIN if and only if the call
   demotes the only one and its earlier read was not that very active SUPER_ADMIN (same id).
   */
  lemma CommitExact(sign: Signer, rows: seq<Row>, op: Op, read: Row)
    requires UniqueNames(rows) && HasActiveSuper(rows)
    ensures !HasActiveSuper(Commit(sign, rows, op, read)) <==>
            Demotes(op, read) && IsOnlySuper(rows, read.username) && !TargetStable(rows, read)
  {
    var after := Commit(sign, rows, op, read);
    var w := WriteOf(sign, op, read);
    if !Demotes(op, read) {
      HarmlessKeeps(rows, read.username, w);
    } else if IsOnlySuper(rows, read.username) {
      var t :| 0 <= t < |rows| && ActiveSuper(rows[t]);
      if TargetStable(rows, read) {
        assert WouldBeLast(rows, read.id);
      } else {
        OnlySuperStruck(sign, rows, op, read, t);
      }
    } else {
      var i :| 0 <= i < |rows| && ActiveSuper(rows[i]) && rows[i].username != read.username;
      WriteSparesOthers(rows, read.username, w, i);
      InSuper(Write1(rows, read.username, w), rows[i]);
    }
  }

  lemma OnlySuperStruck(sign: Signer, rows: seq<Row>, op: Op, read: Row, t: nat)
    requires UniqueNames(rows) && t < |rows| && ActiveSuper(rows[t]) && IsOnlySuper(rows, read.username)
    requires Demotes(op, read) && !TargetStable(rows, read)
    ensures !HasActiveSuper(Commit(sign, rows, op, read))
  {
    assert !Refused(rows, op, read);
    var w := WriteOf(sign, op, read);
    assert Find(rows, read.username) == Some(t);
    assert forall i :: 0 <= i < |rows| && i != t ==> !ActiveSuper(rows[i]);
  }

  ghost predicate StableRun(states: seq<State>, steps: seq<Step>) {
    |states| == |steps| + 1 &&
    forall k {:trigger steps[k]} :: 0 <= k < |steps| && steps[k].WriteBack? && steps[k].call in states[k].calls ==>
      TargetStable(states[k].rows, states[k].calls[steps[k].call].1)
  }

  lemma StepKeepsSuper(sign: Signer, s: State, step: Step)
    requires Enabled(sign, s, step) && UniqueNames(s.rows) && HasActiveSuper(s.rows)
    requires step.WriteBack? ==> TargetStable(s.rows, s.calls[step.call].1)
    ensures UniqueNames(Apply(sign, s, step).rows) && HasActiveSuper(Apply(sign, s, step).rows)
  {
    match step
    case Insert(row) =>
      var i :| 0 <= i < |s.rows| && ActiveSuper(s.rows[i]);
      InSuper(Apply(sign, s, step).rows, s.rows[i]);
    case WriteBack(call) =>
      var (op, read) := s.calls[call];
      CommitExact(sign, s.rows, op, read);
      WriteKeepsNames(s.rows, read.username, WriteOf(sign, op, read));
    case WriteUnsigned(username, w) =>
      HarmlessKeeps(s.rows, username, w);
      WriteKeepsNames(s.rows, username, w);
    case _ =>
  }

  /** Every interleaved run keeps an active SUPER_ADMIN, as long as no target changes into one behind its call's back. */
  lemma {:induction false} RunKeepsSuper(sign: Signer, init: seq<Row>, states: seq<State>, steps: seq<Step>, k: nat)
    requires Run(sign, init, states, steps) && StableRun(states, steps) && k <= |steps|
    requires UniqueNames(init) && HasActiveSuper(init)
    ensures UniqueNames(states[k].rows) && HasActiveSuper(states[k].rows)
  {
    if k > 0 {
      RunKeepsSuper(sign, init, states, steps, k - 1);
      var step := steps[k - 1];
      StepKeepsSuper(sign, states[k - 1], step);
    }
  }

  /** Calls executed one at a time need no such assumption: each one reads the row it then writes. */
  lemma SequentialKeepsSuper(sign: Signer, rows: seq<Row>, call: Call, id: int, proceeds: bool)
    requires UniqueNames(rows) && HasActiveSuper(rows)
    ensures HasActiveSuper(Perform(sign, rows, call, id, proceeds).0)
  {
    if call.AddAdmin? {
      var i :| 0 <= i < |rows| && ActiveSuper(rows[i]);
      InSuper(Perform(sign, rows, call, id, proceeds).0, rows[i]);
    } else if Perform(sign, rows, call, id, proceeds).1 == Done {
      var read := rows[Find(rows, call.username).value];
      CommitExact(sign, rows, OpOf(call), read);
      HarmlessKeeps(Commit(sign, rows, OpOf(call), read), call.username, UnsignedOf(call));
    }
  }

  // ---- What the assumption is for -------------------------------------------------------------

  /** An active account whose signature verifies. */
  function Account(sign: Signer, id: int, username: string, role: Role): (r: Row)
    ensures Verifies(sign, r)
  {
    Row(id, username, "", None, role, true, SILENT, sign(Signed(username, "", role, true)))
  }

  /** A run from signed accounts, one of them an active SUPER_ADMIN, that ends without any. */
  ghost predicate LosesSuper(sign: Signer, init: seq<Row>, states: seq<State>, steps: seq<Step>) {
    && Run(sign, init, states, steps)
    && UniqueNames(init) && HasActiveSuper(init) && (forall r :: r in init ==> Verifies(sign, r))
    && !HasActiveSuper(states[|steps|].rows)
  }

  /** Two accounts, and the call of each with what it read, if it is under way. */
  lemma PairOf(a: Row, b: Row)
    requires a.username != b.username
    ensures Find([a, b], a.username) == Some(0) && Find([a, b], b.username) == Some(1)
    ensures Find([b], b.username) == Some(0) && Find([a], a.username) == Some(0) && Find([a], b.username) == None
    ensures UniqueNames([a, b])
  {
    assert [a, b][0] == a && [a, b][1] == b;
  }

  /** Deleting the first of two active SUPER_ADMINs is allowed, and leaves the second. */
  lemma DeleteFirst(sign: Signer, a: Row, b: Row)
    requires a.username != b.username && a.id != b.id && ActiveSuper(a) && ActiveSuper(b)
    ensures Commit(sign, [a, b], Delete, a) == [b] && Commit(sign, [a, b], Delete, b) == [a]
  {
    PairOf(a, b);
    assert [a, b][0] == a && [a, b][1] == b;
  }

  ghost predicate Leads(sign: Signer, a: State, step: Step, b: State) {
    Enabled(sign, a, step) && b == Apply(sign, a, step)
  }

  lemma FetchLeads(sign: Signer, rows: seq<Row>, calls: map<nat, (Op, Row)>, call: nat, op: Op, i: nat)
    requires call !in calls && i < |rows| && Find(rows, rows[i].username) == Some(i) && Verifies(sign, rows[i])
    ensures Leads(sign, State(rows, calls), Fetch(call, op, rows[i].username), State(rows, calls[call := (op, rows[i])]))
  {
  }

  lemma WriteLeads(sign: Signer, rows: seq<Row>, calls: map<nat, (Op, Row)>, call: nat, after: seq<Row>, left: map<nat, (Op, Row)>)
    requires call in calls && after == Commit(sign, rows, calls[call].0, calls[call].1) && left == calls - {call}
    ensures Leads(sign, State(rows, calls), WriteBack(call), State(after, left))
  {
  }

  lemma InsertLeads(sign: Signer, rows: seq<Row>, calls: map<nat, (Op, Row)>, row: Row)
    requires Find(rows, row.username).None?
    ensures Leads(sign, State(rows, calls), Insert(row), State(rows + [row], calls))
  {
  }

  lemma RunOf(sign: Signer, init: seq<Row>, states: seq<State>, steps: seq<Step>)
    requires |states| == |steps| + 1 && states[0] == State(init, map[])
    requires forall k {:trigger steps[k]} :: 0 <= k < |steps| ==> Leads(sign, states[k], steps[k], states[k + 1])
    ensures Run(sign, init, states, steps)
  {
  }

  /**
   Call 1 reads b as an ADMIN; b is promoted and a deleted by two other calls; call 1 then takes b's role,
   unguarded, because it did not read b as an active SUPER_ADMIN.
   */
  lemma PromotedBetween(sign: Signer) returns (init: seq<Row>, states: seq<State>, steps: seq<Step>)
    ensures LosesSuper(sign, init, states, steps)
    ensures steps == [Fetch(1, ChangeRole(User), "b"), Fetch(2, ChangeRole(SuperAdmin), "b"), WriteBack(2),
                      Fetch(3, Delete, "a"), WriteBack(3), WriteBack(1)]
  {
    var a, b := Account(sign, 1, "a", SuperAdmin), Account(sign, 2, "b", Admin);
    var promoted, demoted := Account(sign, 2, "b", SuperAdmin), Account(sign, 2, "b", User);
    var one, two, three := (ChangeRole(User), b), (ChangeRole(SuperAdmin), b), (Delete, a);
    init := [a, b];
    PromotedCommits(sign, a, b, promoted, demoted);
    FetchLeads(sign, [a, b], map[], 1, one.0, 1);
    FetchLeads(sign, [a, b], map[1 := one], 2, two.0, 1);
    WriteLeads(sign, [a, b], map[1 := one, 2 := two], 2, [a, promoted], map[1 := one]);
    FetchLeads(sign, [a, promoted], map[1 := one], 3, three.0, 0);
    WriteLeads(sign, [a, promoted], map[1 := one, 3 := three], 3, [promoted], map[1 := one]);
    WriteLeads(sign, [promoted], map[1 := one], 1, [demoted], map[]);
    steps := [Fetch(1, ChangeRole(User), "b"), Fetch(2, ChangeRole(SuperAdmin), "b"), WriteBack(2),
              Fetch(3, Delete, "a"), WriteBack(3), WriteBack(1)];
    states := [State([a, b], map[]), State([a, b], map[1 := one]), State([a, b], map[1 := one, 2 := two]),
               State([a, promoted], map[1 := one]), State([a, promoted], map[1 := one, 3 := three]),
               State([promoted], map[1 := one]), State([demoted], map[])];
    RunOf(sign, init, states, steps);
  }

  lemma PromotedCommits(sign: Signer, a: Row, b: Row, promoted: Row, demoted: Row)
    requires a == Account(sign, 1, "a", SuperAdmin) && b == Account(sign, 2, "b", Admin)
    requires promoted == Account(sign, 2, "b", SuperAdmin) && demoted == Account(sign, 2, "b", User)
    ensures Find([a, b], "b") == Some(1) && Find([a, promoted], "a") == Some(0)
    ensures UniqueNames([a, b]) && HasActiveSuper([a, b]) && !HasActiveSuper([demoted])
    ensures Commit(sign, [a, b], ChangeRole(SuperAdmin), b) == [a, promoted]
    ensures Commit(sign, [a, promoted], Delete, a) == [promoted]
    ensures Commit(sign, [promoted], ChangeRole(User), b) == [demoted]
  {
    PairOf(a, b);
    PairOf(a, promoted);
    DeleteFirst(sign, a, promoted);
    assert [a, b][0] == a && [a, b][1] == b;
  }

  /**
   Call 1 reads b; b is deleted and added again, under a new id, and a deleted; call 1 then takes the new
   b's role: the guard asks whether the old id would be missed, the write goes by username.
   */
  lemma ReaddedBetween(sign: Signer) returns (init: seq<Row>, states: seq<State>, steps: seq<Step>)
    ensures LosesSuper(sign, init, states, steps)
    ensures steps == [Fetch(1, ChangeRole(User), "b"), Fetch(2, Delete, "b"), WriteBack(2),
                      Insert(Account(sign, 3, "b", SuperAdmin)), Fetch(3, Delete, "a"), WriteBack(3), WriteBack(1)]
  {
    var a, b := Account(sign, 1, "a", SuperAdmin), Account(sign, 2, "b", SuperAdmin);
    var again, demoted := Account(sign, 3, "b", SuperAdmin), Account(sign, 3, "b", User);
    var one, two, three := (ChangeRole(User), b), (Delete, b), (Delete, a);
    init := [a, b];
    ReaddedCommits(sign, a, b, again, demoted);
    FetchLeads(sign, init, map[], 1, one.0, 1);
    FetchLeads(sign, init, map[1 := one], 2, two.0, 1);
    WriteLeads(sign, init, map[1 := one, 2 := two], 2, [a], map[1 := one]);
    InsertLeads(sign, [a], map[1 := one], again);
    FetchLeads(sign, [a, again], map[1 := one], 3, three.0, 0);
    WriteLeads(sign, [a, again], map[1 := one, 3 := three], 3, [again], map[1 := one]);
    WriteLeads(sign, [again], map[1 := one], 1, [demoted], map[]);
    steps := [Fetch(1, ChangeRole(User), "b"), Fetch(2, Delete, "b"), WriteBack(2),
              Insert(again), Fetch(3, Delete, "a"), WriteBack(3), WriteBack(1)];
    states := [State([a, b], map[]), State([a, b], map[1 := one]), State([a, b], map[1 := one, 2 := two]),
               State([a], map[1 := one]), State([a, again], map[1 := one]), State([a, again], map[1 := one, 3 := three]),
               State([again], map[1 := one]), State([demoted], map[])];
    RunOf(sign, init, states, steps);
  }

  lemma ReaddedCommits(sign: Signer, a: Row, b: Row, again: Row, demoted: Row)
    requires a == Account(sign, 1, "a", SuperAdmin) && b == Account(sign, 2, "b", SuperAdmin)
    requires again == Account(sign, 3, "b", SuperAdmin) && demoted == Account(sign, 3, "b", User)
    ensures Find([a, b], "b") == Some(1) && Find([a, again], "a") == Some(0)
    ensures Find([a], "b") == None && [a] + [again] == [a, again]
    ensures UniqueNames([a, b]) && HasActiveSuper([a, b]) && !HasActiveSuper([demoted])
    ensures Commit(sign, [a, b], Delete, b) == [a]
    ensures Commit(sign, [a, again], Delete, a) == [again]
    ensures Commit(sign, [again], ChangeRole(User), b) == [demoted]
  {
    PairOf(a, b);
    PairOf(a, again);
    DeleteFirst(sign, a, b);
    DeleteFirst(sign, a, again);
    assert [a, b][0] == a && [again][0] == again && !WouldBeLast([again], b.id);
  }
}
