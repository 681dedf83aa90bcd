/**
 Privileged accounts: role policy, tamper-evident signatures and the last-SUPER_ADMIN guard.

 A signature is `sign` of the four signed columns; `sign` itself is left uninterpreted. `Perform`
 is one service call executed on its own; `AdminService` is its in-place form.
 */
module AdminAccounts {
  import opened Common

  datatype Role = SuperAdmin | Admin | User

  datatype Notify = Notify(critical: bool, dependencies: bool, redMetrics: bool, system: bool)

  const SILENT := Notify(false, false, false, false)

  /** Notification flags to change; absent ones stay. */
  datatype Flags = Flags(critical: Option<bool>, dependencies: Option<bool>, redMetrics: Option<bool>, system: Option<bool>)

  function Or(update: Option<bool>, current: bool): bool { if update.Some? then update.value else current }

  function Flagged(n: Notify, f: Flags): Notify {
    Notify(Or(f.critical, n.critical), Or(f.dependencies, n.dependencies),
           Or(f.redMetrics, n.redMetrics), Or(f.system, n.system))
  }

  datatype Row = Row(
    id: int, username: string, password: string, email: Option<string>, role: Role, active: bool,
    notify: Notify, signature: string)

  datatype Signed = Signed(username: string, password: string, role: Role, active: bool)

  type Signer = Signed -> string

  function SignedFields(r: Row): Signed { Signed(r.username, r.password, r.role, r.active) }

  predicate Verifies(sign: Signer, r: Row) { r.signature == sign(SignedFields(r)) }

  predicate ActiveSuper(r: Row) { r.role == SuperAdmin && r.active }

  predicate HasActiveSuper(rows: seq<Row>) { exists i :: 0 <= i < |rows| && ActiveSuper(rows[i]) }

  predicate UniqueNames(rows: seq<Row>) {
    forall i, j :: 0 <= i < j < |rows| ==> rows[i].username != rows[j].username
  }

  function Find(rows: seq<Row>, username: string): (r: Option<nat>)
    ensures r.Some? ==> r.value < |rows| && rows[r.value].username == username
                        && forall i :: 0 <= i < r.value ==> rows[i].username != username
    ensures r.None? <==> forall i :: 0 <= i < |rows| ==> rows[i].username != username
  {
    if |rows| == 0 then None
    else if rows[0].username == username then Some(0)
    else
      var t := Find(rows[1..], username);
      assert forall i :: 1 <= i < |rows| ==> rows[i] == rows[1..][i - 1];
      if t.None? then None else Some(t.value + 1)
  }

  // ---- Operations on an existing account ---------------------------------------------------

  datatype Op =
    | ChangeRole(role: Role)
    | ResetPassword(password: string)
    | ResetSignature
    | Delete
    | Revoke
    | Permit(active: Option<bool>)

  /** What a call writes to the row of its username. */
  datatype Write =
    | Nothing
    | Remove
    | SetRole(role: Role, signature: string)
    | SetActive(active: bool, signature: string, silence: bool)
    | SetCredentials(password: string, signature: string)
    | SetNotify(flags: Flags)
    | SetEmail(email: string)

  function Touch(r: Row, w: Write): Row {
    match w
    case Nothing => r
    case Remove => r
    case SetRole(role, signature) => r.(role := role, signature := signature)
    case SetActive(active, signature, silence) =>
      r.(active := active, signature := signature, notify := if silence then SILENT else r.notify)
    case SetCredentials(password, signature) => r.(password := password, signature := signature)
    case SetNotify(flags) => r.(notify := Flagged(r.notify, flags))
    case SetEmail(email) => r.(email := if email == "" then None else Some(email))
  }

  /** The write a call computes from the row it has read. */
  function WriteOf(sign: Signer, op: Op, read: Row): Write {
    match op
    case ChangeRole(role) => SetRole(role, sign(SignedFields(read.(role := role))))
    case ResetPassword(password) => SetCredentials(password, sign(SignedFields(read.(password := password))))
    case ResetSignature => SetCredentials(read.password, sign(SignedFields(read)))
    case Delete => Remove
    case Revoke => SetActive(false, sign(SignedFields(read.(active := false))), true)
    case Permit(active) =>
      if active.Some? && active.value != read.active
      then SetActive(active.value, sign(SignedFields(read.(active := active.value))), false) else Nothing
  }

  function Write1(rows: seq<Row>, username: string, w: Write): seq<Row> {
    match Find(rows, username)
    case None => rows
    case Some(i) => if w.Remove? then rows[..i] + rows[i + 1..] else rows[i := Touch(rows[i], w)]
  }

  /** Is the guard taken? Only when the call takes power away from what it read as an active SUPER_ADMIN. */
  predicate Guarded(op: Op, read: Row) {
    && ActiveSuper(read)
    && match op
       case ChangeRole(role) => role != SuperAdmin
       case Delete => true
       case Revoke => true
       case Permit(active) => active == Some(false)
       case _ => false
  }

  /** The guard's verdict: the active SUPER_ADMIN ids include the target id and no other id. */
  predicate WouldBeLast(rows: seq<Row>, id: int) {
    && (exists i :: 0 <= i < |rows| && ActiveSuper(rows[i]) && rows[i].id == id)
    && forall i :: 0 <= i < |rows| && ActiveSuper(rows[i]) ==> rows[i].id == id
  }

  predicate Refused(rows: seq<Row>, op: Op, read: Row) { Guarded(op, read) && WouldBeLast(rows, read.id) }

  /** The write transaction of a call that earlier read `read`: refused (409) or written. */
  function Commit(sign: Signer, rows: seq<Row>, op: Op, read: Row): seq<Row> {
    if Refused(rows, op, read) then rows else Write1(rows, read.username, WriteOf(sign, op, read))
  }

  // ---- Service calls -------------------------------------------------------------------------

  datatype Caller = Caller(username: string, role: Role)

  datatype Call =
    | AddAdmin(caller: Caller, username: string, role: Role, enabled: bool, issued: string, email: Option<string>, notify: Notify)
    | UpdateAdmin(caller: Caller, username: string, role: Role)
    | ResetPasswordOf(caller: Caller, username: string, issued: string, typedEmail: Option<string>)
    | ResetSignatureOf(caller: Caller, username: string)
    | DeleteAdmin(caller: Caller, username: string)
    | RevokeAccess(caller: Caller, username: string)
    | UpdatePermissions(username: string, active: Option<bool>, flags: Flags)

  datatype Outcome = Done | Forbidden | NotFound | SignatureInvalid | LastSuperAdmin | Conflict | Aborted

  /** The role policy for actions the service itself gates. */
  predicate CanManage(call: Call, targetRole: Option<Role>) {
    match call
    case AddAdmin(caller, _, role, _, _, _, _) => caller.role == SuperAdmin || (caller.role == Admin && role == User)
    case UpdateAdmin(caller, _, _) => caller.role == SuperAdmin
    case ResetPasswordOf(caller, username, _, _) =>
      caller.role == SuperAdmin || (caller.role == Admin && targetRole == Some(User) && username != caller.username)
    case ResetSignatureOf(caller, _) => caller.role == SuperAdmin
    case DeleteAdmin(caller, username) => username != caller.username
    case RevokeAccess(caller, username) => username != caller.username
    case UpdatePermissions(_, _, _) => true
  }

  function OpOf(call: Call): Op
    requires !call.AddAdmin?
  {
    match call
    case UpdateAdmin(_, _, role) => ChangeRole(role)
    case ResetPasswordOf(_, _, issued, _) => ResetPassword(issued)
    case ResetSignatureOf(_, _) => ResetSignature
    case DeleteAdmin(_, _) => Delete
    case RevokeAccess(_, _) => Revoke
    case UpdatePermissions(_, active, _) => Permit(active)
  }

  /** The second, unsigned write some calls make. */
  function UnsignedOf(call: Call): Write {
    match call
    case ResetPasswordOf(_, _, _, typedEmail) => if typedEmail.Some? then SetEmail(typedEmail.value) else Nothing
    case UpdatePermissions(_, _, flags) => SetNotify(flags)
    case _ => Nothing
  }

  function NewRow(sign: Signer, call: Call, id: int): Row
    requires call.AddAdmin?
  {
    Row(id, call.username, call.issued, call.email, call.role, call.enabled, call.notify,
        sign(Signed(call.username, call.issued, call.role, call.enabled)))
  }

  /**
   One call on its own. `id` is the identity the table assigns to a new row; `proceeds` says whether the
   steps outside the account table (session revocation, backup token, recipient lookup) let it through.
   */
  function Perform(sign: Signer, rows: seq<Row>, call: Call, id: int, proceeds: bool): (seq<Row>, Outcome) {
    if call.AddAdmin? then
      if !CanManage(call, None) then (rows, Forbidden)
      else if Find(rows, call.username).Some? then (rows, Conflict)
      else if !proceeds then (rows, Aborted)
      else (rows + [NewRow(sign, call, id)], Done)
    else if !call.ResetPasswordOf? && !CanManage(call, None) then (rows, Forbidden)
    else match Find(rows, call.username)
      case None => (rows, NotFound)
      case Some(i) =>
        if !call.ResetSignatureOf? && !Verifies(sign, rows[i]) then (rows, SignatureInvalid)
        else if !CanManage(call, Some(rows[i].role)) then (rows, Forbidden)
        else if Refused(rows, OpOf(call), rows[i]) then (rows, LastSuperAdmin)
        else if !proceeds then (rows, Aborted)
        else (Write1(Write1(rows, call.username, WriteOf(sign, OpOf(call), rows[i])), call.username, UnsignedOf(call)), Done)
  }

  class AdminService {
    var admins: seq<Row>
    const sign: Signer

    constructor (sign: Signer, admins: seq<Row>)
      ensures this.sign == sign && this.admins == admins
    {
      this.sign := sign;
      this.admins := admins;
    }

    method Fetch(username: string) returns (at: Option<nat>)
      ensures at == Find(admins, username)
    {
      for i := 0 to |admins|
        invariant forall k :: 0 <= k < i ==> admins[k].username != username
      {
        if admins[i].username == username {
          assert Find(admins, username).Some?;
          return Some(i);
        }
      }
      at := None;
    }

    method Set(username: string, w: Write)
      modifies this
      ensures admins == Write1(old(admins), username, w)
    {
      var at := Fetch(username);
      if at.Some? {
        if w.Remove? {
          admins := admins[..at.value] + admins[at.value + 1..];
        } else {
          admins := admins[at.value := Touch(admins[at.value], w)];
        }
      }
    }

    /** Collects the ids of the active SUPER_ADMINs and compares them with the target's. */
    method IsLast(id: int) returns (last: bool)
      ensures last <==> WouldBeLast(admins, id)
    {
      var included, only := false, true;
      for i := 0 to |admins|
        invariant included <==> exists k :: 0 <= k < i && ActiveSuper(admins[k]) && admins[k].id == id
        invariant only <==> forall k :: 0 <= k < i && ActiveSuper(admins[k]) ==> admins[k].id == id
      {
        if ActiveSuper(admins[i]) {
          if admins[i].id == id {
            included := true;
          } else {
            only := false;
          }
        }
      }
      last := included && only;
    }

    method Run(call: Call, id: int, proceeds: bool) returns (outcome: Outcome)
      modifies this
      ensures (admins, outcome) == Perform(sign, old(admins), call, id, proceeds)
    {
      if !call.ResetPasswordOf? && !CanManage(call, None) {
        return Forbidden;
      }
      var at := Fetch(call.username);
      if call.AddAdmin? {
        if at.Some? {
          return Conflict;
        }
        if !proceeds {
          return Aborted;
        }
        admins := admins + [NewRow(sign, call, id)];
        return Done;
      }
      if at.None? {
        return NotFound;
      }
      var existing := admins[at.value];
      if !call.ResetSignatureOf? && !Verifies(sign, existing) {
        return SignatureInvalid;
      }
      if !CanManage(call, Some(existing.role)) {
        return Forbidden;
      }
      if Guarded(OpOf(call), existing) {
        var last := IsLast(existing.id);
        if last {
          return LastSuperAdmin;
        }
      }
      if !proceeds {
        return Aborted;
      }
      Set(call.username, WriteOf(sign, OpOf(call), existing));
      Set(call.username, UnsignedOf(call));
      return Done;
    }
  }

  // ---- What a call answers and what it leaves behind ------------------------------------------------

  /** Row `i` is the account of that username, as a lookup finds it. */
  predicate IsAccount(rows: seq<Row>, username: string, i: nat) {
    i < |rows| && rows[i].username == username && forall k :: 0 <= k < i ==> rows[k].username != username
  }

  predicate Given<T(==)>(given: Option<T>, was: T, becomes: T) { becomes == if given.Some? then given.value else was }

  /** The signed columns of an existing account after a finished call. */
  predicate SignedColumns(call: Call, was: Row, becomes: Row)
    requires !call.AddAdmin?
  {
    && becomes.id == was.id && becomes.username == was.username
    && becomes.role == (if call.UpdateAdmin? then call.role else was.role)
    && becomes.password == (if call.ResetPasswordOf? then call.issued else was.password)
    && (if call.RevokeAccess? then !becomes.active
        else if call.UpdatePermissions? then Given(call.active, was.active, becomes.active)
        else becomes.active == was.active)
  }

  /** Its columns outside the signature: an empty typed email is stored as none. */
  predicate UnsignedColumns(call: Call, was: Row, becomes: Row)
    requires !call.AddAdmin?
  {
    && (if call.ResetPasswordOf? && call.typedEmail.Some?
        then (if call.typedEmail.value == "" then becomes.email.None? else becomes.email == call.typedEmail)
        else becomes.email == was.email)
    && (if call.RevokeAccess?
        then !becomes.notify.critical && !becomes.notify.dependencies && !becomes.notify.redMetrics && !becomes.notify.system
        else if call.UpdatePermissions?
        then && Given(call.flags.critical, was.notify.critical, becomes.notify.critical)
             && Given(call.flags.dependencies, was.notify.dependencies, becomes.notify.dependencies)
             && Given(call.flags.redMetrics, was.notify.redMetrics, becomes.notify.redMetrics)
             && Given(call.flags.system, was.notify.system, becomes.notify.system)
        else becomes.notify == was.notify)
  }

  lemma WrittenAt(rows: seq<Row>, username: string, w: Write, i: nat)
    requires IsAccount(rows, username, i)
    ensures Write1(rows, username, w) == if w.Remove? then rows[..i] + rows[i + 1..] else rows[i := Touch(rows[i], w)]
    ensures !w.Remove? ==> IsAccount(Write1(rows, username, w), username, i)
  {
    assert Find(rows, username) == Some(i);
  }

  lemma WriteNothing(rows: seq<Row>, username: string)
    ensures Write1(rows, username, Nothing) == rows
  {
  }

  /** What a finished call makes of the row it has read. */
  function Outgoing(sign: Signer, call: Call, read: Row): Row
    requires !call.AddAdmin?
  {
    Touch(Touch(read, WriteOf(sign, OpOf(call), read)), UnsignedOf(call))
  }

  lemma TwoWrites(rows: seq<Row>, username: string, w: Write, second: Write, i: nat)
    requires IsAccount(rows, username, i) && !w.Remove? && !second.Remove?
    ensures Write1(Write1(rows, username, w), username, second) == rows[i := Touch(Touch(rows[i], w), second)]
  {
    WrittenAt(rows, username, w, i);
    WrittenAt(Write1(rows, username, w), username, second, i);
  }

  lemma DonePerforms(sign: Signer, rows: seq<Row>, call: Call, id: int, proceeds: bool, i: nat)
    requires !call.AddAdmin? && IsAccount(rows, call.username, i)
    requires Perform(sign, rows, call, id, proceeds).1 == Done
    ensures Perform(sign, rows, call, id, proceeds).0
            == Write1(Write1(rows, call.username, WriteOf(sign, OpOf(call), rows[i])), call.username, UnsignedOf(call))
  {
    assert Find(rows, call.username) == Some(i);
  }

  lemma DoneWrites(sign: Signer, rows: seq<Row>, call: Call, id: int, proceeds: bool, i: nat)
    requires !call.AddAdmin? && IsAccount(rows, call.username, i)
    requires Perform(sign, rows, call, id, proceeds).1 == Done
    ensures Perform(sign, rows, call, id, proceeds).0
            == if call.DeleteAdmin? then rows[..i] + rows[i + 1..] else rows[i := Outgoing(sign, call, rows[i])]
  {
    DonePerforms(sign, rows, call, id, proceeds, i);
    var w := WriteOf(sign, OpOf(call), rows[i]);
    if call.DeleteAdmin? {
      WrittenAt(rows, call.username, w, i);
      WriteNothing(rows[..i] + rows[i + 1..], call.username);
    } else {
      TwoWrites(rows, call.username, w, UnsignedOf(call), i);
    }
  }

  lemma OutgoingColumns(sign: Signer, call: Call, read: Row)
    requires !call.AddAdmin? && !call.DeleteAdmin?
    ensures SignedColumns(call, read, Outgoing(sign, call, read)) && UnsignedColumns(call, read, Outgoing(sign, call, read))
  {
  }

  /** The columns of the one account a finished call is about, and nothing else, change as the call says. */
  lemma DoneColumns(sign: Signer, rows: seq<Row>, call: Call, id: int, proceeds: bool, i: nat)
    requires !call.AddAdmin? && IsAccount(rows, call.username, i)
    requires Perform(sign, rows, call, id, proceeds).1 == Done
    ensures var after := Perform(sign, rows, call, id, proceeds).0;
            if call.DeleteAdmin? then after == rows[..i] + rows[i + 1..]
            else && |after| == |rows| && (forall k :: 0 <= k < |rows| && k != i ==> after[k] == rows[k])
                 && SignedColumns(call, rows[i], after[i]) && UnsignedColumns(call, rows[i], after[i])
  {
    DoneWrites(sign, rows, call, id, proceeds, i);
    if !call.DeleteAdmin? {
      OutgoingColumns(sign, call, rows[i]);
    }
  }

  /** A new account has the columns it was given, the identity of the table, and stands behind the others. */
  lemma AddedColumns(sign: Signer, rows: seq<Row>, call: Call, id: int, proceeds: bool)
    requires call.AddAdmin? && Perform(sign, rows, call, id, proceeds).1 == Done
    ensures var after := Perform(sign, rows, call, id, proceeds).0;
            && |after| == |rows| + 1 && after[..|rows|] == rows
            && var r := after[|rows|];
            && r.id == id && r.username == call.username && r.password == call.issued && r.email == call.email
            && r.role == call.role && r.active == call.enabled && r.notify == call.notify
            && r.signature == sign(Signed(call.username, call.issued, call.role, call.enabled))
  {
  }

  /** Refused by the role policy before the account is looked at. */
  predicate RefusedAtOnce(call: Call) {
    match call
    case AddAdmin(caller, _, role, _, _, _, _) => caller.role != SuperAdmin && !(caller.role == Admin && role == User)
    case UpdateAdmin(caller, _, _) => caller.role != SuperAdmin
    case ResetSignatureOf(caller, _) => caller.role != SuperAdmin
    case DeleteAdmin(caller, username) => username == caller.username
    case RevokeAccess(caller, username) => username == caller.username
    case _ => false
  }

  /** Refused once the account is known: a password is reset by a SUPER_ADMIN, or by an ADMIN for another USER. */
  predicate RefusedForTarget(call: Call, target: Row) {
    call.ResetPasswordOf? && call.caller.role != SuperAdmin
    && !(call.caller.role == Admin && target.role == User && call.username != call.caller.username)
  }

  /** The call takes the target's power away, and the ids of the active SUPER_ADMINs are the target's alone. */
  ghost predicate TakesLast(call: Call, rows: seq<Row>, target: Row) {
    && target.role == SuperAdmin && target.active
    && ((call.UpdateAdmin? && call.role != SuperAdmin) || call.DeleteAdmin? || call.RevokeAccess?
        || (call.UpdatePermissions? && call.active == Some(false)))
    && (exists k :: 0 <= k < |rows| && rows[k].role == SuperAdmin && rows[k].active && rows[k].id == target.id)
    && forall k :: 0 <= k < |rows| && rows[k].role == SuperAdmin && rows[k].active ==> rows[k].id == target.id
  }

  /** The outcome of a call, in the order in which the service looks; every outcome but Done leaves the table alone. */
  lemma OutcomeExact(sign: Signer, rows: seq<Row>, call: Call, id: int, proceeds: bool, target: Option<nat>)
    requires if target.Some? then IsAccount(rows, call.username, target.value)
             else forall k :: 0 <= k < |rows| ==> rows[k].username != call.username
    ensures var (after, outcome) := Perform(sign, rows, call, id, proceeds);
            && (outcome != Done ==> after == rows)
            && outcome ==
               if RefusedAtOnce(call) then Forbidden
               else if call.AddAdmin? && target.Some? then Conflict
               else if call.AddAdmin? then (if proceeds then Done else Aborted)
               else if target.None? then NotFound
               else
                 var r := rows[target.value];
                 if !call.ResetSignatureOf? && r.signature != sign(Signed(r.username, r.password, r.role, r.active))
                 then SignatureInvalid
                 else if RefusedForTarget(call, r) then Forbidden
                 else if TakesLast(call, rows, r) then LastSuperAdmin
                 else if proceeds then Done else Aborted
  {
    assert Find(rows, call.username) == target;
  }

  // ---- Signatures over sequential runs ----------------------------------------------------------

  lemma WriteKeepsNames(rows: seq<Row>, username: string, w: Write)
    requires UniqueNames(rows)
    ensures UniqueNames(Write1(rows, username, w))
  {
  }

  /** Each row after a write is a row from before, touched when it is the target; a removed target is gone. */
  lemma Origin(rows: seq<Row>, username: string, w: Write, after: Row) returns (before: Row)
    requires UniqueNames(rows) && after in Write1(rows, username, w)
    ensures before in rows && before.username == after.username
    ensures after == if after.username == username then Touch(before, w) else before
    ensures w.Remove? ==> after.username != username
  {
    var result := Write1(rows, username, w);
    var k :| 0 <= k < |result| && result[k] == after;
    match Find(rows, username)
    case None => before := rows[k];
    case Some(i) => before := if w.Remove? && k >= i then rows[k + 1] else rows[k];
  }

  lemma SameName(rows: seq<Row>, a: Row, b: Row)
    requires UniqueNames(rows) && a in rows && b in rows && a.username == b.username
    ensures a == b
  {
    var i :| 0 <= i < |rows| && rows[i] == a;
    var j :| 0 <= j < |rows| && rows[j] == b;
    assert i == j;
  }

  lemma CallKeepsNames(sign: Signer, rows: seq<Row>, call: Call, id: int, proceeds: bool)
    requires UniqueNames(rows)
    ensures UniqueNames(Perform(sign, rows, call, id, proceeds).0)
  {
    if !call.AddAdmin? && Find(rows, call.username).Some? {
      var w := WriteOf(sign, OpOf(call), rows[Find(rows, call.username).value]);
      WriteKeepsNames(rows, call.username, w);
      WriteKeepsNames(Write1(rows, call.username, w), call.username, UnsignedOf(call));
    }
  }

  /** The two writes of a call, traced back to the row they started from. */
  lemma CallOrigin(sign: Signer, rows: seq<Row>, call: Call, id: int, proceeds: bool, after: Row) returns (before: Row)
    requires UniqueNames(rows) && !call.AddAdmin?
    requires Perform(sign, rows, call, id, proceeds).1 == Done && after in Perform(sign, rows, call, id, proceeds).0
    ensures before in rows && before.username == after.username
    ensures call.ResetSignatureOf? || after.username != call.username || Verifies(sign, before)
    ensures after == if after.username == call.username
                     then Outgoing(sign, call, before) else before
    ensures call.DeleteAdmin? ==> after.username != call.username
  {
    var target := rows[Find(rows, call.username).value];
    var w := WriteOf(sign, OpOf(call), target);
    WriteKeepsNames(rows, call.username, w);
    var middle := Origin(Write1(rows, call.username, w), call.username, UnsignedOf(call), after);
    before := Origin(rows, call.username, w, middle);
    if before.username == call.username {
      SameName(rows, before, target);
    }
  }

  lemma TouchedVerifies(sign: Signer, op: Op, r: Row)
    requires op.ResetSignature? || Verifies(sign, r)
    ensures Verifies(sign, Touch(r, WriteOf(sign, op, r)))
  {
  }

  lemma OutgoingVerifies(sign: Signer, call: Call, read: Row)
    requires !call.AddAdmin? && (call.ResetSignatureOf? || Verifies(sign, read))
    ensures Verifies(sign, Outgoing(sign, call, read))
  {
    TouchedVerifies(sign, OpOf(call), read);
  }

  lemma FinishedKeepsSignature(sign: Signer, rows: seq<Row>, call: Call, id: int, proceeds: bool, before: Row, after: Row)
    requires UniqueNames(rows) && !call.AddAdmin? && Perform(sign, rows, call, id, proceeds).1 == Done
    requires after in Perform(sign, rows, call, id, proceeds).0
    ensures before in rows && before.username == after.username && Verifies(sign, before) ==> Verifies(sign, after)
    ensures after.username == call.username ==> Verifies(sign, after)
  {
    var origin := CallOrigin(sign, rows, call, id, proceeds, after);
    if after.username == call.username {
      OutgoingVerifies(sign, call, origin);
    } else if before in rows && before.username == after.username {
      SameName(rows, before, origin);
    }
  }

  /** Every verified row still verifies after any call, whatever it writes; the row the call wrote verifies too. */
  lemma CallKeepsSignatures(sign: Signer, rows: seq<Row>, call: Call, id: int, proceeds: bool, before: Row, after: Row)
    requires UniqueNames(rows)
    requires after in Perform(sign, rows, call, id, proceeds).0
    ensures before in rows && before.username == after.username && Verifies(sign, before) ==> Verifies(sign, after)
    ensures (Perform(sign, rows, call, id, proceeds).1 == Done && after.username == call.username) ==> Verifies(sign, after)
  {
    if call.AddAdmin? || Perform(sign, rows, call, id, proceeds).1 != Done {
      AppendOrNothing(sign, rows, call, id, proceeds, after);
      if before in rows && after in rows && before.username == after.username {
        SameName(rows, before, after);
      }
    } else {
      FinishedKeepsSignature(sign, rows, call, id, proceeds, before, after);
    }
  }

  /** A refused call changes nothing; a new account comes last, signed, under a username not in use. */
  lemma AppendOrNothing(sign: Signer, rows: seq<Row>, call: Call, id: int, proceeds: bool, after: Row)
    requires call.AddAdmin? || Perform(sign, rows, call, id, proceeds).1 != Done
    requires after in Perform(sign, rows, call, id, proceeds).0
    ensures after in rows || (call.AddAdmin? && after == NewRow(sign, call, id))
    ensures Perform(sign, rows, call, id, proceeds).1 == Done ==> forall r :: r in rows ==> r.username != call.username
  {
    if call.AddAdmin? {
      assert Find(rows, call.username).None? ==> forall i :: 0 <= i < |rows| ==> rows[i].username != call.username;
    }
  }

  function PerformAll(sign: Signer, rows: seq<Row>, calls: seq<(Call, int, bool)>): seq<Row> {
    if |calls| == 0 then rows
    else
      var before := PerformAll(sign, rows, calls[..|calls| - 1]);
      var (call, id, proceeds) := calls[|calls| - 1];
      Perform(sign, before, call, id, proceeds).0
  }

  lemma PerformAllStep(sign: Signer, rows: seq<Row>, calls: seq<(Call, int, bool)>, next: (Call, int, bool))
    ensures PerformAll(sign, rows, calls + [next])
            == Perform(sign, PerformAll(sign, rows, calls), next.0, next.1, next.2).0
    ensures PerformAll(sign, rows, []) == rows
  {
    assert (calls + [next])[..|calls|] == calls;
  }

  /** Over every run of calls executed one at a time, a table of verified rows stays one. */
  lemma {:induction false} RunKeepsSignatures(sign: Signer, rows: seq<Row>, calls: seq<(Call, int, bool)>)
    requires UniqueNames(rows) && forall r :: r in rows ==> Verifies(sign, r)
    ensures UniqueNames(PerformAll(sign, rows, calls))
    ensures forall r :: r in PerformAll(sign, rows, calls) ==> Verifies(sign, r)
  {
    if |calls| > 0 {
      var before := PerformAll(sign, rows, calls[..|calls| - 1]);
      var (call, id, proceeds) := calls[|calls| - 1];
      RunKeepsSignatures(sign, rows, calls[..|calls| - 1]);
      CallKeepsNames(sign, before, call, id, proceeds);
      CallKeepsAll(sign, before, call, id, proceeds);
    }
  }

  lemma CallKeepsAll(sign: Signer, rows: seq<Row>, call: Call, id: int, proceeds: bool)
    requires UniqueNames(rows) && forall r :: r in rows ==> Verifies(sign, r)
    ensures forall r :: r in Perform(sign, rows, call, id, proceeds).0 ==> Verifies(sign, r)
  {
    forall r | r in Perform(sign, rows, call, id, proceeds).0
      ensures Verifies(sign, r)
    {
      if call.AddAdmin? || Perform(sign, rows, call, id, proceeds).1 != Done {
        assert r !in rows ==> r == NewRow(sign, call, id);
      } else {
        var origin := CallOrigin(sign, rows, call, id, proceeds, r);
        CallKeepsSignatures(sign, rows, call, id, proceeds, origin, r);
      }
    }
  }

  ghost predicate Injective(sign: Signer) {
    forall a, b :: sign(a) == sign(b) ==> a == b
  }

  /**
   Calls that interleave can break a signature. With a signer that tells fields apart, a write computed
   from an earlier read leaves a verified row exactly when the signed columns it does not write are
   still the ones it read.
   */
  lemma StaleWriteExact(sign: Signer, op: Op, read: Row, current: Row)
    requires Injective(sign) && read.username == current.username
    requires WriteOf(sign, op, read) != Remove && WriteOf(sign, op, read) != Nothing
    ensures Verifies(sign, Touch(current, WriteOf(sign, op, read))) <==>
            match op
            case ChangeRole(_) => read.password == current.password && read.active == current.active
            case ResetPassword(_) => read.role == current.role && read.active == current.active
            case ResetSignature => read.role == current.role && read.active == current.active
            case _ => read.password == current.password && read.role == current.role
  {
    var w := WriteOf(sign, op, read);
    assert Touch(current, w).signature == sign(SignedFields(Touch(read, w)));
  }

  // ---- Role policy ------------------------------------------------------------------------------

  /** The one existing row a plain ADMIN's call may have changed: a USER's, by a password reset. */
  lemma AdminChangesUser(sign: Signer, rows: seq<Row>, call: Call, id: int, proceeds: bool, after: Row) returns (before: Row)
    requires UniqueNames(rows) && (call.UpdateAdmin? || call.ResetPasswordOf? || call.ResetSignatureOf?)
    requires call.caller.role == Admin && Perform(sign, rows, call, id, proceeds).1 == Done
    requires after in Perform(sign, rows, call, id, proceeds).0 && after !in rows
    ensures call.ResetPasswordOf? && call.username != call.caller.username
    ensures before in rows && before.role == User && after.username == call.username
    ensures after == before.(password := call.issued, signature := after.signature, email := after.email)
  {
    before := CallOrigin(sign, rows, call, id, proceeds, after);
    var target := rows[Find(rows, call.username).value];
    SameName(rows, before, target);
  }

  lemma AdminKeepsCount(sign: Signer, rows: seq<Row>, call: Call, id: int, proceeds: bool)
    requires call.AddAdmin? || call.UpdateAdmin? || call.ResetPasswordOf? || call.ResetSignatureOf?
    ensures |Perform(sign, rows, call, id, proceeds).0|
            == |rows| + if call.AddAdmin? && Perform(sign, rows, call, id, proceeds).1 == Done then 1 else 0
  {
  }

  /**
   Called by a plain ADMIN, the four actions the service gates change no existing account except the
   password of a USER other than the caller, and add none but USER accounts.
   */
  lemma AdminCallerBounded(sign: Signer, rows: seq<Row>, call: Call, id: int, proceeds: bool, after: Row)
    requires UniqueNames(rows)
    requires call.AddAdmin? || call.UpdateAdmin? || call.ResetPasswordOf? || call.ResetSignatureOf?
    requires call.caller.role == Admin
    requires after in Perform(sign, rows, call, id, proceeds).0 && after !in rows
    ensures after.role == User && after.username == call.username
    ensures call.AddAdmin? || (call.ResetPasswordOf? && call.username != call.caller.username
                               && exists before :: before in rows && after == before.(password := call.issued, signature := after.signature, email := after.email))
    ensures |Perform(sign, rows, call, id, proceeds).0| == |rows| + if call.AddAdmin? then 1 else 0
  {
    AdminKeepsCount(sign, rows, call, id, proceeds);
    if Perform(sign, rows, call, id, proceeds).1 != Done || call.AddAdmin? {
      AppendOrNothing(sign, rows, call, id, proceeds, after);
    } else {
      var before := AdminChangesUser(sign, rows, call, id, proceeds, after);
    }
  }
}
