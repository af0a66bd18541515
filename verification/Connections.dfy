/** Connecting and disconnecting a source: a credential store and a connection store, written one after
    the other, where any write may be the last one that happens. */
module Connections {
  import Runs
  import opened Wrappers

  datatype Connector = Notion | Granola | Linear | GoogleDocs | Gmail | GoogleCalendar | Slack

  datatype Status = Active | Revoked

  datatype Connection = Connection(connectionId: string, connector: Connector, secretRef: string, status: Status)

  /** Which service a secret is good for is a fact about it; it is not stored beside it. */
  datatype Secret = Secret(text: string, issuer: Connector)

  datatype State = State(credentials: map<string, Secret>, profiles: set<Connector>, connections: map<string, Connection>)

  /** The last step that a connect completes. */
  datatype ConnectProgress = NothingDone | CredentialPut | ProfileSaved | ConnectionSaved

  /** The last step that a disconnect completes. */
  datatype DisconnectProgress = NothingDeleted | CredentialDeleted | RevocationSaved

  datatype Operation =
    | Connect(connector: Connector, name: Option<string>, secret: string, connectProgress: ConnectProgress)
    | Disconnect(id: string, disconnectProgress: DisconnectProgress)

  datatype Report = Connected(connectionId: string) | Disconnected(connectionId: string) | NameRequired | ConnectionMissing | Interrupted

  const INITIAL := State(map[], {}, map[])

  function SecretRef(id: string): string {
    "connection:" + id
  }

  function DefaultId(connector: Connector): string {
    match connector
    case Notion => "notion-default"
    case Granola => "granola-default"
    case Linear => "linear-default"
    case GoogleDocs => "google-docs-default"
    case Gmail => "gmail-default"
    case GoogleCalendar => "google-calendar-default"
    case Slack => "slack-default"
  }

  predicate HasActive(s: State, connector: Connector) {
    exists id :: id in s.connections && s.connections[id].connector == connector && s.connections[id].status.Active?
  }

  /** `default_connection_id_for_connector`, for a connect without a name. */
  function ResolveId(s: State, connector: Connector, name: Option<string>): Option<string> {
    if name.Some? then name else if HasActive(s, connector) then None else Some(DefaultId(connector))
  }

  function AfterConnect(s: State, connector: Connector, id: string, text: string, progress: ConnectProgress): State {
    var secret := Secret(text, connector);
    match progress
    case NothingDone => s
    case CredentialPut => s.(credentials := s.credentials[SecretRef(id) := secret])
    case ProfileSaved => s.(credentials := s.credentials[SecretRef(id) := secret], profiles := s.profiles + {connector})
    case ConnectionSaved =>
      s.(credentials := s.credentials[SecretRef(id) := secret], profiles := s.profiles + {connector},
         connections := s.connections[id := Connection(id, connector, SecretRef(id), Active)])
  }

  function Next(s: State, op: Operation): State {
    match op
    case Connect(connector, name, secret, progress) =>
      var id := ResolveId(s, connector, name);
      if id.None? then s else AfterConnect(s, connector, id.value, secret, progress)
    case Disconnect(id, progress) =>
      if id !in s.connections || progress.NothingDeleted? then s
      else
        var connection := s.connections[id];
        var t := s.(credentials := s.credentials - {connection.secretRef});
        if progress.CredentialDeleted? then t
        else t.(connections := t.connections[id := connection.(status := Revoked)])
  }

  // ---------------------------------------------------------------- the invariant

  ghost predicate OwnReferences(s: State) {
    forall id :: id in s.connections ==>
      s.connections[id].connectionId == id && s.connections[id].secretRef == SecretRef(id)
  }

  /** Each record refers to the credential named after its own id, and an active one has it. */
  ghost predicate Inv(s: State) {
    && OwnReferences(s)
    && forall id :: id in s.connections && s.connections[id].status.Active? ==> SecretRef(id) in s.credentials
  }

  lemma SecretRefIsInjective(a: string, b: string)
    requires SecretRef(a) == SecretRef(b)
    ensures a == b
  {
    assert a == SecretRef(a)[11..] && b == SecretRef(b)[11..];
  }

  /** The one id an operation may write under. */
  function TargetOf(s: State, op: Operation): Option<string> {
    match op
    case Connect(connector, name, _, _) => ResolveId(s, connector, name)
    case Disconnect(id, _) => Some(id)
  }

  /** No operation touches the credential or the record of another id, wherever it stops. */
  lemma OtherIdsAreUntouched(s: State, op: Operation, other: string)
    requires OwnReferences(s) && TargetOf(s, op) != Some(other)
    ensures var t := Next(s, op);
            && (SecretRef(other) in t.credentials <==> SecretRef(other) in s.credentials)
            && (SecretRef(other) in s.credentials ==> t.credentials[SecretRef(other)] == s.credentials[SecretRef(other)])
            && (other in t.connections <==> other in s.connections)
            && (other in s.connections ==> t.connections[other] == s.connections[other])
  {
    var target := TargetOf(s, op);
    if target.Some? && SecretRef(target.value) == SecretRef(other) {
      SecretRefIsInjective(target.value, other);
    }
  }

  /** The one way to break the invariant: a disconnect that stops between its two writes, on an
      active connection. */
  predicate LeavesActiveWithoutCredential(s: State, op: Operation) {
    op.Disconnect? && op.disconnectProgress.CredentialDeleted? && op.id in s.connections && s.connections[op.id].status.Active?
  }

  lemma StepKeepsOwnReferences(s: State, op: Operation)
    requires OwnReferences(s)
    ensures OwnReferences(Next(s, op))
  {
  }

  lemma TargetKeepsCredentialIff(s: State, op: Operation, id: string)
    requires Inv(s) && TargetOf(s, op) == Some(id) && id in Next(s, op).connections
    ensures Next(s, op).connections[id].status.Active? && SecretRef(id) !in Next(s, op).credentials
       <==> LeavesActiveWithoutCredential(s, op)
  {
  }

  lemma StepKeepsInvariantIff(s: State, op: Operation)
    requires Inv(s)
    ensures OwnReferences(Next(s, op))
    ensures Inv(Next(s, op)) <==> !LeavesActiveWithoutCredential(s, op)
  {
    var t := Next(s, op);
    StepKeepsOwnReferences(s, op);
    forall id | id in t.connections
      ensures t.connections[id].status.Active? && SecretRef(id) !in t.credentials
         <==> Some(id) == TargetOf(s, op) && LeavesActiveWithoutCredential(s, op)
    {
      if Some(id) == TargetOf(s, op) {
        TargetKeepsCredentialIff(s, op, id);
      } else {
        OtherIdsAreUntouched(s, op, id);
      }
    }
    assert LeavesActiveWithoutCredential(s, op) ==> op.id in t.connections;
  }

  // ---------------------------------------------------------------- runs

  /** Any operation may come at any time. */
  const PROTOCOL := Runs.Protocol(INITIAL, (s: State, op: Operation) => true, Next)

  function Run(ops: seq<Operation>): State {
    Runs.Run(PROTOCOL, ops)
  }

  /** Every disconnect in the run that deleted a credential also saved the revocation. */
  predicate CompletedDisconnects(ops: seq<Operation>) {
    forall i :: 0 <= i < |ops| && ops[i].Disconnect? ==> !ops[i].disconnectProgress.CredentialDeleted?
  }

  /** Over every run of connects, stopped anywhere, and completed disconnects: each active connection
      has a credential under its own id. */
  lemma {:induction false} ActiveConnectionsHaveCredentials(ops: seq<Operation>)
    requires CompletedDisconnects(ops)
    ensures Inv(Run(ops))
  {
    if ops != [] {
      var before := ops[..|ops| - 1];
      assert CompletedDisconnects(before) by {
        assert forall i :: 0 <= i < |before| ==> before[i] == ops[i];
      }
      ActiveConnectionsHaveCredentials(before);
      StepKeepsInvariantIff(Run(before), ops[|ops| - 1]);
    }
  }

  /** Over every run, whatever was interrupted: each record refers to the credential named after itself. */
  lemma {:induction false} RunKeepsOwnReferences(ops: seq<Operation>)
    ensures OwnReferences(Run(ops))
  {
    if ops != [] {
      RunKeepsOwnReferences(ops[..|ops| - 1]);
      StepKeepsOwnReferences(Run(ops[..|ops| - 1]), ops[|ops| - 1]);
    }
  }

  /** An active record without its credential. */
  predicate IsBroken(s: State, id: string) {
    id in s.connections && s.connections[id].status.Active? && SecretRef(id) !in s.credentials
  }

  /** The operation writes something under the id: a connect under its name or, without one, under the
      default id unless its connector has an active connection; a disconnect under an id with a record. */
  predicate Writes(s: State, op: Operation, id: string) {
    match op
    case Connect(connector, name, _, progress) =>
      !progress.NothingDone? && (name == Some(id) || (name == None && !HasActive(s, connector) && id == DefaultId(connector)))
    case Disconnect(target, progress) => target == id && id in s.connections && !progress.NothingDeleted?
  }

  /** One operation leaves an id broken exactly if it is the interrupted disconnect, or writes nothing
      under an id that was broken. */
  lemma BrokenAfterStep(s: State, op: Operation, id: string)
    requires OwnReferences(s)
    ensures IsBroken(Next(s, op), id) <==>
            if Writes(s, op, id) then LeavesActiveWithoutCredential(s, op) else IsBroken(s, id)
  {
    if TargetOf(s, op) != Some(id) {
      OtherIdsAreUntouched(s, op, id);
    }
  }

  /** Operation k writes something under the id. */
  predicate WritesAt(ops: seq<Operation>, k: nat, id: string) {
    k < |ops| && Writes(Run(ops[..k]), ops[k], id)
  }

  /** Operation i is the last to write something under the id. */
  ghost predicate LastWriteAt(ops: seq<Operation>, i: nat, id: string) {
    WritesAt(ops, i, id) && forall k: nat :: i < k < |ops| ==> !WritesAt(ops, k, id)
  }

  lemma SameOperation(ops: seq<Operation>, k: nat, id: string)
    requires k < |ops| - 1
    ensures ops[..|ops| - 1][..k] == ops[..k]
    ensures WritesAt(ops[..|ops| - 1], k, id) <==> WritesAt(ops, k, id)
  {
    assert ops[..|ops| - 1][..k] == ops[..k];
  }

  lemma LastWriteStep(ops: seq<Operation>, i: nat, id: string)
    requires i < |ops| - 1
    ensures ops[..|ops| - 1][..i] == ops[..i]
    ensures LastWriteAt(ops, i, id) <==> LastWriteAt(ops[..|ops| - 1], i, id) && !WritesAt(ops, |ops| - 1, id)
  {
    var before := ops[..|ops| - 1];
    SameOperation(ops, i, id);
    forall k: nat | k < |before| ensures WritesAt(before, k, id) <==> WritesAt(ops, k, id) {
      SameOperation(ops, k, id);
    }
    if LastWriteAt(before, i, id) && !WritesAt(ops, |before|, id) {
      forall k: nat | i < k < |ops| ensures !WritesAt(ops, k, id) {
        assert k < |before| ==> !WritesAt(before, k, id);
      }
    }
  }

  /** The last write under the id is an operation that `leaves` says something of. */
  ghost predicate LastWriteLeaves(ops: seq<Operation>, id: string, leaves: (State, Operation) -> bool) {
    exists i: nat :: LastWriteAt(ops, i, id) && leaves(Run(ops[..i]), ops[i])
  }

  /** Each operation either decides by its write or leaves the last write to decide. */
  lemma LastWriteDecides(ops: seq<Operation>, id: string, leaves: (State, Operation) -> bool)
    requires ops != []
    ensures LastWriteLeaves(ops, id, leaves) <==>
            if WritesAt(ops, |ops| - 1, id) then leaves(Run(ops[..|ops| - 1]), ops[|ops| - 1])
            else LastWriteLeaves(ops[..|ops| - 1], id, leaves)
  {
    var n := |ops| - 1;
    forall i: nat | i < n
      ensures ops[..n][..i] == ops[..i]
      ensures LastWriteAt(ops, i, id) <==> LastWriteAt(ops[..n], i, id) && !WritesAt(ops, n, id)
    {
      LastWriteStep(ops, i, id);
    }
    assert LastWriteAt(ops, n, id) <==> WritesAt(ops, n, id);
    if !WritesAt(ops, n, id) && LastWriteLeaves(ops[..n], id, leaves) {
      var i: nat :| LastWriteAt(ops[..n], i, id) && leaves(Run(ops[..n][..i]), ops[..n][i]);
      assert LastWriteAt(ops, i, id) && leaves(Run(ops[..i]), ops[i]);
    }
  }

  /** Over every run of connects and disconnects, stopped anywhere: the ids that end active without a
      credential are exactly those whose last write is an interrupted disconnect of the active record. */
  lemma {:induction false} BrokenIffInterruptedLast(ops: seq<Operation>, id: string)
    ensures IsBroken(Run(ops), id) <==> LastWriteLeaves(ops, id, LeavesActiveWithoutCredential)
  {
    if ops != [] {
      var n := |ops| - 1;
      BrokenIffInterruptedLast(ops[..n], id);
      RunKeepsOwnReferences(ops[..n]);
      BrokenAfterStep(Run(ops[..n]), ops[n], id);
      LastWriteDecides(ops, id, LeavesActiveWithoutCredential);
    }
  }

  // ---------------------------------------------------------------- whose credential it is

  /** An active record with a credential of another connector. */
  predicate IsMismatched(s: State, id: string) {
    && id in s.connections && s.connections[id].status.Active?
    && SecretRef(id) in s.credentials && s.credentials[SecretRef(id)].issuer != s.connections[id].connector
  }

  /** A connect that stores its secret under the id of another connector's active record, and stops
      before it replaces the record. */
  predicate LeavesForeignCredential(s: State, op: Operation) {
    && op.Connect? && (op.connectProgress.CredentialPut? || op.connectProgress.ProfileSaved?)
    && var id := ResolveId(s, op.connector, op.name);
       && id.Some? && id.value in s.connections && s.connections[id.value].status.Active?
       && s.connections[id.value].connector != op.connector
  }

  lemma OtherMatchIsUntouched(s: State, op: Operation, id: string)
    requires OwnReferences(s) && TargetOf(s, op) != Some(id)
    ensures IsMismatched(Next(s, op), id) <==> IsMismatched(s, id)
  {
    OtherIdsAreUntouched(s, op, id);
  }

  lemma MismatchedAfterStep(s: State, op: Operation, id: string)
    requires OwnReferences(s)
    ensures IsMismatched(Next(s, op), id) <==>
            if Writes(s, op, id) then LeavesForeignCredential(s, op) else IsMismatched(s, id)
  {
    if TargetOf(s, op) != Some(id) {
      OtherMatchIsUntouched(s, op, id);
    }
  }

  /** Over every run, stopped anywhere: the ids that end active with the credential of another connector
      are exactly those whose last write is a connect of that other connector, stopped early. */
  lemma {:induction false} MismatchedIffForeignLast(ops: seq<Operation>, id: string)
    ensures IsMismatched(Run(ops), id) <==> LastWriteLeaves(ops, id, LeavesForeignCredential)
  {
    if ops != [] {
      var n := |ops| - 1;
      MismatchedIffForeignLast(ops[..n], id);
      RunKeepsOwnReferences(ops[..n]);
      MismatchedAfterStep(Run(ops[..n]), ops[n], id);
      LastWriteDecides(ops, id, LeavesForeignCredential);
    }
  }

  /** Over every run: an active record has a credential of its own connector, unless its last write is one
      of the two that stop half way. */
  lemma OwnerAndRecordAgreeIff(ops: seq<Operation>, id: string)
    requires id in Run(ops).connections && Run(ops).connections[id].status.Active?
    ensures SecretRef(id) in Run(ops).credentials
            && Run(ops).credentials[SecretRef(id)].issuer == Run(ops).connections[id].connector
       <==> !LastWriteLeaves(ops, id, LeavesActiveWithoutCredential) && !LastWriteLeaves(ops, id, LeavesForeignCredential)
  {
    BrokenIffInterruptedLast(ops, id);
    MismatchedIffForeignLast(ops, id);
  }

  lemma CompletedConnectIsActive(s: State, connector: Connector, id: string, text: string)
    ensures var t := Next(s, Connect(connector, Some(id), text, ConnectionSaved));
            id in t.connections && t.connections[id] == Connection(id, connector, SecretRef(id), Active)
  {
  }

  lemma ForeignConnectMismatches(s: State, connector: Connector, id: string, text: string)
    requires id in s.connections && s.connections[id].status.Active? && s.connections[id].connector != connector
    ensures IsMismatched(Next(s, Connect(connector, Some(id), text, CredentialPut)), id)
  {
  }

  /** It happens: a completed connect, and one of another connector under the same name that stops as
      soon as its credential is stored. */
  lemma ForeignCredentialRemains(a: Connector, b: Connector, id: string, first: string, second: string)
    requires a != b
    ensures var ops := [Connect(a, Some(id), first, ConnectionSaved), Connect(b, Some(id), second, CredentialPut)];
            IsMismatched(Run(ops), id)
  {
    var one, two := Connect(a, Some(id), first, ConnectionSaved), Connect(b, Some(id), second, CredentialPut);
    Runs.RunExtend(PROTOCOL, [], one);
    Runs.RunExtend(PROTOCOL, [] + [one], two);
    assert [] + [one] + [two] == [one, two];
    CompletedConnectIsActive(INITIAL, a, id, first);
    ForeignConnectMismatches(Next(INITIAL, one), b, id, second);
  }

  /** Connecting under a name repairs whatever that name alone was missing. */
  lemma ConnectRepairs(s: State, id: string, connector: Connector, secret: string)
    requires OwnReferences(s)
    requires forall other :: other in s.connections && other != id && s.connections[other].status.Active? ==> SecretRef(other) in s.credentials
    ensures Inv(Next(s, Connect(connector, Some(id), secret, ConnectionSaved)))
  {
    StepKeepsOwnReferences(s, Connect(connector, Some(id), secret, ConnectionSaved));
  }

  /** A disconnect that was cut short is repaired by repeating it, and by connecting again under the
      same name; nothing else has to be undone. */
  lemma InterruptedDisconnectIsRepaired(s: State, id: string, connector: Connector, secret: string)
    requires Inv(s)
    ensures var broken := Next(s, Disconnect(id, CredentialDeleted));
            && Next(broken, Disconnect(id, RevocationSaved)) == Next(s, Disconnect(id, RevocationSaved))
            && Inv(Next(s, Disconnect(id, RevocationSaved)))
            && Inv(Next(broken, Connect(connector, Some(id), secret, ConnectionSaved)))
  {
    var op := Disconnect(id, CredentialDeleted);
    var broken := Next(s, op);
    StepKeepsOwnReferences(s, op);
    StepKeepsInvariantIff(s, Disconnect(id, RevocationSaved));
    if id in s.connections {
      assert broken.credentials - {SecretRef(id)} == broken.credentials;
    }
    forall other | other in broken.connections && other != id && broken.connections[other].status.Active?
      ensures SecretRef(other) in broken.credentials
    {
      OtherIdsAreUntouched(s, op, other);
    }
    ConnectRepairs(broken, id, connector, secret);
  }

  // ---------------------------------------------------------------- what the stores hold

  /** One operation: what stands in the store for the credential of the id it writes under. */
  lemma CredentialAfterWrite(s: State, op: Operation, id: string)
    requires OwnReferences(s) && Writes(s, op, id)
    ensures "connection:" + id in Next(s, op).credentials <==> op.Connect?
    ensures op.Connect? ==> Next(s, op).credentials["connection:" + id] == Secret(op.secret, op.connector)
  {
  }

  lemma CredentialWithoutWrite(s: State, op: Operation, id: string)
    requires OwnReferences(s) && !Writes(s, op, id)
    ensures var t, key := Next(s, op), "connection:" + id;
            && (key in t.credentials <==> key in s.credentials)
            && (key in s.credentials ==> t.credentials[key] == s.credentials[key])
  {
    if TargetOf(s, op) != Some(id) {
      OtherIdsAreUntouched(s, op, id);
    }
  }

  /** Over every run, stopped anywhere: the credential of an id is the secret that the last write under
      the id brought, if that was a connect; there is none after a disconnect, and none before any write. */
  lemma {:induction false} CredentialIsLastWritten(ops: seq<Operation>, id: string)
    ensures "connection:" + id in Run(ops).credentials <==> exists i: nat :: LastWriteAt(ops, i, id) && ops[i].Connect?
    ensures forall i: nat :: LastWriteAt(ops, i, id) && ops[i].Connect? ==>
              "connection:" + id in Run(ops).credentials
              && Run(ops).credentials["connection:" + id] == Secret(ops[i].secret, ops[i].connector)
  {
    if ops != [] {
      var n := |ops| - 1;
      CredentialIsLastWritten(ops[..n], id);
      RunKeepsOwnReferences(ops[..n]);
      if WritesAt(ops, n, id) {
        CredentialAfterWrite(Run(ops[..n]), ops[n], id);
        assert LastWriteAt(ops, n, id);
      } else {
        CredentialWithoutWrite(Run(ops[..n]), ops[n], id);
        forall i: nat | i < n ensures LastWriteAt(ops, i, id) <==> LastWriteAt(ops[..n], i, id) {
          LastWriteStep(ops, i, id);
        }
        assert forall i: nat :: i < n ==> ops[..n][i] == ops[i];
      }
    }
  }

  /** Operation i is the last connect under the id that got as far as saving its record. */
  ghost predicate LastSavedAt(ops: seq<Operation>, i: nat, id: string) {
    SavesAt(ops, i, id) && forall k: nat :: i < k < |ops| ==> !SavesAt(ops, k, id)
  }

  predicate SavesAt(ops: seq<Operation>, i: nat, id: string) {
    WritesAt(ops, i, id) && ops[i].Connect? && ops[i].connectProgress.ConnectionSaved?
  }

  /** Some disconnect of the id after operation i ran to its end. */
  predicate RevokedSince(ops: seq<Operation>, i: nat, id: string) {
    exists k: nat :: i < k < |ops| && ops[k] == Disconnect(id, RevocationSaved)
  }

  lemma LastSavedStep(ops: seq<Operation>, i: nat, id: string)
    requires i < |ops| - 1
    ensures LastSavedAt(ops, i, id) <==> LastSavedAt(ops[..|ops| - 1], i, id) && !SavesAt(ops, |ops| - 1, id)
    ensures RevokedSince(ops, i, id) <==> RevokedSince(ops[..|ops| - 1], i, id) || ops[|ops| - 1] == Disconnect(id, RevocationSaved)
  {
    var n := |ops| - 1;
    forall k: nat | k < n ensures SavesAt(ops[..n], k, id) <==> SavesAt(ops, k, id) {
      SameOperation(ops, k, id);
    }
    assert forall k: nat :: k < n ==> ops[..n][k] == ops[k];
    if LastSavedAt(ops[..n], i, id) && !SavesAt(ops, n, id) {
      forall k: nat | i < k < |ops| ensures !SavesAt(ops, k, id) {
        assert k < n ==> !SavesAt(ops[..n], k, id);
      }
    }
    if RevokedSince(ops[..n], i, id) {
      var k: nat :| i < k < n && ops[..n][k] == Disconnect(id, RevocationSaved);
      assert ops[k] == Disconnect(id, RevocationSaved);
    }
  }

  /** What one operation leaves of the record of an id. */
  lemma RecordAfterStep(s: State, op: Operation, id: string)
    requires OwnReferences(s)
    ensures Writes(s, op, id) && op.Connect? && op.connectProgress.ConnectionSaved? ==>
              id in Next(s, op).connections && Next(s, op).connections[id] == Connection(id, op.connector, "connection:" + id, Active)
    ensures !(Writes(s, op, id) && op.Connect? && op.connectProgress.ConnectionSaved?) ==>
              && (id in Next(s, op).connections <==> id in s.connections)
              && (id in s.connections ==>
                    Next(s, op).connections[id]
                    == if op == Disconnect(id, RevocationSaved) then s.connections[id].(status := Revoked) else s.connections[id])
  {
    if TargetOf(s, op) != Some(id) {
      OtherIdsAreUntouched(s, op, id);
    }
  }

  lemma {:induction false} RecordNeedsSaving(ops: seq<Operation>, id: string)
    requires id in Run(ops).connections
    ensures exists i: nat :: LastSavedAt(ops, i, id)
  {
    var n := |ops| - 1;
    if SavesAt(ops, n, id) {
      assert LastSavedAt(ops, n, id);
    } else {
      RunKeepsOwnReferences(ops[..n]);
      RecordAfterStep(Run(ops[..n]), ops[n], id);
      RecordNeedsSaving(ops[..n], id);
      var i: nat :| LastSavedAt(ops[..n], i, id);
      LastSavedStep(ops, i, id);
    }
  }

  /** Over every run, stopped anywhere: an id has a record exactly if some connect under it ran to its end;
      the record is of the connector of the last of these, and revoked exactly if a disconnect of the id ran
      to its end after it. */
  lemma {:induction false} RecordIsLastSaved(ops: seq<Operation>, id: string, i: nat)
    ensures id in Run(ops).connections ==> exists k: nat :: LastSavedAt(ops, k, id)
    ensures LastSavedAt(ops, i, id) ==>
              && id in Run(ops).connections
              && Run(ops).connections[id]
                 == Connection(id, ops[i].connector, "connection:" + id, if RevokedSince(ops, i, id) then Revoked else Active)
    decreases |ops|
  {
    if id in Run(ops).connections {
      RecordNeedsSaving(ops, id);
    }
    if LastSavedAt(ops, i, id) {
      var n := |ops| - 1;
      RunKeepsOwnReferences(ops[..n]);
      RecordAfterStep(Run(ops[..n]), ops[n], id);
      if i < n {
        LastSavedStep(ops, i, id);
        RecordIsLastSaved(ops[..n], id, i);
      }
    }
  }

  /** Operation i saves the connector's profile: a connect that comes that far, with a name, or without one
      while its connector has no active connection. */
  ghost predicate SavesProfileAt(ops: seq<Operation>, i: nat, connector: Connector) {
    && i < |ops| && ops[i].Connect? && ops[i].connector == connector
    && (ops[i].connectProgress.ProfileSaved? || ops[i].connectProgress.ConnectionSaved?)
    && (ops[i].name.Some?
        || !exists id :: id in Run(ops[..i]).connections
                         && Run(ops[..i]).connections[id].connector == connector && Run(ops[..i]).connections[id].status.Active?)
  }

  lemma ProfileAfterStep(ops: seq<Operation>, connector: Connector)
    requires ops != []
    ensures connector in Run(ops).profiles <==>
            connector in Run(ops[..|ops| - 1]).profiles || SavesProfileAt(ops, |ops| - 1, connector)
  {
  }

  /** Over every run: the profiles are those of the connects that came so far as to save one. */
  lemma {:induction false} ProfilesAreSaved(ops: seq<Operation>, connector: Connector)
    ensures connector in Run(ops).profiles <==> exists i: nat :: SavesProfileAt(ops, i, connector)
  {
    if ops != [] {
      var n := |ops| - 1;
      ProfilesAreSaved(ops[..n], connector);
      ProfileAfterStep(ops, connector);
      forall i: nat | i < n ensures SavesProfileAt(ops, i, connector) <==> SavesProfileAt(ops[..n], i, connector) {
        assert ops[..n][..i] == ops[..i] && ops[..n][i] == ops[i];
      }
      if connector in Run(ops[..n]).profiles {
        var i: nat :| SavesProfileAt(ops[..n], i, connector);
        assert SavesProfileAt(ops, i, connector);
      }
    }
  }

  /** The first connect of each connector without a name, and all that the stores then hold. */
  lemma FirstUnnamedConnect(connector: Connector, secret: string)
    ensures var id :=
              match connector
              case Notion => "notion-default"
              case Granola => "granola-default"
              case Linear => "linear-default"
              case GoogleDocs => "google-docs-default"
              case Gmail => "gmail-default"
              case GoogleCalendar => "google-calendar-default"
              case Slack => "slack-default";
            Run([Connect(connector, None, secret, ConnectionSaved)])
            == State(map["connection:" + id := Secret(secret, connector)], {connector},
                     map[id := Connection(id, connector, "connection:" + id, Active)])
  {
    var op := Connect(connector, None, secret, ConnectionSaved);
    Runs.RunExtend(PROTOCOL, [], op);
    assert [] + [op] == [op];
    assert Next(INITIAL, op) == Run([op]);
  }

  /** A connect without a name is refused exactly if its connector has an active connection. Otherwise it
      replaces the active record under the default id of its connector, if there is one, which is then
      another connector's; and no other active record. */
  lemma UnnamedConnectReplacesIff(s: State, connector: Connector, secret: string, id: string)
    requires id in s.connections && s.connections[id].status.Active?
    ensures var op := Connect(connector, None, secret, ConnectionSaved);
            var refused := exists k :: k in s.connections && s.connections[k].connector == connector && s.connections[k].status.Active?;
            && (TargetOf(s, op) == None <==> refused)
            && (refused ==> Next(s, op) == s)
            && (Next(s, op).connections[id] != s.connections[id] <==> !refused && id == DefaultId(connector))
            && (Next(s, op).connections[id] != s.connections[id] ==> s.connections[id].connector != connector)
  {
  }

  /** It happens: a connection of one connector named like the default of another. */
  lemma UnnamedConnectReplacesAnother(a: Connector, b: Connector, first: string, second: string)
    requires a != b
    ensures var ops := [Connect(a, Some(DefaultId(b)), first, ConnectionSaved), Connect(b, None, second, ConnectionSaved)];
            && Run(ops[..1]).connections == map[DefaultId(b) := Connection(DefaultId(b), a, SecretRef(DefaultId(b)), Active)]
            && Run(ops).connections == map[DefaultId(b) := Connection(DefaultId(b), b, SecretRef(DefaultId(b)), Active)]
  {
    var one, two := Connect(a, Some(DefaultId(b)), first, ConnectionSaved), Connect(b, None, second, ConnectionSaved);
    Runs.RunExtend(PROTOCOL, [], one);
    assert [] + [one] == [one] == [one, two][..1];
    assert !HasActive(Run([one]), b);
    Runs.RunExtend(PROTOCOL, [one], two);
    assert [one] + [two] == [one, two];
  }

  // ---------------------------------------------------------------- the stores

  class ConnectionManager {
    var credentials: map<string, Secret>
    var profiles: set<Connector>
    var connections: map<string, Connection>
    ghost var history: seq<Operation>  // the operations so far

    function View(): State
      reads this
    {
      State(credentials, profiles, connections)
    }

    /** The stores are where a run of operations has brought them. */
    ghost predicate Valid()
      reads this
    {
      View() == Run(history)
    }

    constructor ()
      ensures Valid() && history == [] && View() == INITIAL
    {
      credentials, profiles, connections := map[], {}, map[];
      history := [];
    }

    /** The shape shared by the `run_connect_*` functions. `progress` is where an error or the end of
        the process stops it. Whatever was done before, no id is left worse off than it was. */
    method RunConnect(connector: Connector, name: Option<string>, secret: string, progress: ConnectProgress)
        returns (report: Report)
      requires Valid()
      modifies this
      ensures Valid() && history == old(history) + [Connect(connector, name, secret, progress)]
      ensures View() == Next(old(View()), Connect(connector, name, secret, progress))
      ensures forall id :: IsBroken(View(), id) ==> IsBroken(old(View()), id)
      ensures report.Connected? ==> report.connectionId in connections && !IsBroken(View(), report.connectionId)
      ensures report.NameRequired? <==> ResolveId(old(View()), connector, name).None?
      ensures report.Connected? <==> ResolveId(old(View()), connector, name).Some? && progress.ConnectionSaved?
    {
      RunKeepsOwnReferences(history);
      Runs.RunExtend(PROTOCOL, history, Connect(connector, name, secret, progress));
      forall id ensures IsBroken(Next(View(), Connect(connector, name, secret, progress)), id) ==> IsBroken(View(), id) {
        BrokenAfterStep(View(), Connect(connector, name, secret, progress), id);
      }
      history := history + [Connect(connector, name, secret, progress)];
      var id := ResolveId(View(), connector, name);
      if id.None? {
        return NameRequired;
      }
      if progress.NothingDone? {
        return Interrupted;
      }
      var secretRef := SecretRef(id.value);
      credentials := credentials[secretRef := Secret(secret, connector)];
      if progress.CredentialPut? {
        return Interrupted;
      }
      profiles := profiles + {connector};
      if progress.ProfileSaved? {
        return Interrupted;
      }
      connections := connections[id.value := Connection(id.value, connector, secretRef, Active)];
      report := Connected(id.value);
    }

    /** `run_disconnect`. Whatever was done before, it removes the credential of its own id, and can
        break no other. */
    method RunDisconnect(id: string, progress: DisconnectProgress) returns (report: Report)
      requires Valid()
      modifies this
      ensures Valid() && history == old(history) + [Disconnect(id, progress)]
      ensures View() == Next(old(View()), Disconnect(id, progress))
      ensures report.Disconnected? ==> SecretRef(id) !in credentials
      ensures forall other :: other != id ==> IsBroken(View(), other) == IsBroken(old(View()), other)
      ensures report.ConnectionMissing? <==> id !in old(connections)
      ensures report.Disconnected? <==> id in old(connections) && progress.RevocationSaved?
    {
      RunKeepsOwnReferences(history);
      Runs.RunExtend(PROTOCOL, history, Disconnect(id, progress));
      forall other | other != id ensures IsBroken(Next(View(), Disconnect(id, progress)), other) == IsBroken(View(), other) {
        BrokenAfterStep(View(), Disconnect(id, progress), other);
      }
      history := history + [Disconnect(id, progress)];
      if id !in connections {
        return ConnectionMissing;
      }
      var connection := connections[id];
      if progress.NothingDeleted? {
        return Interrupted;
      }
      credentials := credentials - {connection.secretRef};
      if progress.CredentialDeleted? {
        return Interrupted;
      }
      connection := connection.(status := Revoked);
      connections := connections[id := connection];
      report := Disconnected(id);
    }
  }
}
