/** The invitation list of src/app/invitations/page.tsx: the filter tabs,
    the three counters, accepting and declining a received invitation and
    sending a new one. Times are whole milliseconds since the epoch; the
    ISO-8601 text the page stores is not modelled. */
module Invitations {
  import opened Js

  datatype Direction = Sent | Received
  datatype Role = Owner | Admin | Member | Viewer
  datatype InvitationStatus = Pending | Accepted | Declined | Expired

  datatype Party = Party(id: string, name: string, email: string)

  datatype Invitation = Invitation(
    id: string,
    direction: Direction,
    projectId: string,
    projectName: string,
    projectDescription: Option<string>,
    fromUser: Party,
    toUser: Party,
    role: Role,
    status: InvitationStatus,
    message: Option<string>,
    createdAt: int,
    expiresAt: int)

  datatype Project = Project(id: string, name: string, description: string, memberCount: nat)

  datatype InvitationFilter = All | SentOnly | ReceivedOnly | PendingOnly

  /** Seven days in milliseconds. */
  const InvitationLifetime: int := 7 * 24 * 60 * 60 * 1000

  /** The sender shown on every invitation this page sends. */
  const CurrentUser: Party := Party("current-user", "あなた", "you@example.com")

  function Passes(filter: InvitationFilter): Invitation -> bool
  {
    (i: Invitation) => match filter
      case SentOnly => i.direction == Sent
      case ReceivedOnly => i.direction == Received
      case PendingOnly => i.status == Pending
      case All => true
  }

  function IsSent(): Invitation -> bool { (i: Invitation) => i.direction == Sent }
  function IsReceived(): Invitation -> bool { (i: Invitation) => i.direction == Received }
  function IsPendingReceived(): Invitation -> bool
  {
    (i: Invitation) => i.direction == Received && i.status == Pending
  }

  /** `filteredInvitations`. */
  function Filtered(invitations: seq<Invitation>, filter: InvitationFilter): seq<Invitation>
  {
    Filter(invitations, Passes(filter))
  }

  function SentCount(invitations: seq<Invitation>): nat { |Filter(invitations, IsSent())| }
  function ReceivedCount(invitations: seq<Invitation>): nat { |Filter(invitations, IsReceived())| }
  function PendingReceivedCount(invitations: seq<Invitation>): nat { |Filter(invitations, IsPendingReceived())| }

  /** Each tab keeps exactly the invitations of its kind; every invitation
      was either sent or received, so the two counters add up to the whole
      list; the pending-received counter never exceeds the received one. */
  lemma {:induction false} Tabs(invitations: seq<Invitation>)
    ensures Filtered(invitations, All) == invitations
    ensures forall i | i in invitations :: i in Filtered(invitations, if i.direction == Sent then SentOnly else ReceivedOnly)
    ensures forall i | i in Filtered(invitations, PendingOnly) :: i in invitations && i.status == Pending
    ensures SentCount(invitations) + ReceivedCount(invitations) == |invitations|
    ensures PendingReceivedCount(invitations) <= ReceivedCount(invitations)
  {
    FilterAll(invitations, Passes(All));
    FilterComplement(invitations, IsSent(), IsReceived());
    PendingWithinReceived(invitations);
    forall i | i in invitations
      ensures i in Filtered(invitations, if i.direction == Sent then SentOnly else ReceivedOnly)
    {
      var k :| 0 <= k < |invitations| && invitations[k] == i;
    }
  }

  lemma {:induction false} PendingWithinReceived(invitations: seq<Invitation>)
    ensures PendingReceivedCount(invitations) <= ReceivedCount(invitations)
  {
    if invitations != [] {
      PendingWithinReceived(invitations[1..]);
    }
  }

  /** The `prev.map(...)` of the accept and decline handlers: the
      invitations with the id take the new status; nothing else changes. */
  function WithStatus(invitations: seq<Invitation>, invitationId: string, status: InvitationStatus): (r: seq<Invitation>)
    ensures |r| == |invitations|
    ensures forall k | 0 <= k < |r| && invitations[k].id == invitationId :: r[k] == invitations[k].(status := status)
    ensures forall k | 0 <= k < |r| && invitations[k].id != invitationId :: r[k] == invitations[k]
  {
    seq(|invitations|, k requires 0 <= k < |invitations| =>
      if invitations[k].id == invitationId then invitations[k].(status := status) else invitations[k])
  }

  /** Setting a status never moves an invitation between the sent and the
      received tab. */
  lemma {:induction false} WithStatusKeepsDirections(invitations: seq<Invitation>, invitationId: string, status: InvitationStatus)
    ensures SentCount(WithStatus(invitations, invitationId, status)) == SentCount(invitations)
    ensures ReceivedCount(WithStatus(invitations, invitationId, status)) == ReceivedCount(invitations)
  {
    if invitations != [] {
      WithStatusKeepsDirections(invitations[1..], invitationId, status);
      assert WithStatus(invitations, invitationId, status)[1..] == WithStatus(invitations[1..], invitationId, status);
    }
  }

  /** Accepting or declining a pending received invitation (the only ones
      whose buttons are shown) lowers the pending-received counter. */
  lemma {:induction false} AnswerLowersPending(invitations: seq<Invitation>, invitationId: string, status: InvitationStatus)
    requires status != Pending
    ensures PendingReceivedCount(WithStatus(invitations, invitationId, status)) <= PendingReceivedCount(invitations)
    ensures (exists k | 0 <= k < |invitations| :: invitations[k].id == invitationId && IsPendingReceived()(invitations[k])) ==>
      PendingReceivedCount(WithStatus(invitations, invitationId, status)) < PendingReceivedCount(invitations)
  {
    if invitations != [] {
      AnswerLowersPending(invitations[1..], invitationId, status);
      assert WithStatus(invitations, invitationId, status)[1..] == WithStatus(invitations[1..], invitationId, status);
      if exists k | 0 <= k < |invitations| :: invitations[k].id == invitationId && IsPendingReceived()(invitations[k]) {
        var k :| 0 <= k < |invitations| && invitations[k].id == invitationId && IsPendingReceived()(invitations[k]);
        if k > 0 {
          assert invitations[1..][k - 1] == invitations[k];
        }
      }
    }
  }

  /** `expiresAt` is before the present moment. */
  predicate IsExpired(i: Invitation, now: int)
  {
    i.expiresAt < now
  }

  /** The accept and decline buttons are shown only for a received,
      pending invitation that has not expired. */
  predicate CanAnswer(i: Invitation, now: int)
  {
    i.direction == Received && i.status == Pending && !IsExpired(i, now)
  }

  /** `inviteEmail.split('@')[0]`. */
  function LocalPart(email: string): string
  {
    Split(email, '@')[0]
  }

  /** The name given to the invitee is the e-mail address up to its first
      '@' (the whole address when it has none). */
  lemma {:induction false} LocalPartPrefix(email: string)
    ensures '@' !in LocalPart(email)
    ensures StartsWith(email, LocalPart(email))
    ensures |LocalPart(email)| < |email| ==> email[|LocalPart(email)|] == '@'
    ensures |LocalPart(email)| == |email| ==> '@' !in email
    decreases |email|
  {
    if email != [] && email[0] != '@' {
      LocalPartPrefix(email[1..]);
      var rest := LocalPart(email[1..]);
      assert LocalPart(email) == [email[0]] + rest;
      assert email == [email[0]] + email[1..];
    }
  }

  /** The invitation `handleSendInvitation` builds at time `now`: the
      project's name (or "" when the project is unknown), pending, valid
      for seven days. */
  function NewInvitation(projects: seq<Project>, projectId: string, email: string, role: Role, message: string, now: nat): (r: Invitation)
    ensures r.id == NatToString(now) && r.direction == Sent && r.status == Pending && r.role == role
    ensures r.projectId == projectId && r.fromUser == CurrentUser
    ensures r.toUser.email == email && r.toUser.name == LocalPart(email)
    ensures r.createdAt == now && r.expiresAt == now + InvitationLifetime
    ensures r.message == Some(message)
    ensures r.projectName != "" ==> exists p | p in projects :: p.id == projectId && p.name == r.projectName
    ensures r.projectDescription.Some? <==> exists p | p in projects :: p.id == projectId
  {
    var project := Find(projects, (p: Project) => p.id == projectId);
    Invitation(
      NatToString(now), Sent, projectId,
      if project.Some? then project.value.name else "",
      if project.Some? then Some(project.value.description) else None,
      CurrentUser, Party("new-user", LocalPart(email), email),
      role, Pending, Some(message), now, now + InvitationLifetime)
  }

  class InvitationsPage {
    var invitations: seq<Invitation>
    var projects: seq<Project>
    var filter: InvitationFilter
    var showInviteModal: bool
    var selectedProject: string
    var inviteEmail: string
    var inviteRole: Role
    var inviteMessage: string

    /** The page after its invitations and projects have been loaded. */
    constructor (loadedInvitations: seq<Invitation>, loadedProjects: seq<Project>)
      ensures invitations == loadedInvitations && projects == loadedProjects && filter == All
      ensures !showInviteModal && selectedProject == "" && inviteEmail == ""
      ensures inviteRole == Member && inviteMessage == ""
    {
      invitations := loadedInvitations;
      projects := loadedProjects;
      filter := All;
      showInviteModal := false;
      selectedProject := "";
      inviteEmail := "";
      inviteRole := Member;
      inviteMessage := "";
    }

    /** `handleAcceptInvitation`: no check of direction, status or expiry
        beyond the button being shown. */
    method AcceptInvitation(invitationId: string)
      modifies this
      ensures invitations == WithStatus(old(invitations), invitationId, Accepted)
      ensures projects == old(projects) && filter == old(filter) && showInviteModal == old(showInviteModal)
      ensures selectedProject == old(selectedProject) && inviteEmail == old(inviteEmail)
      ensures inviteRole == old(inviteRole) && inviteMessage == old(inviteMessage)
    {
      invitations := WithStatus(invitations, invitationId, Accepted);
    }

    /** `handleDeclineInvitation`. */
    method DeclineInvitation(invitationId: string)
      modifies this
      ensures invitations == WithStatus(old(invitations), invitationId, Declined)
      ensures projects == old(projects) && filter == old(filter) && showInviteModal == old(showInviteModal)
      ensures selectedProject == old(selectedProject) && inviteEmail == old(inviteEmail)
      ensures inviteRole == old(inviteRole) && inviteMessage == old(inviteMessage)
    {
      invitations := WithStatus(invitations, invitationId, Declined);
    }

    /** `handleSendInvitation`, with its delayed completion applied: nothing
        happens without a project and an address; otherwise the new
        invitation goes to the head of the list and the form is reset. */
    method SendInvitation(now: nat)
      modifies this
      ensures old(selectedProject) == "" || old(inviteEmail) == "" ==>
        invitations == old(invitations) && showInviteModal == old(showInviteModal) &&
        selectedProject == old(selectedProject) && inviteEmail == old(inviteEmail) &&
        inviteRole == old(inviteRole) && inviteMessage == old(inviteMessage)
      ensures old(selectedProject) != "" && old(inviteEmail) != "" ==>
        invitations == [NewInvitation(projects, old(selectedProject), old(inviteEmail), old(inviteRole), old(inviteMessage), now)] + old(invitations) &&
        !showInviteModal && selectedProject == "" && inviteEmail == "" && inviteRole == Member && inviteMessage == ""
      ensures projects == old(projects) && filter == old(filter)
    {
      if selectedProject == "" || inviteEmail == "" {
        return;
      }
      var sent := NewInvitation(projects, selectedProject, inviteEmail, inviteRole, inviteMessage, now);
      invitations := [sent] + invitations;
      showInviteModal := false;
      selectedProject := "";
      inviteEmail := "";
      inviteRole := Member;
      inviteMessage := "";
    }
  }
}
