/** The notification list of src/app/notifications/page.tsx: the read and
    unread handlers, the filter tabs and the unread counter. The page's
    state (the list, the active filter, the selected notification and the
    detail-modal flag) is a class; rendering is not modelled. */
module Notifications {
  import opened Js

  datatype NotificationType =
    | TaskAssigned | TaskCompleted | ProjectInvitation | CommentAdded | DeadlineReminder | ProjectUpdated

  datatype Notification = Notification(
    id: string,
    kind: NotificationType,
    title: string,
    message: string,
    isRead: bool,
    createdAt: string,
    actionUrl: Option<string>)

  datatype NotificationFilter = All | Unread | Read

  /** The handler's `prev.map(...)`: the notifications with the id become
      read, the others are kept as they are. */
  function MarkRead(ns: seq<Notification>, notificationId: string): (r: seq<Notification>)
    ensures |r| == |ns|
    ensures forall i | 0 <= i < |ns| && ns[i].id == notificationId :: r[i] == ns[i].(isRead := true)
    ensures forall i | 0 <= i < |ns| && ns[i].id != notificationId :: r[i] == ns[i]
  {
    seq(|ns|, i requires 0 <= i < |ns| => if ns[i].id == notificationId then ns[i].(isRead := true) else ns[i])
  }

  /** Every notification read. */
  function MarkAllRead(ns: seq<Notification>): (r: seq<Notification>)
    ensures |r| == |ns|
    ensures forall i | 0 <= i < |ns| :: r[i] == ns[i].(isRead := true)
  {
    seq(|ns|, i requires 0 <= i < |ns| => ns[i].(isRead := true))
  }

  function Passes(filter: NotificationFilter): Notification -> bool
  {
    (n: Notification) => match filter
         case Unread => !n.isRead
         case Read => n.isRead
         case All => true
  }

  /** `filteredNotifications`. */
  function Filtered(ns: seq<Notification>, filter: NotificationFilter): seq<Notification>
  {
    Filter(ns, Passes(filter))
  }

  /** `unreadCount`. */
  function UnreadCount(ns: seq<Notification>): nat
  {
    |Filter(ns, Passes(Unread))|
  }

  /** The 'all' tab shows everything; the 'unread' and 'read' tabs show
      exactly the unread and the read entries, so between them they show
      the whole list, and the read count the page displays (total minus
      unread) is the length of the 'read' tab. */
  lemma {:induction false} FilterTabs(ns: seq<Notification>)
    ensures Filtered(ns, All) == ns
    ensures forall n | n in Filtered(ns, Unread) :: n in ns && !n.isRead
    ensures forall n | n in Filtered(ns, Read) :: n in ns && n.isRead
    ensures forall n | n in ns :: n in Filtered(ns, if n.isRead then Read else Unread)
    ensures UnreadCount(ns) + |Filtered(ns, Read)| == |ns|
    ensures |ns| - UnreadCount(ns) == |Filtered(ns, Read)|
  {
    FilterAll(ns, Passes(All));
    FilterComplement(ns, Passes(Read), Passes(Unread));
    forall n | n in Filtered(ns, Unread) ensures n in ns && !n.isRead {
      var i :| 0 <= i < |Filtered(ns, Unread)| && Filtered(ns, Unread)[i] == n;
    }
    forall n | n in Filtered(ns, Read) ensures n in ns && n.isRead {
      var i :| 0 <= i < |Filtered(ns, Read)| && Filtered(ns, Read)[i] == n;
    }
    forall n | n in ns ensures n in Filtered(ns, if n.isRead then Read else Unread) {
      var i :| 0 <= i < |ns| && ns[i] == n;
    }
  }

  /** Marking the same notification read twice is marking it once. */
  lemma {:induction false} MarkReadIdempotent(ns: seq<Notification>, notificationId: string)
    ensures MarkRead(MarkRead(ns, notificationId), notificationId) == MarkRead(ns, notificationId)
  {
    var once := MarkRead(ns, notificationId);
    assert forall i | 0 <= i < |once| :: once[i].id == ns[i].id;
  }

  /** After marking everything read nothing is unread. */
  lemma {:induction false} MarkAllReadClears(ns: seq<Notification>)
    ensures UnreadCount(MarkAllRead(ns)) == 0
    ensures Filtered(MarkAllRead(ns), Read) == MarkAllRead(ns)
  {
    var all := MarkAllRead(ns);
    FilterNone(all, Passes(Unread));
    FilterAll(all, Passes(Read));
  }

  /** Marking one notification read never raises the unread count, and
      lowers it when that notification was unread. */
  lemma {:induction false} MarkReadCount(ns: seq<Notification>, notificationId: string)
    ensures UnreadCount(MarkRead(ns, notificationId)) <= UnreadCount(ns)
    ensures (exists i | 0 <= i < |ns| :: ns[i].id == notificationId && !ns[i].isRead) ==>
      UnreadCount(MarkRead(ns, notificationId)) < UnreadCount(ns)
  {
    if ns != [] {
      var r := MarkRead(ns, notificationId);
      MarkReadCount(ns[1..], notificationId);
      assert r[1..] == MarkRead(ns[1..], notificationId);
      if exists i | 0 <= i < |ns| :: ns[i].id == notificationId && !ns[i].isRead {
        var i :| 0 <= i < |ns| && ns[i].id == notificationId && !ns[i].isRead;
        if i > 0 {
          assert ns[1..][i - 1] == ns[i];
        }
      }
    }
  }

  class NotificationsPage {
    var notifications: seq<Notification>
    var filter: NotificationFilter
    var selectedNotification: Option<Notification>
    var showDetailModal: bool

    /** The page after its notifications have been loaded. */
    constructor (loaded: seq<Notification>)
      ensures notifications == loaded && filter == All
      ensures selectedNotification == None && !showDetailModal
    {
      notifications := loaded;
      filter := All;
      selectedNotification := None;
      showDetailModal := false;
    }

    function Shown(): seq<Notification>
      reads this
    {
      Filtered(notifications, filter)
    }

    method SetFilter(f: NotificationFilter)
      modifies this
      ensures filter == f
      ensures notifications == old(notifications) && selectedNotification == old(selectedNotification)
      ensures showDetailModal == old(showDetailModal)
    {
      filter := f;
    }

    /** `handleMarkAsRead`: only the notification with the id changes,
        and only its read flag. */
    method MarkAsRead(notificationId: string)
      modifies this
      ensures notifications == MarkRead(old(notifications), notificationId)
      ensures filter == old(filter) && selectedNotification == old(selectedNotification)
      ensures showDetailModal == old(showDetailModal)
    {
      notifications := MarkRead(notifications, notificationId);
    }

    /** `handleMarkAllAsRead`: every notification read, so the unread
        counter drops to zero. */
    method MarkAllAsRead()
      modifies this
      ensures notifications == MarkAllRead(old(notifications))
      ensures UnreadCount(notifications) == 0
      ensures filter == old(filter) && selectedNotification == old(selectedNotification)
      ensures showDetailModal == old(showDetailModal)
    {
      notifications := MarkAllRead(notifications);
      MarkAllReadClears(old(notifications));
    }

    /** `handleNotificationClick`: an unread notification is marked read;
        the clicked value (as it was before marking) is selected and the
        detail view opens. */
    method NotificationClick(notification: Notification)
      modifies this
      ensures notifications == if notification.isRead then old(notifications) else MarkRead(old(notifications), notification.id)
      ensures selectedNotification == Some(notification) && showDetailModal
      ensures filter == old(filter)
    {
      if !notification.isRead {
        MarkAsRead(notification.id);
      }
      selectedNotification := Some(notification);
      showDetailModal := true;
    }
  }
}
