/**
 * Contact messages and their admin workflow: the status enum, `markAsRead`
 * of the Contact model, and the show, reply and status-update actions of
 * ContactManagementController.
 */
module Contacts {
  import opened Wrappers

  /** The `status` enum column. */
  datatype Status = New | Read | Replied | Archived

  /** A contacts row; `repliedAt` is a timestamp and `repliedBy` a user id. */
  datatype Contact = Contact(
    userId: Option<int>,
    name: string,
    email: string,
    phone: Option<string>,
    subject: string,
    message: string,
    status: Status,
    adminReply: Option<string>,
    repliedAt: Option<int>,
    repliedBy: Option<int>)

  /** The stored spelling of each status. */
  function StatusName(s: Status): string {
    match s
    case New => "new"
    case Read => "read"
    case Replied => "replied"
    case Archived => "archived"
  }

  /** The `in:new,read,replied,archived` rule: the four names and nothing else. */
  function ParseStatus(text: string): (r: Option<Status>)
    ensures r.Some? ==> StatusName(r.value) == text
  {
    if text == "new" then Some(New)
    else if text == "read" then Some(Read)
    else if text == "replied" then Some(Replied)
    else if text == "archived" then Some(Archived)
    else None
  }

  /** Every status name parses back to its status, so exactly the four names are accepted. */
  lemma ParseStatusName(s: Status)
    ensures ParseStatus(StatusName(s)) == Some(s)
  {
  }

  /** markAsRead(): a new contact becomes read; any other is left as it is. */
  function MarkAsRead(c: Contact): (r: Contact)
    ensures c.status == New ==> r.status == Read
    ensures c.status != New ==> r == c
    ensures r.(status := c.status) == c
  {
    if c.status == New then c.(status := Read) else c
  }

  /** Marking as read twice is the same as marking once. */
  lemma MarkAsReadIdempotent(c: Contact)
    ensures MarkAsRead(MarkAsRead(c)) == MarkAsRead(c)
  {
  }

  /** show(): viewing a contact marks it as read. */
  function Show(c: Contact): (r: Contact)
    ensures r.status != New
    ensures r.(status := c.status) == c
  {
    MarkAsRead(c)
  }

  /**
   * reply(): whatever the status, including archived, the contact becomes
   * replied with this reply, time and admin, overwriting an earlier reply.
   */
  function Reply(c: Contact, reply: string, now: int, adminId: int): (r: Contact)
    ensures r.status == Replied
    ensures r.adminReply == Some(reply) && r.repliedAt == Some(now) && r.repliedBy == Some(adminId)
    ensures r.(status := c.status, adminReply := c.adminReply, repliedAt := c.repliedAt, repliedBy := c.repliedBy) == c
  {
    c.(adminReply := Some(reply), status := Replied, repliedAt := Some(now), repliedBy := Some(adminId))
  }

  /** A second reply replaces everything the first one recorded. */
  lemma LaterReplyOverwrites(c: Contact, r1: string, t1: int, a1: int, r2: string, t2: int, a2: int)
    ensures Reply(Reply(c, r1, t1, a1), r2, t2, a2) == Reply(c, r2, t2, a2)
  {
  }

  /** A reply is never undone by viewing: a replied contact stays replied. */
  lemma ShowAfterReply(c: Contact, reply: string, now: int, adminId: int)
    ensures Show(Reply(c, reply, now, adminId)) == Reply(c, reply, now, adminId)
  {
  }

  /**
   * updateStatus(): an unknown name is refused with no change; a known one
   * is set whatever the current status, and nothing else changes.
   */
  function UpdateStatus(c: Contact, status: string): (r: Option<Contact>)
    ensures r.Some? <==> status in {"new", "read", "replied", "archived"}
    ensures r.Some? ==> StatusName(r.value.status) == status
    ensures r.Some? ==> r.value.(status := c.status) == c
  {
    match ParseStatus(status)
    case None => None
    case Some(s) => Some(c.(status := s))
  }

  /** Every transition is allowed, including back to new from archived or replied. */
  lemma AnyTransitionAllowed(c: Contact, s: Status)
    ensures UpdateStatus(c, StatusName(s)) == Some(c.(status := s))
  {
  }
}
