/** The notification sink the handlers call after a commit. What it does with a message
    is outside this model; what is modelled is the order of the calls it receives. */
module Notifications {
  import opened Wrappers

  /** One call `notify(user_name=..., book_title=...)`; the title is the book's nullable
      column. */
  datatype Notification = Notification(userName: string, bookTitle: Option<string>)

  class Notifier {
    /** Every notification received so far, oldest first. */
    var sent: seq<Notification>

    constructor ()
      ensures sent == []
    {
      sent := [];
    }

    method Notify(userName: string, bookTitle: Option<string>)
      modifies this
      ensures sent == old(sent) + [Notification(userName, bookTitle)]
    {
      sent := sent + [Notification(userName, bookTitle)];
    }
  }
}
