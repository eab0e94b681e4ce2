/**
 The wake-up primitive, with only the semantics its users rely on: it stores no permit, so
 a notification reaches the waiters already registered and nobody else.
 */
module Notifications {
  type Task = nat

  /** The registered waiters, each with whether a notification has reached it. */
  datatype Notify = Notify(woken: map<Task, bool>)
  {
    function Enable(t: Task): Notify
    {
      Notify(woken[t := false])
    }

    function NotifyWaiters(): Notify
    {
      Notify(map t | t in woken :: true)
    }

    function Leave(t: Task): Notify
    {
      Notify(woken - {t})
    }

    predicate Registered(t: Task)
    {
      t in woken
    }

    predicate Woken(t: Task)
    {
      t in woken && woken[t]
    }
  }
}
