/** The recency rule of the student roster: the "recent edits" column is only
    meaningful while the course is still being updated, that is, within seven
    days after the end of its last update run. */
module Recency {
  import opened Wrappers

  /** Timestamps are milliseconds since the epoch, as a JavaScript Date holds them. */
  type Timestamp = int

  /** Seven days in milliseconds. */
  const SevenDays: int := 7 * 24 * 60 * 60 * 1000

  /** The one field of an update run the rule reads. */
  datatype Update = Update(endTime: Timestamp)

  /** The part of a course the rule reads: its last update run, if any. */
  datatype Course = Course(lastUpdate: Option<Update>)

  /** The instant at which the course's update data stops being recent. */
  function StaleAt(u: Update): Timestamp
  {
    u.endTime + SevenDays
  }

  /** showRecent: true exactly when there is a last update and the instant seven days
      after its end lies strictly after `now`. */
  function ShowRecent(course: Course, now: Timestamp): (recent: bool)
    ensures course.lastUpdate.None? ==> !recent
    ensures recent <==> course.lastUpdate.Some? && now - course.lastUpdate.value.endTime < 604_800_000
  {
    match course.lastUpdate
    case None => false
    case Some(u) => StaleAt(u) > now
  }

  /** Exactly seven days after the end of the last update the data is no longer recent,
      and one millisecond earlier it still is. */
  lemma SevenDayBoundary(u: Update)
    ensures !ShowRecent(Course(Some(u)), u.endTime + SevenDays)
    ensures ShowRecent(Course(Some(u)), u.endTime + SevenDays - 1)
  {
  }

  /** Recency only decays: once the data is stale it stays stale at every later instant,
      and data recent now was recent at every earlier instant. */
  lemma StalenessPersists(course: Course, now: Timestamp, later: Timestamp)
    requires now <= later
    ensures ShowRecent(course, later) ==> ShowRecent(course, now)
  {
  }
}
