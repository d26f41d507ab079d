/** Points in time. A stamp that was never set stands for Go's zero time, which is older than any timeout. */
module Clock {
  datatype Stamp = Never | At(t: int)

  predicate Overdue(now: int, since: Stamp, limit: int) {
    since.Never? || now - since.t > limit
  }

  predicate Due(now: int, since: Stamp, interval: int) {
    since.Never? || now - since.t >= interval
  }
}
