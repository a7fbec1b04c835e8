/** The book details screen: the loan state of the one book it shows, the
    two transitions between available and borrowed, and the split of the
    time left until the return date into days, hours and minutes.
    Instants are whole milliseconds since the epoch. */
module BookDetails {

  datatype Option<T> = None | Some(value: T)

  const MsPerMinute: int := 60_000
  const MsPerHour: int := 60 * MsPerMinute
  const MsPerDay: int := 24 * MsPerHour

  /** The book record the screen is opened with. `borrowed` is false when the
      record lacks the flag; `returnDate` is absent on a book never lent. */
  datatype Book = Book(id: int, title: string, author: string, borrowed: bool, returnDate: Option<int>)

  /** The screen's local state for one book. The record it was opened with
      is kept as it was passed in; only the availability and the return date
      change. The typed loan length is not kept: `Borrow` takes it as a
      parameter. */
  class BookView {
    const book: Book
    var isAvailable: bool
    var returnDate: int

    /** Opening the screen at instant `now`: available exactly when the record
        is not borrowed; the return date is the record's, or `now` when the
        record has none. */
    constructor (book: Book, now: int)
      ensures this.book == book
      ensures isAvailable == !book.borrowed
      ensures returnDate == (if book.returnDate.Some? then book.returnDate.value else now)
    {
      this.book := book;
      isAvailable := !book.borrowed;
      returnDate := if book.returnDate.Some? then book.returnDate.value else now;
    }

    /** The borrow button, shown only while the book is available: at instant
        `now`, lend it for `durationDays` days. Measured at that same instant,
        exactly `durationDays` days are left. */
    method Borrow(now: int, durationDays: int)
      requires isAvailable
      modifies this
      ensures !isAvailable
      ensures returnDate == now + durationDays * MsPerDay
      ensures RemainingTime(returnDate, now) == Remaining(durationDays, 0, 0)
    {
      isAvailable := false;
      returnDate := now + durationDays * MsPerDay;
      BorrowedForDays(now, durationDays);
    }

    /** The return button, shown only while the book is borrowed: it becomes
        available again and the last return date is left in place. */
    method Return()
      requires !isAvailable
      modifies this
      ensures isAvailable
      ensures returnDate == old(returnDate)
    {
      isAvailable := true;
    }
  }

  /** Time left, as whole days, hours within the day and minutes within the hour. */
  datatype Remaining = Remaining(days: int, hours: int, minutes: int)

  /** The whole minutes a remaining time stands for. */
  function TotalMinutes(t: Remaining): int {
    t.days * 1440 + t.hours * 60 + t.minutes
  }

  /** The time left from `now` until `returnDate`, each part floored: whole
      days first, then whole hours past those days, then whole minutes past
      those hours. An overdue book gets negative days, never negative hours
      or minutes. */
  function RemainingTime(returnDate: int, now: int): (r: Remaining)
    ensures 0 <= r.hours < 24 && 0 <= r.minutes < 60
    ensures TotalMinutes(r) == (returnDate - now) / MsPerMinute
    ensures r.days * MsPerDay <= returnDate - now < (r.days + 1) * MsPerDay
  {
    var diff := returnDate - now;
    var days := diff / MsPerDay;
    var hours := diff / MsPerHour - days * 24;
    var minutes := diff / MsPerMinute - days * 24 * 60 - hours * 60;
    Remaining(days, hours, minutes)
  }

  /** The split is the only one with hours in [0, 23] and minutes in [0, 59]
      that adds up to the floored minutes left. */
  lemma RemainingTimeUnique(returnDate: int, now: int, t: Remaining)
    requires 0 <= t.hours < 24 && 0 <= t.minutes < 60
    requires TotalMinutes(t) == (returnDate - now) / MsPerMinute
    ensures t == RemainingTime(returnDate, now)
  {
    var r := RemainingTime(returnDate, now);
    var m := (returnDate - now) / MsPerMinute;
    assert t.days * 1440 <= m < t.days * 1440 + 1440;
    assert r.days * 1440 <= m < r.days * 1440 + 1440;
    assert t.days == r.days;
    assert t.hours * 60 <= m - t.days * 1440 < t.hours * 60 + 60;
  }

  /** At the return instant nothing is left. */
  lemma RemainingAtReturnDate(t: int)
    ensures RemainingTime(t, t) == Remaining(0, 0, 0)
  {
  }

  /** At the lending instant `now`, a loan of `d` days has exactly `d` days left. */
  lemma BorrowedForDays(now: int, d: int)
    ensures RemainingTime(now + d * MsPerDay, now) == Remaining(d, 0, 0)
  {
    RemainingTimeUnique(now + d * MsPerDay, now, Remaining(d, 0, 0));
  }

  /** The screen reads the clock again when it next renders. Any instant
      within the first minute after lending already shows one minute less
      than `d` whole days. */
  lemma FirstRenderAfterBorrow(now: int, d: int, later: int)
    requires now < later <= now + MsPerMinute
    ensures RemainingTime(now + d * MsPerDay, later) == Remaining(d - 1, 23, 59)
  {
    RemainingTimeUnique(now + d * MsPerDay, later, Remaining(d - 1, 23, 59));
  }

  /** As `now` advances, the time left never grows. */
  lemma RemainingTimeMonotonic(returnDate: int, now1: int, now2: int)
    requires now1 <= now2
    ensures TotalMinutes(RemainingTime(returnDate, now2)) <= TotalMinutes(RemainingTime(returnDate, now1))
    ensures RemainingTime(returnDate, now2).days <= RemainingTime(returnDate, now1).days
  {
  }

  /** Lent on 2024-01-01T00:00Z for 3 days, at 2024-01-02T12:00Z the book has
      1 day and 12 hours left. */
  lemma LoanScenario()
    ensures RemainingTime(1_704_067_200_000 + 3 * MsPerDay, 1_704_196_800_000) == Remaining(1, 12, 0)
  {
  }
}
