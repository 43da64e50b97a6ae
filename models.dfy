/**
 * The three tables of the reservation backend: users, weekly slots and
 * bookings, with the `uq_user_slot_date` uniqueness constraint on bookings
 * and the `unique` constraint on user emails.
 */
module Models {
  import opened Wrappers
  import opened Calendar

  /** The `Role` values stored in `users.role`. */
  const AdminRole: string := "ADMIN"
  const UserRole: string := "USER"

  /** The `Facility` values stored in `slots.impianto`. */
  const Gym: string := "PALESTRA"
  const Fields: string := "CAMPI"
  const Pool: string := "PISCINA"

  /**
   * A row of `users`: `nome`, `cognome`, `gruppo`, `role`, `email`, `active`.
   * The password hash is not part of this model.
   */
  datatype User = User(firstName: string, surname: string, group: string, role: string, email: string, active: bool)
  {
    /** `User.is_admin`. */
    predicate IsAdmin()
    {
      role == AdminRole
    }
  }

  /**
   * A row of `slots`: facility (`impianto`), title (`titolo`), weekday
   * (`giorno_settimana`, Monday=1 ... Sunday=7), start and end times
   * (`ora_inizio`, `ora_fine`, `HH:MM` text), capacity (`capienza`, `None`
   * meaning unlimited) and `attivo`.
   */
  datatype Slot = Slot(facility: string, title: string, weekday: int, start: string, end: string,
                       capacity: Option<int>, active: bool)

  /**
   * A `users` row as the table stores it when the insert leaves out `role`
   * or `active`: the column defaults are `USER` and true.
   */
  function NewUser(firstName: string, surname: string, group: string, email: string,
                   role: Option<string>, active: Option<bool>): (u: User)
    ensures role.None? ==> u.role == UserRole && !u.IsAdmin()
    ensures role.Some? ==> u.role == role.value
    ensures active.None? ==> u.active
    ensures active.Some? ==> u.active == active.value
  {
    User(firstName, surname, group, if role.Some? then role.value else UserRole, email,
         if active.Some? then active.value else true)
  }

  /** A `slots` row as the table stores it when the insert leaves out `attivo`: the default is true. */
  function NewSlot(facility: string, title: string, weekday: int, start: string, end: string,
                   capacity: Option<int>, active: Option<bool>): (s: Slot)
    ensures active.None? ==> s.active
    ensures active.Some? ==> s.active == active.value
    ensures s.capacity == capacity && s.weekday == weekday
  {
    Slot(facility, title, weekday, start, end, capacity, if active.Some? then active.value else true)
  }

  /** A row of `bookings`; `createdAt` is `timestamp_creazione` as an abstract instant. */
  datatype Booking = Booking(id: int, userId: int, slotId: int, date: Date, createdAt: int)

  /** The authenticated caller: the user's id and whether `is_admin()` holds for them. */
  datatype Principal = Principal(id: int, admin: bool)

  /** The caller a signed-in user becomes. */
  function PrincipalOf(id: int, u: User): (p: Principal)
    ensures p.id == id
    ensures p.admin <==> u.role == "ADMIN"
  {
    Principal(id, u.IsAdmin())
  }

  predicate SameKey(b: Booking, userId: int, slotId: int, date: Date)
  {
    b.userId == userId && b.slotId == slotId && b.date == date
  }

  /** `UniqueConstraint("user_id", "slot_id", "data", name="uq_user_slot_date")`. */
  predicate UniqueKeys(bs: seq<Booking>)
  {
    forall i, j :: 0 <= i < j < |bs| ==> !SameKey(bs[j], bs[i].userId, bs[i].slotId, bs[i].date)
  }

  /** `bookings.id` is the primary key. */
  predicate UniqueIds(bs: seq<Booking>)
  {
    forall i, j :: 0 <= i < j < |bs| ==> bs[i].id != bs[j].id
  }

  /** `users.email` is `unique=True`. */
  predicate UniqueEmails(users: seq<User>)
  {
    forall i, j :: 0 <= i < j < |users| ==> users[i].email != users[j].email
  }
}
