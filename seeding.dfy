/**
 * The seeding script: the weekly slot table, user accounts built from the
 * roster rows (usernames made unique with a numeric suffix, the single
 * administrator designated by name) and the final "exactly one admin" check.
 */
module Seeding {
  import opened Wrappers
  import opened Text
  import opened Requests
  import opened Models
  import opened Slug

  // ---------------------------------------------------------------------------
  // The slot table
  // ---------------------------------------------------------------------------

  /** The three gym turns of one weekday, capacity 30 each. */
  function GymDay(dow: int): seq<Slot>
  {
    [Slot(Gym, "1° Turno", dow, "16:00", "17:15", Some(30), true),
     Slot(Gym, "2° Turno", dow, "17:15", "18:15", Some(30), true),
     Slot(Gym, "3° Turno", dow, "20:00", "21:15", Some(30), true)]
  }

  /** The single unlimited turn of the sports fields on one weekday. */
  function FieldsDay(dow: int): seq<Slot>
  {
    [Slot(Fields, "Unico turno", dow, "16:00", "18:15", None, true)]
  }

  /** The gym turns of weekdays 1 to `n`, in that order. */
  function GymWeek(n: nat): seq<Slot>
  {
    if n == 0 then [] else GymWeek(n - 1) + GymDay(n)
  }

  /** The field turns of weekdays 1 to `n`, in that order. */
  function FieldsWeek(n: nat): seq<Slot>
  {
    if n == 0 then [] else FieldsWeek(n - 1) + FieldsDay(n)
  }

  /** The four pool turns: Tuesday, Wednesday twice, Thursday. */
  function PoolTurns(): seq<Slot>
  {
    [Slot(Pool, "Turno unico", 2, "17:10", "18:00", Some(21), true),
     Slot(Pool, "Turno 1", 3, "16:20", "17:10", Some(14), true),
     Slot(Pool, "Turno 2", 3, "17:10", "18:00", Some(14), true),
     Slot(Pool, "Turno unico", 4, "17:10", "18:00", Some(21), true)]
  }

  /** The rows `seed_slots` adds, in the order it adds them. */
  function SlotTable(): seq<Slot>
  {
    GymWeek(5) + FieldsWeek(5) + PoolTurns()
  }

  /** `seed_slots`: two loops over Monday to Friday, then the pool turns. */
  method SeedSlots() returns (table: seq<Slot>)
    ensures table == SlotTable()
  {
    table := [];
    for dow := 1 to 6
      invariant table == GymWeek(dow - 1)
    {
      table := table + [Slot(Gym, "1° Turno", dow, "16:00", "17:15", Some(30), true)];
      table := table + [Slot(Gym, "2° Turno", dow, "17:15", "18:15", Some(30), true)];
      table := table + [Slot(Gym, "3° Turno", dow, "20:00", "21:15", Some(30), true)];
    }
    ghost var gym := table;
    for dow := 1 to 6
      invariant table == gym + FieldsWeek(dow - 1)
    {
      table := table + [Slot(Fields, "Unico turno", dow, "16:00", "18:15", None, true)];
    }
    table := table + [Slot(Pool, "Turno unico", 2, "17:10", "18:00", Some(21), true)];
    table := table + [Slot(Pool, "Turno 1", 3, "16:20", "17:10", Some(14), true)];
    table := table + [Slot(Pool, "Turno 2", 3, "17:10", "18:00", Some(14), true)];
    table := table + [Slot(Pool, "Turno unico", 4, "17:10", "18:00", Some(21), true)];
  }

  /** How many slots of `facility` fall on weekday `dow`. */
  function CountOn(slots: seq<Slot>, facility: string, dow: int): nat
  {
    if slots == [] then 0
    else CountOn(slots[..|slots| - 1], facility, dow)
         + (if slots[|slots| - 1].facility == facility && slots[|slots| - 1].weekday == dow then 1 else 0)
  }

  lemma {:induction false} CountOnConcat(a: seq<Slot>, b: seq<Slot>, facility: string, dow: int)
    ensures CountOn(a + b, facility, dow) == CountOn(a, facility, dow) + CountOn(b, facility, dow)
    decreases |b|
  {
    if b == [] {
      assert a + b == a;
    } else {
      var init, last := b[..|b| - 1], b[|b| - 1];
      assert (a + b)[..|a + b| - 1] == a + init;
      assert (a + b)[|a + b| - 1] == last;
      CountOnConcat(a, init, facility, dow);
    }
  }

  lemma CountOnOne(s: Slot, facility: string, dow: int)
    ensures CountOn([s], facility, dow) == if s.facility == facility && s.weekday == dow then 1 else 0
  {
    assert [s][..0] == [];
  }

  lemma GymDayCount(d: int, facility: string, dow: int)
    ensures CountOn(GymDay(d), facility, dow) == if facility == Gym && d == dow then 3 else 0
  {
    var g := GymDay(d);
    assert g == [g[0]] + [g[1]] + [g[2]];
    CountOnConcat([g[0]], [g[1]], facility, dow);
    CountOnConcat([g[0]] + [g[1]], [g[2]], facility, dow);
    CountOnOne(g[0], facility, dow);
    CountOnOne(g[1], facility, dow);
    CountOnOne(g[2], facility, dow);
  }

  lemma {:induction false} GymWeekCount(n: nat, facility: string, dow: int)
    ensures CountOn(GymWeek(n), facility, dow) == if facility == Gym && 1 <= dow <= n then 3 else 0
  {
    if n > 0 {
      GymWeekCount(n - 1, facility, dow);
      CountOnConcat(GymWeek(n - 1), GymDay(n), facility, dow);
      GymDayCount(n, facility, dow);
    }
  }

  lemma {:induction false} FieldsWeekCount(n: nat, facility: string, dow: int)
    ensures CountOn(FieldsWeek(n), facility, dow) == if facility == Fields && 1 <= dow <= n then 1 else 0
  {
    if n > 0 {
      FieldsWeekCount(n - 1, facility, dow);
      CountOnConcat(FieldsWeek(n - 1), FieldsDay(n), facility, dow);
      CountOnOne(FieldsDay(n)[0], facility, dow);
    }
  }

  lemma PoolTurnsCount(facility: string, dow: int)
    ensures CountOn(PoolTurns(), facility, dow)
            == if facility != Pool then 0 else if dow == 3 then 2 else if dow == 2 || dow == 4 then 1 else 0
  {
    var p := PoolTurns();
    assert p == [p[0]] + [p[1]] + [p[2]] + [p[3]];
    CountOnConcat([p[0]], [p[1]], facility, dow);
    CountOnConcat([p[0]] + [p[1]], [p[2]], facility, dow);
    CountOnConcat([p[0]] + [p[1]] + [p[2]], [p[3]], facility, dow);
    CountOnOne(p[0], facility, dow);
    CountOnOne(p[1], facility, dow);
    CountOnOne(p[2], facility, dow);
    CountOnOne(p[3], facility, dow);
  }

  lemma {:induction false} GymWeekShape(n: nat)
    ensures |GymWeek(n)| == 3 * n
    ensures forall i :: 0 <= i < |GymWeek(n)| ==>
              GymWeek(n)[i].facility == Gym && GymWeek(n)[i].capacity == Some(30) && GymWeek(n)[i].active
  {
    if n > 0 {
      GymWeekShape(n - 1);
    }
  }

  lemma {:induction false} FieldsWeekShape(n: nat)
    ensures |FieldsWeek(n)| == n
    ensures forall i :: 0 <= i < |FieldsWeek(n)| ==>
              FieldsWeek(n)[i].facility == Fields && FieldsWeek(n)[i].capacity == None && FieldsWeek(n)[i].active
  {
    if n > 0 {
      FieldsWeekShape(n - 1);
    }
  }

  /**
   * The seeded table: 24 active slots; three gym turns (capacity 30) and one
   * unlimited field turn on each weekday from Monday to Friday; the pool once
   * on Tuesday and Thursday (capacity 21) and twice on Wednesday (capacity 14).
   */
  lemma SlotTableFacts()
    ensures |SlotTable()| == 24
    ensures forall i :: 0 <= i < |SlotTable()| ==> SlotTable()[i].active
    ensures forall i :: 0 <= i < |SlotTable()| && SlotTable()[i].facility == Gym ==> SlotTable()[i].capacity == Some(30)
    ensures forall i :: 0 <= i < |SlotTable()| && SlotTable()[i].facility == Fields ==> SlotTable()[i].capacity == None
    ensures forall i :: 0 <= i < |SlotTable()| && SlotTable()[i].facility == Pool ==>
              SlotTable()[i].capacity == (if SlotTable()[i].weekday == 3 then Some(14) else Some(21))
    ensures forall dow :: 1 <= dow <= 5 ==> CountOn(SlotTable(), Gym, dow) == 3 && CountOn(SlotTable(), Fields, dow) == 1
    ensures forall dow :: dow < 1 || dow > 5 ==> CountOn(SlotTable(), Gym, dow) == 0 && CountOn(SlotTable(), Fields, dow) == 0
    ensures CountOn(SlotTable(), Pool, 2) == 1 && CountOn(SlotTable(), Pool, 3) == 2 && CountOn(SlotTable(), Pool, 4) == 1
    ensures forall dow :: dow != 2 && dow != 3 && dow != 4 ==> CountOn(SlotTable(), Pool, dow) == 0
  {
    var g, f, p := GymWeek(5), FieldsWeek(5), PoolTurns();
    GymWeekShape(5);
    FieldsWeekShape(5);
    var t := SlotTable();
    assert t == g + f + p;
    assert forall i :: 0 <= i < |t| ==> t[i] == if i < 15 then g[i] else if i < 20 then f[i - 15] else p[i - 20];
    forall facility: string, dow: int
      ensures CountOn(t, facility, dow) == CountOn(g, facility, dow) + CountOn(f, facility, dow) + CountOn(p, facility, dow)
    {
      CountOnConcat(g, f, facility, dow);
      CountOnConcat(g + f, p, facility, dow);
    }
    forall facility: string, dow: int
      ensures CountOn(g, facility, dow) == if facility == Gym && 1 <= dow <= 5 then 3 else 0
      ensures CountOn(f, facility, dow) == if facility == Fields && 1 <= dow <= 5 then 1 else 0
      ensures CountOn(p, facility, dow)
              == if facility != Pool then 0 else if dow == 3 then 2 else if dow == 2 || dow == 4 then 1 else 0
    {
      GymWeekCount(5, facility, dow);
      FieldsWeekCount(5, facility, dow);
      PoolTurnsCount(facility, dow);
    }
  }

  // ---------------------------------------------------------------------------
  // Usernames
  // ---------------------------------------------------------------------------

  /** Text that lower-casing leaves unchanged. */
  predicate NoUpper(s: string)
  {
    forall i :: 0 <= i < |s| ==> !IsUpperAscii(s[i])
  }

  /** `y` is `base` followed by the decimal spelling of a number below `n`. */
  predicate NumberedBelow(base: string, y: string, n: int)
  {
    |y| > |base| && y[..|base|] == base && AllDigits(y[|base|..]) && DigitsValue(y[|base|..]) < n
  }

  /** `f"{base}{i}"`. */
  function Numbered(base: string, i: nat): string
  {
    base + DecimalString(i)
  }

  lemma SuffixedParts(base: string, i: nat)
    ensures Numbered(base, i)[..|base|] == base
    ensures Numbered(base, i)[|base|..] == DecimalString(i)
    ensures DigitsValue(Numbered(base, i)[|base|..]) == i
  {
    DecimalRoundTrip(i);
  }

  lemma SubsetSize(a: set<string>, b: set<string>)
    requires a <= b
    ensures |a| <= |b|
  {
    assert b == a + (b - a);
  }

  /**
   * The de-duplication loop: the base name when it is not yet taken,
   * otherwise the base name followed by the smallest number from 2 up whose
   * spelling is not yet taken.
   */
  method Deduplicate(base: string, seen: set<string>) returns (username: string)
    ensures username !in seen
    ensures base !in seen ==> username == base
    ensures base in seen ==> exists i :: 2 <= i && username == Numbered(base, i)
                                         && forall j :: 2 <= j < i ==> Numbered(base, j) in seen
    ensures |username| >= |base| && username[..|base|] == base && AllDigits(username[|base|..])
  {
    username := base;
    var i := 2;
    ghost var tried: set<string> := {};
    while username in seen
      invariant i >= 2
      invariant i == 2 ==> username == base
      invariant i > 2 ==> username == Numbered(base, i - 1) && base in seen
      invariant i > 2 ==> forall j :: 2 <= j < i - 1 ==> Numbered(base, j) in seen
      invariant tried <= seen && |tried| == i - 2
      invariant forall y :: y in tried ==> y == base || NumberedBelow(base, y, i - 1)
      invariant username !in tried
      decreases |seen| - |tried|
    {
      if i > 2 {
        SuffixedParts(base, i - 1);
      }
      tried := tried + {username};
      SubsetSize(tried, seen);
      username := Numbered(base, i);
      SuffixedParts(base, i);
      i := i + 1;
    }
    if i > 2 {
      SuffixedParts(base, i - 1);
    }
  }

  /** A roster row: group, surname and first name, as read from the spreadsheet. */
  datatype Row = Row(group: string, surname: string, firstName: string)

  /** `f"{slugify(nome)}.{slugify(cognome)}"` on the stripped names. */
  function BaseName(r: Row): string
  {
    Slugify(Strip(r.firstName)) + "." + Slugify(Strip(r.surname))
  }

  lemma NoUpperConcat(a: string, b: string)
    requires NoUpper(a) && NoUpper(b)
    ensures NoUpper(a + b)
  {
  }

  lemma DottedNoUpper(a: string, b: string)
    requires IsSlug(a) && IsSlug(b)
    ensures NoUpper(a + "." + b)
  {
  }

  /** Usernames are built from slugs, a dot and digits: no upper-case letter. */
  lemma BaseNameNoUpper(r: Row)
    ensures NoUpper(BaseName(r))
  {
    SlugifyIsSlug(Strip(r.firstName));
    SlugifyIsSlug(Strip(r.surname));
    DottedNoUpper(Slugify(Strip(r.firstName)), Slugify(Strip(r.surname)));
  }

  lemma SuffixedNoUpper(base: string, username: string)
    requires NoUpper(base)
    requires |username| >= |base| && username[..|base|] == base && AllDigits(username[|base|..])
    ensures NoUpper(username)
  {
    assert username == base + username[|base|..];
  }

  lemma LowerKeepsNoUpper(t: string)
    requires NoUpper(t)
    ensures Lower(t) == t
  {
  }

  /** The administrator is Massimo Meneghelli, whatever the case of the names. */
  function RoleFor(surname: string, firstName: string): (role: string)
    ensures role == AdminRole || role == UserRole
    ensures role == AdminRole <==> Upper(surname) == "MENEGHELLI" && Upper(firstName) == "MASSIMO"
  {
    if Upper(surname) == "MENEGHELLI" && Upper(firstName) == "MASSIMO" then AdminRole else UserRole
  }

  predicate IsAsciiLetter(c: char) { IsLowerAscii(c) || IsUpperAscii(c) }

  /** `str.title()` on ASCII letters: upper case after a non-letter, lower case after a letter. */
  function Title(s: string): (r: string)
    ensures |r| == |s|
    ensures forall i :: 0 <= i < |s| ==> (IsAsciiLetter(r[i]) <==> IsAsciiLetter(s[i]))
    ensures forall i :: 0 <= i < |s| && !IsAsciiLetter(s[i]) ==> r[i] == s[i]
    ensures forall i :: 0 <= i < |r| && IsAsciiLetter(r[i]) ==>
              (IsUpperAscii(r[i]) <==> i == 0 || !IsAsciiLetter(r[i - 1]))
  {
    seq(|s|, i requires 0 <= i < |s| =>
      if !IsAsciiLetter(s[i]) then s[i]
      else if i > 0 && IsAsciiLetter(s[i - 1]) then LowerChar(s[i])
      else UpperChar(s[i]))
  }

  /** Title-casing a name does not change its upper-cased form. */
  lemma UpperOfTitle(s: string)
    ensures Upper(Title(s)) == Upper(s)
  {
  }

  /** The account created for a roster row under the chosen username. */
  function SeededUser(r: Row, username: string): User
  {
    User(Title(Strip(r.firstName)), Title(Strip(r.surname)), Strip(r.group),
         RoleFor(Strip(r.surname), Strip(r.firstName)), Lower(username + "@smam.local"), true)
  }

  /** The e-mail is the username at `smam.local`; lower-casing changes nothing in it. */
  lemma SeededEmail(r: Row, username: string)
    requires NoUpper(username)
    ensures SeededUser(r, username).email == username + "@smam.local"
  {
    var domain := "@smam.local";
    assert NoUpper(domain);
    NoUpperConcat(username, domain);
    LowerKeepsNoUpper(username + domain);
  }

  /** The stored names give the same role as the roster names they were title-cased from. */
  lemma SeededRoleFromStoredNames(r: Row, username: string)
    ensures SeededUser(r, username).IsAdmin()
            <==> Upper(SeededUser(r, username).surname) == "MENEGHELLI"
                 && Upper(SeededUser(r, username).firstName) == "MASSIMO"
  {
    UpperOfTitle(Strip(r.surname));
    UpperOfTitle(Strip(r.firstName));
  }

  lemma AppendCancel(a: string, b: string, c: string)
    requires a + c == b + c
    ensures a == b
  {
    assert a == (a + c)[..|a|];
    assert b == (b + c)[..|b|];
  }

  /**
   * One pass of the roster loop: strip the cells, choose a free username and
   * build the account.
   */
  method NewAccount(r: Row, seen: set<string>) returns (user: User, username: string)
    ensures username !in seen
    ensures user == SeededUser(r, username)
    ensures user.email == username + "@smam.local"
  {
    var base := BaseName(r);
    username := Deduplicate(base, seen);
    BaseNameNoUpper(r);
    SuffixedNoUpper(base, username);
    SeededEmail(r, username);
    user := SeededUser(r, username);
  }

  /** Distinct usernames at the same domain give distinct e-mails. */
  lemma DistinctEmails(users: seq<User>, usernames: seq<string>)
    requires |users| == |usernames|
    requires forall i, j :: 0 <= i < j < |usernames| ==> usernames[i] != usernames[j]
    requires forall k :: 0 <= k < |users| ==> users[k].email == usernames[k] + "@smam.local"
    ensures UniqueEmails(users)
  {
    forall i, j | 0 <= i < j < |users| ensures users[i].email != users[j].email {
      if users[i].email == users[j].email {
        AppendCancel(usernames[i], usernames[j], "@smam.local");
      }
    }
  }

  /** `seen` holds exactly the usernames handed out, each once. */
  predicate Registry(usernames: seq<string>, seen: set<string>)
  {
    && (forall x {:trigger x in seen} :: x in seen ==> x in usernames)
    && (forall m {:trigger usernames[m]} :: 0 <= m < |usernames| ==> usernames[m] in seen)
    && |seen| == |usernames|
    && (forall i, j :: 0 <= i < j < |usernames| ==> usernames[i] != usernames[j])
  }

  /** Handing out a fresh username keeps the registry exact. */
  lemma RegistryGrows(usernames: seq<string>, seen: set<string>, username: string)
    requires Registry(usernames, seen) && username !in seen
    ensures Registry(usernames + [username], seen + {username})
  {
    var names := usernames + [username];
    assert forall m :: 0 <= m < |usernames| ==> names[m] == usernames[m];
  }

  /** `f` applied to the elements of `xs` and `ys` pairwise, as a loop appending one result per pair builds it. */
  function Zip<A, B, C>(f: (A, B) -> C, xs: seq<A>, ys: seq<B>): (zs: seq<C>)
    requires |xs| == |ys|
    ensures |zs| == |xs|
  {
    if xs == [] then []
    else Zip(f, xs[..|xs| - 1], ys[..|xs| - 1]) + [f(xs[|xs| - 1], ys[|xs| - 1])]
  }

  /** Element `k` of the pairwise result is `f` of the two elements at `k`. */
  lemma {:induction false} ZipAt<A, B, C>(f: (A, B) -> C, xs: seq<A>, ys: seq<B>, k: nat)
    requires |xs| == |ys| && k < |xs|
    ensures Zip(f, xs, ys)[k] == f(xs[k], ys[k])
    decreases |xs|
  {
    var n := |xs| - 1;
    if k < n {
      ZipAt(f, xs[..n], ys[..n], k);
    }
  }

  lemma ZipGrow<A, B, C>(f: (A, B) -> C, xs: seq<A>, k: nat, zs: seq<C>, ys: seq<B>, z: C, y: B)
    requires k < |xs| && |ys| == k
    requires zs == Zip(f, xs[..k], ys)
    requires z == f(xs[k], y)
    ensures zs + [z] == Zip(f, xs[..k + 1], ys + [y])
  {
    var r, n := xs[..k + 1], ys + [y];
    assert r[..k] == xs[..k] && n[..k] == ys;
    assert r[k] == xs[k] && n[k] == y;
  }

  /** Every account's e-mail is its username at the seeding domain. */
  predicate EmailsMatch(users: seq<User>, usernames: seq<string>)
    requires |users| == |usernames|
  {
    forall m :: 0 <= m < |users| ==> users[m].email == usernames[m] + "@smam.local"
  }

  lemma EmailsGrow(users: seq<User>, usernames: seq<string>, user: User, username: string)
    requires |users| == |usernames| && EmailsMatch(users, usernames)
    requires user.email == username + "@smam.local"
    ensures EmailsMatch(users + [user], usernames + [username])
  {
    var us, names := users + [user], usernames + [username];
    assert forall m :: 0 <= m < |users| ==> us[m] == users[m] && names[m] == usernames[m];
  }

  /**
   * `seed_users_from_excel` after the spreadsheet is read: one account per
   * row, `seen` holding every username handed out so far.
   */
  method SeedUsers(rows: seq<Row>) returns (users: seq<User>, usernames: seq<string>, seen: set<string>)
    ensures |users| == |rows| && |usernames| == |rows|
    ensures users == Zip(SeededUser, rows, usernames)
    ensures forall x :: x in seen <==> x in usernames
    ensures |seen| == |rows|
    ensures forall i, j :: 0 <= i < j < |usernames| ==> usernames[i] != usernames[j]
    ensures forall k :: 0 <= k < |rows| ==> users[k].email == usernames[k] + "@smam.local"
    ensures UniqueEmails(users)
  {
    users, usernames, seen := [], [], {};
    for k := 0 to |rows|
      invariant |users| == k && |usernames| == k
      invariant users == Zip(SeededUser, rows[..k], usernames)
      invariant EmailsMatch(users, usernames)
      invariant Registry(usernames, seen)
    {
      var user, username := NewAccount(rows[k], seen);
      RegistryGrows(usernames, seen, username);
      ZipGrow(SeededUser, rows, k, users, usernames, user, username);
      EmailsGrow(users, usernames, user, username);
      usernames := usernames + [username];
      users := users + [user];
      seen := seen + {username};
    }
    assert rows[..|rows|] == rows;
    DistinctEmails(users, usernames);
  }

  // ---------------------------------------------------------------------------
  // The single administrator
  // ---------------------------------------------------------------------------

  /** How many users hold the ADMIN role. */
  function AdminCount(users: seq<User>): nat
  {
    if users == [] then 0
    else AdminCount(users[..|users| - 1]) + (if users[|users| - 1].IsAdmin() then 1 else 0)
  }

  /** There are no admins exactly when nobody holds the role. */
  lemma {:induction false} NoAdminCount(users: seq<User>)
    ensures AdminCount(users) == 0 <==> forall i :: 0 <= i < |users| ==> !users[i].IsAdmin()
    decreases |users|
  {
    if users != [] {
      var init := users[..|users| - 1];
      NoAdminCount(init);
      assert forall i :: 0 <= i < |init| ==> init[i] == users[i];
    }
  }

  /** User `i` is the only one holding the ADMIN role. */
  predicate SoleAdmin(users: seq<User>, i: int)
  {
    0 <= i < |users| && users[i].IsAdmin() && forall j :: 0 <= j < |users| && j != i ==> !users[j].IsAdmin()
  }

  lemma {:induction false} SoleAdminCounted(users: seq<User>, i: int)
    requires SoleAdmin(users, i)
    ensures AdminCount(users) == 1
    decreases |users|
  {
    var n := |users| - 1;
    var init := users[..n];
    assert forall k :: 0 <= k < n ==> init[k] == users[k];
    if i == n {
      NoAdminCount(init);
    } else {
      assert SoleAdmin(init, i);
      SoleAdminCounted(init, i);
    }
  }

  lemma {:induction false} CountedSoleAdmin(users: seq<User>)
    requires AdminCount(users) == 1
    ensures exists i :: SoleAdmin(users, i)
    decreases |users|
  {
    var n := |users| - 1;
    var init := users[..n];
    assert forall k :: 0 <= k < n ==> init[k] == users[k];
    if users[n].IsAdmin() {
      NoAdminCount(init);
      assert SoleAdmin(users, n);
    } else {
      CountedSoleAdmin(init);
      var i :| SoleAdmin(init, i);
      assert SoleAdmin(users, i);
    }
  }

  /** There is one admin exactly when some user holds the role and nobody else does. */
  lemma OneAdminCount(users: seq<User>)
    ensures AdminCount(users) == 1 <==> exists i :: SoleAdmin(users, i)
  {
    if AdminCount(users) == 1 {
      CountedSoleAdmin(users);
    }
    if exists i :: SoleAdmin(users, i) {
      var i :| SoleAdmin(users, i);
      SoleAdminCounted(users, i);
    }
  }

  /** The outcome of `ensure_single_admin`: it passes, or raises for none or for several. */
  datatype AdminCheck = SingleAdmin | NoAdmin | ManyAdmins(count: nat)

  /** `ensure_single_admin` over the committed users, counting the ADMIN rows. */
  method EnsureSingleAdmin(users: seq<User>) returns (outcome: AdminCheck)
    ensures outcome == NoAdmin <==> forall i :: 0 <= i < |users| ==> !users[i].IsAdmin()
    ensures outcome == SingleAdmin <==> exists i :: SoleAdmin(users, i)
    ensures outcome.ManyAdmins? ==> outcome.count > 1 && outcome.count == AdminCount(users)
    ensures AdminCount(users) > 1 ==> outcome.ManyAdmins?
  {
    var admins := 0;
    for k := 0 to |users|
      invariant admins == AdminCount(users[..k])
    {
      assert users[..k + 1][..k] == users[..k];
      if users[k].IsAdmin() {
        admins := admins + 1;
      }
    }
    assert users[..|users|] == users;
    NoAdminCount(users);
    OneAdminCount(users);
    if admins == 0 {
      outcome := NoAdmin;
    } else if admins > 1 {
      outcome := ManyAdmins(admins);
    } else {
      outcome := SingleAdmin;
    }
  }

  /** How many roster rows name the designated administrator. */
  function DesignatedAdmins(rows: seq<Row>): nat
  {
    if rows == [] then 0
    else DesignatedAdmins(rows[..|rows| - 1])
         + (if RoleFor(Strip(rows[|rows| - 1].surname), Strip(rows[|rows| - 1].firstName)) == AdminRole then 1 else 0)
  }

  /**
   * The seeded accounts hold as many admins as the roster has rows naming
   * Massimo Meneghelli, so the final check passes exactly when there is one.
   */
  lemma {:induction false} SeededAdmins(rows: seq<Row>, usernames: seq<string>, users: seq<User>)
    requires |usernames| == |rows|
    requires users == Zip(SeededUser, rows, usernames)
    ensures AdminCount(users) == DesignatedAdmins(rows)
    decreases |rows|
  {
    if rows != [] {
      var n := |rows| - 1;
      assert users[..n] == Zip(SeededUser, rows[..n], usernames[..n]);
      SeededAdmins(rows[..n], usernames[..n], users[..n]);
    }
  }
}
