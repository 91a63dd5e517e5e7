/** The window's four button handlers and the snapshot file behind them.

    Each handler is a pure function from the current user list (and the text
    in the form) to the list it leaves, the message it shows, and whether it
    asks for the list to be saved. The file is reduced to what `loadUsers`
    can read back from it. */
module BillingApp {
  import opened Wrappers
  import opened JavaText
  import opened CustomerLedger

  /** The message dialog, or display-area text, a handler ends with. */
  datatype Reply =
    | UserAdded                          // "User added successfully!"
    | InvalidUnits                       // "Enter valid units!"
    | NoUsers                            // "No users found!"
    | UserList(users: Ledger)            // "User List:" and one line per record
    | MissingMeterNumber                 // "Enter meter number!"
    | BillFor(user: User, amount: real)  // "Bill for <name> (Meter: <meter>) Rs. <amount>"
    | UserNotFound                       // "User not found!"
    | UserDeleted                        // "User deleted successfully!"

  /** What a handler leaves behind: the user list, its reply, and whether it
      called `saveUsers`. */
  datatype Outcome = Outcome(users: Ledger, reply: Reply, save: bool)

  /** The "Add User" button. `units` is what `Double.parseDouble` made of
      the units field: `None` when it threw. */
  function AddUser(l: Ledger, name: string, meter: string, units: Option<real>): (o: Outcome)
    ensures units.None? ==> o.users == l && !o.save && o.reply == InvalidUnits
    ensures units.Some? ==> o.save && o.reply == UserAdded
    ensures units.Some? ==> |o.users| == |l| + 1 && o.users[..|l|] == l
    ensures units.Some? ==> o.users[|l|] == User(name, meter, units.value)
  {
    match units
    case None => Outcome(l, InvalidUnits, false)
    case Some(u) =>
      var l' := l + [User(name, meter, u)];
      assert l'[..|l|] == l;
      Outcome(l', UserAdded, true)
  }

  /** The "Display Users" button: the sentinel message for an empty list,
      the whole list in insertion order otherwise. */
  function DisplayUsers(l: Ledger): (reply: Reply)
    ensures reply == NoUsers <==> l == []
    ensures reply != NoUsers ==> reply == UserList(l)
  {
    if l == [] then NoUsers else UserList(l)
  }

  /** The "Generate Bill" button: refuses blank search text, otherwise
      bills the first record with the trimmed meter number. */
  function GenerateBill(l: Ledger, searchText: string): (reply: Reply)
    ensures reply == MissingMeterNumber <==> AllBlank(searchText)
    ensures reply == UserNotFound <==> !AllBlank(searchText) && NoneWithMeter(l, Trim(searchText))
    ensures reply.MissingMeterNumber? || reply.UserNotFound? || reply.BillFor?
    ensures reply.BillFor? ==>
      && reply.user.meter == Trim(searchText)
      && Find(l, Trim(searchText)) == Some(reply.user)
      && reply.amount == Bill(reply.user)
  {
    match Query(searchText)
    case None => MissingMeterNumber
    case Some(q) =>
      match Find(l, q)
      case None => UserNotFound
      case Some(u) => BillFor(u, Bill(u))
  }

  /** The "Delete User" button: refuses blank search text, otherwise drops
      every record with the trimmed meter number and saves only when at
      least one went. */
  function DeleteUser(l: Ledger, searchText: string): (o: Outcome)
    ensures AllBlank(searchText) ==> o.users == l && !o.save && o.reply == MissingMeterNumber
    ensures !AllBlank(searchText) ==> o.users == Remove(l, Trim(searchText))
    ensures o.save <==> !AllBlank(searchText) && !NoneWithMeter(l, Trim(searchText))
    ensures o.save <==> o.reply == UserDeleted
    ensures !o.save ==> o.users == l
    ensures o.reply == UserNotFound <==> !AllBlank(searchText) && NoneWithMeter(l, Trim(searchText))
  {
    match Query(searchText)
    case None => Outcome(l, MissingMeterNumber, false)
    case Some(q) =>
      var d := Delete(l, q);
      if d.removed then Outcome(d.kept, UserDeleted, true)
      else Outcome(d.kept, UserNotFound, false)
  }

  // ---------------------------------------------------------------------
  // Events and the snapshot file

  /** A click on one of the four buttons, with the form text it reads. */
  datatype Event =
    | AddClicked(name: string, meter: string, units: Option<real>)
    | DisplayClicked
    | BillClicked(searchText: string)
    | DeleteClicked(searchText: string)

  /** Dispatch of a click to its handler. Only add and delete touch the
      list, and any handler that does not save leaves it as it was. */
  function Handle(l: Ledger, e: Event): (o: Outcome)
    ensures !o.save ==> o.users == l
    ensures e.DisplayClicked? || e.BillClicked? ==> !o.save
    ensures o.save ==> e.AddClicked? || e.DeleteClicked?
  {
    match e
    case AddClicked(name, meter, units) => AddUser(l, name, meter, units)
    case DisplayClicked => Outcome(l, DisplayUsers(l), false)
    case BillClicked(text) => Outcome(l, GenerateBill(l, text), false)
    case DeleteClicked(text) => DeleteUser(l, text)
  }

  /** The snapshot file as `loadUsers` sees it: a readable user list, or
      `None` when the file is missing or cannot be deserialised. */
  type Snapshot = Option<Ledger>

  /** `loadUsers`: the stored list, or the empty list on any failure. */
  function LoadUsers(file: Snapshot): (l: Ledger)
    ensures file.None? ==> l == []
    ensures file.Some? ==> l == file.value
  {
    file.GetOr([])
  }

  /** How one `saveUsers` call ends. The stream is opened on a fresh,
      truncated file, so a failure leaves one of two things: the old file
      when opening failed, or a truncated file `loadUsers` cannot read when
      writing failed. A failure while closing comes after the whole list
      was written, and counts as `Written`. */
  datatype WriteResult = Written | NotOpened | Truncated

  /** `saveUsers`: overwrite the file with the whole list; a failure is
      swallowed and the in-memory list is not rolled back. */
  function SaveUsers(l: Ledger, previous: Snapshot, w: WriteResult): (file: Snapshot)
    ensures w.Written? ==> LoadUsers(file) == l
    ensures w.NotOpened? ==> file == previous
    ensures w.Truncated? ==> LoadUsers(file) == []
  {
    match w
    case Written => Some(l)
    case NotOpened => previous
    case Truncated => None
  }

  /** The running window: its user list and the file on disk. */
  datatype Session = Session(users: Ledger, file: Snapshot)

  /** Loading the file back would give exactly the list in memory. */
  predicate InSync(s: Session) {
    LoadUsers(s.file) == s.users
  }

  /** Opening the window: the list is whatever the file yields. */
  function Start(file: Snapshot): (s: Session)
    ensures InSync(s)
    ensures s.file == file
  {
    Session(LoadUsers(file), file)
  }

  /** One click: run the handler, then save if it asked to. `w` is only
      consulted when a save happens. */
  function Step(s: Session, e: Event, w: WriteResult): (r: (Session, Reply))
    ensures r.0.users == Handle(s.users, e).users
    ensures !Handle(s.users, e).save ==> r.0 == s
    ensures Handle(s.users, e).save && w.Written? ==> InSync(r.0)
    ensures InSync(s) && w.Written? ==> InSync(r.0)
  {
    var o := Handle(s.users, e);
    var file := if o.save then SaveUsers(o.users, s.file, w) else s.file;
    (Session(o.users, file), o.reply)
  }

  /** A run of clicks, each save answered by the matching write result. */
  function Run(s: Session, events: seq<Event>, writes: seq<WriteResult>): (s': Session)
    requires |writes| == |events|
    decreases |events|
  {
    if events == [] then s
    else Run(Step(s, events[0], writes[0]).0, events[1..], writes[1..])
  }

  predicate AllWritten(writes: seq<WriteResult>) {
    forall i :: 0 <= i < |writes| ==> writes[i].Written?
  }

  /** As long as every save reaches the disk, restarting the program after
      any run of clicks brings back exactly the list the run ended with. */
  lemma {:induction false} RunStaysInSync(s: Session, events: seq<Event>, writes: seq<WriteResult>)
    requires |writes| == |events|
    requires InSync(s) && AllWritten(writes)
    ensures InSync(Run(s, events, writes))
    ensures Start(Run(s, events, writes).file).users == Run(s, events, writes).users
    decreases |events|
  {
    if events != [] {
      assert writes[0].Written?;
      RunStaysInSync(Step(s, events[0], writes[0]).0, events[1..], writes[1..]);
    }
  }

  /** A failed save is not rolled back: after adding a record whose save
      truncated the file, memory holds one record and a restart holds none. */
  lemma FailedSaveDiverges(name: string, meter: string, units: real)
    ensures var r := Step(Start(None), AddClicked(name, meter, Some(units)), Truncated);
      && r.0.users == [User(name, meter, units)]
      && !InSync(r.0)
  {
  }

  // ---------------------------------------------------------------------
  // How the buttons interact

  /** Bill and delete agree on when a meter number is present: the bill
      button finds a record exactly when the delete button would remove one. */
  lemma BillFindsIffDeleteRemoves(l: Ledger, searchText: string)
    ensures GenerateBill(l, searchText).BillFor? <==> DeleteUser(l, searchText).save
  {
  }

  /** After a successful delete, billing the same meter number reports that
      no such user exists. */
  lemma NoBillAfterDelete(l: Ledger, searchText: string)
    ensures !AllBlank(searchText) ==>
      GenerateBill(DeleteUser(l, searchText).users, searchText) == UserNotFound
  {
  }

  /** Adding a record and then billing its meter number as typed. The
      record is stored untrimmed while the search text is trimmed, so the
      new record is billed only when its meter number is non-empty, is its
      own trimmed form, and is new; in every other case the bill is what
      it was before the add. */
  lemma BillAfterAdd(l: Ledger, name: string, meter: string, units: real)
    ensures var l' := AddUser(l, name, meter, Some(units)).users;
      GenerateBill(l', meter) ==
        if meter != [] && Trim(meter) == meter && NoneWithMeter(l, meter)
        then BillFor(User(name, meter, units), units * Rate)
        else GenerateBill(l, meter)
  {
    FindAfterAppend(l, User(name, meter, units), Trim(meter));
  }

  /** Adding a record and then deleting its meter number as typed. When the
      meter number is its own trimmed form, the new record goes together
      with every older one of that meter number. When it carries blanks at
      an end, the trimmed key misses the new record: the older records
      with the trimmed key go and the new one stays. */
  lemma DeleteAfterAdd(l: Ledger, name: string, meter: string, units: real)
    ensures var u := User(name, meter, units);
      var l' := AddUser(l, name, meter, Some(units)).users;
      DeleteUser(l', meter) ==
        if AllBlank(meter) then Outcome(l', MissingMeterNumber, false)
        else if Trim(meter) == meter then Outcome(Remove(l, meter), UserDeleted, true)
        else if NoneWithMeter(l, Trim(meter)) then Outcome(l', UserNotFound, false)
        else Outcome(Remove(l, Trim(meter)) + [u], UserDeleted, true)
  {
    var u := User(name, meter, units);
    var l' := l + [u];
    if !AllBlank(meter) {
      var q := Trim(meter);
      RemoveDistributes(l, [u], q);
      assert l'[|l|] == u;
      if q == meter {
        assert Remove([u], q) == [];
      } else {
        assert Remove([u], q) == [u];
        if NoneWithMeter(l, q) {
          assert NoneWithMeter(l', q) by {
            forall j | 0 <= j < |l'| ensures l'[j].meter != q {
              if j < |l| { assert l'[j] == l[j]; }
            }
          }
        }
      }
    }
  }

  /** A record whose meter number has a blank at either end (or is blank
      throughout) can be neither billed nor deleted: every search key is
      trimmed, so it never equals that meter number. */
  lemma UntrimmedRecordUnreachable(l: Ledger, i: nat, searchText: string)
    requires i < |l| && Trim(l[i].meter) != l[i].meter
    ensures var reply := GenerateBill(l, searchText);
      reply.BillFor? ==> reply.user.meter != l[i].meter
    ensures l[i] in DeleteUser(l, searchText).users
  {
    TrimIdempotent(searchText);
    if !AllBlank(searchText) {
      RemoveKeepsOthers(l, Trim(searchText), i);
    }
  }

  /** A short session: two customers are added, the first is billed at
      100 units, the second is deleted and can no longer be billed. */
  lemma TwoCustomerSession()
    ensures var alice, bob := User("Alice", "M1", 100.0), User("Bob", "M2", 0.0);
      var l1 := AddUser([], "Alice", "M1", Some(100.0)).users;
      var l2 := AddUser(l1, "Bob", "M2", Some(0.0)).users;
      var l3 := DeleteUser(l2, " M2 ").users;
      && DisplayUsers(l2) == UserList([alice, bob])
      && GenerateBill(l2, "M1") == BillFor(alice, 500.0)
      && DisplayUsers(l3) == UserList([alice])
      && GenerateBill(l3, "M2") == UserNotFound
  {
    var alice, bob := User("Alice", "M1", 100.0), User("Bob", "M2", 0.0);
    var l2 := [alice, bob];
    assert AddUser(AddUser([], "Alice", "M1", Some(100.0)).users, "Bob", "M2", Some(0.0)).users == l2;
    KeyTrimsToItself("M1");
    KeyTrimsToItself("M2");
    assert Trim(" M2 ") == "M2" by {
      assert " M2 " == " " + "M2" + " ";
      TrimStripsExactlyBlankEnds(" ", "M2", " ");
    }
    assert Find(l2, "M1") == Some(alice) by {
      FindCons(alice, [bob], "M1");
      assert [alice] + [bob] == l2;
    }
    assert Remove(l2, "M2") == [alice] by {
      assert l2 == [alice] + [bob];
      RemoveDistributes([alice], [bob], "M2");
    }
    assert DeleteUser(l2, " M2 ").users == [alice];
    assert Find([alice], "M2") == None;
  }
}
