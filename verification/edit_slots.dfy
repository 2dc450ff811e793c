/** The "Edit Appointment" dialog shared by the request review page and the
    appointments page: the slot buttons it offers for the chosen day, and
    the save guard. The page fetches the day's free slots from the server;
    the appointment's own slot is offered too when the day is unchanged,
    since the server counts that slot as taken by the appointment itself. */
module EditSlots {
  import opened Prelude
  import opened Ui
  import opened Store
  import opened Slots
  import AM = AppointmentModel
  import AdminRoutes

  /** The slot buttons: the fetched slots in order, then the current slot
      when it is missing from them and the picked day is the original one. */
  function EditSlotList(fetched: seq<string>, current: string, editDate: string,
                        originalDate: string): (r: seq<string>)
    ensures |fetched| <= |r| <= |fetched| + 1 && r[..|fetched|] == fetched
    ensures forall s :: s in r <==> s in fetched || (s == current && editDate == originalDate)
    ensures |r| == |fetched| + 1 <==> current !in fetched && editDate == originalDate
    ensures NoDuplicates(fetched) ==> NoDuplicates(r)
  {
    if current !in fetched && editDate == originalDate then fetched + [current] else fetched
  }

  /** An edit to send: the date and slot picked in the dialog. */
  datatype SlotEdit = SlotEdit(date: string, timeSlot: string)

  /** `handleSaveEdit`: nothing happens unless both a date and a slot are
      picked; otherwise both are sent. */
  function SaveEdit(editDate: string, editTime: string): (r: Outcome<SlotEdit>)
    ensures !r.Warn?
    ensures r.Call? <==> editDate != "" && editTime != ""
    ensures r.Call? ==> r.body == SlotEdit(editDate, editTime)
  {
    if editDate == "" || editTime == "" then NoCall else Call(SlotEdit(editDate, editTime))
  }

  /** Editing an appointment that still holds its slot: the server never
      lists that slot as free on the appointment's own day, so the dialog
      always appends it, the list stays free of duplicates, and the
      appointment can be saved without moving. */
  lemma OwnSlotAlwaysOffered(db: Db, id: string, editDate: string)
    requires id in db.appointments && db.appointments[id].status != AM.Cancelled
    ensures var a := db.appointments[id];
            var fetched := AdminRoutes.AvailableSlots(db, Some(a.date)).value.availableSlots;
            && EditSlotList(fetched, a.timeSlot, editDate, editDate) == fetched + [a.timeSlot]
            && NoDuplicates(EditSlotList(fetched, a.timeSlot, editDate, editDate))
  {
    var a := db.appointments[id];
    var fetched := AdminRoutes.AvailableSlots(db, Some(a.date)).value.availableSlots;
    OwnSlotNotFree(db, id);
    FetchedSlotsDistinct(db, a.date);
    MissingSlotAppended(fetched, a.timeSlot, editDate);
  }

  /** The server's free slots for a day carry no duplicates. */
  lemma FetchedSlotsDistinct(db: Db, date: int)
    ensures NoDuplicates(AdminRoutes.AvailableSlots(db, Some(date)).value.availableSlots)
  {
    var _ := AdminRoutes.AvailableSlotsInCatalogOrder(db, date);
  }

  /** On the original day a slot missing from the fetched list is appended
      once, without introducing duplicates. */
  lemma MissingSlotAppended(fetched: seq<string>, current: string, day: string)
    requires current !in fetched && NoDuplicates(fetched)
    ensures EditSlotList(fetched, current, day, day) == fetched + [current]
    ensures NoDuplicates(EditSlotList(fetched, current, day, day))
  {
  }

  /** A live appointment's slot is booked on its own day, so the server does
      not list it as free. */
  lemma OwnSlotNotFree(db: Db, id: string)
    requires id in db.appointments && db.appointments[id].status != AM.Cancelled
    ensures var a := db.appointments[id];
            a.timeSlot !in AdminRoutes.AvailableSlots(db, Some(a.date)).value.availableSlots
  {
    var a := db.appointments[id];
    var report := AdminRoutes.AvailableSlots(db, Some(a.date)).value;
    assert a.timeSlot in report.bookedSlots;
  }

  /** A saved edit reaches the server with both fields truthy, so the
      appointment takes the new day and slot, and since no status is sent
      the linked request is left as it was. */
  lemma SavedEditMovesAppointment(db: Db, id: string, editDate: string, editTime: string, day: int)
    requires id in db.appointments
    requires SaveEdit(editDate, editTime).Call?
    ensures var r := AdminRoutes.UpdateAppointment(db, id, Some(day), Some(editTime), None, None);
            && r.Ok?
            && r.value.0.appointments[id].date == day
            && r.value.0.appointments[id].timeSlot == editTime
            && r.value.0.requests == db.requests
  {
  }
}
