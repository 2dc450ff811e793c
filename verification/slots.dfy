/** The half-hour appointment slot catalog, shared verbatim by the server's
    slot route (server/routes/admin.js) and the demo backend's `TIME_SLOTS`
    (client/src/services/mockApi.js). */
module Slots {
  import opened Prelude

  const SlotCatalog: seq<string> := [
    "8:00 AM - 8:30 AM", "8:30 AM - 9:00 AM",
    "9:00 AM - 9:30 AM", "9:30 AM - 10:00 AM",
    "10:00 AM - 10:30 AM", "10:30 AM - 11:00 AM",
    "11:00 AM - 11:30 AM", "11:30 AM - 12:00 PM",
    "1:00 PM - 1:30 PM", "1:30 PM - 2:00 PM",
    "2:00 PM - 2:30 PM", "2:30 PM - 3:00 PM",
    "3:00 PM - 3:30 PM", "3:30 PM - 4:00 PM",
    "4:00 PM - 4:30 PM", "4:30 PM - 5:00 PM"]

  /** The catalog holds 16 distinct slots, and none starts at noon (the
      12–1 lunch hour is not bookable). */
  lemma SlotCatalogDistinct()
    ensures |SlotCatalog| == 16
    ensures NoDuplicates(SlotCatalog)
    ensures forall i :: 0 <= i < 16 ==> SlotCatalog[i][0] != '1' || SlotCatalog[i][1] != '2'
  {
  }
}
