/** The announcement document (server/models/Announcement.js): field
    constraints and defaults. Times are integers (milliseconds). */
module AnnouncementModel {
  import opened Prelude

  datatype AnnouncementType = Info | Warning | Urgent

  function AnnouncementTypeName(t: AnnouncementType): string {
    match t
    case Info => "info"
    case Warning => "warning"
    case Urgent => "urgent"
  }

  function ParseAnnouncementType(name: string): (r: Option<AnnouncementType>)
    ensures r.Some? ==> AnnouncementTypeName(r.value) == name
    ensures r.None? ==> forall t :: AnnouncementTypeName(t) != name
  {
    if name == "info" then Some(Info)
    else if name == "warning" then Some(Warning)
    else if name == "urgent" then Some(Urgent)
    else None
  }

  const MaxTitleLength := 100
  const MaxMessageLength := 500

  datatype Announcement = Announcement(
    id: string,
    title: string,
    message: string,
    kind: AnnouncementType,
    isActive: bool,
    createdBy: string,
    expiresAt: Option<int>,
    createdAt: int)

  const AnnouncementValidationFailed := HttpError(500, "Announcement validation failed")

  /** `Announcement.create` validation: title (at most 100 characters),
      message (at most 500) and createdBy are required; the type defaults to
      info and must be one of the three names; isActive defaults to true. */
  function NewAnnouncement(id: string, title: string, message: string, kind: Option<string>,
                           isActive: Option<bool>, createdBy: Option<string>,
                           expiresAt: Option<int>, createdAt: int): (r: Result<Announcement>)
    ensures r.Ok? <==> && title != "" && |title| <= MaxTitleLength
                       && message != "" && |message| <= MaxMessageLength
                       && (kind.None? || ParseAnnouncementType(kind.value).Some?)
                       && createdBy.Some?
    ensures r.Ok? ==> && r.value.id == id && r.value.title == title && r.value.message == message
                      && (kind.None? ==> r.value.kind == Info)
                      && (kind.Some? ==> AnnouncementTypeName(r.value.kind) == kind.value)
                      && (isActive.None? ==> r.value.isActive)
                      && (isActive.Some? ==> r.value.isActive == isActive.value)
                      && r.value.createdBy == createdBy.value
                      && r.value.expiresAt == expiresAt
    ensures r.Err? ==> r.error.code == 500
  {
    var parsedKind := if kind.None? then Some(Info) else ParseAnnouncementType(kind.value);
    if title == "" || |title| > MaxTitleLength || message == "" || |message| > MaxMessageLength
       || parsedKind.None? || createdBy.None? then
      Err(AnnouncementValidationFailed)
    else
      Ok(Announcement(id, title, message, parsedKind.value,
                      if isActive.None? then true else isActive.value,
                      createdBy.value, expiresAt, createdAt))
  }
}
