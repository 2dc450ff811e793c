/** The student's new-request form (client/src/pages/student/CreateRequest.jsx):
    the type catalog it shows (the server's, or a built-in fallback when the
    fetch fails), the file list, which panel shows for the selected type,
    and the submit guard. Files are opaque values. */
module CreateRequestPage {
  import opened Prelude
  import opened Ui
  import opened RequestModel

  /** The catalog the page falls back to: the three walk-in-free types. */
  function FallbackType(key: string): (r: Option<TypeInfo>) {
    if key == "TOR" then Some(TypeInfo("Transcript of Records", false, []))
    else if key == "Shifting" then Some(TypeInfo("Program Shifting", false, []))
    else if key == "Add/Drop" then Some(TypeInfo("Add/Drop Form", false, []))
    else None
  }

  /** The fallback lists exactly the server's types that need no visit,
      each with the server's own catalog entry. */
  lemma FallbackIsTheNonVisitCatalog(key: string)
    ensures FallbackType(key).Some? <==> ParseType(key).Some? && !IsVisitType(ParseType(key).value)
    ensures FallbackType(key).Some? ==> FallbackType(key) == TypeInfoOf(key)
  {
  }

  /** `handleFileChange` and `handleDrop`: the new files go after the ones
      already picked. */
  function AddFiles<F>(files: seq<F>, added: seq<F>): (r: seq<F>)
    ensures |r| == |files| + |added|
    ensures r[..|files|] == files && r[|files|..] == added
  {
    files + added
  }

  /** `prev.filter((_, i) => i !== index)`, walking the list with the
      position `from` of its first element. */
  function DropPosition<F>(files: seq<F>, index: int, from: nat): seq<F>
    decreases |files|
  {
    if files == [] then []
    else (if from == index then [] else [files[0]]) + DropPosition(files[1..], index, from + 1)
  }

  /** `removeFile(index)`. */
  function RemoveFile<F>(files: seq<F>, index: int): (r: seq<F>)
    ensures 0 <= index < |files| ==> r == RemoveAt(files, index)
    ensures !(0 <= index < |files|) ==> r == files
  {
    DropPositionSpec(files, index, 0);
    DropPosition(files, index, 0)
  }

  lemma {:induction false} DropPositionSpec<F>(files: seq<F>, index: int, from: nat)
    ensures from <= index < from + |files| ==>
              DropPosition(files, index, from) == files[..index - from] + files[index - from + 1..]
    ensures !(from <= index < from + |files|) ==> DropPosition(files, index, from) == files
    decreases |files|
  {
    if files != [] {
      var t := files[1..];
      DropPositionSpec(t, index, from + 1);
      var rest := DropPosition(t, index, from + 1);
      if from == index {
        assert DropPosition(files, index, from) == rest;
        assert rest == t;
        assert files[..0] + files[1..] == t;
      } else if from < index < from + |files| {
        var m := index - from;
        assert DropPosition(files, index, from) == [files[0]] + rest;
        assert rest == t[..m - 1] + t[m..];
        assert files[..m] == [files[0]] + t[..m - 1];
        assert files[m + 1..] == t[m..];
      } else {
        assert DropPosition(files, index, from) == [files[0]] + rest;
        assert rest == t;
        assert files == [files[0]] + t;
      }
    }
  }

  /** Removing the file just added gives back the earlier list. */
  lemma RemoveLastAdded<F>(files: seq<F>, f: F)
    ensures RemoveFile(AddFiles(files, [f]), |files|) == files
  {
    assert (files + [f])[..|files|] == files;
  }

  /** The "What to Bring" panel shows for a selected type that needs a
      visit; the upload area shows otherwise, so exactly one of them is
      on the page. */
  predicate ShowRequirements(selected: Option<TypeInfo>) {
    selected.Some? && selected.value.requiresAppointment
  }

  predicate ShowUpload(selected: Option<TypeInfo>) {
    !(selected.Some? && selected.value.requiresAppointment)
  }

  /** With the server's catalog the panels split along the visit types;
      with the fallback the requirements never show. */
  lemma PanelsFollowTheCatalog(key: string)
    ensures ShowRequirements(TypeInfoOf(key)) != ShowUpload(TypeInfoOf(key))
    ensures ShowRequirements(TypeInfoOf(key)) <==> ParseType(key).Some? && IsVisitType(ParseType(key).value)
    ensures !ShowRequirements(FallbackType(key)) && ShowUpload(FallbackType(key))
  {
  }

  /** The multipart body of a submission. */
  datatype Submission<F> = Submission(requestType: string, reason: string, documents: seq<F>)

  const TypeRequired := "Please select a request type"

  /** `handleSubmit`: refused on the page without a selected type; the
      picked files are sent whatever the type, even when the upload area
      is hidden. */
  function SubmitAction<F>(requestType: string, reason: string, files: seq<F>): (r: Outcome<Submission<F>>)
    ensures !r.NoCall?
    ensures r.Warn? <==> requestType == ""
    ensures r.Warn? ==> r.message == TypeRequired
    ensures r.Call? ==> r.body == Submission(requestType, reason, files)
  {
    if requestType == "" then Warn(TypeRequired) else Call(Submission(requestType, reason, files))
  }

  /** Files picked under one type stay in the list after switching to a
      visit type, whose page hides the upload area, and are still sent. */
  lemma HiddenFilesStillSent<F>(files: seq<F>, reason: string)
    requires files != []
    ensures ShowRequirements(TypeInfoOf("Petition for Subject"))
    ensures SubmitAction("Petition for Subject", reason, files).Call?
    ensures SubmitAction("Petition for Subject", reason, files).body.documents == files
  {
  }
}
