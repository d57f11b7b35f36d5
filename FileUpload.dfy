/** The multi-file upload field: the list of uploaded files it keeps, the
    admission of a batch, removal by id, and the per-file upload results. */
module FileUpload {
  import opened Text
  import opened FileRules

  /** One entry of the list. `hasPreview` says whether an object URL was made
      for it; `error` is the upload error text. */
  datatype UploadedFile = UploadedFile(
    id: string, file: FileInfo, hasPreview: bool, progress: int, uploaded: bool, error: Option<string>)

  /** The form value: the whole list, the first entry, or null. */
  datatype FormValue = Null | First(entry: UploadedFile) | All(entries: seq<UploadedFile>)

  const UploadFailed: string := "Erro no upload"
  const FilesInvalid: string := "Arquivos inv\U{E1}lidos"

  /** `multiple ? updatedFiles : updatedFiles[0] || null`. */
  function FormValueOf(multiple: bool, files: seq<UploadedFile>): (v: FormValue)
    ensures multiple ==> v == All(files)
    ensures !multiple ==> (v == Null <==> files == []) && (v.First? ==> v.entry == files[0])
  {
    if multiple then All(files) else if files == [] then Null else First(files[0])
  }

  /** A new entry: no progress, not uploaded, and a preview only for an
      image when previews are on. */
  function NewEntry(id: string, f: FileInfo, showPreview: bool): (e: UploadedFile)
    ensures e.id == id && e.file == f && e.progress == 0 && !e.uploaded && e.error.None?
    ensures e.hasPreview <==> showPreview && StartsWith(f.mimeType, "image/")
  {
    UploadedFile(id, f, showPreview && StartsWith(f.mimeType, "image/"), 0, false, None)
  }

  function NewEntries(batch: seq<FileInfo>, ids: seq<string>, showPreview: bool): (es: seq<UploadedFile>)
    requires |ids| == |batch|
    ensures |es| == |batch|
    ensures forall i :: 0 <= i < |batch| ==> es[i] == NewEntry(ids[i], batch[i], showPreview)
  {
    seq(|batch|, i requires 0 <= i < |batch| => NewEntry(ids[i], batch[i], showPreview))
  }

  /** The position of the first file of the batch the rules refuse, or the
      batch's length when they refuse none. */
  function FirstRefused(maxSize: Option<int>, accept: Option<string>, batch: seq<FileInfo>): (k: nat)
    ensures k <= |batch|
    ensures forall j :: 0 <= j < k ==> ValidateFile(maxSize, accept, batch[j]).None?
    ensures k < |batch| ==> ValidateFile(maxSize, accept, batch[k]).Some?
  {
    if batch == [] then 0
    else if ValidateFile(maxSize, accept, batch[0]).Some? then 0
    else
      var k := 1 + FirstRefused(maxSize, accept, batch[1..]);
      assert forall j :: 1 <= j < k ==> batch[j] == batch[1..][j - 1];
      k
  }

  /** Why the first refused file of the batch is refused, if one is. */
  function FirstFailure(maxSize: Option<int>, accept: Option<string>, batch: seq<FileInfo>): (r: Option<FileError>)
    ensures r.None? <==> forall i :: 0 <= i < |batch| ==> ValidateFile(maxSize, accept, batch[i]).None?
  {
    var k := FirstRefused(maxSize, accept, batch);
    if k == |batch| then None else ValidateFile(maxSize, accept, batch[k])
  }

  /** What the custom `validate` makes of the batch: a string refuses it with
      that string, `false` refuses it with a fixed text, anything else admits. */
  function CustomError(verdict: Option<Verdict>): (r: Option<FileError>)
    ensures r.Some? <==> verdict.Some? && (verdict.value.Message? || verdict.value == Flag(false))
  {
    match verdict
    case Some(Message(m)) => Some(Custom(m))
    case Some(Flag(false)) => Some(Refused(FilesInvalid))
    case _ => None
  }

  /** The upload result for one entry: success marks it uploaded at 100%,
      failure records the error text and resets the progress. */
  function Mark(f: UploadedFile, ok: bool): (g: UploadedFile)
    ensures g.id == f.id && g.file == f.file && g.hasPreview == f.hasPreview
    ensures ok ==> g.uploaded && g.progress == 100 && g.error == f.error
    ensures !ok ==> g.uploaded == f.uploaded && g.progress == 0 && g.error == Some(UploadFailed)
  {
    if ok then f.(uploaded := true, progress := 100) else f.(error := Some(UploadFailed), progress := 0)
  }

  /** `prev.map(f => f.id === id ? marked : f)`. */
  function MarkById(files: seq<UploadedFile>, id: string, ok: bool): (r: seq<UploadedFile>)
    ensures |r| == |files|
    ensures forall i :: 0 <= i < |files| ==> r[i] == if files[i].id == id then Mark(files[i], ok) else files[i]
  {
    seq(|files|, i requires 0 <= i < |files| => if files[i].id == id then Mark(files[i], ok) else files[i])
  }

  /** The list after the uploads of `entries` finished with `outcomes`, in order. */
  function ApplyOutcomes(files: seq<UploadedFile>, entries: seq<UploadedFile>, outcomes: seq<bool>): (r: seq<UploadedFile>)
    requires |entries| == |outcomes|
    ensures |r| == |files|
  {
    if entries == [] then files
    else
      var n := |entries| - 1;
      MarkById(ApplyOutcomes(files, entries[..n], outcomes[..n]), entries[n].id, outcomes[n])
  }

  predicate DistinctIds(entries: seq<UploadedFile>)
  {
    forall i, j :: 0 <= i < j < |entries| ==> entries[i].id != entries[j].id
  }

  /** Upload results touch only entries whose id was uploaded: the others stay
      as they were. */
  lemma {:induction false} OutcomesKeepOthers(files: seq<UploadedFile>, entries: seq<UploadedFile>, outcomes: seq<bool>, i: nat)
    requires |entries| == |outcomes| && i < |files|
    requires forall k :: 0 <= k < |entries| ==> entries[k].id != files[i].id
    ensures ApplyOutcomes(files, entries, outcomes)[i] == files[i]
  {
    if entries != [] {
      var n := |entries| - 1;
      OutcomesKeepOthers(files, entries[..n], outcomes[..n], i);
    }
  }

  /** With distinct upload ids, an entry whose id was uploaded as the k-th file
      ends up marked with the k-th outcome. */
  lemma {:induction false} OutcomeOfEntry(files: seq<UploadedFile>, entries: seq<UploadedFile>, outcomes: seq<bool>, i: nat, k: nat)
    requires |entries| == |outcomes| && DistinctIds(entries)
    requires i < |files| && k < |entries| && entries[k].id == files[i].id
    ensures ApplyOutcomes(files, entries, outcomes)[i] == Mark(files[i], outcomes[k])
  {
    var n := |entries| - 1;
    if k == n {
      OutcomesKeepOthers(files, entries[..n], outcomes[..n], i);
    } else {
      OutcomeOfEntry(files, entries[..n], outcomes[..n], i, k);
    }
  }

  /** `filter(f => f.id !== id)`. */
  function RemoveById(files: seq<UploadedFile>, id: string): (r: seq<UploadedFile>)
    ensures |r| <= |files|
  {
    if files == [] then []
    else
      var n := |files| - 1;
      RemoveById(files[..n], id) + (if files[n].id == id then [] else [files[n]])
  }

  /** Removal keeps every entry with another id, and works piece by piece, so
      the kept entries stay in order. */
  lemma {:induction false} RemoveByIdKeeps(files: seq<UploadedFile>, id: string, f: UploadedFile)
    ensures f in RemoveById(files, id) <==> f in files && f.id != id
  {
    if files != [] {
      var n := |files| - 1;
      RemoveByIdKeeps(files[..n], id, f);
      assert files == files[..n] + [files[n]];
    }
  }

  lemma {:induction false} RemoveByIdSplits(a: seq<UploadedFile>, b: seq<UploadedFile>, id: string)
    ensures RemoveById(a + b, id) == RemoveById(a, id) + RemoveById(b, id)
  {
    if b == [] {
      assert a + b == a;
    } else {
      var n := |b| - 1;
      var tail := if b[n].id == id then [] else [b[n]];
      calc {
        RemoveById(a + b, id);
      == { assert (a + b)[..|a + b| - 1] == a + b[..n]; assert (a + b)[|a + b| - 1] == b[n]; }
        RemoveById(a + b[..n], id) + tail;
      == { RemoveByIdSplits(a, b[..n], id); }
        (RemoveById(a, id) + RemoveById(b[..n], id)) + tail;
      ==
        RemoveById(a, id) + (RemoveById(b[..n], id) + tail);
      }
    }
  }

  lemma {:induction false} RemoveAbsentId(files: seq<UploadedFile>, id: string)
    requires forall i :: 0 <= i < |files| ==> files[i].id != id
    ensures RemoveById(files, id) == files
  {
    if files != [] {
      RemoveAbsentId(files[..|files| - 1], id);
    }
  }

  /** The validation loop of `processFiles`: the reason the first refused
      file of the batch is refused, if any is. */
  method CheckBatch(maxSize: Option<int>, accept: Option<string>, batch: seq<FileInfo>) returns (refused: Option<FileError>)
    ensures refused == FirstFailure(maxSize, accept, batch)
  {
    var i := 0;
    while i < |batch|
      invariant 0 <= i <= |batch|
      invariant forall j :: 0 <= j < i ==> ValidateFile(maxSize, accept, batch[j]).None?
    {
      var e := ValidateFile(maxSize, accept, batch[i]);
      if e.Some? {
        assert FirstRefused(maxSize, accept, batch) == i;
        return e;
      }
      i := i + 1;
    }
    return None;
  }

  class Uploader {
    const maxFiles: int
    const maxSize: Option<int>
    const accept: Option<string>
    const multiple: bool
    const showPreview: bool
    /** `uploadedFiles`. */
    var files: seq<UploadedFile>
    /** The value last handed to `onChange`. */
    var formValue: FormValue
    /** Every list handed to `onFilesChange`, oldest first. */
    var reported: seq<seq<UploadedFile>>

    constructor (maxFiles: int, maxSize: Option<int>, accept: Option<string>, multiple: bool, showPreview: bool, formValue: FormValue)
      ensures this.maxFiles == maxFiles && this.maxSize == maxSize && this.accept == accept
      ensures this.multiple == multiple && this.showPreview == showPreview
      ensures files == [] && this.formValue == formValue && reported == []
    {
      this.maxFiles := maxFiles;
      this.maxSize := maxSize;
      this.accept := accept;
      this.multiple := multiple;
      this.showPreview := showPreview;
      files := [];
      this.formValue := formValue;
      reported := [];
    }

    /** Why a batch would be refused, in the order the checks run. */
    function Admission(batch: seq<FileInfo>, verdict: Option<Verdict>): (r: Option<FileError>)
      reads this
      ensures |files| + |batch| > maxFiles ==> r == Some(TooMany(maxFiles))
      ensures |files| + |batch| <= maxFiles && FirstFailure(maxSize, accept, batch).Some? ==>
        r == FirstFailure(maxSize, accept, batch)
      ensures r.None? <==>
        |files| + |batch| <= maxFiles && FirstFailure(maxSize, accept, batch).None? && CustomError(verdict).None?
    {
      if |files| + |batch| > maxFiles then Some(TooMany(maxFiles))
      else if FirstFailure(maxSize, accept, batch).Some? then FirstFailure(maxSize, accept, batch)
      else CustomError(verdict)
    }

    /** `processFiles`. `verdict` is what `validate` returned (`None` without
        one), `ids` the generated ids of the new entries and `outcomes` the
        upload results, one per new entry (`None` without `onUpload`). A
        refused batch changes nothing; an admitted one is appended, reported,
        and then marked entry by entry as its uploads finish. The form value
        is set before the uploads and so keeps the unmarked entries. */
    method ProcessFiles(batch: seq<FileInfo>, verdict: Option<Verdict>, ids: seq<string>, outcomes: Option<seq<bool>>)
      returns (err: Option<FileError>)
      requires |ids| == |batch|
      requires outcomes.Some? ==> |outcomes.value| == |batch|
      modifies this
      ensures err == old(Admission(batch, verdict))
      ensures err.Some? ==> files == old(files) && formValue == old(formValue) && reported == old(reported)
      ensures err.None? ==>
        var added := old(files) + NewEntries(batch, ids, showPreview);
        formValue == FormValueOf(multiple, added) && reported == old(reported) + [added]
        && files == (if outcomes.Some? then ApplyOutcomes(added, NewEntries(batch, ids, showPreview), outcomes.value) else added)
    {
      if |files| + |batch| > maxFiles {
        return Some(TooMany(maxFiles));
      }
      var refused := CheckBatch(maxSize, accept, batch);
      if refused.Some? {
        return refused;
      }
      var custom := CustomError(verdict);
      if custom.Some? {
        return custom;
      }
      var incoming := NewEntries(batch, ids, showPreview);
      files := files + incoming;
      formValue := FormValueOf(multiple, files);
      reported := reported + [files];
      if outcomes.Some? {
        RunUploads(incoming, outcomes.value);
      }
      return None;
    }

    /** The upload loop: as each upload settles, the entry with its id is
        marked in the list; nothing else changes. */
    method RunUploads(entries: seq<UploadedFile>, outcomes: seq<bool>)
      requires |entries| == |outcomes|
      modifies this
      ensures files == ApplyOutcomes(old(files), entries, outcomes)
      ensures formValue == old(formValue) && reported == old(reported)
    {
      var k := 0;
      while k < |entries|
        invariant 0 <= k <= |entries|
        invariant files == ApplyOutcomes(old(files), entries[..k], outcomes[..k])
        invariant formValue == old(formValue) && reported == old(reported)
      {
        assert entries[..k + 1][..k] == entries[..k];
        assert outcomes[..k + 1][..k] == outcomes[..k];
        files := MarkById(files, entries[k].id, outcomes[k]);
        k := k + 1;
      }
      assert entries[..k] == entries && outcomes[..k] == outcomes;
    }

    /** `handleFileSelect` and `handleDrop`: an empty selection does nothing;
        otherwise the batch is processed (the refusal is only logged). */
    method SelectFiles(batch: seq<FileInfo>, verdict: Option<Verdict>, ids: seq<string>, outcomes: Option<seq<bool>>)
      requires |ids| == |batch|
      requires outcomes.Some? ==> |outcomes.value| == |batch|
      modifies this
      ensures batch == [] ==> files == old(files) && formValue == old(formValue) && reported == old(reported)
      ensures batch != [] && old(Admission(batch, verdict)).Some? ==>
        files == old(files) && formValue == old(formValue) && reported == old(reported)
      ensures batch != [] && old(Admission(batch, verdict)).None? ==>
        var added := old(files) + NewEntries(batch, ids, showPreview);
        formValue == FormValueOf(multiple, added) && reported == old(reported) + [added]
        && files == (if outcomes.Some? then ApplyOutcomes(added, NewEntries(batch, ids, showPreview), outcomes.value) else added)
    {
      if |batch| > 0 {
        var _ := ProcessFiles(batch, verdict, ids, outcomes);
      }
    }

    /** `removeFile`: drops every entry with that id and reports the rest. */
    method RemoveFile(id: string)
      modifies this
      ensures files == RemoveById(old(files), id)
      ensures formValue == FormValueOf(multiple, files)
      ensures reported == old(reported) + [files]
    {
      files := RemoveById(files, id);
      formValue := FormValueOf(multiple, files);
      reported := reported + [files];
    }
  }

  /** Without uploads, adding one file under an unused id and removing that id
      gives the list back. */
  method AddThenRemove(u: Uploader, f: FileInfo, id: string)
    requires forall i :: 0 <= i < |u.files| ==> u.files[i].id != id
    requires u.Admission([f], None).None?
    modifies u
    ensures u.files == old(u.files)
  {
    var err := u.ProcessFiles([f], None, [id], None);
    RemoveByIdSplits(old(u.files), NewEntries([f], [id], u.showPreview), id);
    RemoveAbsentId(old(u.files), id);
    u.RemoveFile(id);
  }
}
