/** The single-file field: one selected file or null, chosen through a chain
    of guards that each may refuse the file before anything is stored. */
module SimpleFile {
  import opened Text
  import opened FileRules

  const FileInvalid: string := "Arquivo inv\U{E1}lido"

  /** Why the handler would refuse `file`, in the order of its guards: the
      built-in rules first, then the custom `validate`, which is consulted only
      when the rules pass. No file is never refused. */
  function Refusal(maxSize: Option<int>, accept: Option<string>, file: Option<FileInfo>, verdict: Option<Verdict>): (r: Option<FileError>)
    ensures file.None? ==> r.None?
    ensures file.Some? && ValidateFile(maxSize, accept, file.value).Some? ==> r == ValidateFile(maxSize, accept, file.value)
    ensures r.Some? && r.value.Custom? ==> verdict == Some(Message(r.value.message))
    ensures r.None? ==>
      file.None? || (ValidateFile(maxSize, accept, file.value).None? && (verdict.None? || verdict.value == Flag(true)))
  {
    match file
    case None => None
    case Some(f) =>
      var e := ValidateFile(maxSize, accept, f);
      if e.Some? then e
      else match verdict
        case Some(Message(m)) => Some(Custom(m))
        case Some(Flag(false)) => Some(Refused(FileInvalid))
        case _ => None
  }

  class Picker {
    const maxSize: Option<int>
    const accept: Option<string>
    /** The stored form value: a file or null. */
    var value: Option<FileInfo>
    /** Every argument handed to `onChange`, oldest first. */
    var committed: seq<Option<FileInfo>>
    /** Every argument handed to `onFileChange`, oldest first. */
    var reported: seq<Option<FileInfo>>

    constructor (maxSize: Option<int>, accept: Option<string>, value: Option<FileInfo>)
      ensures this.maxSize == maxSize && this.accept == accept && this.value == value
      ensures committed == [] && reported == []
    {
      this.maxSize := maxSize;
      this.accept := accept;
      this.value := value;
      committed := [];
      reported := [];
    }

    /** `handleFileSelect`: takes the first selected file, or null when none
        was selected; a refused file returns early and changes nothing, any
        other choice (null included) is stored and reported alike. The
        refusal, which the source only logs, is returned. */
    method HandleFileSelect(selected: seq<FileInfo>, verdict: Option<Verdict>) returns (refusal: Option<FileError>)
      modifies this
      ensures var file := if selected == [] then None else Some(selected[0]);
        refusal == Refusal(maxSize, accept, file, verdict)
        && (refusal.Some? ==> value == old(value) && committed == old(committed) && reported == old(reported))
        && (refusal.None? ==> value == file && committed == old(committed) + [file] && reported == old(reported) + [file])
    {
      var file := if |selected| > 0 then Some(selected[0]) else None;
      if file.Some? {
        var e := ValidateFile(maxSize, accept, file.value);
        if e.Some? {
          return e;
        }
        if verdict.Some? {
          match verdict.value
          case Message(m) =>
            return Some(Custom(m));
          case Flag(ok) =>
            if !ok {
              return Some(Refused(FileInvalid));
            }
        }
      }
      value := file;
      committed := committed + [file];
      reported := reported + [file];
      return None;
    }

    /** `handleRemoveFile`: stores null and reports null. */
    method HandleRemoveFile()
      modifies this
      ensures value.None?
      ensures committed == old(committed) + [None] && reported == old(reported) + [None]
    {
      value := None;
      committed := committed + [None];
      reported := reported + [None];
    }
  }

  /** The guard order: a file the rules refuse is refused for that reason
      even when the custom validator would refuse it too. */
  lemma RulesBeforeCustom(maxSize: Option<int>, accept: Option<string>, f: FileInfo, m: string)
    requires ValidateFile(maxSize, accept, f).Some?
    ensures Refusal(maxSize, accept, Some(f), Some(Message(m))) == ValidateFile(maxSize, accept, f)
    ensures Refusal(maxSize, accept, Some(f), Some(Flag(false))) == ValidateFile(maxSize, accept, f)
  {
  }

  /** A custom validator returning any string, the empty one included,
      refuses; returning `true` or nothing admits. */
  lemma CustomVerdicts(maxSize: Option<int>, accept: Option<string>, f: FileInfo, m: string)
    requires ValidateFile(maxSize, accept, f).None?
    ensures Refusal(maxSize, accept, Some(f), Some(Message(m))) == Some(Custom(m))
    ensures Refusal(maxSize, accept, Some(f), Some(Flag(false))) == Some(Refused(FileInvalid))
    ensures Refusal(maxSize, accept, Some(f), Some(Flag(true))) == None
    ensures Refusal(maxSize, accept, Some(f), None) == None
  {
  }

  /** Selecting nothing clears the field: null is stored and reported, with
      no check at all. */
  method EmptySelectionClears(p: Picker, verdict: Option<Verdict>)
    modifies p
    ensures p.value.None? && p.committed == old(p.committed) + [None] && p.reported == old(p.reported) + [None]
  {
    var _ := p.HandleFileSelect([], verdict);
  }
}
