/** The admission rules both file components apply to one file: a size limit,
    then a comma-separated `accept` list of extensions (".pdf"), MIME
    wildcards (a type, "/" and a star) and exact MIME types. */
module FileRules {
  import opened Text

  /** What the rules read of a browser `File`. */
  datatype FileInfo = FileInfo(name: string, mimeType: string, size: nat)

  /** Why a file or a batch was refused. */
  datatype FileError =
    | TooLarge(maxSize: int)
    | NotAccepted(accept: string)
    | TooMany(maxFiles: int)
    | Custom(message: string)
    | Refused(message: string)

  /** What a custom `validate` returned: a message, or a boolean. */
  datatype Verdict = Message(text: string) | Flag(ok: bool)

  /** The text each refusal is reported with. The size limit is shown through
      `formatFileSize`, whose text is passed in as `sizeText`. */
  function ErrorText(e: FileError, sizeText: string): string
  {
    match e
    case TooLarge(_) => "Arquivo muito grande. M\U{E1}ximo permitido: " + sizeText
    case NotAccepted(accept) => "Tipo de arquivo n\U{E3}o permitido. Aceitos: " + accept
    case TooMany(n) => "M\U{E1}ximo de " + IntText(n) + " arquivo(s) permitido(s)"
    case Custom(m) => m
    case Refused(m) => m
  }

  // ---------------------------------------------------------- one entry

  /** A character the regular-expression `.` does not match. */
  predicate IsLineTerminator(c: char)
  {
    c == '\n' || c == '\r' || c == '\U{2028}' || c == '\U{2029}'
  }

  /** `pattern` matches `t` character by character, `.` matching any
      character but a line terminator. */
  predicate CharsMatch(pattern: string, t: string)
    requires |pattern| == |t|
  {
    forall i :: 0 <= i < |t| ==> if pattern[i] == '.' then !IsLineTerminator(t[i]) else pattern[i] == t[i]
  }

  /** `new RegExp("^" + prefix + ".*" + suffix + "$").test(t)`. */
  predicate WildcardMatch(prefix: string, suffix: string, t: string)
  {
    |prefix| + |suffix| <= |t|
    && CharsMatch(prefix, t[..|prefix|])
    && CharsMatch(suffix, t[|t| - |suffix|..])
    && forall i :: |prefix| <= i < |t| - |suffix| ==> !IsLineTerminator(t[i])
  }

  /** One trimmed `accept` entry against a file: an extension is compared with
      the end of the lower-cased name, an entry with a "*" is a pattern whose
      first "*" matches anything, and any other entry must equal the type. */
  predicate EntryMatches(entry: string, f: FileInfo)
  {
    if StartsWith(entry, ".") then EndsWith(ToLower(f.name), ToLower(entry))
    else if '*' in entry then
      var k := IndexOf(entry, '*');
      WildcardMatch(entry[..k], entry[k + 1..], f.mimeType)
    else f.mimeType == entry
  }

  /** Some entry of the list, each one trimmed, matches. */
  predicate AnyEntryMatches(entries: seq<string>, f: FileInfo)
  {
    exists i :: 0 <= i < |entries| && EntryMatches(Trim(entries[i]), f)
  }

  /** `validateFile`: `None` when the file may be added, otherwise why not. A
      size limit of 0, like no limit, checks nothing; an empty `accept`, like
      none, accepts everything. */
  function ValidateFile(maxSize: Option<int>, accept: Option<string>, f: FileInfo): (r: Option<FileError>)
    ensures (r.Some? && r.value.TooLarge?) <==> maxSize.Some? && maxSize.value != 0 && f.size > maxSize.value
    ensures r.Some? && r.value.TooLarge? ==> r.value.maxSize == maxSize.value
    ensures r.Some? && r.value.NotAccepted? ==> accept.Some? && r.value.accept == accept.value
  {
    if maxSize.Some? && maxSize.value != 0 && f.size > maxSize.value then Some(TooLarge(maxSize.value))
    else if accept.Some? && accept.value != "" && !AnyEntryMatches(Split(accept.value, ','), f) then
      Some(NotAccepted(accept.value))
    else None
  }

  /** The size check comes first: a file over the limit is refused for its
      size whatever its type. */
  lemma SizeCheckedFirst(maxSize: int, accept: Option<string>, f: FileInfo)
    requires maxSize != 0 && f.size > maxSize
    ensures ValidateFile(Some(maxSize), accept, f) == Some(TooLarge(maxSize))
  {
  }

  /** A file exactly at the limit passes the size check, as does any file when
      there is no limit or the limit is 0. */
  lemma SizeLimitInclusive(maxSize: Option<int>, accept: Option<string>, f: FileInfo)
    requires maxSize.None? || maxSize.value == 0 || f.size <= maxSize.value
    ensures ValidateFile(maxSize, accept, f) == ValidateFile(None, accept, f)
  {
  }

  /** Past the size check, a file is refused for its type exactly when an
      `accept` list is given and none of its entries matches. */
  lemma TypeCheck(accept: Option<string>, f: FileInfo)
    ensures ValidateFile(None, accept, f).Some? <==>
      accept.Some? && accept.value != "" && !AnyEntryMatches(Split(accept.value, ','), f)
    ensures ValidateFile(None, accept, f).Some? ==> ValidateFile(None, accept, f) == Some(NotAccepted(accept.value))
  {
  }

  /** An extension entry ignores case on both sides. */
  lemma ExtensionIgnoresCase(name: string, mimeType: string, size: nat)
    ensures EntryMatches(".PDF", FileInfo(name, mimeType, size)) <==> EndsWith(ToLower(name), ".pdf")
  {
    assert ToLower(".PDF") == ".pdf";
  }

  /** The entry for any image type admits exactly the types that start with "image/" and have no
      line break after it. */
  lemma ImageWildcard(f: FileInfo)
    ensures EntryMatches("image/*", f) <==>
      StartsWith(f.mimeType, "image/") && forall i :: 6 <= i < |f.mimeType| ==> !IsLineTerminator(f.mimeType[i])
  {
    ImageEntry();
    assert '.' !in "image/";
    PrefixWildcard("image/", f.mimeType);
  }

  /** The entry for any image type is the literal prefix "image/", a star,
      and nothing after it. */
  lemma ImageEntry()
    ensures var e := "image/*";
      !StartsWith(e, ".") && '*' in e && IndexOf(e, '*') == 6 && e[..6] == "image/" && e[7..] == ""
  {
    var e := "image/*";
    assert e[..1][0] == 'i';
    assert e[6] == '*';
    assert IndexOf(e, '*') == 6;
  }

  /** A pattern with a literal prefix, no "." in it, and nothing after the
      star admits the texts that start with the prefix and have no line
      break after it. */
  lemma PrefixWildcard(prefix: string, t: string)
    requires '.' !in prefix
    ensures WildcardMatch(prefix, "", t) <==>
      StartsWith(t, prefix) && forall i :: |prefix| <= i < |t| ==> !IsLineTerminator(t[i])
  {
    if |prefix| <= |t| {
      assert CharsMatch(prefix, t[..|prefix|]) <==> t[..|prefix|] == prefix;
      assert t[|t| - 0..] == "";
    }
  }

  /** An entry with no "." in front and no "*" is compared with the type as
      it is: "application/pdf" does not admit "application/PDF". */
  lemma ExactTypeIsCaseSensitive(name: string, size: nat)
    ensures !EntryMatches("application/pdf", FileInfo(name, "application/PDF", size))
  {
    var e := "application/pdf";
    assert e[..1][0] == 'a';
    assert '*' !in e by {
      assert forall i :: 0 <= i < |e| ==> e[i] != '*';
    }
    assert e[12] != "application/PDF"[12];
  }

  /** A trailing comma leaves an empty entry, and an empty entry admits files
      whose type is empty: "image/png," admits a file the browser gives no
      type. */
  lemma TrailingCommaAdmitsUntyped(list: string, name: string, size: nat)
    requires ',' !in list
    ensures ValidateFile(None, Some(list + ","), FileInfo(name, "", size)) == None
  {
    var a := list + ",";
    assert a[|list|] == ',';
    assert IndexOf(a, ',') == |list|;
    assert a[..|list|] == list && a[|list| + 1..] == "";
    var pieces := Split(a, ',');
    assert pieces == [list] + Split("", ',');
    assert pieces[1] == "";
    var f := FileInfo(name, "", size);
    assert Trim(pieces[1]) == "" && EntryMatches("", f);
    assert AnyEntryMatches(pieces, f);
  }
}
