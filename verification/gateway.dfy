/** The request-facing half of the upload route: which multipart requests
    are turned away and with which message, what display name is recorded,
    what share link is handed back, and the shape of the generated id. */
module Gateway {
  import opened PyStr
  import opened PosixPath

  datatype Option<T> = None | Some(value: T)

  newtype byte = x: int | 0 <= x < 256
  type Bytes = seq<byte>

  /** The multipart part named `file`: the client's file name and the bytes. */
  datatype FilePart = FilePart(filename: string, content: Bytes)

  /** What the upload route reads from a request: the `file` part if there
      is one, the `name` form field if there is one, and the URL root the
      request came in on. */
  datatype UploadRequest = UploadRequest(file: Option<FilePart>, name: Option<string>, urlRoot: string)

  /** Extensions the upload route accepts, compared after lower-casing. */
  const AllowedExtensions: set<string> := {".ics"}

  /** Display name recorded when the form gives none, or only whitespace. */
  const Placeholder := "Unnamed Student"

  const NoFileError := "No file provided"
  const NoFilenameError := "No filename"
  const BadExtensionError := "Only .ics files allowed"

  /** `allowed_filename`: the `splitext` extension, lower-cased, is allowed. */
  predicate AllowedFilename(filename: string) {
    Lower(Extension(filename)) in AllowedExtensions
  }

  /** The allow-list check in plain terms: the name ends in `.ics` in any
      mix of letter case, and something other than a dot comes before that
      `.ics` in the last path component. */
  lemma AllowedFilenameIff(f: string)
    ensures AllowedFilename(f) <==>
      |f| >= 4 && Lower(f[|f| - 4..]) == ".ics" && NonDotBetween(f, RFind(f, '/'), |f| - 4)
  {
    if AllowedFilename(f) {
      SuffixOfAllowed(f);
    }
    if |f| >= 4 && Lower(f[|f| - 4..]) == ".ics" && NonDotBetween(f, RFind(f, '/'), |f| - 4) {
      AllowedOfSuffix(f);
    }
  }

  /** An allowed name ends in `.ics` after a non-dot of its last component. */
  lemma SuffixOfAllowed(f: string)
    requires AllowedFilename(f)
    ensures |f| >= 4 && Lower(f[|f| - 4..]) == ".ics" && NonDotBetween(f, RFind(f, '/'), |f| - 4)
  {
    IcsSuffixChars(Extension(f));
    var sep := RFind(f, '/');
    var j := FirstOtherFrom(f, '.', sep + 1);
    assert f[j] != '.';
  }

  /** A name ending in `.ics` after a non-dot of its last component is allowed. */
  lemma AllowedOfSuffix(f: string)
    requires |f| >= 4 && Lower(f[|f| - 4..]) == ".ics" && NonDotBetween(f, RFind(f, '/'), |f| - 4)
    ensures AllowedFilename(f)
  {
    var d := |f| - 4;
    var x := f[d..];
    IcsSuffixChars(x);
    assert f[d] == '.' && f[d + 1] == x[1] && f[d + 2] == x[2] && f[d + 3] == x[3];
    RFindUnique(f, '.', d);
    ExtensionByIndices(f);
  }

  /** Lower-casing gives `.ics` exactly for a dot followed by the three
      letters, each in either case. */
  lemma IcsSuffixChars(x: string)
    ensures Lower(x) == ".ics" <==>
      |x| == 4 && x[0] == '.' && x[1] in "iI" && x[2] in "cC" && x[3] in "sS"
  {
    if Lower(x) == ".ics" {
      assert Lower(x)[0] == '.' && Lower(x)[1] == 'i' && Lower(x)[2] == 'c' && Lower(x)[3] == 's';
    }
    if |x| == 4 && x[0] == '.' && x[1] in "iI" && x[2] in "cC" && x[3] in "sS" {
      assert Lower(x)[0] == '.' && Lower(x)[1] == 'i' && Lower(x)[2] == 'c' && Lower(x)[3] == 's';
      assert Lower(x) == ".ics";
    }
  }

  /** The behaviour the allow-list promises on representative names: upper
      case and directories are fine; a later suffix, a dot file, a name made
      of dots before `ics`, and names with no dot are turned away. */
  lemma AllowedFilenameExamples()
    ensures AllowedFilename("A.ICS") && AllowedFilename("dir/x.ics")
    ensures !AllowedFilename("x.ics.txt") && !AllowedFilename(".ics")
    ensures !AllowedFilename("..ics") && !AllowedFilename("ics") && !AllowedFilename("")
  {
    AcceptsUpperCase();
    AcceptsNested();
    RejectsLaterSuffix();
    AllowedFilenameIff(".ics");
    RejectsOnlyDots();
    AllowedFilenameIff("ics");
    AllowedFilenameIff("");
  }

  lemma AcceptsUpperCase()
    ensures AllowedFilename("A.ICS")
  {
    var f := "A.ICS";
    RFindUnique(f, '/', -1);
    assert f[0] != '.' && Lower(f[1..]) == ".ics";
    AllowedOfSuffix(f);
  }

  lemma AcceptsNested()
    ensures AllowedFilename("dir/x.ics")
  {
    var f := "dir/x.ics";
    RFindUnique(f, '/', 3);
    assert f[4] != '.' && Lower(f[5..]) == ".ics";
    AllowedOfSuffix(f);
  }

  lemma RejectsLaterSuffix()
    ensures !AllowedFilename("x.ics.txt")
  {
    var f := "x.ics.txt";
    assert Lower(f[5..])[1] == 't';
    AllowedFilenameIff(f);
  }

  lemma RejectsOnlyDots()
    ensures !AllowedFilename("..ics")
  {
    var f := "..ics";
    assert f[0] == '.';
    AllowedFilenameIff(f);
  }

  /** The guard chain of the upload route, in order: no `file` part, then
      an empty file name, then a file name outside the allow-list. `None`
      means the request passes; every refusal is answered with status 400. */
  function Validate(req: UploadRequest): (error: Option<string>)
    ensures error.None? <==>
      req.file.Some? && req.file.value.filename != "" && AllowedFilename(req.file.value.filename)
    ensures req.file.None? ==> error == Some(NoFileError)
    ensures req.file.Some? && req.file.value.filename == "" ==> error == Some(NoFilenameError)
    ensures req.file.Some? && req.file.value.filename != "" && !AllowedFilename(req.file.value.filename)
      ==> error == Some(BadExtensionError)
  {
    if req.file.None? then Some(NoFileError)
    else if req.file.value.filename == "" then Some(NoFilenameError)
    else if !AllowedFilename(req.file.value.filename) then Some(BadExtensionError)
    else None
  }

  /** The refusal message names the first guard that failed: the three
      messages are distinct, so a client can tell the causes apart. */
  lemma RefusalIdentifiesGuard(req: UploadRequest)
    requires Validate(req).Some?
    ensures Validate(req).value == NoFileError <==> req.file.None?
    ensures Validate(req).value == NoFilenameError <==> req.file.Some? && req.file.value.filename == ""
    ensures Validate(req).value == BadExtensionError <==>
      req.file.Some? && req.file.value.filename != "" && !AllowedFilename(req.file.value.filename)
  {
    assert |NoFileError| == 16 && |NoFilenameError| == 11 && |BadExtensionError| == 23;
  }

  /** The `name` form field with a missing field read as empty. */
  function FormText(field: Option<string>): string {
    if field.Some? then field.value else ""
  }

  /** The display name recorded and returned: the form's name with
      surrounding whitespace stripped, or the placeholder when nothing is
      left. */
  function DisplayName(field: Option<string>): (name: string)
    ensures name != []
    ensures AllIn(FormText(field), IsSpace) ==> name == Placeholder
    ensures !AllIn(FormText(field), IsSpace) ==> IsStripOf(name, FormText(field), IsSpace)
  {
    var stripped := Strip(FormText(field));
    StripEmptyIff(FormText(field), IsSpace);
    if stripped == "" then Placeholder else stripped
  }

  /** The placeholder has nothing to strip. */
  lemma PlaceholderStripped()
    ensures Strip(Placeholder) == Placeholder
  {
    assert StripBounds(Placeholder, 0, |Placeholder|, IsSpace);
    assert Placeholder == Placeholder[0..|Placeholder|];
    StripUnique(Strip(Placeholder), Placeholder, Placeholder, IsSpace);
  }

  /** Submitting a recorded display name as the form's name records the
      same display name again. */
  lemma DisplayNameStable(field: Option<string>)
    ensures DisplayName(Some(DisplayName(field))) == DisplayName(field)
  {
    var text := FormText(field);
    if Strip(text) == "" {
      PlaceholderStripped();
    } else {
      StripIdempotent(text);
    }
  }

  /** A name of 32 lower-case hexadecimal digits, the form `uuid4().hex` takes. */
  predicate IsHexId(id: string) {
    |id| == 32 && forall k :: 0 <= k < |id| ==> id[k] in "0123456789abcdef"
  }

  /** The share link: the URL root without its trailing slashes, then
      `/s/`, then the id. */
  function ShareLink(urlRoot: string, id: string): (link: string)
    ensures |link| >= |id| + 3 && link[|link| - |id| - 3..] == "/s/" + id
    ensures var base := link[..|link| - |id| - 3];
      && |base| <= |urlRoot| && base == urlRoot[..|base|]
      && (forall k :: |base| <= k < |urlRoot| ==> urlRoot[k] == '/')
      && (base == [] || base[|base| - 1] != '/')
  {
    var base := RStrip(urlRoot, '/');
    var link := base + "/s/" + id;
    assert link[..|base|] == base && link[|base|..] == "/s/" + id;
    link
  }

  /** The last path segment of a URL: what the `/s/<file_id>` route
      receives as `file_id` when the link is followed. */
  function LastSegment(url: string): string {
    url[RFind(url, '/') + 1..]
  }

  /** The id is the link's last segment, and what comes before it is the
      stripped root followed by `/s/`, so the link leads to the schedule
      page of the upload it was issued for. */
  lemma ShareLinkNamesId(urlRoot: string, id: string)
    requires IsHexId(id)
    ensures var link := ShareLink(urlRoot, id);
      LastSegment(link) == id && link[..RFind(link, '/') + 1] == RStrip(urlRoot, '/') + "/s/"
  {
    var link := ShareLink(urlRoot, id);
    var slash := |link| - |id| - 1;
    assert link == RStrip(urlRoot, '/') + "/s/" + id;
    assert link[slash] == '/';
    forall k | slash < k < |link|
      ensures link[k] != '/'
    {
      assert link[k] == id[k - slash - 1];
    }
    RFindUnique(link, '/', slash);
  }

  /** Trailing slashes on the URL root do not change the link. */
  lemma ShareLinkIgnoresTrailingSlash(urlRoot: string, id: string)
    ensures ShareLink(urlRoot + "/", id) == ShareLink(urlRoot, id)
  {
    RStripAppended(urlRoot, '/');
  }
}
