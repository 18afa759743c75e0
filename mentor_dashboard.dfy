/**
 * The mentor dashboard: who may use it, and the three forms on it — add a
 * company, upload a resource (a stored file, an external link or both) and
 * post an announcement — each a guard, a request to the store and a reset
 * of the fields on success.
 */
module MentorDashboard {
  import opened Wrappers
  import opened Schema
  import opened JsString
  import ResourceViewer

  // ---------------------------------------------------------------------------
  // access
  // ---------------------------------------------------------------------------

  /** The first effect: once the session is known, anyone but a signed-in mentor or admin is sent away. */
  predicate ShouldRedirect(authLoading: bool, user: Option<string>, userRole: Option<AppRole>)
    ensures ShouldRedirect(authLoading, user, userRole) <==> !authLoading && !ShouldFetch(user, userRole)
  {
    !authLoading && (user.None? || !IsMentorOrAdmin(userRole))
  }

  /** The second effect: data is fetched for a signed-in mentor or admin. */
  predicate ShouldFetch(user: Option<string>, userRole: Option<AppRole>)
    ensures ShouldFetch(user, userRole) <==> user.Some? && userRole.Some? && userRole.value != Junior
  {
    user.Some? && IsMentorOrAdmin(userRole)
  }

  /** Once the session is known a visitor is either redirected or served, never both; while it
      loads nobody is redirected; and being served means being staff. */
  lemma AccessExclusive(authLoading: bool, user: Option<string>, userRole: Option<AppRole>)
    ensures !authLoading ==> (ShouldRedirect(authLoading, user, userRole) <==> !ShouldFetch(user, userRole))
    ensures authLoading ==> !ShouldRedirect(authLoading, user, userRole)
    ensures ShouldFetch(user, userRole) <==> user.Some? && IsMentorOrAdmin(userRole)
  {
  }

  // ---------------------------------------------------------------------------
  // the storage key of an uploaded file
  // ---------------------------------------------------------------------------

  /** `file.name.split(".").pop()`. */
  function FileExtension(name: string): (ext: string)
    ensures '.' !in ext
    ensures EndsWith(name, ext)
    ensures '.' !in name ==> ext == name
  {
    SplitHasNoSeparator(name, '.');
    LastPieceEnds(name, '.');
    if '.' !in name then
      SplitWithoutSeparator(name, '.');
      Last(Split(name, '.'))
    else
      Last(Split(name, '.'))
  }

  /** After the last dot, the extension is what follows it. */
  lemma ExtensionAfterLastDot(front: string, ext: string)
    requires '.' !in ext
    ensures FileExtension(front + "." + ext) == ext
  {
    assert front + "." + ext == front + ['.'] + ext;
    SplitConcat(front, ext, '.');
    SplitWithoutSeparator(ext, '.');
  }

  /** A name with a dot is something, the last dot, and a dot-free rest. */
  lemma LastDot(name: string) returns (front: string, rest: string)
    requires '.' in name
    ensures name == front + "." + rest && '.' !in rest
  {
    var j := |name| - 1;
    if name[j] == '.' {
      front, rest := name[..j], "";
      assert name == name[..j] + [name[j]];
    } else {
      assert '.' in name[..j] by {
        var i :| 0 <= i < |name| && name[i] == '.';
        assert name[..j][i] == '.';
      }
      var r;
      front, r := LastDot(name[..j]);
      rest := r + [name[j]];
      assert name == name[..j] + [name[j]];
    }
  }

  /** A name with a dot is its part before the last dot, that dot, and the extension. */
  lemma FileExtensionSpec(name: string)
    ensures '.' in name ==>
      |FileExtension(name)| < |name| && name == name[..|name| - |FileExtension(name)| - 1] + "." + FileExtension(name)
  {
    if '.' in name {
      var front, rest := LastDot(name);
      ExtensionAfterLastDot(front, rest);
      assert name[..|name| - |rest| - 1] == front;
    }
  }

  /** `${user?.id}`: an absent user renders as "undefined". */
  function UserText(user: Option<string>): string
  {
    if user.Some? then user.value else "undefined"
  }

  /** `` `${user?.id}/${Date.now()}.${fileExt}` ``, with the clock reading as a parameter. */
  function StorageKey(user: Option<string>, now: nat, fileName: string): (key: string)
    ensures FileExtension(key) == FileExtension(fileName)
  {
    var front := UserText(user) + "/" + Decimal(now);
    ExtensionAfterLastDot(front, FileExtension(fileName));
    front + "." + FileExtension(fileName)
  }

  /** For a user id without '/' and a file name without '/' the key has two path segments:
      the user's folder and the timestamped file. */
  lemma StorageKeySpec(user: string, now: nat, fileName: string)
    requires '/' !in user && '/' !in fileName
    ensures Split(StorageKey(Some(user), now, fileName), '/') == [user, Decimal(now) + "." + FileExtension(fileName)]
  {
    var tail := Decimal(now) + "." + FileExtension(fileName);
    KeyAfterUser(user, now, fileName);
    TailHasNoSlash(now, fileName);
    SplitTwo(user, tail, '/');
  }

  /** The key is the user's text, a slash, and the timestamped file name. */
  lemma KeyAfterUser(user: string, now: nat, fileName: string)
    ensures StorageKey(Some(user), now, fileName) == user + ['/'] + (Decimal(now) + "." + FileExtension(fileName))
  {
    var d, ext := Decimal(now), FileExtension(fileName);
    assert StorageKey(Some(user), now, fileName) == user + "/" + d + "." + ext;
    Regroup(user, d, ext);
  }

  lemma Regroup(a: string, b: string, c: string)
    ensures a + "/" + b + "." + c == a + ['/'] + (b + "." + c)
  {
    assert a + "/" + b + "." + c == a + (['/'] + b + "." + c);
    assert ['/'] + b + "." + c == ['/'] + (b + "." + c);
  }

  /** The timestamped file name has no slash when the file name has none. */
  lemma TailHasNoSlash(now: nat, fileName: string)
    requires '/' !in fileName
    ensures '/' !in Decimal(now) + "." + FileExtension(fileName)
  {
    var ext := FileExtension(fileName);
    var d := Decimal(now);
    assert '/' !in ext by {
      assert ext == fileName[|fileName| - |ext|..];
      assert forall i | 0 <= i < |ext| :: ext[i] == fileName[|fileName| - |ext| + i];
    }
    assert forall i | 0 <= i < |d| :: d[i] != '/';
  }

  // ---------------------------------------------------------------------------
  // the guards
  // ---------------------------------------------------------------------------

  /** `handleAddCompany` goes on when the name is not blank. */
  predicate CompanyNameOk(name: string)
    ensures CompanyNameOk(name) <==> exists i | 0 <= i < |name| :: !IsJsWhitespace(name[i])
  {
    TrimSpec(name);
    Trim(name) != ""
  }

  datatype UploadCheck = MissingFields | MissingSource | UploadReady

  /** The two guards of `handleUploadResource`, in their order. */
  function CheckUpload(selectedCompany: string, resourceTitle: string, hasFile: bool, externalLink: string): (c: UploadCheck)
    ensures c == MissingFields <==> selectedCompany == "" || Trim(resourceTitle) == ""
    ensures c == UploadReady <==> selectedCompany != "" && Trim(resourceTitle) != "" && (hasFile || Trim(externalLink) != "")
  {
    if selectedCompany == "" || Trim(resourceTitle) == "" then MissingFields
    else if !hasFile && Trim(externalLink) == "" then MissingSource
    else UploadReady
  }

  /** `externalLink || null`: the link is stored as typed, an empty one as null. */
  function StoredLink(externalLink: string): (link: Option<string>)
    ensures link.None? <==> externalLink == ""
    ensures link.Some? ==> link.value == externalLink
  {
    if externalLink != "" then Some(externalLink) else None
  }

  /** `handlePostAnnouncement` goes on when neither title nor content is blank. */
  predicate AnnouncementOk(title: string, content: string)
    ensures AnnouncementOk(title, content) <==>
      (exists i | 0 <= i < |title| :: !IsJsWhitespace(title[i])) && (exists i | 0 <= i < |content| :: !IsJsWhitespace(content[i]))
  {
    TrimSpec(title);
    TrimSpec(content);
    Trim(title) != "" && Trim(content) != ""
  }

  /** The link is not trimmed before it is stored: a link of blanks alone is refused, but next
      to a file it passes the guard, is stored, and the viewer then prefers it to the file. */
  lemma BlankLinkShadowsFile(company: string, title: string, blanks: string, r: Resource, signedUrl: string -> Option<string>)
    requires company != "" && Trim(title) != ""
    requires blanks != "" && forall i | 0 <= i < |blanks| :: IsJsWhitespace(blanks[i])
    requires r.externalLink == StoredLink(blanks) && r.filePath.Some?
    ensures CheckUpload(company, title, false, blanks) == MissingSource
    ensures CheckUpload(company, title, true, blanks) == UploadReady
    ensures ResourceViewer.PreviewSource(Some(r), signedUrl) == Some(blanks)
  {
    TrimSpec(blanks);
  }

  // ---------------------------------------------------------------------------
  // the page state
  // ---------------------------------------------------------------------------

  /** An uploaded file: only its name matters here. */
  datatype File = File(name: string)

  /** The fields of the company form. */
  datatype CompanyForm = CompanyForm(name: string, description: string)

  /** The fields of the upload form. */
  datatype UploadForm = UploadForm(
    selectedCompany: string,
    title: string,
    description: string,
    resourceType: ResourceType,
    roundType: RoundType,
    externalLink: string,
    file: Option<File>)

  /** The fields of the announcement form. */
  datatype AnnouncementForm = AnnouncementForm(title: string, content: string, isPinned: bool)

  datatype ResourceInsert = ResourceInsert(
    companyId: string,
    title: string,
    description: string,
    resourceType: ResourceType,
    roundType: RoundType,
    filePath: Option<string>,
    externalLink: Option<string>,
    uploadedBy: Option<string>)

  datatype AnnouncementInsert = AnnouncementInsert(title: string, content: string, isPinned: bool, postedBy: Option<string>)

  /** The upload form after a successful upload: the choice of type and round is kept. */
  function ClearedUpload(form: UploadForm): (cleared: UploadForm)
    ensures cleared.resourceType == form.resourceType && cleared.roundType == form.roundType
  {
    UploadForm("", "", "", form.resourceType, form.roundType, "", None)
  }

  class Dashboard {
    var companyForm: CompanyForm
    var uploadForm: UploadForm
    var announcementForm: AnnouncementForm
    var uploading: bool

    constructor ()
      ensures companyForm == CompanyForm("", "")
      ensures uploadForm == UploadForm("", "", "", Pdf, Aptitude, "", None)
      ensures announcementForm == AnnouncementForm("", "", false)
      ensures !uploading
    {
      companyForm := CompanyForm("", "");
      uploadForm := UploadForm("", "", "", Pdf, Aptitude, "", None);
      announcementForm := AnnouncementForm("", "", false);
      uploading := false;
    }

    /** `handleAddCompany`; the name is checked trimmed but sent as typed. */
    method AddCompany(storeOk: bool) returns (inserted: Option<CompanyForm>)
      modifies this
      ensures inserted.Some? <==> CompanyNameOk(old(companyForm).name)
      ensures inserted.Some? ==> inserted.value == old(companyForm)
      ensures companyForm == if inserted.Some? && storeOk then CompanyForm("", "") else old(companyForm)
      ensures uploadForm == old(uploadForm) && announcementForm == old(announcementForm) && uploading == old(uploading)
    {
      if !CompanyNameOk(companyForm.name) {
        return None;
      }
      inserted := Some(companyForm);
      if storeOk {
        companyForm := CompanyForm("", "");
      }
    }

    /** `handleUploadResource`. `uploadOk` and `insertOk` are the store's answers, `now` the clock.
        `uploadedKey` is the storage key a file is sent under; a failed upload stops before the insert. */
    method UploadResource(user: Option<string>, now: nat, uploadOk: bool, insertOk: bool)
      returns (uploadedKey: Option<string>, inserted: Option<ResourceInsert>)
      modifies this
      ensures var f := old(uploadForm);
        var ready := CheckUpload(f.selectedCompany, f.title, f.file.Some?, f.externalLink) == UploadReady;
        && (uploadedKey.Some? <==> ready && f.file.Some?)
        && (uploadedKey.Some? ==> uploadedKey.value == StorageKey(user, now, f.file.value.name))
        && (inserted.Some? <==> ready && (f.file.None? || uploadOk))
        && (inserted.Some? ==> inserted.value == ResourceInsert(
              f.selectedCompany, f.title, f.description, f.resourceType, f.roundType,
              uploadedKey, StoredLink(f.externalLink), user))
        && uploading == (if ready then false else old(uploading))
      ensures uploadForm == if inserted.Some? && insertOk then ClearedUpload(old(uploadForm)) else old(uploadForm)
      ensures companyForm == old(companyForm) && announcementForm == old(announcementForm)
    {
      uploadedKey := None;
      inserted := None;
      var form := uploadForm;
      if CheckUpload(form.selectedCompany, form.title, form.file.Some?, form.externalLink) != UploadReady {
        return;
      }
      uploading := true;
      var filePath: Option<string> := None;
      if form.file.Some? {
        var fileName := StorageKey(user, now, form.file.value.name);
        uploadedKey := Some(fileName);
        if !uploadOk {
          uploading := false;
          return;
        }
        filePath := Some(fileName);
      }
      inserted := Some(ResourceInsert(form.selectedCompany, form.title, form.description, form.resourceType,
                                      form.roundType, filePath, StoredLink(form.externalLink), user));
      if insertOk {
        uploadForm := ClearedUpload(form);
      }
      uploading := false;
    }

    /** `handlePostAnnouncement`; title and content are checked trimmed but sent as typed. */
    method PostAnnouncement(user: Option<string>, storeOk: bool) returns (inserted: Option<AnnouncementInsert>)
      modifies this
      ensures var f := old(announcementForm);
        && (inserted.Some? <==> AnnouncementOk(f.title, f.content))
        && (inserted.Some? ==> inserted.value == AnnouncementInsert(f.title, f.content, f.isPinned, user))
      ensures announcementForm == if inserted.Some? && storeOk then AnnouncementForm("", "", false) else old(announcementForm)
      ensures companyForm == old(companyForm) && uploadForm == old(uploadForm) && uploading == old(uploading)
    {
      var form := announcementForm;
      if !AnnouncementOk(form.title, form.content) {
        return None;
      }
      inserted := Some(AnnouncementInsert(form.title, form.content, form.isPinned, user));
      if storeOk {
        announcementForm := AnnouncementForm("", "", false);
      }
    }
  }
}
