/**
 * Image uploads: saving an upload under a fresh name (size and extension
 * rules), deleting a local upload, and serving a stored file, where images
 * used by a non-public event or announcement need a live session. The
 * uploads directory is a set of file names; the filesystem's own failures
 * are a parameter. Paths in the file set are relative to the working
 * directory; the configured uploads directory is a parameter `dir`.
 */
module Uploads {
  import opened Wrappers
  import opened Text
  import opened Errors
  import opened Domain
  import opened Tokens
  import opened Collections
  import Sessions

  /** The extensions an upload may have, in the order the error message lists them. */
  const AllowedExtensions: seq<string> := ["jpg", "jpeg", "png", "gif", "webp"]

  /** 10 MiB. */
  const MaxFileSize: nat := 10 * 1024 * 1024

  const TooLarge := "File too large (max 10 MB)"
  const BadType := "Invalid file type. Allowed: jpg, jpeg, png, gif, webp"

  /** The ", "-joined list in the message is the list that is checked. */
  lemma BadTypeListsAllowed()
    ensures BadType == "Invalid file type. Allowed: " + Join(AllowedExtensions, ", ")
  {
  }

  /**
   * The lower-cased text after the last '.' (`rsplit('.').next()`, which
   * always yields a piece); a name without '.' is its own extension.
   */
  function UploadExtension(filename: string): (ext: string)
    ensures |ext| <= |filename|
    ensures forall k :: 0 <= k < |ext| ==> ext[k] != '.'
    ensures ext == Lower(filename[|filename| - |ext|..])
    ensures |ext| < |filename| ==> filename[|filename| - |ext| - 1] == '.'
  {
    var segment := LastSegment(filename, '.');
    forall k | 0 <= k < |segment|
      ensures LowerChar(segment[k]) != '.'
    {
    }
    Lower(segment)
  }

  /** A name with no '.' has all of itself, lower-cased, as extension. */
  lemma WholeNameExtension(filename: string)
    requires forall k :: 0 <= k < |filename| ==> filename[k] != '.'
    ensures UploadExtension(filename) == Lower(filename)
  {
  }

  /** The name the upload is stored under in the uploads directory. */
  function StoredName(uuid: string, ext: string): string {
    uuid + "." + ext
  }

  /** `PathBuf::from(dir).join(name)` for a directory without a trailing separator. */
  function InDir(dir: string, name: string): string {
    dir + "/" + name
  }

  /**
   * `save_uploaded_file`: too large, then a disallowed extension, are
   * Validation errors; otherwise the file is written into `dir` under the
   * uuid and the extension, and the path handed back is "uploads/"
   * followed by that name, whatever `dir` is. `ioError` is the first
   * failing filesystem step, if one fails.
   */
  function SaveUploadedFile(files: set<string>, dir: string, filename: string, size: nat, uuid: string,
                            ioError: Option<AppError>)
    : (r: Result<(set<string>, string), AppError>)
    ensures size > MaxFileSize ==> r == Failure(Validation(TooLarge))
    ensures size <= MaxFileSize && UploadExtension(filename) !in AllowedExtensions ==> r == Failure(Validation(BadType))
    ensures r.Success? <==> size <= MaxFileSize && UploadExtension(filename) in AllowedExtensions && ioError.None?
    ensures r.Success? ==> var name := StoredName(uuid, UploadExtension(filename));
              r.value == (files + {InDir(dir, name)}, "uploads/" + name)
    ensures r.Failure? && size <= MaxFileSize && UploadExtension(filename) in AllowedExtensions ==> r.error == ioError.value
  {
    if size > MaxFileSize then Failure(Validation(TooLarge))
    else
      var ext := UploadExtension(filename);
      if ext !in AllowedExtensions then Failure(Validation(BadType))
      else if ioError.Some? then Failure(ioError.value)
      else
        var name := StoredName(uuid, ext);
        Success((files + {InDir(dir, name)}, "uploads/" + name))
  }

  /** Exactly 10 MiB is accepted; one byte more is not. */
  lemma SizeBoundary(files: set<string>, dir: string, filename: string, uuid: string)
    requires UploadExtension(filename) in AllowedExtensions
    ensures SaveUploadedFile(files, dir, filename, MaxFileSize, uuid, None).Success?
    ensures SaveUploadedFile(files, dir, filename, MaxFileSize + 1, uuid, None) == Failure(Validation(TooLarge))
  {
  }

  /**
   * The extension check ignores case: a name ending in "." and a '.'-free
   * extension is accepted exactly when the lower-cased extension is
   * allowed, and is stored under that lower-cased extension (so
   * "PHOTO.JPG" becomes a ".jpg" file).
   */
  lemma ExtensionIgnoresCase(files: set<string>, dir: string, stem: string, ext: string, size: nat, uuid: string)
    requires forall k :: 0 <= k < |ext| ==> ext[k] != '.'
    requires size <= MaxFileSize
    ensures SaveUploadedFile(files, dir, stem + "." + ext, size, uuid, None).Success? <==> Lower(ext) in AllowedExtensions
    ensures Lower(ext) in AllowedExtensions ==>
              SaveUploadedFile(files, dir, stem + "." + ext, size, uuid, None)
              == Success((files + {InDir(dir, StoredName(uuid, Lower(ext)))}, "uploads/" + StoredName(uuid, Lower(ext))))
  {
    LastSegmentOfSuffix(stem, ext);
    assert UploadExtension(stem + "." + ext) == Lower(ext);
  }

  // ---------------------------------------------------------------------------
  // Deleting
  // ---------------------------------------------------------------------------

  /**
   * `delete_uploaded_file`: only paths under "uploads/" are touched; an
   * existing file is removed, a missing one is not an error. `removeError`
   * is the filesystem's failure text, if removing fails.
   */
  function DeleteUploadedFile(files: set<string>, path: string, removeError: Option<string>)
    : (r: Result<set<string>, AppError>)
    ensures !StartsWith(path, "uploads/") ==> r == Success(files)
    ensures path !in files ==> r == Success(files)
    ensures r.Success? ==> r.value == files || r.value == files - {path}
    ensures r.Failure? <==> StartsWith(path, "uploads/") && path in files && removeError.Some?
    ensures r.Failure? ==> r.error == Internal("Failed to delete file: " + removeError.value)
  {
    if !StartsWith(path, "uploads/") || path !in files then Success(files)
    else if removeError.Some? then Failure(Internal("Failed to delete file: " + removeError.value))
    else Success(files - {path})
  }

  /**
   * With the default uploads directory, deleting the path a save handed
   * back removes exactly the file that save wrote.
   */
  lemma SaveThenDelete(files: set<string>, filename: string, size: nat, uuid: string)
    requires SaveUploadedFile(files, "uploads", filename, size, uuid, None).Success?
    ensures var (saved, path) := SaveUploadedFile(files, "uploads", filename, size, uuid, None).value;
            var stored := InDir("uploads", StoredName(uuid, UploadExtension(filename)));
            stored in saved && path == stored
            && DeleteUploadedFile(saved, path, None) == Success(saved - {stored})
  {
    var (saved, path) := SaveUploadedFile(files, "uploads", filename, size, uuid, None).value;
    assert path[..8] == "uploads/";
  }

  /**
   * With any other uploads directory, the handed-back path names a file
   * relative to the working directory, not the one save wrote, so deleting
   * it leaves the saved file in place.
   */
  lemma DeleteMissesOtherDir(files: set<string>, dir: string, filename: string, size: nat, uuid: string)
    requires dir != "uploads"
    requires SaveUploadedFile(files, dir, filename, size, uuid, None).Success?
    ensures var (saved, path) := SaveUploadedFile(files, dir, filename, size, uuid, None).value;
            var stored := InDir(dir, StoredName(uuid, UploadExtension(filename)));
            DeleteUploadedFile(saved, path, None).Success? && stored in DeleteUploadedFile(saved, path, None).value
  {
    OtherDirOtherPath(dir, StoredName(uuid, UploadExtension(filename)));
  }

  /** A file in a directory other than "uploads" never has an "uploads/" path. */
  lemma OtherDirOtherPath(dir: string, name: string)
    requires dir != "uploads"
    ensures InDir(dir, name) != "uploads/" + name
  {
    var p, q := InDir(dir, name), "uploads/" + name;
    if |dir| == 7 {
      assert p[..7] == dir;
      assert q[..7] == "uploads";
    }
  }

  // ---------------------------------------------------------------------------
  // Serving
  // ---------------------------------------------------------------------------

  /** Where a text holds ".." as two adjacent characters. */
  predicate DoubleDotIndex(s: string, k: int) {
    0 <= k < |s| - 1 && s[k] == '.' && s[k + 1] == '.'
  }

  /**
   * The path-traversal guard of `serve_upload`: the name holds "..", a '/'
   * or a '\'.
   */
  function Traverses(filename: string): (t: bool)
    ensures t <==> (exists k :: DoubleDotIndex(filename, k))
                   || (exists k :: 0 <= k < |filename| && (filename[k] == '/' || filename[k] == '\\'))
  {
    DoubleDotIff(filename);
    Contains(filename, "..") || ContainsChar(filename, '/') || ContainsChar(filename, '\\')
  }

  /** `contains("..")` holds exactly when two adjacent characters are dots. */
  lemma DoubleDotIff(s: string)
    ensures Contains(s, "..") <==> exists k :: DoubleDotIndex(s, k)
  {
    if Contains(s, "..") {
      var k := DoubleDotAt(s);
      assert DoubleDotIndex(s, k);
    }
    if k :| DoubleDotIndex(s, k) {
      DoubleDotFound(s, k);
    }
  }

  /** Two adjacent dots make `contains("..")` true. */
  lemma {:induction false} DoubleDotFound(s: string, k: int)
    requires DoubleDotIndex(s, k)
    ensures Contains(s, "..")
    decreases k
  {
    if k == 0 {
      assert s[..2] == "..";
    } else {
      DoubleDotFound(s[1..], k - 1);
    }
  }

  /**
   * `is_private_image`: the stored path is used by an event that is not
   * public, or by an announcement that is not public. Each of the two
   * queries that fails (`eventsOk`, `annsOk` false) reads as "not used".
   */
  function IsPrivateImage(events: seq<Event>, anns: seq<Announcement>, filename: string, eventsOk: bool, annsOk: bool)
    : (private: bool)
    ensures private <==> (eventsOk && exists e :: e in events && e.image_url == Some("uploads/" + filename)
                                                 && e.visibility != Public)
                         || (annsOk && exists a :: a in anns && a.image_url == Some("uploads/" + filename)
                                                   && !a.is_public)
  {
    var path := "uploads/" + filename;
    || (eventsOk && FindFirst(events, (e: Event) => e.image_url == Some(path) && e.visibility != Public).Some?)
    || (annsOk && FindFirst(anns, (a: Announcement) => a.image_url == Some(path) && !a.is_public).Some?)
  }

  /**
   * `Path::extension` of a file name: the text after the last '.', except
   * that a name without '.' or whose only '.' leads it has none.
   */
  function PathExtension(filename: string): (r: Option<string>)
    ensures r.Some? ==> r.value == LastSegment(filename, '.') && |r.value| < |filename| - 1
  {
    var ext := LastSegment(filename, '.');
    if |ext| == |filename| then None
    else if |ext| == |filename| - 1 then None
    else Some(ext)
  }

  /** The content type by exact, case-sensitive extension. */
  function ContentType(ext: Option<string>): (t: string)
    ensures ext.Some? && ext.value in {"jpg", "jpeg"} ==> t == "image/jpeg"
    ensures ext.None? || ext.value !in AllowedExtensions ==> t == "application/octet-stream"
  {
    match ext
    case Some("jpg") => "image/jpeg"
    case Some("jpeg") => "image/jpeg"
    case Some("png") => "image/png"
    case Some("gif") => "image/gif"
    case Some("webp") => "image/webp"
    case _ => "application/octet-stream"
  }

  datatype Response = Response(status: int, content_type: Option<string>)

  /** The image may be sent: it is not private, or the cookie finds a live session. */
  predicate Permitted(private: bool, cookie: Option<string>, sessions: Sessions.Store, now: Time, sha256: Digest)
    requires ValidDigest(sha256)
  {
    !private || (cookie.Some? && Sessions.FindByToken(sessions, cookie.value, now, sha256).1.Some?)
  }

  /**
   * `serve_upload`: a traversing name is 400 before anything is looked up;
   * a private image without a live session is 401; a file missing from the
   * uploads directory `dir` is 404; a file that cannot be opened is 500;
   * otherwise 200 with the content type of its extension. The session
   * lookup touches the session store.
   */
  function ServeUpload(filename: string, events: seq<Event>, anns: seq<Announcement>, eventsOk: bool, annsOk: bool,
                       cookie: Option<string>, sessions: Sessions.Store, now: Time, sha256: Digest,
                       dir: string, files: set<string>, openOk: bool)
    : (r: (Sessions.Store, Response))
    requires ValidDigest(sha256)
    ensures Traverses(filename) ==> r == (sessions, Response(400, None))
    ensures var private := IsPrivateImage(events, anns, filename, eventsOk, annsOk);
            var permitted := Permitted(private, cookie, sessions, now, sha256);
            var stored := InDir(dir, filename) in files;
            && (r.1.status == 401 <==> !Traverses(filename) && !permitted)
            && (r.1.status == 404 <==> !Traverses(filename) && permitted && !stored)
            && (r.1.status == 500 <==> !Traverses(filename) && permitted && stored && !openOk)
            && (r.1.status == 200 <==> !Traverses(filename) && permitted && stored && openOk)
            && (!private ==> r.0 == sessions)
    ensures r.1.status == 200 ==> r.1.content_type == Some(ContentType(PathExtension(filename)))
    ensures r.1.status != 200 ==> r.1.content_type.None?
  {
    if Traverses(filename) then (sessions, Response(400, None))
    else
      var (sessions', allowed) :=
        if !IsPrivateImage(events, anns, filename, eventsOk, annsOk) then (sessions, true)
        else if cookie.None? then (sessions, false)
        else
          var (s, found) := Sessions.FindByToken(sessions, cookie.value, now, sha256);
          (s, found.Some?);
      if !allowed then (sessions', Response(401, None))
      else if InDir(dir, filename) !in files then (sessions', Response(404, None))
      else if !openOk then (sessions', Response(500, None))
      else (sessions', Response(200, Some(ContentType(PathExtension(filename)))))
  }

  /** A public image is served alike with or without a session. */
  lemma PublicImageIgnoresSession(filename: string, events: seq<Event>, anns: seq<Announcement>, eventsOk: bool,
                                  annsOk: bool, c1: Option<string>, c2: Option<string>, sessions: Sessions.Store,
                                  now: Time, sha256: Digest, dir: string, files: set<string>, openOk: bool)
    requires ValidDigest(sha256)
    requires !IsPrivateImage(events, anns, filename, eventsOk, annsOk)
    ensures ServeUpload(filename, events, anns, eventsOk, annsOk, c1, sessions, now, sha256, dir, files, openOk)
            == ServeUpload(filename, events, anns, eventsOk, annsOk, c2, sessions, now, sha256, dir, files, openOk)
  {
  }

  /** The image of a members-only or admin-only event is refused to a request without a session cookie. */
  lemma PrivateEventImageNeedsSession(filename: string, events: seq<Event>, anns: seq<Announcement>, annsOk: bool,
                                      sessions: Sessions.Store, now: Time, sha256: Digest, dir: string,
                                      files: set<string>, openOk: bool, i: nat)
    requires ValidDigest(sha256)
    requires !Traverses(filename)
    requires i < |events| && events[i].image_url == Some("uploads/" + filename) && events[i].visibility != Public
    ensures ServeUpload(filename, events, anns, true, annsOk, None, sessions, now, sha256, dir, files, openOk).1
            == Response(401, None)
  {
    assert events[i] in events;
  }

  /**
   * When both lookups fail, every image counts as public: `serve_upload`
   * fails open and sends a stored private image to anyone.
   */
  lemma FailedLookupsServeEveryone(filename: string, events: seq<Event>, anns: seq<Announcement>,
                                   sessions: Sessions.Store, now: Time, sha256: Digest, dir: string,
                                   files: set<string>)
    requires ValidDigest(sha256)
    requires !Traverses(filename) && InDir(dir, filename) in files
    ensures ServeUpload(filename, events, anns, false, false, None, sessions, now, sha256, dir, files, true).1.status == 200
  {
  }

  /** A file just saved into `dir` is served from `dir` under the name the save chose. */
  lemma SaveThenServe(files: set<string>, dir: string, filename: string, size: nat, uuid: string,
                      events: seq<Event>, anns: seq<Announcement>, eventsOk: bool, annsOk: bool,
                      cookie: Option<string>, sessions: Sessions.Store, now: Time, sha256: Digest)
    requires ValidDigest(sha256)
    requires SaveUploadedFile(files, dir, filename, size, uuid, None).Success?
    requires |uuid| > 0 && forall k :: 0 <= k < |uuid| ==> uuid[k] != '.' && uuid[k] != '/' && uuid[k] != '\\'
    requires !IsPrivateImage(events, anns, StoredName(uuid, UploadExtension(filename)), eventsOk, annsOk)
    ensures var saved := SaveUploadedFile(files, dir, filename, size, uuid, None).value.0;
            var name := StoredName(uuid, UploadExtension(filename));
            ServeUpload(name, events, anns, eventsOk, annsOk, cookie, sessions, now, sha256, dir, saved, true).1
            == Response(200, Some(ContentType(Some(UploadExtension(filename)))))
  {
    StoredUploadServable(uuid, UploadExtension(filename));
  }

  /** The last '.'-segment of `prefix` + "." + a '.'-free `ext` is `ext`. */
  lemma {:induction false} LastSegmentOfSuffix(prefix: string, ext: string)
    requires forall k :: 0 <= k < |ext| ==> ext[k] != '.'
    ensures LastSegment(prefix + "." + ext, '.') == ext
    decreases |ext|
  {
    var whole := prefix + "." + ext;
    if |ext| == 0 {
      assert whole[|whole| - 1] == '.';
    } else {
      assert whole[|whole| - 1] == ext[|ext| - 1];
      assert whole[..|whole| - 1] == prefix + "." + ext[..|ext| - 1];
      LastSegmentOfSuffix(prefix, ext[..|ext| - 1]);
      assert ext[..|ext| - 1] + [ext[|ext| - 1]] == ext;
    }
  }

  /** A character of a string the text contains is a character of the text. */
  lemma ContainsShares(s: string, sub: string)
    requires Contains(s, sub) && |sub| > 0
    ensures exists k :: 0 <= k < |s| && s[k] == sub[0]
    decreases |s|
  {
    if StartsWith(s, sub) {
      assert s[0] == sub[0];
    } else {
      ContainsShares(s[1..], sub);
      var k :| 0 <= k < |s[1..]| && s[1..][k] == sub[0];
      assert s[k + 1] == sub[0];
    }
  }

  /**
   * A stored upload is servable: its name passes the traversal guard (for a
   * uuid without '.', '/' or '\'), and it is served with the image type of
   * its extension.
   */
  lemma StoredUploadServable(uuid: string, ext: string)
    requires |uuid| > 0 && ext in AllowedExtensions
    requires forall k :: 0 <= k < |uuid| ==> uuid[k] != '.' && uuid[k] != '/' && uuid[k] != '\\'
    ensures !Traverses(StoredName(uuid, ext))
    ensures PathExtension(StoredName(uuid, ext)) == Some(ext)
    ensures ContentType(PathExtension(StoredName(uuid, ext))) != "application/octet-stream"
  {
    var name := StoredName(uuid, ext);
    assert forall k :: 0 <= k < |name| ==> name[k] != '/' && name[k] != '\\' by {
      forall k | 0 <= k < |name|
        ensures name[k] != '/' && name[k] != '\\'
      {
        if k < |uuid| {
          assert name[k] == uuid[k];
        } else if k > |uuid| {
          assert name[k] == ext[k - |uuid| - 1];
        }
      }
    }
    if Contains(name, "..") {
      NoDoubleDot(uuid, ext);
    }
    LastSegmentOfSuffix(uuid, ext);
  }

  /** A name made of a '.'-free uuid, one '.' and a '.'-free extension holds no "..". */
  lemma NoDoubleDot(uuid: string, ext: string)
    requires forall k :: 0 <= k < |uuid| ==> uuid[k] != '.'
    requires forall k :: 0 <= k < |ext| ==> ext[k] != '.'
    ensures !Contains(uuid + "." + ext, "..")
  {
    var name := uuid + "." + ext;
    if Contains(name, "..") {
      var k := DoubleDotAt(name);
    }
  }

  /** Where a text containing ".." holds it. */
  lemma DoubleDotAt(s: string) returns (k: int)
    requires Contains(s, "..")
    ensures 0 <= k < |s| - 1 && s[k] == '.' && s[k + 1] == '.'
    decreases |s|
  {
    if StartsWith(s, "..") {
      k := 0;
    } else {
      var j := DoubleDotAt(s[1..]);
      k := j + 1;
    }
  }
}
