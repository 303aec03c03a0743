/**
 * The request checks of the chat server: the upload file-type rule, the
 * upload preconditions, and the gate in front of the chat endpoint (user
 * and model whitelist, dialog mode). The upstream model call behind the
 * gate is not part of this model.
 */
module Server {
  import opened Common

  // ---------------------------------------------------------------------------
  // allowed_file
  // ---------------------------------------------------------------------------

  const AllowedExtensions: set<string> := {"txt", "pdf", "png", "jpg", "jpeg", "gif"}

  /** `filename.rsplit('.', 1)[1]`: the text after the last dot. */
  function AfterLastDot(filename: string): (ext: string)
    requires '.' in filename
    ensures |ext| < |filename| && filename[|filename| - |ext| - 1] == '.'
    ensures ext == filename[|filename| - |ext|..] && '.' !in ext
  {
    var i := LastIndexOf(filename, '.').value;
    filename[i + 1..]
  }

  /** allowed_file: there is a dot, and the lowercased extension after the last one is allowed. */
  predicate AllowedFile(filename: string) {
    '.' in filename && Lower(AfterLastDot(filename)) in AllowedExtensions
  }

  /**
   * The extension is the dot-free tail after a dot: for any dot with no dot
   * after it, the file is allowed exactly when the lowercased text after
   * that dot is an allowed extension.
   */
  lemma AllowedFileTail(filename: string, i: nat)
    requires i < |filename| && filename[i] == '.' && '.' !in filename[i + 1..]
    ensures AllowedFile(filename) <==> Lower(filename[i + 1..]) in AllowedExtensions
  {
    var ext := AfterLastDot(filename);
    var j := |filename| - |ext| - 1;
    if i < j {
      assert false;
    } else if j < i {
      assert false;
    }
  }

  /** A name that is only a dot and an allowed extension passes. */
  lemma AllowedDotOnly()
    ensures AllowedFile(".png")
  {
    var f := ".png";
    assert f[1..] == "png" && '.' !in f[1..];
    assert Lower("png") == "png";
    AllowedFileTail(f, 0);
  }

  /** The extension is taken after the last dot only: "a.tar.gz" has extension "gz". */
  lemma RefusedCompound()
    ensures !AllowedFile("a.tar.gz")
  {
    var f := "a.tar.gz";
    assert f[5] == '.' && f[6..] == "gz" && '.' !in f[6..];
    assert Lower("gz") == "gz";
    AllowedFileTail(f, 5);
  }

  /** Without a dot nothing passes, not even a bare extension. */
  lemma RefusedWithoutDot()
    ensures !AllowedFile("png")
  {
  }

  /** The extension is compared in lower case. */
  lemma AllowedUpperCase()
    ensures AllowedFile("photo.JPG")
  {
    var f := "photo.JPG";
    assert f[6..] == "JPG" && '.' !in f[6..];
    assert Lower("JPG") == "jpg";
    AllowedFileTail(f, 5);
  }

  // ---------------------------------------------------------------------------
  // upload
  // ---------------------------------------------------------------------------

  /** The upload limit: 20 MiB. */
  const MaxUploadBytes: int := 20 * 1024 * 1024

  /** The `file` part of the request: its name and its declared length. */
  datatype FilePart = FilePart(filename: string, contentLength: int)

  datatype UploadReply =
    | NoFile
    | NoFilename
    | TooLarge
    | BadFormat
    | Saved(path: string)

  /** The HTTP status each reply is sent with. */
  function UploadStatus(r: UploadReply): int {
    match r
    case NoFile => 200
    case NoFilename => 200
    case TooLarge => 500
    case BadFormat => 500
    case Saved(_) => 200
  }

  /**
   * upload, up to the save: the checks in source order. `secureName` stands
   * for werkzeug's secure_filename; the file itself is saved under that name.
   */
  function Upload(file: Option<FilePart>, secureName: string -> string): UploadReply {
    match file
    case None => NoFile
    case Some(f) =>
      if f.filename == "" then NoFilename
      else if f.contentLength > MaxUploadBytes then TooLarge
      else if AllowedFile(f.filename) then Saved("/dont_guess/upload/" + secureName(f.filename))
      else BadFormat
  }

  /**
   * A file is saved exactly when it is present, named, at most 20 MiB and of
   * an allowed type; the reply then names its path under the upload
   * prefix. A missing part or name is answered before the size check, and
   * the size check before the type check.
   */
  lemma UploadFacts(file: Option<FilePart>, secureName: string -> string)
    ensures var r := Upload(file, secureName);
      && (r.Saved? <==> file.Some? && file.value.filename != "" && file.value.contentLength <= MaxUploadBytes
                        && AllowedFile(file.value.filename))
      && (r.Saved? ==> r.path == "/dont_guess/upload/" + secureName(file.value.filename))
      && (r == NoFile <==> file.None?)
      && (r == NoFilename <==> file.Some? && file.value.filename == "")
      && (r == TooLarge <==> file.Some? && file.value.filename != "" && file.value.contentLength > MaxUploadBytes)
      && (UploadStatus(r) == 200 <==> r.Saved? || r == NoFile || r == NoFilename)
  {
  }

  /** Exactly 20 MiB is still accepted; one byte more is not. */
  lemma UploadLimitEdge(secureName: string -> string)
    ensures Upload(Some(FilePart("a.txt", 20971520)), secureName).Saved?
    ensures Upload(Some(FilePart("a.txt", 20971521)), secureName) == TooLarge
  {
    var f := "a.txt";
    assert f[2..] == "txt" && '.' !in f[2..];
    assert Lower("txt") == "txt";
    AllowedFileTail(f, 1);
  }

  // ---------------------------------------------------------------------------
  // The gate of the chat endpoint
  // ---------------------------------------------------------------------------

  /** `user_list`: the comma-separated items of the `users` setting, taken whole. */
  function UserList(usersSetting: string): set<string> {
    set item | item in Split(usersSetting, ',')
  }

  datatype DialogMode = Single | Multi

  datatype GateError = UnsupportedUserOrModel | UnsupportedMode

  datatype Gate = Pass(user: string, model: string, mode: DialogMode) | Reject(error: GateError)

  /**
   * The checks of `dialog` before the upstream call. A missing `user` or
   * `model` is None and so never whitelisted; `dialog_mode` defaults to
   * 'single'. `modelList` is the set of keys of the `model` section.
   */
  function DialogGate(user: Option<string>, model: Option<string>, dialogMode: Option<string>,
                      userList: set<string>, modelList: set<string>): Gate
  {
    if user.None? || user.value !in userList || model.None? || model.value !in modelList then
      Reject(UnsupportedUserOrModel)
    else
      var mode := if dialogMode.Some? then dialogMode.value else "single";
      if mode == "single" then Pass(user.value, model.value, Single)
      else if mode == "multi" then Pass(user.value, model.value, Multi)
      else Reject(UnsupportedMode)
  }

  /**
   * The whitelist is checked first: a request passes only with a listed
   * user and a configured model, and whatever its mode an unlisted request
   * is rejected for the whitelist. A listed request passes exactly when the
   * mode is absent, 'single' or 'multi', and an absent mode means single.
   */
  lemma DialogGateFacts(user: Option<string>, model: Option<string>, dialogMode: Option<string>,
                        userList: set<string>, modelList: set<string>)
    ensures var g := DialogGate(user, model, dialogMode, userList, modelList);
      var listed := user.Some? && user.value in userList && model.Some? && model.value in modelList;
      && (g == Reject(UnsupportedUserOrModel) <==> !listed)
      && (g.Pass? <==> listed && (dialogMode.None? || dialogMode.value in {"single", "multi"}))
      && (g.Pass? ==> g.user == user.value && g.model == model.value)
      && (g.Pass? ==> (g.mode == Single <==> dialogMode.None? || dialogMode.value == "single"))
  {
  }

}
