/** The validation rules of `ProfileController`: the checks an uploaded
    profile image must pass, the path it is stored under, and the display
    name and password rules of `EditProfile`. The generated file name (a
    GUID) and the signed-in user are parameters; files are not modelled. */
module Profile {
  import opened Common
  import opened Models

  const MaxBytes: int := 2 * 1024 * 1024

  const AllowedExtensions: seq<string> := [".jpg", ".jpeg", ".png"]

  const ProfilesPrefix: string := "/images/profiles/"

  /** Position of the last occurrence of `c`. */
  function LastIndexOf(s: string, c: char): (r: Option<nat>)
    ensures r.Some? ==> r.value < |s| && s[r.value] == c && c !in s[r.value + 1..]
    ensures r.None? <==> c !in s
    decreases |s|
  {
    if |s| == 0 then None
    else if s[|s| - 1] == c then Some(|s| - 1)
    else
      var r := LastIndexOf(s[..|s| - 1], c);
      assert forall x :: x in s <==> x in s[..|s| - 1] || x == s[|s| - 1];
      if r.Some? then
        assert s[r.value + 1..] == s[..|s| - 1][r.value + 1..] + [s[|s| - 1]];
        r
      else r
  }

  /** `Path.GetExtension` with '/' as the directory separator: the text from
      the last '.' of the file-name part, or "" when there is no '.' there
      or the '.' is the last character. */
  function GetExtension(path: string): (ext: string)
    ensures ext == "" || (|ext| >= 2 && ext[0] == '.' && EndsWith(path, ext) && '.' !in ext[1..] && '/' !in ext)
  {
    match LastIndexOf(path, '.')
    case None => ""
    case Some(i) =>
      if i == |path| - 1 || '/' in path[i + 1..] then ""
      else
        assert EndsWith(path, path[i..]);
        assert path[i..][1..] == path[i + 1..];
        path[i..]
  }

  /** A well-formed extension: a '.', then at least one character, with no
      further '.' and no directory separator. */
  predicate IsExtension(ext: string) {
    |ext| >= 2 && ext[0] == '.' && '.' !in ext[1..] && '/' !in ext
  }

  /** Whatever precedes it, a well-formed extension at the end of a path is
      the path's extension. */
  lemma ExtensionOfSuffix(name: string, ext: string)
    requires IsExtension(ext)
    ensures GetExtension(name + ext) == ext
  {
    var p := name + ext;
    assert p[|name|..] == ext;
    assert p[|name| + 1..] == ext[1..];
    assert p[|name|] == '.';
    var k := LastIndexOf(p, '.').value;
    assert k == |name|;
  }

  /** Each allowed extension is well formed, so the stored file name keeps
      the validated extension. */
  lemma AllowedAreExtensions(ext: string)
    requires ext in AllowedExtensions
    ensures IsExtension(ext)
  {
    assert ext == ".jpg" || ext == ".jpeg" || ext == ".png";
  }

  datatype UploadedFile = UploadedFile(fileName: string, length: int)

  datatype UploadError = NoFileSelected | FileTooLarge | InvalidFileType

  datatype UploadOutcome =
    | Rejected(error: UploadError)
    | Challenge
    /** The user with the new path, and whether the old image is deleted. */
    | Stored(user: User, deleteOld: bool)

  /** `UploadImage`: empty, then size, then extension, then the signed-in
      user; on success the image is stored as the generated name plus the
      lower-cased extension, and the previous image is removed when it lives
      in the profiles folder. */
  function UploadImage(file: Option<UploadedFile>, user: Option<User>, generatedName: string): (r: UploadOutcome)
    ensures r == Rejected(NoFileSelected) <==> file.None? || file.value.length == 0
    ensures r == Rejected(FileTooLarge) <==> file.Some? && file.value.length != 0 && file.value.length > MaxBytes
    ensures r == Rejected(InvalidFileType) <==>
              && file.Some? && file.value.length != 0 && file.value.length <= MaxBytes
              && ToLower(GetExtension(file.value.fileName)) !in AllowedExtensions
    ensures r == Challenge <==>
              && file.Some? && file.value.length != 0 && file.value.length <= MaxBytes
              && ToLower(GetExtension(file.value.fileName)) in AllowedExtensions
              && user.None?
    ensures r.Stored? ==>
              var ext := ToLower(GetExtension(file.value.fileName));
              && r.user == user.value.(profileImagePath := Some(ProfilesPrefix + generatedName + ext))
              && GetExtension(generatedName + ext) == ext
              && (r.deleteOld <==>
                    !IsNullOrEmpty(user.value.profileImagePath) &&
                    StartsWith(user.value.profileImagePath.value, ProfilesPrefix))
  {
    if file.None? || file.value.length == 0 then Rejected(NoFileSelected)
    else if file.value.length > MaxBytes then Rejected(FileTooLarge)
    else
      var ext := ToLower(GetExtension(file.value.fileName));
      if ext !in AllowedExtensions then Rejected(InvalidFileType)
      else
        match user
        case None => Challenge
        case Some(u) =>
          AllowedAreExtensions(ext);
          ExtensionOfSuffix(generatedName, ext);
          var previous := u.profileImagePath;
          Stored(u.(profileImagePath := Some(ProfilesPrefix + generatedName + ext)),
                 !IsNullOrEmpty(previous) && StartsWith(previous.value, ProfilesPrefix))
  }

  /** The size bound is inclusive: exactly 2 MiB is accepted, one byte more
      is refused. */
  lemma SizeBoundInclusive(u: User, name: string)
    ensures UploadImage(Some(UploadedFile("a.png", MaxBytes)), Some(u), name).Stored?
    ensures UploadImage(Some(UploadedFile("a.png", MaxBytes + 1)), Some(u), name) == Rejected(FileTooLarge)
  {
    PngExtension();
  }

  lemma PngExtension()
    ensures ToLower(GetExtension("a.png")) == ".png"
  {
    APngExtension();
    PngLowered();
  }

  lemma APngExtension()
    ensures GetExtension("a.png") == ".png"
  {
    AllowedAreExtensions(".png");
    ExtensionOfSuffix("a", ".png");
    assert "a" + ".png" == "a.png";
  }

  lemma PngLowered()
    ensures ToLower(".png") == ".png"
  {
    var r := ToLower(".png");
    assert r[0] == '.' && r[1] == 'p' && r[2] == 'n' && r[3] == 'g';
  }

  /** The extension is compared lower-cased, so ".JPG" is accepted and
      stored as ".jpg". */
  lemma UpperCaseExtensionAccepted(u: User, name: string)
    ensures UploadImage(Some(UploadedFile("photo.JPG", 10)), Some(u), name).Stored?
    ensures UploadImage(Some(UploadedFile("photo.JPG", 10)), Some(u), name).user.profileImagePath
            == Some(ProfilesPrefix + name + ".jpg")
  {
    PhotoJpgExtension();
    assert ".jpg" in AllowedExtensions;
  }

  lemma PhotoJpgExtension()
    ensures ToLower(GetExtension("photo.JPG")) == ".jpg"
  {
    assert GetExtension("photo.JPG") == ".JPG" by {
      assert IsExtension(".JPG");
      ExtensionOfSuffix("photo", ".JPG");
      assert "photo" + ".JPG" == "photo.JPG";
    }
    JpgLowered();
  }

  lemma JpgLowered()
    ensures ToLower(".JPG") == ".jpg"
  {
    var r := ToLower(".JPG");
    assert r[0] == '.' && r[1] == 'j' && r[2] == 'p' && r[3] == 'g';
  }

  /** A file without an extension is refused even when small. */
  lemma NoExtensionRefused(u: User, name: string)
    ensures UploadImage(Some(UploadedFile("photo", 10)), Some(u), name) == Rejected(InvalidFileType)
  {
    assert '.' !in "photo";
    assert ToLower("") == "";
  }

  // ---------------------------------------------------------------------
  // EditProfile

  /** The display name `EditProfile` keeps: the requested one, unless it is
      blank, in which case the text of the email before its first '.'. */
  function DisplayNameAfterEdit(requested: Option<string>, email: string): (name: string)
    ensures !IsNullOrWhiteSpace(requested) ==> name == requested.value
    ensures IsNullOrWhiteSpace(requested) ==>
              StartsWith(email, name) && '.' !in name && (|name| == |email| || email[|name|] == '.')
  {
    if IsNullOrWhiteSpace(requested) then
      SplitHead(email, '.');
      Split(email, '.')[0]
    else requested.value
  }

  datatype ProfileError = Challenged | PasswordsDoNotMatch | PasswordUpdateFailed

  /** `EditProfile` (POST) for a valid form. A non-empty new password must
      equal its confirmation before anything is written; `resetSucceeds` is
      the identity layer's answer to the password reset. The result is the
      user record as saved. */
  function EditProfile(user: Option<User>, displayName: Option<string>, newPassword: Option<string>,
                       confirmPassword: Option<string>, resetSucceeds: bool): (r: Result<User, ProfileError>)
    ensures r == Failure(Challenged) <==> user.None?
    ensures r == Failure(PasswordsDoNotMatch) <==>
              user.Some? && !IsNullOrEmpty(newPassword) && newPassword != confirmPassword
    ensures r == Failure(PasswordUpdateFailed) <==>
              user.Some? && !IsNullOrEmpty(newPassword) && newPassword == confirmPassword && !resetSucceeds
    ensures r.Success? ==>
              && (IsNullOrEmpty(newPassword) || resetSucceeds)
              && r.value.id == user.value.id && r.value.email == user.value.email
              && r.value.university == user.value.university
              && r.value.profileImagePath == user.value.profileImagePath
              && r.value.displayName == Some(DisplayNameAfterEdit(displayName, user.value.email))
  {
    match user
    case None => Failure(Challenged)
    case Some(u) =>
      var u' := u.(displayName := Some(DisplayNameAfterEdit(displayName, u.email)));
      if !IsNullOrEmpty(newPassword) && newPassword != confirmPassword then Failure(PasswordsDoNotMatch)
      else if !IsNullOrEmpty(newPassword) && !resetSucceeds then Failure(PasswordUpdateFailed)
      else Success(u')
  }

  /** A whitespace-only name falls back to the email's first dot-separated
      piece. */
  lemma BlankNameFallsBack(u: User)
    requires u.email == "sara.ali@ksu.edu.sa"
    ensures EditProfile(Some(u), Some("  "), None, None, true).Success?
    ensures EditProfile(Some(u), Some("  "), None, None, true).value.displayName == Some("sara")
  {
    var e := u.email;
    assert e[..4] == "sara" && e[4] == '.';
    var i := IndexOf(e, '.');
    assert i == 4;
    assert Split(e, '.')[0] == e[..4];
    assert IsNullOrWhiteSpace(Some("  "));
  }
}
