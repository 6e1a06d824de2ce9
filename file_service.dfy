/**
  Image upload to local storage: the extension of the original name decides
  whether the file is accepted, and it is stored under a fresh name.
*/
module FileService {
  import opened Results
  import opened Text

  /** The extension of a file name: the suffix from its last '.', dot included; a name without '.' makes substring(-1) fail. */
  function Extension(name: string): (r: Result<string>)
    ensures r.Err? <==> forall i :: 0 <= i < |name| ==> name[i] != '.'
    ensures r.Err? ==> r.error == IndexOutOfBounds
    ensures r.Ok? ==>
      var ext := r.value;
      && 1 <= |ext| <= |name| && ext[0] == '.'
      && name == name[..|name| - |ext|] + ext
      && forall i :: 1 <= i < |ext| ==> ext[i] != '.'
  {
    var dot := LastIndexOf(name, '.');
    if dot < 0 then Err(IndexOutOfBounds) else Ok(name[dot..])
  }

  /** The whitelist: .png, .jpg or .jpeg in any letter case. */
  predicate IsAllowedExtension(ext: string) {
    EqualsIgnoreCase(ext, ".png") || EqualsIgnoreCase(ext, ".jpg") || EqualsIgnoreCase(ext, ".jpeg")
  }

  /** The whitelist accepts exactly the extensions whose lower-case form is one of the three image types. */
  lemma AllowedExtensionsAreImageTypes(ext: string)
    ensures IsAllowedExtension(ext) <==> Lower(ext) in {".png", ".jpg", ".jpeg"}
  {
    EqualsIgnoreCaseIffLowerEqual(ext, ".png");
    EqualsIgnoreCaseIffLowerEqual(ext, ".jpg");
    EqualsIgnoreCaseIffLowerEqual(ext, ".jpeg");
    assert Lower(".png") == ".png";
    assert Lower(".jpg") == ".jpg";
    assert Lower(".jpeg") == ".jpeg";
  }

  /** A stored name, a UUID followed by the original extension, has that same extension. */
  lemma {:induction false} StoredNameKeepsExtension(originalName: string, uuid: string)
    requires Extension(originalName).Ok?
    ensures Extension(uuid + Extension(originalName).value) == Extension(originalName)
  {
    var ext := Extension(originalName).value;
    var stored := uuid + ext;
    assert stored[|uuid|] == '.';
    var dot := LastIndexOf(stored, '.');
    assert stored[dot..] == ext;
  }

  /** The local file system as far as uploads see it: existing folders and file paths. */
  class Disk {
    var folders: set<string>
    var files: set<string>

    constructor (folders: set<string>, files: set<string>)
      ensures this.folders == folders && this.files == files
    {
      this.folders := folders;
      this.files := files;
    }
  }

  /**
    uploadImage. uuid stands for the random UUID. The file is written at path
    and the stored name concatenated as they are; the bare stored name is
    returned.
  */
  method UploadImage(disk: Disk, originalName: string, path: string, uuid: string) returns (r: Result<string>)
    modifies disk
    ensures Extension(originalName).Err? ==> r == Err(IndexOutOfBounds) && unchanged(disk)
    ensures Extension(originalName).Ok? && !IsAllowedExtension(Extension(originalName).value) ==>
      r == Err(BadApiRequest) && unchanged(disk)
    ensures Extension(originalName).Ok? && IsAllowedExtension(Extension(originalName).value) ==>
      var name := uuid + Extension(originalName).value;
      && disk.folders == old(disk.folders) + {path}
      && (path + name in old(disk.files) ==> r == Err(FileAlreadyExists) && disk.files == old(disk.files))
      && (path + name !in old(disk.files) ==> r == Ok(name) && disk.files == old(disk.files) + {path + name})
  {
    var ext := Extension(originalName);
    if ext.Err? {
      return Err(ext.error);
    }
    var fileExtension := ext.value;
    var fileWithoutPath := uuid + fileExtension;
    var fullPathWithFileName := path + fileWithoutPath;
    if IsAllowedExtension(fileExtension) {
      if path !in disk.folders {
        disk.folders := disk.folders + {path};
      }
      if fullPathWithFileName in disk.files {
        return Err(FileAlreadyExists);
      }
      disk.files := disk.files + {fullPathWithFileName};
      r := Ok(fileWithoutPath);
    } else {
      r := Err(BadApiRequest);
    }
  }
}
