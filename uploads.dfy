/** The upload directory and the three endpoints over it (main.py:30-67):
    listing the stored files, fetching one, and storing an image under a
    time-stamped, sanitised name. */
module Uploads {
  import opened Ordering
  import opened Sanitize
  import opened Timestamp
  import opened DecimalText

  newtype Byte = b: int | 0 <= b < 256

  datatype Option<T> = None | Some(value: T)

  /** What `os.path.isfile` sees under a name: a regular file with its bytes,
      or a sub-directory. */
  datatype Entry = File(contents: seq<Byte>) | Directory

  /** Why a write did not complete: opening a sub-directory for writing, or
      any other OS error, carrying the text its exception renders to. */
  datatype Cause = IsADirectory(path: string) | OsError(message: string)

  /** The HTTP errors the endpoints raise. */
  datatype Error = InvalidInput | NotFound | StorageError(cause: Cause)

  datatype Result<T> = Ok(value: T) | Err(error: Error)

  /** The JSON body of a successful upload. */
  datatype Response = Response(filename: string, message: string, path: string, sizeBytes: nat, contentType: string)

  /** What the filesystem does when the upload is read and written. A read
      failure happens before the file is opened; a write failure happens
      after `open(..., "wb")` has created or truncated the file and `written`
      bytes have reached it. */
  datatype Fault = NoFault | ReadFails(reason: string) | OpenFails(reason: string) | WriteFails(written: nat, reason: string)

  function Status(e: Error): (code: int)
    ensures code in {400, 404, 500}
    ensures code == 400 <==> e.InvalidInput?
    ensures code == 404 <==> e.NotFound?
  {
    match e
    case InvalidInput => 400
    case NotFound => 404
    case StorageError(_) => 500
  }

  /** The `detail` string of each error response; only a storage failure
      reports "save failed". */
  function Detail(e: Error): (d: string)
    ensures e.StorageError? <==> "save failed: " <= d
  {
    match e
    case InvalidInput =>
      var d := "only image files are allowed";
      assert d[0] != "save failed: "[0];
      d
    case NotFound =>
      var d := "file not found";
      assert d[0] != "save failed: "[0];
      d
    case StorageError(cause) =>
      var d := "save failed: " + Message(cause);
      assert d[..13] == "save failed: ";
      d
  }

  /** `str(e)` for the exception behind a storage failure. */
  function Message(cause: Cause): string
  {
    match cause
    case IsADirectory(path) => "[Errno 21] Is a directory: '" + path + "'"
    case OsError(message) => message
  }

  /** `os.path.join(root, name)` on POSIX: an entry name joined to the
      directory is the path whose last component is that name. */
  function Join(root: string, name: string): (p: string)
    ensures IsEntryName(name) ==>
      && root <= p && Basename(p) == name
      && |p| == |root| + |name| + (if root == [] || root[|root| - 1] == '/' then 0 else 1)
  {
    if name != [] && name[0] == '/' then name
    else
      var dir := if root == [] || root[|root| - 1] == '/' then root else root + "/";
      assert IsEntryName(name) ==> Basename(dir + name) == name by {
        if IsEntryName(name) {
          BasenameAfterSeparator(dir, name);
        }
      }
      dir + name
  }

  /** `file.content_type and file.content_type.startswith("image/")`. */
  predicate IsImageType(contentType: Option<string>)
  {
    contentType.Some? && contentType.value != "" && "image/" <= contentType.value
  }

  /** The accepted content types are exactly `image/` followed by anything
      (an empty subtype included); a missing one is refused. */
  lemma ImageTypes(contentType: Option<string>)
    ensures IsImageType(contentType) <==> exists subtype :: contentType == Some("image/" + subtype)
  {
    if IsImageType(contentType) {
      var subtype := contentType.value[6..];
      assert contentType.value == "image/" + subtype;
    }
  }

  /** A directory entry name: what `os.listdir` can return. */
  predicate IsEntryName(n: string)
  {
    n != "" && n != "." && n != ".." && '/' !in n && '\0' !in n
  }

  const DEFAULT_NAME: string := "image"

  /** `file.filename or "image"`. */
  function ClientName(filename: Option<string>): string
  {
    if filename.None? || filename.value == "" then DEFAULT_NAME else filename.value
  }

  /** `f"{timestamp}_{sanitize_filename(file.filename or 'image')}"`. */
  function SavedName(now: DateTime, filename: Option<string>, seconds: nat): (name: string)
    ensures IsEntryName(name) && IsDigit(name[0])
  {
    var stamp, base := Stamp(now), SanitizeFilename(ClientName(filename), seconds);
    var name := stamp + "_" + base;
    assert name[0] == stamp[0];
    assert forall i :: 0 <= i < |name| ==> name[i] != '/' && name[i] != '\0' by {
      StampCharacters(now);
      forall i | 0 <= i < |name|
        ensures name[i] != '/' && name[i] != '\0'
      {
        if i < |stamp| {
          assert name[i] == stamp[i];
        } else if i > |stamp| {
          assert name[i] == base[i - |stamp| - 1];
        }
      }
    }
    name
  }

  /** The stored name is the 15-character stamp, `_`, and the sanitised
      client name (`image` when the client gave none); it is itself a fixed
      point of sanitising. */
  lemma SavedNameShape(now: DateTime, filename: Option<string>, seconds: nat, later: nat)
    requires IsValid(now)
    ensures var name := SavedName(now, filename, seconds);
      && |name| > 16 && name[..15] == Stamp(now) && name[15] == '_'
      && name[16..] == SanitizeFilename(ClientName(filename), seconds)
      && SanitizeFilename(name, later) == name
  {
    var base := SanitizeFilename(ClientName(filename), seconds);
    var name := SavedName(now, filename, seconds);
    StampShape(now);
    assert name == Stamp(now) + "_" + base;
    assert AllSafe(name) by {
      forall i | 0 <= i < |name|
        ensures IsSafe(name[i])
      {
        if i < 15 {
          assert name[i] == Stamp(now)[i];
        } else if i > 15 {
          assert name[i] == base[i - 16];
        }
      }
    }
    SanitizeFixedPoints(name, later);
  }

  /** A name given without a file name is stored as `<stamp>_image`. */
  lemma SavedNameDefault(now: DateTime, seconds: nat)
    ensures SavedName(now, None, seconds) == Stamp(now) + "_image"
    ensures SavedName(now, Some(""), seconds) == Stamp(now) + "_image"
  {
    assert AllSafe("image");
    SanitizeFixedPoints("image", seconds);
  }

  /** A client name that is already made of safe characters is stored
      verbatim after the stamp. */
  lemma SavedNameKeepsSafeName(now: DateTime, filename: string, seconds: nat)
    requires filename != [] && AllSafe(filename)
    ensures SavedName(now, Some(filename), seconds) == Stamp(now) + "_" + filename
  {
    SanitizeFixedPoints(filename, seconds);
  }

  /** Names stored at an earlier local wall-clock time list first, whatever
      the client names were. */
  lemma SavedNameChronological(s: DateTime, t: DateTime, f1: Option<string>, f2: Option<string>, sec1: nat, sec2: nat)
    requires IsValid(s) && IsValid(t) && Before(s, t)
    ensures LexLess(SavedName(s, f1, sec1), SavedName(t, f2, sec2))
  {
    var stamp1, stamp2 := Stamp(s), Stamp(t);
    assert |stamp1| == |stamp2| && LexLess(stamp1, stamp2) by {
      StampLength(s);
      StampLength(t);
      StampOrder(s, t);
    }
    LexLessConcat(stamp1, "_", stamp2, "_");
    LexLessConcat(stamp1 + "_", SanitizeFilename(ClientName(f1), sec1),
                  stamp2 + "_", SanitizeFilename(ClientName(f2), sec2));
  }

  /** The upload directory `UPLOAD_DIR`, as a map from entry names to entries. */
  class UploadDirectory {
    const root: string
    var entries: map<string, Entry>

    ghost predicate Valid()
      reads this
    {
      forall n :: n in entries ==> IsEntryName(n)
    }

    constructor (root: string, initial: map<string, Entry>)
      requires forall n :: n in initial ==> IsEntryName(n)
      ensures Valid() && this.root == root && entries == initial
    {
      this.root := root;
      entries := initial;
    }

    /** The names of the regular files in the directory. */
    function RegularFiles(): (names: set<string>)
      reads this
      ensures names <= entries.Keys
    {
      set n | n in entries && entries[n].File?
    }

    /** `list_uploads`: the names of the regular files, in ascending order. */
    function ListUploads(): (names: seq<string>)
      reads this
      ensures StrictlySorted(names)
      ensures forall n :: n in names <==> n in entries && entries[n].File?
    {
      SortedNames(RegularFiles())
    }

    /** `get_file`: the file's bytes, or 404 when the name is not a regular
        file. The route passes a single path segment, so `name` has no `/`. */
    function GetFile(name: string): (r: Result<seq<Byte>>)
      reads this
      requires '/' !in name
      ensures r.Ok? <==> name in ListUploads()
      ensures r.Ok? ==> entries[name] == File(r.value)
      ensures r.Err? ==> r.error == NotFound
    {
      if name in entries && entries[name].File? then Ok(entries[name].contents) else Err(NotFound)
    }

    /** `upload_image`: reject a non-image content type, otherwise write the
        bytes under `<stamp>_<sanitised name>`, replacing any file of that name. */
    method UploadImage(contentType: Option<string>, filename: Option<string>, contents: seq<Byte>,
                       now: DateTime, seconds: nat, fault: Fault) returns (r: Result<Response>)
      requires Valid()
      modifies this
      ensures Valid()
      ensures !IsImageType(contentType) ==> r == Err(InvalidInput) && entries == old(entries)
      ensures IsImageType(contentType) ==>
        var name := SavedName(now, filename, seconds);
        var isDirectory := name in old(entries) && old(entries)[name].Directory?;
        && (fault.ReadFails? ==> r == Err(StorageError(OsError(fault.reason))) && entries == old(entries))
        && (!fault.ReadFails? && isDirectory ==>
              r == Err(StorageError(IsADirectory(Join(root, name)))) && entries == old(entries))
        && (!fault.ReadFails? && !isDirectory && fault.OpenFails? ==>
              r == Err(StorageError(OsError(fault.reason))) && entries == old(entries))
        && (!isDirectory && fault.WriteFails? ==>
              r == Err(StorageError(OsError(fault.reason)))
              && entries == old(entries)[name := File(contents[..if fault.written < |contents| then fault.written else |contents|])])
        && (!isDirectory && fault.NoFault? ==>
              r == Ok(Response(name, "upload ok", "uploads/" + name, |contents|, contentType.value))
              && entries == old(entries)[name := File(contents)])
      ensures r.Ok? ==> GetFile(r.value.filename) == Ok(contents) && r.value.filename in ListUploads()
      ensures r.Ok? ==> ListUploads() == SortedNames(old(RegularFiles()) + {r.value.filename})
      ensures r.Ok? ==> forall n :: '/' !in n && n != r.value.filename ==> GetFile(n) == old(GetFile(n))
    {
      if !IsImageType(contentType) {
        return Err(InvalidInput);
      }
      var name := SavedName(now, filename, seconds);
      if fault.ReadFails? {
        return Err(StorageError(OsError(fault.reason)));
      }
      if name in entries && entries[name].Directory? {
        return Err(StorageError(IsADirectory(Join(root, name))));
      }
      if fault.OpenFails? {
        return Err(StorageError(OsError(fault.reason)));
      }
      if fault.WriteFails? {
        var written := if fault.written < |contents| then fault.written else |contents|;
        entries := entries[name := File(contents[..written])];
        return Err(StorageError(OsError(fault.reason)));
      }
      entries := entries[name := File(contents)];
      r := Ok(Response(name, "upload ok", "uploads/" + name, |contents|, contentType.value));
      assert RegularFiles() == old(RegularFiles()) + {name};
      assert ListUploads() == SortedNames(old(RegularFiles()) + {name});
      forall n | '/' !in n && n != name
        ensures GetFile(n) == old(GetFile(n))
      {
        assert (n in entries) == (n in old(entries));
        assert n in entries ==> entries[n] == old(entries)[n];
      }
    }
  }
}
