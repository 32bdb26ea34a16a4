/** The upload server's documented request sequences, replayed against the
    model: what a client can conclude from the contracts alone. */
module Scenarios {
  import opened Uploads
  import opened Timestamp
  import opened DecimalText
  import opened Sanitize

  /** Upload a JPEG under a client name of safe characters only (such as
      `photo.jpg`) into an empty directory: it is stored as
      `<stamp>_<that name>` and fetched back unchanged. Then fetch a name
      that no upload can have produced (such as `does-not-exist.png`: stored
      names start with a digit of the year) and get 404. */
  method PhotoRoundTrip(now: DateTime, seconds: nat, photo: string, other: string)
    requires photo != [] && AllSafe(photo)
    requires other != [] && '/' !in other && !IsDigit(other[0])
  {
    var dir := new UploadDirectory("uploads", map[]);
    var jpeg: seq<Byte> := [0xFF, 0xD8, 0xFF, 0xE0];
    assert IsImageType(Some("image/jpeg"));

    SavedNameKeepsSafeName(now, photo, seconds);

    var r := dir.UploadImage(Some("image/jpeg"), Some(photo), jpeg, now, seconds, NoFault);
    assert r.Ok? && r.value.filename == Stamp(now) + "_" + photo;
    assert r.value.sizeBytes == 4 && r.value.contentType == "image/jpeg";
    assert dir.GetFile(r.value.filename) == Ok(jpeg);

    var missing := dir.GetFile(other);
    assert missing == Err(NotFound) && Status(missing.error) == 404;
  }

  /** A `text/plain` upload is answered with 400 and writes nothing. */
  method TextRejected(dir: UploadDirectory, now: DateTime, seconds: nat)
    requires dir.Valid()
    modifies dir
  {
    var before := dir.entries;
    assert !IsImageType(Some("text/plain")) by {
      assert "text/plain"[0] != "image/"[0];
    }
    var r := dir.UploadImage(Some("text/plain"), Some("notes.txt"), [0x68, 0x69], now, seconds, NoFault);
    assert r == Err(InvalidInput) && Status(r.error) == 400;
    assert dir.entries == before;
  }
}
