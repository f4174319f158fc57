/** upload_file_to_oss of app.py: the same object key as src/utils/oss.py,
    but the extension is taken with `os.path.splitext` and looked up with its
    leading dot. */
module AppUpload {
  import opened Common
  import Helpers
  import Oss

  /** `os.path.splitext(file.name)[-1].lower()`. */
  function Extension(name: string): (r: string)
    ensures r == [] || r[0] == '.'
  {
    Lower(Helpers.SplitExt(name).1)
  }

  const ContentTypes: map<string, string> := map[
    ".pdf" := "application/pdf",
    ".jpg" := "image/jpeg",
    ".jpeg" := "image/jpeg",
    ".png" := "image/png",
    ".mp4" := "video/mp4"
  ]

  function ContentType(name: string): (r: string)
    ensures Extension(name) in ContentTypes ==> r == ContentTypes[Extension(name)]
    ensures Extension(name) !in ContentTypes ==> r == Oss.OctetStream
  {
    var ext := Extension(name);
    if ext in ContentTypes then ContentTypes[ext] else Oss.OctetStream
  }

  /** upload_file_to_oss of app.py: same key, URL and bucket update as the
      module version, with this module's content type. */
  function UploadFileToOss(bucket: Oss.Bucket, file: Oss.UploadedFile, category: string, timestamp: nat,
                           endpoint: string, put: (string, seq<bv8>, string) -> bool)
    : (r: (Option<string>, Oss.Bucket))
    ensures r.0.Some? <==> put(Oss.UploadKey(category, timestamp, file.name), file.data, ContentType(file.name))
    ensures r.0.Some? ==> r.0.value == endpoint + "/" + Oss.UploadKey(category, timestamp, file.name)
    ensures r.0.Some? ==> r.1 == bucket[Oss.UploadKey(category, timestamp, file.name) := file.data]
    ensures r.0.None? ==> r.1 == bucket
  {
    var key := Oss.UploadKey(category, timestamp, file.name);
    if put(key, file.data, ContentType(file.name)) then (Some(endpoint + "/" + key), bucket[key := file.data])
    else (None, bucket)
  }

  /** The dotted keys of app.py are the keys of src/utils/oss.py with a dot in front. */
  lemma DottedKeys(low: string)
    ensures "." + low in ContentTypes <==> low in Oss.ContentTypes
    ensures low in Oss.ContentTypes ==> ContentTypes["." + low] == Oss.ContentTypes[low]
  {
    if "." + low in ContentTypes {
      assert low == ("." + low)[1..];
    }
    if low in Oss.ContentTypes {
      assert low == "pdf" || low == "jpg" || low == "jpeg" || low == "png" || low == "mp4";
      if low == "pdf" { assert "." + low == ".pdf"; }
      else if low == "jpg" { assert "." + low == ".jpg"; }
      else if low == "jpeg" { assert "." + low == ".jpeg"; }
      else if low == "png" { assert "." + low == ".png"; }
      else { assert "." + low == ".mp4"; }
    }
  }

  /** Whenever splitext finds an extension, both rules pick the same content type. */
  lemma ContentTypesAgreeWithExtension(name: string)
    requires Helpers.SplitExt(name).1 != []
    ensures ContentType(name) == Oss.ContentType(name)
  {
    var (root, ext) := Helpers.SplitExt(name);
    var tail := ext[1..];
    assert ext == "." + tail;
    assert name == root + "." + tail;
    Oss.ExtensionAfterLastDot(root, tail);
    LowerAppend(".", tail);
    assert Lower(".") == ".";
    DottedKeys(Lower(tail));
  }

  /** Names without a proper extension part ways: a bare "pdf" has no splitext
      extension, so app.py sends it as application/octet-stream while
      src/utils/oss.py recognises it. */
  lemma BareNameDiverges()
    ensures ContentType("pdf") == Oss.OctetStream && Oss.ContentType("pdf") == "application/pdf"
  {
    assert "pdf"[0] != '.' && "pdf"[1] != '.' && "pdf"[2] != '.';
    assert Helpers.SplitExt("pdf").1 == [];
    assert Extension("pdf") == [];
    assert Lower("pdf") == "pdf";
  }

  /** The same holds for a dot-file such as ".png", whose only dot leads the name. */
  lemma DotFileDiverges()
    ensures ContentType(".png") == Oss.OctetStream && Oss.ContentType(".png") == "image/png"
  {
    assert ".png"[1] != '.' && ".png"[2] != '.' && ".png"[3] != '.';
    assert Helpers.SplitExt(".png").1 == [];
    assert Extension(".png") == [];
    Oss.ExtensionAfterLastDot("", "png");
    assert "" + "." + "png" == ".png";
    assert Lower("png") == "png";
  }
}
