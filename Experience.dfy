/** The file listing and the user upload of src/modules/experience.py. The
    bucket listing `bucket.list_objects(prefix=prefix).object_list` is an input
    (`None` when it raises), and each upload goes through Oss.UploadFileToOss,
    which updates the bucket when the storage collaborator `put` accepts. */
module Experience {
  import opened Common
  import Oss

  datatype Kind = Pdf | Image

  /** One entry of `file_list`: display name, raw name, public URL, type. */
  datatype FileItem = FileItem(display: string, rawName: string, url: string, kind: Kind)

  /** What a tab of display_files shows: the error of a failed listing, the
      "no materials" warning, or the grid of items. */
  datatype Listing = Failed | NoMaterials | Items(items: seq<FileItem>)

  // ---------------------------------------------------------------------------
  // Display names

  /** `"_".join(raw_name.split("_")[1:])`. */
  function DisplayName(raw: string): (r: string)
    ensures '_' !in raw ==> r == ""
  {
    if '_' !in raw then
      SplitWithoutSeparator(raw, '_');
      Join(Split(raw, '_')[1..], '_')
    else Join(Split(raw, '_')[1..], '_')
  }

  /** Everything up to and including the first "_" is dropped; the rest is kept
      verbatim, later underscores included. */
  lemma DisplayNameAfterFirstUnderscore(head: string, tail: string)
    requires '_' !in head
    ensures DisplayName(head + "_" + tail) == tail
  {
    SplitAfterFirst(head, '_', tail);
    assert Split(head + "_" + tail, '_')[1..] == Split(tail, '_');
    JoinSplit(tail, '_');
  }

  function ItemOf(key: string, endpoint: string): (r: FileItem)
    ensures r.kind == Pdf <==> EndsWith(Lower(key), ".pdf")
    ensures r.url == endpoint + "/" + key
    ensures '/' !in r.rawName
  {
    var raw := LastPiece(key, '/');
    SplitPiecesAvoidSeparator(key, '/');
    FileItem(DisplayName(raw), raw, endpoint + "/" + key,
             if EndsWith(Lower(key), ".pdf") then Pdf else Image)
  }

  /** A file uploaded as `name` under any category is listed under `name`. */
  lemma {:induction false} UploadedFileDisplaysItsName(category: string, timestamp: nat, name: string, endpoint: string)
    requires '/' !in name
    ensures ItemOf(Oss.UploadKey(category, timestamp, name), endpoint).display == name
    ensures ItemOf(Oss.UploadKey(category, timestamp, name), endpoint).rawName == NatToString(timestamp) + "_" + name
  {
    var stamp := NatToString(timestamp);
    var raw := stamp + "_" + name;
    assert '/' !in raw by {
      forall j | 0 <= j < |raw| ensures raw[j] != '/' {
        if j < |stamp| { assert IsDigit(stamp[j]); }
        else if j > |stamp| { assert raw[j] == name[j - |stamp| - 1]; }
      }
    }
    assert Oss.UploadKey(category, timestamp, name) == category + "/" + raw;
    LastPieceAfterSeparator(category, '/', raw);
    assert '_' !in stamp by {
      forall j | 0 <= j < |stamp| ensures stamp[j] != '_' {
        assert IsDigit(stamp[j]);
      }
    }
    DisplayNameAfterFirstUnderscore(stamp, name);
  }

  // ---------------------------------------------------------------------------
  // The listing

  /** The `file_list` that the loop of display_files builds from the keys. */
  function FileItems(keys: seq<string>, endpoint: string): (r: seq<FileItem>)
    ensures forall it :: it in r ==> exists k :: k in keys && !EndsWith(k, "/") && it == ItemOf(k, endpoint)
    ensures forall k :: k in keys && !EndsWith(k, "/") ==> ItemOf(k, endpoint) in r
    ensures |r| <= |keys|
  {
    if keys == [] then []
    else
      var front := keys[..|keys| - 1];
      var key := keys[|keys| - 1];
      assert keys == front + [key];
      var rest := FileItems(front, endpoint);
      if EndsWith(key, "/") then rest else rest + [ItemOf(key, endpoint)]
  }

  /** Folder markers are the only keys that produce no item. */
  lemma NoItemsIffOnlyFolders(keys: seq<string>, endpoint: string)
    ensures FileItems(keys, endpoint) == [] <==> forall k :: k in keys ==> EndsWith(k, "/")
  {
    if exists k :: k in keys && !EndsWith(k, "/") {
      var k :| k in keys && !EndsWith(k, "/");
      assert ItemOf(k, endpoint) in FileItems(keys, endpoint);
    }
  }

  /** display_files: the same list as the loop builds, or a warning when it is empty. */
  method DisplayFiles(objects: Option<seq<string>>, endpoint: string) returns (r: Listing)
    ensures objects.None? <==> r == Failed
    ensures objects.Some? ==> (r == NoMaterials <==> forall k :: k in objects.value ==> EndsWith(k, "/"))
    ensures r.Items? ==> objects.Some? && r.items == FileItems(objects.value, endpoint) && r.items != []
  {
    if objects.None? {
      return Failed;
    }
    var keys := objects.value;
    if keys == [] {
      return NoMaterials;
    }
    var fileList: seq<FileItem> := [];
    for i := 0 to |keys|
      invariant fileList == FileItems(keys[..i], endpoint)
    {
      assert keys[..i + 1] == keys[..i] + [keys[i]];
      assert keys[..i + 1][..i] == keys[..i];
      if !EndsWith(keys[i], "/") {
        fileList := fileList + [ItemOf(keys[i], endpoint)];
      }
    }
    assert keys[..|keys|] == keys;
    NoItemsIffOnlyFolders(keys, endpoint);
    if fileList == [] {
      return NoMaterials;
    }
    return Items(fileList);
  }

  // ---------------------------------------------------------------------------
  // The upload

  datatype UploadOutcome = NoFiles | Uploaded(successCount: nat, total: nat)

  /** `"学习笔记" if upload_type == "学习笔记" else "错题集"`. */
  function TargetFolder(uploadType: string): (r: string)
    ensures r == "学习笔记" <==> uploadType == "学习笔记"
    ensures r == "学习笔记" || r == "错题集"
  {
    if uploadType == "学习笔记" then "学习笔记" else "错题集"
  }

  /** Whether each upload returned a URL. */
  function Outcomes(files: seq<Oss.UploadedFile>, folder: string, stamps: seq<nat>, endpoint: string,
                    put: (string, seq<bv8>, string) -> bool): (r: seq<bool>)
    requires |stamps| == |files|
    ensures |r| == |files|
  {
    seq(|files|, i requires 0 <= i < |files| => Oss.PutAccepts(files[i], folder, stamps[i], put))
  }

  /** The bucket after the files have been uploaded one after the other. */
  function Stored(bucket: Oss.Bucket, files: seq<Oss.UploadedFile>, folder: string, stamps: seq<nat>,
                  endpoint: string, put: (string, seq<bv8>, string) -> bool): Oss.Bucket
    requires |stamps| == |files|
    decreases |files|
  {
    if files == [] then bucket
    else
      var n := |files| - 1;
      var before := Stored(bucket, files[..n], folder, stamps[..n], endpoint, put);
      Oss.UploadFileToOss(before, files[n], folder, stamps[n], endpoint, put).1
  }

  /** Uploading file `i` after the first `i`: the bucket is the one that
      upload leaves, and the count grows by one exactly when it returns a URL. */
  lemma UploadStep(bucket: Oss.Bucket, files: seq<Oss.UploadedFile>, folder: string, stamps: seq<nat>,
                   endpoint: string, put: (string, seq<bv8>, string) -> bool, i: nat)
    requires |stamps| == |files| && i < |files|
    ensures var upload := Oss.UploadFileToOss(Stored(bucket, files[..i], folder, stamps[..i], endpoint, put),
                                              files[i], folder, stamps[i], endpoint, put);
      && Stored(bucket, files[..i + 1], folder, stamps[..i + 1], endpoint, put) == upload.1
      && CountTrue(Outcomes(files, folder, stamps, endpoint, put)[..i + 1])
         == CountTrue(Outcomes(files, folder, stamps, endpoint, put)[..i]) + (if upload.0.Some? then 1 else 0)
  {
    var outcomes := Outcomes(files, folder, stamps, endpoint, put);
    assert files[..i + 1][..i] == files[..i] && stamps[..i + 1][..i] == stamps[..i];
    assert outcomes[..i + 1][..i] == outcomes[..i];
  }

  /** A key that none of the files is uploaded under reads as it did before. */
  lemma {:induction false} StoredUntouched(bucket: Oss.Bucket, files: seq<Oss.UploadedFile>, folder: string,
                                           stamps: seq<nat>, endpoint: string,
                                           put: (string, seq<bv8>, string) -> bool, k: string)
    requires |stamps| == |files|
    requires forall i :: 0 <= i < |files| ==> Oss.UploadKey(folder, stamps[i], files[i].name) != k
    ensures Oss.GetCachedOssObject(Stored(bucket, files, folder, stamps, endpoint, put), k)
         == Oss.GetCachedOssObject(bucket, k)
  {
    if files != [] {
      var n := |files| - 1;
      var before := Stored(bucket, files[..n], folder, stamps[..n], endpoint, put);
      assert forall i :: 0 <= i < n ==> files[..n][i] == files[i] && stamps[..n][i] == stamps[i];
      StoredUntouched(bucket, files[..n], folder, stamps[..n], endpoint, put, k);
      Oss.UploadThenGet(before, files[n], folder, stamps[n], endpoint, put);
    }
  }

  /** A file whose upload succeeded can be read back under its key, unless a
      later successful upload wrote the same key. */
  lemma {:induction false} StoredReadBack(bucket: Oss.Bucket, files: seq<Oss.UploadedFile>, folder: string,
                                          stamps: seq<nat>, endpoint: string,
                                          put: (string, seq<bv8>, string) -> bool, i: nat)
    requires |stamps| == |files| && i < |files|
    requires Oss.PutAccepts(files[i], folder, stamps[i], put)
    requires forall j :: i < j < |files| && Oss.PutAccepts(files[j], folder, stamps[j], put) ==>
      Oss.UploadKey(folder, stamps[j], files[j].name) != Oss.UploadKey(folder, stamps[i], files[i].name)
    ensures Oss.GetCachedOssObject(Stored(bucket, files, folder, stamps, endpoint, put),
                                   Oss.UploadKey(folder, stamps[i], files[i].name)) == Some(files[i].data)
  {
    var n := |files| - 1;
    var before := Stored(bucket, files[..n], folder, stamps[..n], endpoint, put);
    Oss.UploadThenGet(before, files[n], folder, stamps[n], endpoint, put);
    if i < n {
      assert files[..n][i] == files[i] && stamps[..n][i] == stamps[i];
      forall j | i < j < n && Oss.PutAccepts(files[..n][j], folder, stamps[..n][j], put)
        ensures Oss.UploadKey(folder, stamps[..n][j], files[..n][j].name) != Oss.UploadKey(folder, stamps[i], files[i].name)
      {
        assert files[..n][j] == files[j] && stamps[..n][j] == stamps[j];
      }
      StoredReadBack(bucket, files[..n], folder, stamps[..n], endpoint, put, i);
    }
  }

  function CountTrue(bs: seq<bool>): nat {
    if bs == [] then 0 else CountTrue(bs[..|bs| - 1]) + (if bs[|bs| - 1] then 1 else 0)
  }

  lemma {:induction false} CountTrueBounds(bs: seq<bool>)
    ensures CountTrue(bs) <= |bs|
    ensures CountTrue(bs) == 0 <==> forall i :: 0 <= i < |bs| ==> !bs[i]
    ensures CountTrue(bs) == |bs| <==> forall i :: 0 <= i < |bs| ==> bs[i]
  {
    if bs != [] {
      var front := bs[..|bs| - 1];
      CountTrueBounds(front);
      assert forall i :: 0 <= i < |front| ==> front[i] == bs[i];
    }
  }

  /** The success message of the upload button appears only when some file went up. */
  predicate ShowsSuccess(r: UploadOutcome) {
    r.Uploaded? && r.successCount > 0
  }

  /** The upload button: `success_count` counts the files whose upload returned
      a URL; `stamps[i]` is the clock reading when file `i` is uploaded. */
  method UploadFiles(bucket: Oss.Bucket, files: seq<Oss.UploadedFile>, uploadType: string, stamps: seq<nat>,
                     endpoint: string, put: (string, seq<bv8>, string) -> bool)
    returns (r: UploadOutcome, after: Oss.Bucket)
    requires |stamps| == |files|
    ensures files == [] <==> r == NoFiles
    ensures r.Uploaded? ==> r.total == |files|
    ensures r.Uploaded? ==> r.successCount == CountTrue(Outcomes(files, TargetFolder(uploadType), stamps, endpoint, put))
    ensures after == Stored(bucket, files, TargetFolder(uploadType), stamps, endpoint, put)
  {
    if files == [] {
      return NoFiles, bucket;
    }
    var successCount := 0;
    var folder := TargetFolder(uploadType);
    after := bucket;
    for i := 0 to |files|
      invariant successCount == CountTrue(Outcomes(files, folder, stamps, endpoint, put)[..i])
      invariant after == Stored(bucket, files[..i], folder, stamps[..i], endpoint, put)
    {
      UploadStep(bucket, files, folder, stamps, endpoint, put, i);
      var upload := Oss.UploadFileToOss(after, files[i], folder, stamps[i], endpoint, put);
      after := upload.1;
      if upload.0.Some? {
        successCount := successCount + 1;
      }
    }
    assert Outcomes(files, folder, stamps, endpoint, put)[..|files|] == Outcomes(files, folder, stamps, endpoint, put);
    assert files[..|files|] == files && stamps[..|files|] == stamps;
    return Uploaded(successCount, |files|), after;
  }

  /** The success message appears iff at least one put succeeded. */
  lemma SuccessShownIffSomeUpload(files: seq<Oss.UploadedFile>, uploadType: string, stamps: seq<nat>, endpoint: string,
                                  put: (string, seq<bv8>, string) -> bool)
    requires |stamps| == |files| && files != []
    ensures var outcomes := Outcomes(files, TargetFolder(uploadType), stamps, endpoint, put);
      ShowsSuccess(Uploaded(CountTrue(outcomes), |files|)) <==>
      exists i :: 0 <= i < |files| && put(Oss.UploadKey(TargetFolder(uploadType), stamps[i], files[i].name),
                                            files[i].data, Oss.ContentType(files[i].name))
  {
    var folder := TargetFolder(uploadType);
    var outcomes := Outcomes(files, folder, stamps, endpoint, put);
    CountTrueBounds(outcomes);
    assert forall i :: 0 <= i < |files| ==> outcomes[i] == Oss.PutAccepts(files[i], folder, stamps[i], put);
  }
}
