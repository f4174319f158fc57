/** Object-storage helpers of src/utils/oss.py. The bucket is a map from
    object key to bytes that an upload updates and a read looks up; `put`
    decides whether `bucket.put_object` returns (true) or raises (false). The
    clock reading `int(time.time())` is the parameter `timestamp`. */
module Oss {
  import opened Common

  datatype UploadedFile = UploadedFile(name: string, data: seq<bv8>)

  /** `ENDPOINT` of src/config/settings.py. */
  function Endpoint(bucketName: string, region: string): string {
    "https://" + bucketName + ".oss-" + region + ".aliyuncs.com"
  }

  /** The object key `f"{category}/{int(time.time())}_{file.name}"`. */
  function UploadKey(category: string, timestamp: nat, name: string): (r: string)
    ensures StartsWith(r, category + "/")
    ensures EndsWith(r, "_" + name)
  {
    var r := category + "/" + NatToString(timestamp) + "_" + name;
    assert r == (category + "/") + (NatToString(timestamp) + "_" + name);
    assert r == (category + "/" + NatToString(timestamp)) + ("_" + name);
    r
  }

  /** `file.name.split('.')[-1].lower()`: the text after the last dot, or the
      whole name when it has none. */
  function Extension(name: string): (r: string)
    ensures '.' !in name ==> r == Lower(name)
  {
    if '.' !in name then
      SplitWithoutSeparator(name, '.');
      Lower(LastPiece(name, '.'))
    else Lower(LastPiece(name, '.'))
  }

  lemma ExtensionAfterLastDot(stem: string, ext: string)
    requires '.' !in ext
    ensures Extension(stem + "." + ext) == Lower(ext)
  {
    LastPieceAfterSeparator(stem, '.', ext);
  }

  const ContentTypes: map<string, string> := map[
    "pdf" := "application/pdf",
    "jpg" := "image/jpeg",
    "jpeg" := "image/jpeg",
    "png" := "image/png",
    "mp4" := "video/mp4"
  ]

  const OctetStream: string := "application/octet-stream"

  /** `content_type_map.get(ext, "application/octet-stream")`. */
  function ContentType(name: string): (r: string)
    ensures Extension(name) in ContentTypes ==> r == ContentTypes[Extension(name)]
    ensures Extension(name) !in ContentTypes ==> r == OctetStream
  {
    var ext := Extension(name);
    if ext in ContentTypes then ContentTypes[ext] else OctetStream
  }

  /** The content type depends on the extension alone, whatever the stem and
      whatever the case of the extension's letters. */
  lemma ContentTypeByExtension(stem: string, ext: string)
    requires '.' !in ext
    ensures Lower(ext) in ContentTypes ==> ContentType(stem + "." + ext) == ContentTypes[Lower(ext)]
    ensures Lower(ext) !in ContentTypes ==> ContentType(stem + "." + ext) == OctetStream
  {
    ExtensionAfterLastDot(stem, ext);
  }

  /** A bucket: the bytes stored under each object key. */
  type Bucket = map<string, seq<bv8>>

  /** Whether `bucket.put_object` returns (rather than raises) for this file. */
  predicate PutAccepts(file: UploadedFile, category: string, timestamp: nat,
                       put: (string, seq<bv8>, string) -> bool) {
    put(UploadKey(category, timestamp, file.name), file.data, ContentType(file.name))
  }

  /** upload_file_to_oss: stores the file under its timestamped key with the
      content type of its extension. Returns the public URL and the bucket
      holding the file when `put_object` returns; `None` and the bucket as it
      was when `put_object` raises. */
  function UploadFileToOss(bucket: Bucket, file: UploadedFile, category: string, timestamp: nat,
                           endpoint: string, put: (string, seq<bv8>, string) -> bool)
    : (r: (Option<string>, Bucket))
    ensures r.0.Some? <==> PutAccepts(file, category, timestamp, put)
    ensures r.0.Some? ==> r.0.value == endpoint + "/" + UploadKey(category, timestamp, file.name)
    ensures r.0.Some? ==> r.0.value != ""
    ensures r.0.Some? ==> r.1 == bucket[UploadKey(category, timestamp, file.name) := file.data]
    ensures r.0.None? ==> r.1 == bucket
  {
    var key := UploadKey(category, timestamp, file.name);
    if put(key, file.data, ContentType(file.name)) then (Some(endpoint + "/" + key), bucket[key := file.data])
    else (None, bucket)
  }

  /** get_cached_oss_object: the bytes stored under `key`, or `None` when
      `get_object` raises because the bucket holds no such key. */
  function GetCachedOssObject(bucket: Bucket, key: string): (r: Option<seq<bv8>>)
    ensures r.Some? <==> key in bucket
    ensures r.Some? ==> r.value == bucket[key]
  {
    if key in bucket then Some(bucket[key]) else None
  }

  /** After a successful upload, reading the key it wrote gives the file's
      bytes back and the URL ends with that key; a failed upload leaves every
      read as it was, and a successful one changes no other key. */
  lemma UploadThenGet(bucket: Bucket, file: UploadedFile, category: string, timestamp: nat,
                      endpoint: string, put: (string, seq<bv8>, string) -> bool)
    ensures var (url, after) := UploadFileToOss(bucket, file, category, timestamp, endpoint, put);
      var key := UploadKey(category, timestamp, file.name);
      && (url.Some? ==> GetCachedOssObject(after, key) == Some(file.data) && EndsWith(url.value, key))
      && (url.None? ==> forall k :: GetCachedOssObject(after, k) == GetCachedOssObject(bucket, k))
      && (forall k :: k != key ==> GetCachedOssObject(after, k) == GetCachedOssObject(bucket, k))
  {
    var key := UploadKey(category, timestamp, file.name);
    var (url, after) := UploadFileToOss(bucket, file, category, timestamp, endpoint, put);
    if url.Some? {
      var u := url.value;
      assert u == (endpoint + "/") + key;
      assert u[|u| - |key|..] == key;
    }
  }
}
