/**
  The naming side of `uploadImageToS3` and `getFormatName`: the ImageIO
  format name derived from the original filename, the object key, the
  returned URL, and the put request built from them. The encoder and the
  object store are collaborators: `encode` stands for `ImageIO.write`, and
  the put request is returned instead of being sent.
 */
module Storage {

  import opened JavaLang
  import opened Pixels

  type Byte = x: int | 0 <= x < 256

  /** `getFormatName`: the text after the last '.', lower-cased. When the name
      has no '.', `lastIndexOf` answers -1 and the whole name is used. The
      result is the longest dot-free tail of the name, lower-cased. */
  function FormatName(filename: string): (f: string)
    ensures |f| <= |filename|
    ensures f == ToLower(filename[|filename| - |f|..])
    ensures '.' !in f
    ensures |f| < |filename| ==> filename[|filename| - |f| - 1] == '.'
  {
    var i := LastIndexOf(filename, '.');
    var tail := filename[i + 1..];
    TailAfterLastDot(filename, i);
    LowerTail(tail);
    ToLower(tail)
  }

  lemma TailAfterLastDot(filename: string, i: int)
    requires -1 <= i < |filename|
    requires forall j :: i < j < |filename| ==> filename[j] != '.'
    ensures '.' !in filename[i + 1..]
  {
  }

  lemma LowerTail(tail: string)
    requires '.' !in tail
    ensures '.' !in ToLower(tail)
  {
    ToLowerKeeps(tail, '.');
  }

  /** The extension after the last dot decides the format, whatever the stem
      holds. */
  lemma {:induction false} FormatOfDottedName(stem: string, ext: string)
    requires '.' !in ext
    ensures FormatName(stem + "." + ext) == ToLower(ext)
  {
    var name := stem + "." + ext;
    var f := FormatName(name);
    assert name[|stem|] == '.';
    if |f| > |ext| {
      assert false;
    } else if |f| < |ext| {
      assert false;
    }
    assert name[|name| - |f|..] == ext;
  }

  /** A name without a dot is its own format name, lower-cased. */
  lemma {:induction false} FormatOfUndottedName(filename: string)
    requires '.' !in filename
    ensures FormatName(filename) == ToLower(filename)
  {
    var f := FormatName(filename);
    if |f| < |filename| {
      assert false;
    }
  }

  /** The text form of `UUID.randomUUID()`: 36 characters, lower-case hex
      digits in groups of 8-4-4-4-12 separated by hyphens. */
  predicate IsUuidText(u: string) {
    && |u| == 36
    && forall i :: 0 <= i < 36 ==>
         if i == 8 || i == 13 || i == 18 || i == 23 then u[i] == '-'
         else ('0' <= u[i] <= '9' || 'a' <= u[i] <= 'f')
  }

  /** The object key `uuid + "-" + originalFilename`: the random identifier,
      one hyphen, then the filename verbatim. */
  function ObjectKey(uuid: string, filename: string): (k: string)
    ensures |k| == |uuid| + 1 + |filename|
    ensures k[..|uuid|] == uuid
    ensures k[|uuid|] == '-'
    ensures k[|uuid| + 1..] == filename
  {
    uuid + "-" + filename
  }

  /** Keys built from different identifiers of the same length never collide,
      whatever the filenames, so uniqueness of keys rests on uniqueness of the
      identifiers. */
  lemma DistinctUuidsGiveDistinctKeys(u1: string, u2: string, f1: string, f2: string)
    requires IsUuidText(u1) && IsUuidText(u2) && u1 != u2
    ensures ObjectKey(u1, f1) != ObjectKey(u2, f2)
  {
    assert ObjectKey(u1, f1)[..36] == u1;
    assert ObjectKey(u2, f2)[..36] == u2;
  }

  /** A key keeps the filename's format: a filename with a dot yields the same
      format name whether it is read from the filename or from the key. */
  lemma KeyKeepsFormat(uuid: string, filename: string)
    requires '.' in filename
    ensures FormatName(ObjectKey(uuid, filename)) == FormatName(filename)
  {
    var stem, ext := SplitAtLastDot(filename);
    KeyRegroups(uuid, stem, ext);
    FormatOfDottedName(stem, ext);
    FormatOfDottedName(uuid + "-" + stem, ext);
  }

  lemma KeyRegroups(uuid: string, stem: string, ext: string)
    ensures ObjectKey(uuid, stem + "." + ext) == (uuid + "-" + stem) + "." + ext
  {
  }

  lemma SplitAtLastDot(filename: string) returns (stem: string, ext: string)
    requires '.' in filename
    ensures filename == stem + "." + ext
    ensures '.' !in ext
  {
    var i := LastIndexOf(filename, '.');
    stem := filename[..i];
    ext := filename[i + 1..];
    assert filename == stem + "." + ext;
  }

  /** The store's base address as the source hard-codes it. */
  const StoreBase := "http://localhost:4566/"

  /** The returned URL `http://localhost:4566/<bucket>/<key>`. */
  function ObjectUrl(bucket: string, key: string): (url: string)
    ensures |url| == |StoreBase| + |bucket| + 1 + |key|
    ensures url[..|StoreBase|] == StoreBase
    ensures url[|StoreBase|..|StoreBase| + |bucket|] == bucket
    ensures url[|StoreBase| + |bucket|] == '/'
    ensures url[|url| - |key|..] == key
  {
    StoreBase + bucket + "/" + key
  }

  /** What `ImageIO.write` does with a format name: writes the bytes, reports
      that no writer exists (returns false, leaving the stream empty), or
      throws an IOException with a possibly null message. */
  datatype Encoding = Written(bytes: seq<Byte>) | NoWriter | WriteFailed(message: Nullable<string>)

  datatype PutObjectRequest = PutObjectRequest(bucket: string, key: string, contentType: Nullable<string>, body: seq<Byte>)

  /** The map `{url, key}` returned to the caller. */
  datatype ProcessResult = ProcessResult(url: string, key: string)

  datatype Upload = Uploaded(put: PutObjectRequest, result: ProcessResult) | Failed(message: Nullable<string>)

  /** `uploadImageToS3`. The encode format comes from the filename; the
      declared content type is passed through to the store untouched and plays
      no part in the encoding. The boolean result of `ImageIO.write` is
      ignored, so a format without a writer uploads an empty body. */
  function UploadImageToS3(image: Image, contentType: Nullable<string>, filename: string,
                           uuid: string, bucket: string,
                           encode: (Image, string) -> Encoding): (u: Upload)
    ensures u.Failed? <==> encode(image, FormatName(filename)).WriteFailed?
    ensures u.Failed? ==> u.message == encode(image, FormatName(filename)).message
    ensures u.Uploaded? ==>
              && u.put.bucket == bucket
              && u.put.key == u.result.key
              && u.result.key == ObjectKey(uuid, filename)
              && u.result.url == ObjectUrl(bucket, u.result.key)
              && u.put.contentType == contentType
    ensures u.Uploaded? && encode(image, FormatName(filename)).Written? ==>
              u.put.body == encode(image, FormatName(filename)).bytes
    ensures u.Uploaded? && encode(image, FormatName(filename)).NoWriter? ==> u.put.body == []
  {
    match encode(image, FormatName(filename))
    case WriteFailed(msg) => Failed(msg)
    case Written(bytes) =>
      var key := ObjectKey(uuid, filename);
      Uploaded(PutObjectRequest(bucket, key, contentType, bytes), ProcessResult(ObjectUrl(bucket, key), key))
    case NoWriter =>
      var key := ObjectKey(uuid, filename);
      Uploaded(PutObjectRequest(bucket, key, contentType, []), ProcessResult(ObjectUrl(bucket, key), key))
  }

  /** Two uploads that differ only in the declared content type store the same
      bytes under the same key: the encoding never looks at the content type,
      so a PNG declared under a `.jpg` name is written as JPEG. */
  lemma ContentTypeDoesNotSelectFormat(image: Image, ct1: Nullable<string>, ct2: Nullable<string>,
                                       filename: string, uuid: string, bucket: string,
                                       encode: (Image, string) -> Encoding)
    ensures var u1 := UploadImageToS3(image, ct1, filename, uuid, bucket, encode);
      var u2 := UploadImageToS3(image, ct2, filename, uuid, bucket, encode);
      && u1.Uploaded? == u2.Uploaded?
      && (u1.Uploaded? ==> u1.put.body == u2.put.body && u1.result == u2.result)
  {
  }
}
