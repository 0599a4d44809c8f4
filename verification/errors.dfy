/** The errors the store raises. The five S3 errors are built by the
    constructors of pytest_minio_mock/exceptions.py; `ValueError` stands for
    the plain Python `ValueError`s raised on bad client or listing
    arguments. */
module Errors {
  import opened Wrappers
  import Strings

  datatype Error =
    | S3Error(code: int, message: string, resource: string, response: string,
              bucketName: string, objectName: Option<string>)
    | ValueError(message: string)

  /** Every S3 error is built with this response placeholder. */
  const MockedResponse := "mocked_response"

  /** The phrase by which callers recognise the three "not found" errors. */
  const NotFoundPhrase := "does not exist"

  const BucketMissingMessage := "bucket " + NotFoundPhrase
  const KeyMissingMessage := "The specified key " + NotFoundPhrase + "."
  const VersionInvalidMessage := "Invalid version id specified"
  const VersionMissingMessage := "The specified version " + NotFoundPhrase

  /** `no_such_bucket`: 404, naming only the bucket. */
  function NoSuchBucket(bucketName: string): (e: Error)
    ensures e.S3Error? && e.code == 404 && KindOf(e) == Some(BucketMissing)
    ensures e.resource == "/" + bucketName && e.bucketName == bucketName && e.objectName == None
  {
    S3Error(404, BucketMissingMessage, "/" + bucketName, MockedResponse, bucketName, None)
  }

  /** `no_such_key`: 404, naming the bucket and the object. */
  function NoSuchKey(bucketName: string, objectName: string): (e: Error)
    ensures e.S3Error? && e.code == 404 && KindOf(e) == Some(KeyMissing)
    ensures e.resource == "/" + bucketName + "/" + objectName
    ensures e.bucketName == bucketName && e.objectName == Some(objectName)
  {
    S3Error(404, KeyMissingMessage, "/" + bucketName + "/" + objectName,
            MockedResponse, bucketName, Some(objectName))
  }

  /** `invalid_version`: 422, naming the bucket and the object. */
  function InvalidVersion(bucketName: string, objectName: string): (e: Error)
    ensures e.S3Error? && e.code == 422 && KindOf(e) == Some(VersionInvalid)
    ensures e.resource == "/" + bucketName + "/" + objectName
    ensures e.bucketName == bucketName && e.objectName == Some(objectName)
  {
    S3Error(422, VersionInvalidMessage, "/" + bucketName + "/" + objectName,
            MockedResponse, bucketName, Some(objectName))
  }

  /** `no_such_version`: 404, naming the bucket and the object. */
  function NoSuchVersion(bucketName: string, objectName: string): (e: Error)
    ensures e.S3Error? && e.code == 404 && KindOf(e) == Some(VersionMissing)
    ensures e.resource == "/" + bucketName + "/" + objectName
    ensures e.bucketName == bucketName && e.objectName == Some(objectName)
  {
    S3Error(404, VersionMissingMessage, "/" + bucketName + "/" + objectName,
            MockedResponse, bucketName, Some(objectName))
  }

  /** The phrase by which callers recognise a refused read of a delete marker. */
  const NotAllowedPhrase := "not allowed against this resource"

  const NotAllowedMessage := "The specified method is " + NotAllowedPhrase + "."

  /** `method_not_allowed`: 403, naming the bucket and the object. */
  function MethodNotAllowed(bucketName: string, objectName: string): (e: Error)
    ensures e.S3Error? && e.code == 403 && KindOf(e) == Some(NotAllowed)
    ensures e.resource == "/" + bucketName + "/" + objectName
    ensures e.bucketName == bucketName && e.objectName == Some(objectName)
  {
    S3Error(403, NotAllowedMessage,
            "/" + bucketName + "/" + objectName, MockedResponse, bucketName, Some(objectName))
  }

  /** The five kinds, for telling an error apart from its fields alone. */
  datatype Kind = BucketMissing | KeyMissing | VersionInvalid | VersionMissing | NotAllowed

  function Make(k: Kind, bucketName: string, objectName: string): Error {
    match k
    case BucketMissing => NoSuchBucket(bucketName)
    case KeyMissing => NoSuchKey(bucketName, objectName)
    case VersionInvalid => InvalidVersion(bucketName, objectName)
    case VersionMissing => NoSuchVersion(bucketName, objectName)
    case NotAllowed => MethodNotAllowed(bucketName, objectName)
  }

  /** Recovers the kind of an S3 error from its message, the only field
      that tells all five apart. */
  function KindOf(e: Error): Option<Kind> {
    if !e.S3Error? then None
    else if e.message == BucketMissingMessage then Some(BucketMissing)
    else if e.message == KeyMissingMessage then Some(KeyMissing)
    else if e.message == VersionInvalidMessage then Some(VersionInvalid)
    else if e.message == VersionMissingMessage then Some(VersionMissing)
    else if e.message == NotAllowedMessage then Some(NotAllowed)
    else None
  }

  /** The five messages are pairwise distinct, so the message alone
      identifies the error that was raised. */
  lemma MessagesIdentifyKind(k: Kind, bucketName: string, objectName: string)
    ensures KindOf(Make(k, bucketName, objectName)) == Some(k)
  {
  }

  /** The status codes and resources the constructors use: a missing bucket
      names only the bucket, every other error names bucket and object. */
  lemma ErrorFields(bucketName: string, objectName: string)
    ensures NoSuchBucket(bucketName).code == 404
    ensures NoSuchBucket(bucketName).resource == "/" + bucketName
    ensures NoSuchBucket(bucketName).objectName == None
    ensures NoSuchKey(bucketName, objectName).code == 404
    ensures NoSuchVersion(bucketName, objectName).code == 404
    ensures InvalidVersion(bucketName, objectName).code == 422
    ensures MethodNotAllowed(bucketName, objectName).code == 403
    ensures forall k :: k != BucketMissing ==>
      Make(k, bucketName, objectName).resource == "/" + bucketName + "/" + objectName
      && Make(k, bucketName, objectName).objectName == Some(objectName)
  {
  }

  /** The three "not found" errors all say "does not exist", the text
      callers match on. */
  lemma NotFoundSaysDoesNotExist(bucketName: string, objectName: string)
    ensures Strings.Contains(NoSuchBucket(bucketName).message, NotFoundPhrase)
    ensures Strings.Contains(NoSuchKey(bucketName, objectName).message, NotFoundPhrase)
    ensures Strings.Contains(NoSuchVersion(bucketName, objectName).message, NotFoundPhrase)
  {
    Strings.OccursInMiddle("bucket ", NotFoundPhrase, "");
    assert BucketMissingMessage + "" == BucketMissingMessage;
    Strings.OccursInMiddle("The specified key ", NotFoundPhrase, ".");
    Strings.OccursInMiddle("The specified version ", NotFoundPhrase, "");
    assert VersionMissingMessage + "" == VersionMissingMessage;
  }

  /** The two other errors carry the phrases callers match them by. */
  lemma RejectionsCarryPhrases(bucketName: string, objectName: string)
    ensures Strings.Contains(InvalidVersion(bucketName, objectName).message, "Invalid version")
    ensures Strings.Contains(MethodNotAllowed(bucketName, objectName).message, NotAllowedPhrase)
  {
    assert Strings.OccursAt(InvalidVersion(bucketName, objectName).message, "Invalid version", 0);
    Strings.OccursInMiddle("The specified method is ", NotAllowedPhrase, ".");
  }
}
