/**
 * Request rules of the uploads API (nomad/app/v1/routers/uploads.py): pagination
 * validators and sort keys, read and write access, the embargo, offset and length
 * checks, the publish preconditions, the admin-only bundle settings, and the byte count
 * of a streamed upload. Every rule is a decision on its inputs that yields either the
 * value the endpoint continues with or the HTTP error it raises.
 */
module UploadRules {
  import opened Wrappers

  const BadRequest: int := 400
  const Unauthorized: int := 401
  const NotFound: int := 404
  /** A failed pydantic validator: FastAPI answers with 422. */
  const UnprocessableEntity: int := 422

  datatype HttpError = HttpError(status: int, detail: string)

  // ---------------------------------------------------------------------------
  // Pagination

  const UploadOrderKeys: seq<string> := ["upload_create_time", "publish_time", "upload_name", "last_status_message"]
  const EntryOrderKeys: seq<string> := ["mainfile", "parser_name", "process_status", "current_process"]

  /** UploadProcDataPagination.validate_order_by. */
  function ValidateUploadOrderBy(orderBy: Option<string>): (r: Result<string, HttpError>)
    ensures orderBy.None? ==> r == Success("upload_create_time")
    ensures r.Success? <==> orderBy.None? || orderBy.value in UploadOrderKeys
    ensures r.Success? ==> r.value in UploadOrderKeys
    ensures r.Success? && orderBy.Some? ==> r.value == orderBy.value
    ensures r.Failure? ==> r.error.status == UnprocessableEntity
  {
    match orderBy
    case None => Success("upload_create_time")
    case Some(o) =>
      if o in UploadOrderKeys then Success(o)
      else Failure(HttpError(UnprocessableEntity, "order_by must be a valid attribute"))
  }

  /** EntryProcDataPagination.validate_order_by. */
  function ValidateEntryOrderBy(orderBy: Option<string>): (r: Result<string, HttpError>)
    ensures orderBy.None? ==> r == Success("mainfile")
    ensures r.Success? <==> orderBy.None? || orderBy.value in EntryOrderKeys
    ensures r.Success? ==> r.value in EntryOrderKeys
    ensures r.Success? && orderBy.Some? ==> r.value == orderBy.value
    ensures r.Failure? ==> r.error.status == UnprocessableEntity
  {
    match orderBy
    case None => Success("mainfile")
    case Some(o) =>
      if o in EntryOrderKeys then Success(o)
      else Failure(HttpError(UnprocessableEntity, "order_by must be a valid attribute"))
  }

  datatype Direction = Asc | Desc

  /**
   * The order_by arguments of the upload listing: the key, with `-` when descending, then
   * the tie-breakers `upload_id` (for upload_create_time) or `upload_create_time, upload_id`.
   */
  function UploadSortKeys(orderBy: string, order: Direction): (r: seq<string>)
    ensures |r| == if orderBy == "upload_create_time" then 2 else 3
    ensures r[0] == (if order == Desc then "-" + orderBy else orderBy)
    ensures r[|r| - 1] == "upload_id"
    ensures orderBy != "upload_create_time" ==> r[1] == "upload_create_time"
  {
    var withSign := if order == Desc then "-" + orderBy else orderBy;
    if orderBy == "upload_create_time" then [withSign, "upload_id"]
    else [withSign, "upload_create_time", "upload_id"]
  }

  /** For a validated key, the first sort key is signed exactly when the order is descending. */
  lemma SortKeySign(orderBy: string, order: Direction)
    requires ValidateUploadOrderBy(Some(orderBy)).Success?
    ensures var k := UploadSortKeys(orderBy, order)[0];
      (k[0] == '-' <==> order == Desc) && (order == Desc ==> k[1..] == orderBy)
  {
    assert orderBy[0] != '-' by {
      assert orderBy == UploadOrderKeys[0] || orderBy == UploadOrderKeys[1]
        || orderBy == UploadOrderKeys[2] || orderBy == UploadOrderKeys[3];
    }
  }

  /** The keys of a validated order never repeat: the tie-breakers add new fields only. */
  lemma SortKeysDistinct(orderBy: string, order: Direction)
    requires ValidateUploadOrderBy(Some(orderBy)).Success?
    ensures var r := UploadSortKeys(orderBy, order);
      forall i, j | 0 <= i < j < |r| :: r[i] != r[j]
  {
    var r := UploadSortKeys(orderBy, order);
    assert orderBy != "upload_id";
    assert "-" + orderBy != "upload_id" && "-" + orderBy != "upload_create_time" by {
      assert ("-" + orderBy)[0] == '-';
    }
  }

  // ---------------------------------------------------------------------------
  // Access

  datatype User = User(userId: string, isAdmin: bool)

  datatype ProcessStatus = Ready | Pending | Running | WaitingForResult | StatusSuccess | StatusFailure

  /** The fields of an Upload document the rules read. */
  datatype Upload = Upload(
    mainAuthor: string, coauthors: seq<string>, viewers: seq<string>,
    published: bool, withEmbargo: bool,
    processRunning: bool, processStatus: ProcessStatus, processedEntriesCount: nat)

  /** A signed-in admin, or a user named among the upload's viewers. */
  predicate IsViewer(user: Option<User>, upload: Upload) {
    user.Some? && (user.value.isAdmin || user.value.userId in upload.viewers)
  }

  /**
   * _get_upload_with_read_access: a missing upload is 404; viewers and admins get it; with
   * include_others anybody gets a published upload without embargo; otherwise 401.
   */
  function ReadAccess(upload: Option<Upload>, user: Option<User>, includeOthers: bool): (r: Result<Upload, HttpError>)
    ensures upload.None? ==> r.Failure? && r.error.status == NotFound
    ensures upload.Some? ==> (r.Success? <==>
      IsViewer(user, upload.value) || (includeOthers && upload.value.published && !upload.value.withEmbargo))
    ensures upload.Some? && r.Failure? ==> r.error.status == Unauthorized
    ensures r.Success? ==> upload == Some(r.value)
  {
    match upload
    case None => Failure(HttpError(NotFound, "The specified upload_id was not found."))
    case Some(u) =>
      if IsViewer(user, u) then Success(u)
      else if includeOthers then
        if !u.published then Failure(HttpError(Unauthorized, "You do not have access to the specified upload - not published yet."))
        else if u.withEmbargo then Failure(HttpError(Unauthorized, "You do not have access to the specified upload - published with embargo."))
        else Success(u)
      else Failure(HttpError(Unauthorized, "You do not have access to the specified upload."))
  }

  /** Main author, coauthor, or admin. */
  predicate IsAuthor(user: User, upload: Upload) {
    user.isAdmin || upload.mainAuthor == user.userId || user.userId in upload.coauthors
  }

  /**
   * _get_upload_with_write_access: no user is 401, a missing upload 404, a non-author 401;
   * a published upload needs include_published, and admin rights when
   * published_requires_admin is set.
   */
  function WriteAccess(upload: Option<Upload>, user: Option<User>, includePublished: bool, publishedRequiresAdmin: bool)
    : (r: Result<Upload, HttpError>)
    ensures r.Success? <==> (user.Some? && upload.Some? && IsAuthor(user.value, upload.value)
      && (upload.value.published ==> includePublished && (publishedRequiresAdmin ==> user.value.isAdmin)))
    ensures r.Failure? ==> (r.error.status == NotFound <==> user.Some? && upload.None?)
    ensures r.Failure? ==> r.error.status in {NotFound, Unauthorized}
    ensures r.Success? ==> upload == Some(r.value)
  {
    if user.None? then Failure(HttpError(Unauthorized, "User authentication required to access uploads."))
    else if upload.None? then Failure(HttpError(NotFound, "The specified upload_id was not found."))
    else
      var u := upload.value;
      var who := user.value;
      if !who.isAdmin && u.mainAuthor != who.userId && (u.coauthors == [] || who.userId !in u.coauthors) then
        Failure(HttpError(Unauthorized, "You do not have write access to the specified upload."))
      else if u.published && !includePublished then
        Failure(HttpError(Unauthorized, "Upload is already published, operation not possible."))
      else if u.published && publishedRequiresAdmin && !who.isAdmin then
        Failure(HttpError(Unauthorized, "Upload is already published, only admins can perform this operation."))
      else Success(u)
  }

  /**
   * The documented shape of an upload's viewers: the main author, the coauthors and the
   * reviewers, so every writer is a viewer.
   */
  predicate ViewersCoverWriters(u: Upload) {
    u.mainAuthor in u.viewers && forall c | c in u.coauthors :: c in u.viewers
  }

  /** On uploads whose viewers include the writers, whoever may write an upload may also read it. */
  lemma WriteAccessNotWeakerThanRead(upload: Upload, user: Option<User>, includePublished: bool,
                                     publishedRequiresAdmin: bool, includeOthers: bool)
    requires ViewersCoverWriters(upload)
    requires WriteAccess(Some(upload), user, includePublished, publishedRequiresAdmin).Success?
    ensures ReadAccess(Some(upload), user, includeOthers) == Success(upload)
  {
    var who := user.value;
    assert IsAuthor(who, upload);
    if !who.isAdmin {
      assert who.userId == upload.mainAuthor || who.userId in upload.coauthors;
      assert who.userId in upload.viewers;
    }
    assert IsViewer(user, upload);
  }

  // ---------------------------------------------------------------------------
  // Parameter checks

  /** The embargo length must be between 0 and 36 months. */
  predicate ValidEmbargo(e: int) { 0 <= e <= 36 }

  /**
   * The checks of POST /uploads before anything is stored: a non-admin may not exceed the
   * limit of unpublished uploads, then the embargo must be valid.
   */
  function CheckCreateUpload(isAdmin: bool, unpublishedCount: nat, uploadLimit: nat, embargoLength: int): (r: Result<(), HttpError>)
    ensures r.Success? <==> (isAdmin || unpublishedCount < uploadLimit) && ValidEmbargo(embargoLength)
    ensures r.Failure? ==> r.error.status == BadRequest
    ensures !isAdmin && unpublishedCount >= uploadLimit ==> r == Failure(HttpError(BadRequest, "Limit of unpublished uploads exceeded for user."))
  {
    if !isAdmin && unpublishedCount >= uploadLimit then
      Failure(HttpError(BadRequest, "Limit of unpublished uploads exceeded for user."))
    else if !ValidEmbargo(embargoLength) then
      Failure(HttpError(BadRequest, "`embargo_length` must be between 0 and 36 months."))
    else Success(())
  }

  /**
   * The raw-file download of an uncompressed file: the offset must not be negative, and the
   * length must be positive or -1 (the rest of the file). A compressed download ignores both.
   */
  function CheckRawFileRange(compress: bool, offset: int, length: int): (r: Result<(), HttpError>)
    ensures r.Success? <==> compress || (offset >= 0 && (length > 0 || length == -1))
    ensures r.Failure? ==> r.error.status == BadRequest
    ensures !compress && offset < 0 ==> r == Failure(HttpError(BadRequest, "Invalid offset provided."))
  {
    if compress then Success(())
    else if offset < 0 then Failure(HttpError(BadRequest, "Invalid offset provided."))
    else if length <= 0 && length != -1 then
      Failure(HttpError(BadRequest, "Invalid length provided. Should be greater than 0, or -1 if the remainder of the file should be read."))
    else Success(())
  }

  // ---------------------------------------------------------------------------
  // Publishing

  datatype PublishAction = PublishLocally(embargo: Option<int>) | PublishExternally(embargo: Option<int>)

  /** The conditions publish_upload checks after write access, each a 400 when violated, in this order. */
  predicate AlreadyPublishedByOther(upload: Upload, user: User, toCentral: bool) {
    upload.published && !user.isAdmin && !toCentral
  }

  /**
   * POST /uploads/{id}/action/publish: write access with published uploads included and no
   * admin requirement, then the guards in order: already published by a non-admin (unless to
   * central), processing running, processing failed, no entries, invalid embargo; then the
   * target-specific checks.
   */
  function Publish(upload: Option<Upload>, user: Option<User>, toCentral: bool, isOasis: bool, embargoLength: Option<int>)
    : (r: Result<PublishAction, HttpError>)
    ensures r.Success? ==> WriteAccess(upload, user, true, false).Success?
    ensures r.Success? ==> var u := upload.value;
      !u.processRunning && u.processStatus != StatusFailure && u.processedEntriesCount > 0
      && (embargoLength.Some? ==> ValidEmbargo(embargoLength.value))
    ensures r.Success? ==> (r.value.PublishExternally? <==> toCentral) && r.value.embargo == embargoLength
    ensures r.Success? && !toCentral ==> !upload.value.published
    ensures r.Success? && toCentral ==> isOasis && upload.value.published
    ensures WriteAccess(upload, user, true, false).Failure? ==> r == Failure(WriteAccess(upload, user, true, false).error)
    ensures r.Success? <==> WriteAccess(upload, user, true, false).Success? && PublishAllowed(upload.value, user.value, toCentral, isOasis, embargoLength)
  {
    var u :- WriteAccess(upload, user, true, false);
    PublishGuards(u, user.value, toCentral, isOasis, embargoLength)
  }

  /**
   * Every guard of publish_upload passes: not published already (unless an admin or a
   * publication to central), processed without failure, with entries, a valid embargo, and
   * the target's own condition (an OASIS with the upload published there, or an unpublished
   * upload for this repository).
   */
  predicate PublishAllowed(u: Upload, who: User, toCentral: bool, isOasis: bool, embargoLength: Option<int>) {
    !AlreadyPublishedByOther(u, who, toCentral) && !u.processRunning && u.processStatus != StatusFailure
    && u.processedEntriesCount > 0 && (embargoLength.Some? ==> ValidEmbargo(embargoLength.value))
    && (if toCentral then isOasis && u.published else !u.published)
  }

  /** The guards of publish_upload after write access was granted for u to who. */
  function PublishGuards(u: Upload, who: User, toCentral: bool, isOasis: bool, embargoLength: Option<int>)
    : (r: Result<PublishAction, HttpError>)
    ensures r.Success? ==>
      !u.processRunning && u.processStatus != StatusFailure && u.processedEntriesCount > 0
      && (embargoLength.Some? ==> ValidEmbargo(embargoLength.value))
    ensures r.Success? ==> (r.value.PublishExternally? <==> toCentral) && r.value.embargo == embargoLength
    ensures r.Success? && !toCentral ==> !u.published
    ensures r.Success? && toCentral ==> isOasis && u.published
    ensures r.Success? <==> PublishAllowed(u, who, toCentral, isOasis, embargoLength)
    ensures r.Failure? ==> r.error.status in {BadRequest, Unauthorized}
  {
    if AlreadyPublishedByOther(u, who, toCentral) then Failure(HttpError(BadRequest, "Upload already published."))
    else if u.processRunning then Failure(HttpError(BadRequest, "The upload is currently being processed, operation not allowed."))
    else if u.processStatus == StatusFailure then Failure(HttpError(BadRequest, "Cannot publish an upload that failed processing."))
    else if u.processedEntriesCount == 0 then Failure(HttpError(BadRequest, "Cannot publish an upload without any resulting entries."))
    else if embargoLength.Some? && !ValidEmbargo(embargoLength.value) then
      Failure(HttpError(BadRequest, "Invalid embargo_length. Must be between 0 and 36 months."))
    else if toCentral then
      if !isOasis then Failure(HttpError(BadRequest, "Must be on an OASIS to publish to the central NOMAD repository."))
      else if !u.published then Failure(HttpError(Unauthorized, "The upload must be published on the OASIS first."))
      else Success(PublishExternally(embargoLength))
    else if u.published then Failure(HttpError(Unauthorized, "The upload is already published."))
    else Success(PublishLocally(embargoLength))
  }

  /** The guards run in order: a running process is reported even when processing also failed and nothing was found. */
  lemma PublishChecksRunningFirst(upload: Upload, user: User, toCentral: bool, isOasis: bool, embargoLength: Option<int>)
    requires WriteAccess(Some(upload), Some(user), true, false).Success?
    requires !AlreadyPublishedByOther(upload, user, toCentral) && upload.processRunning
    ensures Publish(Some(upload), Some(user), toCentral, isOasis, embargoLength)
      == Failure(HttpError(BadRequest, "The upload is currently being processed, operation not allowed."))
  {
  }

  /**
   * Publishing with write access: every guard passing publishes the upload to the requested
   * target with the requested embargo, and each failing guard gives its own error when the
   * guards before it pass, in the order of publish_upload.
   */
  lemma PublishOutcomes(u: Upload, who: User, toCentral: bool, isOasis: bool, embargoLength: Option<int>)
    requires WriteAccess(Some(u), Some(who), true, false).Success?
    ensures var r := Publish(Some(u), Some(who), toCentral, isOasis, embargoLength);
      && (PublishAllowed(u, who, toCentral, isOasis, embargoLength) ==>
            r == Success(if toCentral then PublishExternally(embargoLength) else PublishLocally(embargoLength)))
      && (AlreadyPublishedByOther(u, who, toCentral) ==>
            r == Failure(HttpError(BadRequest, "Upload already published.")))
      && (!AlreadyPublishedByOther(u, who, toCentral) && u.processRunning ==>
            r == Failure(HttpError(BadRequest, "The upload is currently being processed, operation not allowed.")))
      && (!AlreadyPublishedByOther(u, who, toCentral) && !u.processRunning && u.processStatus == StatusFailure ==>
            r == Failure(HttpError(BadRequest, "Cannot publish an upload that failed processing.")))
      && (!AlreadyPublishedByOther(u, who, toCentral) && !u.processRunning && u.processStatus != StatusFailure
          && u.processedEntriesCount == 0 ==>
            r == Failure(HttpError(BadRequest, "Cannot publish an upload without any resulting entries.")))
      && (!AlreadyPublishedByOther(u, who, toCentral) && !u.processRunning && u.processStatus != StatusFailure
          && u.processedEntriesCount > 0 && embargoLength.Some? && !ValidEmbargo(embargoLength.value) ==>
            r == Failure(HttpError(BadRequest, "Invalid embargo_length. Must be between 0 and 36 months.")))
  {
    assert Publish(Some(u), Some(who), toCentral, isOasis, embargoLength) == PublishGuards(u, who, toCentral, isOasis, embargoLength);
  }

  /**
   * The target-specific checks come last: with the common guards passing, publishing to
   * central fails with 400 off an OASIS and 401 for an upload not yet published there, and
   * publishing locally fails with 401 for a published upload.
   */
  lemma PublishTargetOutcomes(u: Upload, who: User, toCentral: bool, isOasis: bool, embargoLength: Option<int>)
    requires WriteAccess(Some(u), Some(who), true, false).Success?
    requires !AlreadyPublishedByOther(u, who, toCentral) && !u.processRunning && u.processStatus != StatusFailure
    requires u.processedEntriesCount > 0 && (embargoLength.Some? ==> ValidEmbargo(embargoLength.value))
    ensures var r := Publish(Some(u), Some(who), toCentral, isOasis, embargoLength);
      && (toCentral && !isOasis ==>
            r == Failure(HttpError(BadRequest, "Must be on an OASIS to publish to the central NOMAD repository.")))
      && (toCentral && isOasis && !u.published ==>
            r == Failure(HttpError(Unauthorized, "The upload must be published on the OASIS first.")))
      && (!toCentral && u.published ==> r == Failure(HttpError(Unauthorized, "The upload is already published.")))
  {
    assert Publish(Some(u), Some(who), toCentral, isOasis, embargoLength) == PublishGuards(u, who, toCentral, isOasis, embargoLength);
  }

  /** A non-admin cannot publish a published upload again locally: the first guard rejects it with 400. */
  lemma PublishTwiceRejected(upload: Upload, user: User, isOasis: bool, embargoLength: Option<int>)
    requires upload.published && !user.isAdmin
    requires WriteAccess(Some(upload), Some(user), true, false).Success?
    ensures Publish(Some(upload), Some(user), false, isOasis, embargoLength) == Failure(HttpError(BadRequest, "Upload already published."))
  {
  }

  // ---------------------------------------------------------------------------
  // Bundle settings

  /**
   * The settings loop of POST /uploads/bundle: keys whose value is None are deleted from the
   * dictionary; any other key raises 400 for a non-admin, naming the first such key.
   */
  method FilterBundleSettings(keys: seq<string>, values: map<string, Option<bool>>, isAdmin: bool)
    returns (r: Result<map<string, Option<bool>>, HttpError>)
    requires forall k | k in keys :: k in values
    requires forall i, j | 0 <= i < j < |keys| :: keys[i] != keys[j]
    ensures r.Success? <==> isAdmin || forall k | k in keys :: values[k].None?
    ensures r.Success? ==> r.value == map k | k in keys && values[k].Some? :: values[k]
    ensures r.Success? ==> forall k | k in r.value :: r.value[k].Some?
    ensures r.Failure? ==> r.error.status == BadRequest && exists i | 0 <= i < |keys| ::
      values[keys[i]].Some? && (forall j | 0 <= j < i :: values[keys[j]].None?)
      && r.error.detail == "Specifying setting " + keys[i] + " requires an admin user"
  {
    var settings := map k | k in keys :: values[k];
    var i := 0;
    while i < |keys|
      invariant 0 <= i <= |keys|
      invariant settings == map k | k in keys && (k in keys[..i] ==> values[k].Some?) :: values[k]
      invariant !isAdmin ==> forall j | 0 <= j < i :: values[keys[j]].None?
    {
      var k := keys[i];
      if values[k].None? {
        settings := settings - {k};
      } else if !isAdmin {
        return Failure(HttpError(BadRequest, "Specifying setting " + k + " requires an admin user"));
      }
      i := i + 1;
    }
    assert keys[..i] == keys;
    return Success(settings);
  }

  // ---------------------------------------------------------------------------
  // Streamed upload data

  /** The bytes read from a stream that ends at its first empty chunk. */
  function StreamBytes(chunks: seq<nat>): nat {
    if chunks == [] || chunks[0] == 0 then 0 else chunks[0] + StreamBytes(chunks[1..])
  }

  /** The number of chunks before the first empty one. */
  function StreamLength(chunks: seq<nat>): (n: nat)
    ensures n <= |chunks|
    ensures forall i | 0 <= i < n :: chunks[i] > 0
    ensures n < |chunks| ==> chunks[n] == 0
  {
    if chunks == [] || chunks[0] == 0 then 0 else 1 + StreamLength(chunks[1..])
  }

  function Sum(s: seq<nat>): nat {
    if s == [] then 0 else Sum(s[..|s| - 1]) + s[|s| - 1]
  }

  lemma {:induction false} StreamBytesIsSum(chunks: seq<nat>)
    ensures StreamBytes(chunks) == Sum(chunks[..StreamLength(chunks)])
  {
    if chunks != [] && chunks[0] != 0 {
      StreamBytesIsSum(chunks[1..]);
      var n := StreamLength(chunks);
      SumCons(chunks[0], chunks[1..][..n - 1]);
      assert chunks[..n] == [chunks[0]] + chunks[1..][..n - 1];
    }
  }

  lemma {:induction false} SumCons(x: nat, s: seq<nat>)
    ensures Sum([x] + s) == x + Sum(s)
    decreases |s|
  {
    if s != [] {
      assert ([x] + s)[..|[x] + s| - 1] == [x] + s[..|s| - 1];
      SumCons(x, s[..|s| - 1]);
    }
  }

  const LogInterval: nat := 1_000_000_000

  /**
   * The receive loop of _get_file_if_provided: chunks are counted until the first empty one,
   * and a progress message is logged whenever the count passes the next gigabyte mark.
   */
  method ReceiveStream(chunks: seq<nat>) returns (uploadedBytes: nat, logged: nat)
    ensures uploadedBytes == StreamBytes(chunks)
    ensures logged * LogInterval <= uploadedBytes
    ensures logged <= StreamLength(chunks)
  {
    uploadedBytes := 0;
    logged := 0;
    var nextLogAt := LogInterval;
    var i := 0;
    StreamBytesIsSum(chunks);
    while i < |chunks|
      invariant 0 <= i <= StreamLength(chunks)
      invariant uploadedBytes == Sum(chunks[..i])
      invariant nextLogAt == (logged + 1) * LogInterval
      invariant logged * LogInterval <= uploadedBytes
      invariant logged <= i
      decreases |chunks| - i
    {
      if chunks[i] == 0 {
        break;
      }
      assert chunks[..i + 1][..i] == chunks[..i];
      uploadedBytes := uploadedBytes + chunks[i];
      if uploadedBytes > nextLogAt {
        logged := logged + 1;
        nextLogAt := nextLogAt + LogInterval;
      }
      i := i + 1;
    }
  }

  /** Method 2 (a streamed body) that delivered no bytes means no file was provided. */
  function StreamedFileProvided(method_: nat, uploadedBytes: nat): (provided: bool)
    ensures !provided <==> uploadedBytes == 0 && method_ == 2
  {
    !(uploadedBytes == 0 && method_ == 2)
  }

  /**
   * For the bytes ReceiveStream counts, no file is provided exactly when the body was
   * streamed (method 2) and its first chunk was already empty; a form upload (method 1)
   * always provides one, even an empty one.
   */
  lemma {:induction false} NoStreamedFile(method_: nat, chunks: seq<nat>)
    ensures !StreamedFileProvided(method_, StreamBytes(chunks)) <==> method_ == 2 && StreamLength(chunks) == 0
    ensures method_ != 2 ==> StreamedFileProvided(method_, StreamBytes(chunks))
  {
    if chunks != [] && chunks[0] != 0 {
      assert StreamBytes(chunks) >= chunks[0] > 0;
    }
  }
}
