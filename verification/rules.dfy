/**
 * The review service as pure functions over the two tables: what each operation
 * returns and what the tables hold afterwards. The class in module Service is
 * proved to follow these functions; the lemmas here state what they promise.
 */
module Rules {
  import opened Types
  import opened Decimal

  /**
   * The persistent state: the review table keyed by review number, the shared
   * file table in insertion order, and the number the store hands to the next
   * inserted review.
   */
  datatype Store = Store(reviews: map<int, Review>, files: seq<File>, nextReviewNo: int)

  /** An operation's outcome together with the tables it leaves behind. */
  datatype Transition<T> = Transition(result: Result<T>, store: Store)

  /**
   * The store's invariant: every review sits under its own number, numbers
   * already handed out are below nextReviewNo, and so is every review number
   * a review attachment points to (deleted reviews' attachments stay behind).
   */
  predicate WellFormed(s: Store) {
    && (forall no :: no in s.reviews ==> s.reviews[no].reviewNo == no && no < s.nextReviewNo)
    && (forall i :: 0 <= i < |s.files| && s.files[i].referenceType == ReviewCode ==>
          s.files[i].referenceNo < s.nextReviewNo)
  }

  // ---------------------------------------------------------------- rating

  /** isValidStarRating: None when the rating is accepted, the error code otherwise. */
  function CheckStarRating(starRating: real): (error: Option<ErrorCode>)
    ensures error.None? <==> 0.0 <= starRating <= MaxStarRating
    ensures error.Some? ==> error.value == InvalidStarRatingValue
  {
    if 0.0 > starRating then Some(InvalidStarRatingValue)
    else if MaxStarRating < starRating then Some(InvalidStarRatingValue)
    else None
  }

  // ---------------------------------------------------------------- file queries

  /** A file row is one of review reviewNo's attachments. */
  predicate IsAttachmentOf(f: File, reviewNo: int) {
    f.referenceType == ReviewCode && f.referenceNo == reviewNo
  }

  /**
   * findByReferenceTypeAndReferenceNo(REVIEW_CODE, reviewNo): the matching rows.
   * The query fixes no order; the model returns them in insertion order.
   */
  function ReviewFiles(fs: seq<File>, reviewNo: int): (r: seq<File>)
    ensures |r| <= |fs|
    ensures forall f :: f in r <==> f in fs && IsAttachmentOf(f, reviewNo)
  {
    if fs == [] then []
    else (if IsAttachmentOf(fs[0], reviewNo) then [fs[0]] else []) + ReviewFiles(fs[1..], reviewNo)
  }

  lemma {:induction false} ReviewFilesAppend(a: seq<File>, b: seq<File>, reviewNo: int)
    ensures ReviewFiles(a + b, reviewNo) == ReviewFiles(a, reviewNo) + ReviewFiles(b, reviewNo)
  {
    if a != [] {
      assert (a + b)[1..] == a[1..] + b;
      ReviewFilesAppend(a[1..], b, reviewNo);
    } else {
      assert a + b == b;
    }
  }

  lemma {:induction false} ReviewFilesNone(fs: seq<File>, reviewNo: int)
    requires forall i :: 0 <= i < |fs| ==> !IsAttachmentOf(fs[i], reviewNo)
    ensures ReviewFiles(fs, reviewNo) == []
  {
    if fs != [] {
      ReviewFilesNone(fs[1..], reviewNo);
    }
  }

  lemma {:induction false} ReviewFilesAll(fs: seq<File>, reviewNo: int)
    requires forall i :: 0 <= i < |fs| ==> IsAttachmentOf(fs[i], reviewNo)
    ensures ReviewFiles(fs, reviewNo) == fs
  {
    if fs != [] {
      ReviewFilesAll(fs[1..], reviewNo);
      assert fs == [fs[0]] + fs[1..];
    }
  }

  // ---------------------------------------------------------------- reads

  /** getReview: the review and its attachments, or NOT_FOUND_REVIEW. */
  function GetReviewSpec(s: Store, reviewNo: int): (r: Result<ReviewView>)
    ensures r.Err? <==> reviewNo !in s.reviews
    ensures r.Err? ==> r.code == NotFoundReview
    ensures r.Ok? ==> r.value.review == s.reviews[reviewNo]
    ensures r.Ok? ==> forall f :: f in r.value.files <==> f in s.files && IsAttachmentOf(f, reviewNo)
  {
    if reviewNo in s.reviews then Ok(ReviewView(s.reviews[reviewNo], ReviewFiles(s.files, reviewNo)))
    else Err(NotFoundReview)
  }

  /** getReviewsByProduct: each review the repository's query returns, in its order, paired with its attachments. */
  function ListSpec(env: Collaborators, s: Store, productNo: int): (views: seq<ReviewView>)
    ensures var found := env.findByProduct(s.reviews, productNo);
      && |views| == |found|
      && forall i :: 0 <= i < |found| ==>
           && views[i].review == found[i]
           && forall f :: f in views[i].files <==> f in s.files && IsAttachmentOf(f, found[i].reviewNo)
  {
    var found := env.findByProduct(s.reviews, productNo);
    seq(|found|, i requires 0 <= i < |found| => ReviewView(found[i], ReviewFiles(s.files, found[i].reviewNo)))
  }

  /**
   * The listing keeps the repository's order, pairs every review with exactly
   * its attachments, and agrees with getReview on every stored review it lists.
   */
  lemma ListingPairsReviewsWithFiles(env: Collaborators, s: Store, productNo: int, i: int)
    requires 0 <= i < |env.findByProduct(s.reviews, productNo)|
    ensures var found := env.findByProduct(s.reviews, productNo);
      && |ListSpec(env, s, productNo)| == |found|
      && ListSpec(env, s, productNo)[i].review == found[i]
      && (forall f :: f in ListSpec(env, s, productNo)[i].files <==>
            f in s.files && IsAttachmentOf(f, found[i].reviewNo))
      && (found[i].reviewNo in s.reviews && s.reviews[found[i].reviewNo] == found[i] ==>
            GetReviewSpec(s, found[i].reviewNo) == Ok(ListSpec(env, s, productNo)[i]))
  {
  }

  // ---------------------------------------------------------------- saving a review

  /**
   * What reviewRepository.saveAndFlush(reviewDto.toEntity()) stores, the same
   * call in create and update: a number the table holds names the row to
   * replace; any other number (an absent one included) makes the store insert
   * the review under the next number.
   */
  function SavedReview(s: Store, dto: Review): (saved: Review)
    ensures saved.(reviewNo := dto.reviewNo) == dto
    ensures dto.reviewNo in s.reviews ==> saved.reviewNo == dto.reviewNo
    ensures dto.reviewNo !in s.reviews ==> saved.reviewNo == s.nextReviewNo
  {
    if dto.reviewNo in s.reviews then dto else dto.(reviewNo := s.nextReviewNo)
  }

  /** The tables after a save the store accepted: that row stored under its number, every other row kept. */
  function AfterSave(s: Store, dto: Review): (t: Store)
    ensures t.files == s.files
    ensures t.reviews.Keys == s.reviews.Keys + {SavedReview(s, dto).reviewNo}
    ensures t.reviews[SavedReview(s, dto).reviewNo] == SavedReview(s, dto)
    ensures forall no :: no in s.reviews && no != SavedReview(s, dto).reviewNo ==> t.reviews[no] == s.reviews[no]
  {
    var saved := SavedReview(s, dto);
    Store(s.reviews[saved.reviewNo := saved], s.files,
          if dto.reviewNo in s.reviews then s.nextReviewNo else s.nextReviewNo + 1)
  }

  // ---------------------------------------------------------------- create

  /** The folder an upload goes to: REVIEW_DOMAIN "/" productNo; the number can be read back from it. */
  function UploadPath(productNo: int): (path: string)
    ensures |path| > |ReviewDomain| + 1
    ensures path[..|ReviewDomain| + 1] == ReviewDomain + "/"
    ensures IsLongText(path[|ReviewDomain| + 1..]) && ParseLong(path[|ReviewDomain| + 1..]) == productNo
  {
    LongRoundTrip(productNo);
    var path := ReviewDomain + "/" + LongToString(productNo);
    assert path[|ReviewDomain| + 1..] == LongToString(productNo);
    path
  }

  /** Distinct products upload into distinct folders. */
  lemma UploadPathInjective(a: int, b: int)
    requires UploadPath(a) == UploadPath(b)
    ensures a == b
  {
  }

  /** The public URL of a stored object: bucketUrl "/" fileKey, from which both parts can be read back. */
  function FileUrl(bucketUrl: string, fileKey: string): (url: string)
    ensures |url| == |bucketUrl| + 1 + |fileKey|
    ensures url[..|bucketUrl|] == bucketUrl && url[|bucketUrl|] == '/' && url[|bucketUrl| + 1..] == fileKey
  {
    bucketUrl + "/" + fileKey
  }

  /** The file row saved for one upload of review reviewNo of product productNo. */
  function AttachmentRecord(env: Collaborators, bucketUrl: string, productNo: int, reviewNo: int, u: Upload): File {
    var fileKey := env.upload(UploadPath(productNo), u);
    File(u.originalFilename, fileKey, FileUrl(bucketUrl, fileKey), ReviewCode, reviewNo)
  }

  /**
   * The file rows for all uploads, one per upload and in upload order, each
   * an attachment of the review, keeping the original filename, holding the
   * key the upload to the product's folder returned and the URL built from it.
   */
  function AttachmentRecords(env: Collaborators, bucketUrl: string, productNo: int, reviewNo: int, uploads: seq<Upload>): (r: seq<File>)
    ensures |r| == |uploads|
    ensures forall i :: 0 <= i < |uploads| ==>
      && IsAttachmentOf(r[i], reviewNo)
      && r[i].originalFilename == uploads[i].originalFilename
      && r[i].fileKey == env.upload(UploadPath(productNo), uploads[i])
      && r[i].fileUrl == FileUrl(bucketUrl, r[i].fileKey)
  {
    seq(|uploads|, i requires 0 <= i < |uploads| => AttachmentRecord(env, bucketUrl, productNo, reviewNo, uploads[i]))
  }

  /**
   * Saving rows one after the other: None as soon as one save breaks
   * integrity, otherwise the file table with every row appended in order.
   */
  function SaveFiles(env: Collaborators, reviews: map<int, Review>, fs: seq<File>, records: seq<File>): (r: Option<seq<File>>)
    ensures r.Some? ==> r.value == fs + records
    decreases |records|
  {
    if records == [] then Some(fs)
    else if !env.fileWriteOk(reviews, fs, records[0]) then None
    else
      var r := SaveFiles(env, reviews, fs + [records[0]], records[1..]);
      assert r.Some? ==> r.value == fs + records by {
        assert (fs + [records[0]]) + records[1..] == fs + records;
      }
      r
  }

  /** The saves fail exactly when some row is rejected against the table as it stands after the rows before it. */
  lemma {:induction false} SaveFilesFailsIff(env: Collaborators, reviews: map<int, Review>, fs: seq<File>, records: seq<File>)
    ensures SaveFiles(env, reviews, fs, records).None? <==>
      exists i :: 0 <= i < |records| && !env.fileWriteOk(reviews, fs + records[..i], records[i])
    decreases |records|
  {
    if records != [] {
      assert fs + records[..0] == fs;
      if env.fileWriteOk(reviews, fs, records[0]) {
        var fs', rest := fs + [records[0]], records[1..];
        SaveFilesFailsIff(env, reviews, fs', rest);
        forall j | 0 <= j < |rest|
          ensures fs' + rest[..j] == fs + records[..j + 1] && rest[j] == records[j + 1]
        {
          assert records[..j + 1] == [records[0]] + rest[..j];
        }
        if SaveFiles(env, reviews, fs, records).None? {
          var j :| 0 <= j < |rest| && !env.fileWriteOk(reviews, fs' + rest[..j], rest[j]);
          assert !env.fileWriteOk(reviews, fs + records[..j + 1], records[j + 1]);
        }
        if exists i :: 0 <= i < |records| && !env.fileWriteOk(reviews, fs + records[..i], records[i]) {
          var i :| 0 <= i < |records| && !env.fileWriteOk(reviews, fs + records[..i], records[i]);
          assert i != 0;
          assert !env.fileWriteOk(reviews, fs' + rest[..i - 1], rest[i - 1]);
        }
      }
    }
  }

  /** The rows createReview saves: none when the file list is null, one per upload otherwise. */
  function CreatedRecords(env: Collaborators, bucketUrl: string, productNo: int, reviewNo: int, files: Option<seq<Upload>>): seq<File>
  {
    if files.None? then [] else AttachmentRecords(env, bucketUrl, productNo, reviewNo, files.value)
  }

  /** The uploads createReview was given, with a null list read as no uploads. */
  function UploadsOf(files: Option<seq<Upload>>): seq<Upload> {
    if files.None? then [] else files.value
  }

  /**
   * createReview: check the rating, save the review, then save one file row
   * per upload, tied to the saved review's number; an integrity failure
   * anywhere rolls both tables back and reports INVALID_REVIEW_WRITE_REQUEST.
   */
  function CreateReviewSpec(env: Collaborators, bucketUrl: string, s: Store, dto: Review, files: Option<seq<Upload>>): (t: Transition<Review>)
    ensures t.result.Err? ==> t.store == s && t.result.code != NotFoundReview
    ensures t.result.Ok? ==>
      && t.result.value.reviewNo in t.store.reviews
      && t.store.reviews[t.result.value.reviewNo] == t.result.value
      && |t.store.files| == |s.files| + |UploadsOf(files)|
      && t.store.files[..|s.files|] == s.files
  {
    if CheckStarRating(dto.starRating).Some? then Transition(Err(InvalidStarRatingValue), s)
    else
      var review := SavedReview(s, dto);
      if !env.reviewWriteOk(s.reviews, review) then Transition(Err(InvalidReviewWriteRequest), s)
      else
        var saved := AfterSave(s, dto);
        var records := CreatedRecords(env, bucketUrl, dto.productNo, review.reviewNo, files);
        match SaveFiles(env, saved.reviews, s.files, records)
        case None => Transition(Err(InvalidReviewWriteRequest), s)
        case Some(files') => Transition(Ok(review), saved.(files := files'))
  }

  /** The shape of a successful create: the saved review, its rows appended to the file table. */
  lemma CreateOkStore(env: Collaborators, bucketUrl: string, s: Store, dto: Review, files: Option<seq<Upload>>)
    ensures var review := SavedReview(s, dto);
      var records := CreatedRecords(env, bucketUrl, dto.productNo, review.reviewNo, files);
      CreateReviewSpec(env, bucketUrl, s, dto, files).result.Ok? ==>
        CreateReviewSpec(env, bucketUrl, s, dto, files) ==
          Transition(Ok(review), AfterSave(s, dto).(files := s.files + records))
  {
  }

  /**
   * A successful create returns the review it saved. When the review carries
   * no number the table holds, it adds exactly one review under a number not
   * used before; a number the table holds has that review replaced instead.
   * Either way it appends exactly one file row per upload, in upload order,
   * each tied to the saved review and to the uploaded object.
   */
  lemma CreateAddsReviewAndAttachments(
    env: Collaborators, bucketUrl: string, s: Store, dto: Review, files: Option<seq<Upload>>)
    requires WellFormed(s)
    requires CreateReviewSpec(env, bucketUrl, s, dto, files).result.Ok?
    ensures var t := CreateReviewSpec(env, bucketUrl, s, dto, files);
      var review := t.result.value;
      var uploads := UploadsOf(files);
      && review.(reviewNo := dto.reviewNo) == dto
      && review.reviewNo == (if dto.reviewNo in s.reviews then dto.reviewNo else s.nextReviewNo)
      && t.store.reviews == s.reviews[review.reviewNo := review]
      && (dto.reviewNo !in s.reviews ==> review.reviewNo !in s.reviews && |t.store.reviews| == |s.reviews| + 1)
      && (dto.reviewNo in s.reviews ==> |t.store.reviews| == |s.reviews|)
      && |t.store.files| == |s.files| + |uploads|
      && t.store.files[..|s.files|] == s.files
      && forall i :: 0 <= i < |uploads| ==>
           var f := t.store.files[|s.files| + i];
           && f.referenceType == ReviewCode
           && f.referenceNo == review.reviewNo
           && f.originalFilename == uploads[i].originalFilename
           && f.fileKey == env.upload(ReviewDomain + "/" + LongToString(dto.productNo), uploads[i])
           && f.fileUrl == bucketUrl + "/" + f.fileKey
  {
    CreateOkStore(env, bucketUrl, s, dto, files);
    var review := SavedReview(s, dto);
    var reviews' := s.reviews[review.reviewNo := review];
    if dto.reviewNo in s.reviews {
      assert reviews'.Keys == s.reviews.Keys;
    } else {
      assert reviews'.Keys == s.reviews.Keys + {review.reviewNo};
    }
  }

  /**
   * Right after a successful create, getReview of the saved number yields the
   * saved review with the rows it already had followed by the new rows; for a
   * newly inserted review that is exactly the new rows, in upload order.
   */
  lemma CreateThenGetReview(
    env: Collaborators, bucketUrl: string, s: Store, dto: Review, files: Option<seq<Upload>>)
    requires WellFormed(s)
    requires CreateReviewSpec(env, bucketUrl, s, dto, files).result.Ok?
    ensures var t := CreateReviewSpec(env, bucketUrl, s, dto, files);
      var review := t.result.value;
      var records := CreatedRecords(env, bucketUrl, dto.productNo, review.reviewNo, files);
      && GetReviewSpec(t.store, review.reviewNo) ==
           Ok(ReviewView(review, ReviewFiles(s.files, review.reviewNo) + records))
      && (dto.reviewNo !in s.reviews ==> GetReviewSpec(t.store, review.reviewNo) == Ok(ReviewView(review, records)))
  {
    CreateOkStore(env, bucketUrl, s, dto, files);
    var review := SavedReview(s, dto);
    var no := review.reviewNo;
    var records := CreatedRecords(env, bucketUrl, dto.productNo, no, files);
    var store' := AfterSave(s, dto).(files := s.files + records);
    assert ReviewFiles(records, no) == records by {
      assert forall i :: 0 <= i < |records| ==> IsAttachmentOf(records[i], no);
      ReviewFilesAll(records, no);
    }
    ReviewFilesAppend(s.files, records, no);
    assert GetReviewSpec(store', no) == Ok(ReviewView(review, ReviewFiles(s.files, no) + records));
    if dto.reviewNo !in s.reviews {
      assert forall i :: 0 <= i < |s.files| ==> !IsAttachmentOf(s.files[i], no);
      ReviewFilesNone(s.files, no);
      assert ReviewFiles(s.files, no) + records == records;
    }
  }

  /**
   * createReview reports INVALID_REVIEW_WRITE_REQUEST exactly when the rating
   * passes and the review save or some file save breaks integrity, and then
   * both tables are as they were.
   */
  lemma CreateWriteFailureRollsBack(
    env: Collaborators, bucketUrl: string, s: Store, dto: Review, files: Option<seq<Upload>>)
    ensures var t := CreateReviewSpec(env, bucketUrl, s, dto, files);
      var review := SavedReview(s, dto);
      var records := CreatedRecords(env, bucketUrl, dto.productNo, review.reviewNo, files);
      && (t.result == Err(InvalidReviewWriteRequest) <==>
            && 0.0 <= dto.starRating <= MaxStarRating
            && (|| !env.reviewWriteOk(s.reviews, review)
                || exists i :: 0 <= i < |records| &&
                     !env.fileWriteOk(AfterSave(s, dto).reviews, s.files + records[..i], records[i])))
      && (t.result.Err? ==> t.store == s)
  {
    var review := SavedReview(s, dto);
    var records := CreatedRecords(env, bucketUrl, dto.productNo, review.reviewNo, files);
    SaveFilesFailsIff(env, AfterSave(s, dto).reviews, s.files, records);
  }

  // ---------------------------------------------------------------- update and delete

  /**
   * updateReview: check the rating, then save the review exactly as create
   * does; the file table is never touched.
   */
  function UpdateReviewSpec(env: Collaborators, s: Store, dto: Review): (t: Transition<()>)
    ensures t.store.files == s.files
    ensures t.result.Err? ==> t.store == s && t.result.code != NotFoundReview
    ensures t.result.Ok? ==>
      && SavedReview(s, dto).reviewNo in t.store.reviews
      && t.store.reviews[SavedReview(s, dto).reviewNo] == SavedReview(s, dto)
  {
    if CheckStarRating(dto.starRating).Some? then Transition(Err(InvalidStarRatingValue), s)
    else if !env.reviewWriteOk(s.reviews, SavedReview(s, dto)) then Transition(Err(InvalidReviewWriteRequest), s)
    else Transition(Ok(()), AfterSave(s, dto))
  }

  /**
   * Create and update make the same save: with no uploads, both leave the
   * same tables and succeed or fail together.
   */
  lemma CreateAndUpdateSaveAlike(env: Collaborators, bucketUrl: string, s: Store, dto: Review, files: Option<seq<Upload>>)
    requires files == None || files == Some([])
    ensures CreateReviewSpec(env, bucketUrl, s, dto, files).store == UpdateReviewSpec(env, s, dto).store
    ensures CreateReviewSpec(env, bucketUrl, s, dto, files).result.Ok? <==> UpdateReviewSpec(env, s, dto).result.Ok?
  {
    var records := CreatedRecords(env, bucketUrl, dto.productNo, SavedReview(s, dto).reviewNo, files);
    assert records == [];
    assert s.files + records == s.files;
  }

  /**
   * Updating a stored review with a valid rating and no integrity violation
   * replaces that review, leaves every other review and the file table alone,
   * and getReview then shows the new review with the attachments it had.
   */
  lemma UpdateReplacesReview(env: Collaborators, s: Store, dto: Review)
    requires dto.reviewNo in s.reviews
    requires 0.0 <= dto.starRating <= MaxStarRating
    requires env.reviewWriteOk(s.reviews, dto)
    ensures var t := UpdateReviewSpec(env, s, dto);
      && t.result == Ok(())
      && t.store.reviews == s.reviews[dto.reviewNo := dto]
      && t.store.files == s.files
      && GetReviewSpec(t.store, dto.reviewNo) == Ok(ReviewView(dto, ReviewFiles(s.files, dto.reviewNo)))
      && forall no :: no != dto.reviewNo ==> GetReviewSpec(t.store, no) == GetReviewSpec(s, no)
  {
  }

  /** updateReview never touches the file table, and any failure leaves both tables as they were. */
  lemma UpdateKeepsFiles(env: Collaborators, s: Store, dto: Review)
    ensures var t := UpdateReviewSpec(env, s, dto);
      && t.store.files == s.files
      && (t.result.Err? ==> t.store == s)
      && (t.result == Err(InvalidReviewWriteRequest) <==>
            0.0 <= dto.starRating <= MaxStarRating && !env.reviewWriteOk(s.reviews, SavedReview(s, dto)))
  {
  }

  /** deleteReview: remove the review row; a number the table does not hold is ignored. */
  function DeleteReviewSpec(s: Store, reviewNo: int): (d: Store)
    ensures d.reviews.Keys == s.reviews.Keys - {reviewNo}
    ensures forall no :: no in d.reviews ==> d.reviews[no] == s.reviews[no]
    ensures d.files == s.files && d.nextReviewNo == s.nextReviewNo
  {
    Store(s.reviews - {reviewNo}, s.files, s.nextReviewNo)
  }

  /**
   * Deleting removes only that review: getReview of it now fails with
   * NOT_FOUND_REVIEW, every other review reads as before, and the file table,
   * the deleted review's own attachments included, is unchanged.
   */
  lemma DeleteRemovesOnlyReview(s: Store, reviewNo: int)
    ensures var d := DeleteReviewSpec(s, reviewNo);
      && GetReviewSpec(d, reviewNo) == Err(NotFoundReview)
      && d.files == s.files
      && (forall no :: no != reviewNo ==> GetReviewSpec(d, no) == GetReviewSpec(s, no))
      && d.reviews.Keys == s.reviews.Keys - {reviewNo}
  {
  }

  // ---------------------------------------------------------------- rating gate and invariant

  /**
   * A rating outside 0..5 is refused by create and update with
   * INVALID_STAR_RATING_VALUE before anything is written; a rating inside
   * is never refused for its value.
   */
  lemma RatingGatesWrites(env: Collaborators, bucketUrl: string, s: Store, dto: Review, files: Option<seq<Upload>>)
    ensures var c := CreateReviewSpec(env, bucketUrl, s, dto, files);
      var u := UpdateReviewSpec(env, s, dto);
      && (c.result == Err(InvalidStarRatingValue) <==> !(0.0 <= dto.starRating <= MaxStarRating))
      && (u.result == Err(InvalidStarRatingValue) <==> !(0.0 <= dto.starRating <= MaxStarRating))
      && (!(0.0 <= dto.starRating <= MaxStarRating) ==> c.store == s && u.store == s)
  {
  }

  /** A successful create keeps the invariant: its rows point at the saved number, which is below the new counter. */
  lemma CreateKeepsWellFormed(
    env: Collaborators, bucketUrl: string, s: Store, dto: Review, files: Option<seq<Upload>>)
    requires WellFormed(s)
    ensures WellFormed(CreateReviewSpec(env, bucketUrl, s, dto, files).store)
  {
    CreateOkStore(env, bucketUrl, s, dto, files);
    if CreateReviewSpec(env, bucketUrl, s, dto, files).result.Ok? {
      var no := SavedReview(s, dto).reviewNo;
      var records := CreatedRecords(env, bucketUrl, dto.productNo, no, files);
      var t := AfterSave(s, dto).(files := s.files + records);
      assert no < t.nextReviewNo;
      forall i | 0 <= i < |t.files| && t.files[i].referenceType == ReviewCode
        ensures t.files[i].referenceNo < t.nextReviewNo
      {
        if i >= |s.files| {
          assert t.files[i] == records[i - |s.files|];
        }
      }
      assert WellFormed(t);
    }
  }

  /** Every operation keeps the store's invariant. */
  lemma OperationsPreserveWellFormed(
    env: Collaborators, bucketUrl: string, s: Store, dto: Review, files: Option<seq<Upload>>, reviewNo: int)
    requires WellFormed(s)
    ensures WellFormed(CreateReviewSpec(env, bucketUrl, s, dto, files).store)
    ensures WellFormed(UpdateReviewSpec(env, s, dto).store)
    ensures WellFormed(DeleteReviewSpec(s, reviewNo))
  {
    CreateKeepsWellFormed(env, bucketUrl, s, dto, files);
  }
}
