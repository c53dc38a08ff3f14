/** The review service object: the two tables it writes through its repositories and the bucket URL. */
module Service {
  import opened Types
  import opened Rules

  class ReviewService {
    /** The review table, keyed by review number. */
    var reviews: map<int, Review>
    /** The file table, shared with other entity kinds, in insertion order. */
    var files: seq<File>
    /** The number the review table assigns to the next inserted review. */
    var nextReviewNo: int
    /** The object-storage bucket URL, fixed at construction. */
    const bucketUrl: string
    /** The object storage, and the repositories' checks and query, that the service calls; fixed at construction. */
    const env: Collaborators

    function Tables(): Store
      reads this
    {
      Store(reviews, files, nextReviewNo)
    }

    ghost predicate Valid()
      reads this
    {
      WellFormed(Tables())
    }

    constructor (bucketUrl: string, env: Collaborators)
      ensures Valid()
      ensures this.bucketUrl == bucketUrl && this.env == env
      ensures reviews == map[] && files == [] && nextReviewNo == 1
    {
      this.bucketUrl := bucketUrl;
      this.env := env;
      reviews := map[];
      files := [];
      nextReviewNo := 1;
    }

    /** getReviewsByProduct: read-only; every listed review comes with its attachments. */
    method GetReviewsByProduct(productNo: int) returns (views: seq<ReviewView>)
      ensures views == ListSpec(env, Tables(), productNo)
    {
      var found := env.findByProduct(reviews, productNo);
      var table := files;
      views := seq(|found|, i requires 0 <= i < |found| => ReviewView(found[i], ReviewFiles(table, found[i].reviewNo)));
    }

    /** getReview: read-only; the review with its attachments, or NOT_FOUND_REVIEW. */
    method GetReview(reviewNo: int) returns (r: Result<ReviewView>)
      ensures r == GetReviewSpec(Tables(), reviewNo)
    {
      var found := if reviewNo in reviews then Some(reviews[reviewNo]) else None;
      var attached := ReviewFiles(files, reviewNo);
      if found.None? {
        return Err(NotFoundReview);
      }
      r := Ok(ReviewView(found.value, attached));
    }

    /**
     * createReview: rating check, review insert, then uploadFiles when a list
     * was given; an integrity failure restores the tables taken at the start
     * of the transaction.
     */
    method CreateReview(dto: Review, uploads: Option<seq<Upload>>) returns (r: Result<Review>)
      requires Valid()
      modifies this
      ensures Valid()
      ensures Transition(r, Tables()) == CreateReviewSpec(env, bucketUrl, old(Tables()), dto, uploads)
    {
      if CheckStarRating(dto.starRating).Some? {
        return Err(InvalidStarRatingValue);
      }
      var reviews0, files0, next0 := reviews, files, nextReviewNo;
      var saved := SaveAndFlush(dto);
      if saved.None? {
        return Err(InvalidReviewWriteRequest);
      }
      var review := saved.value;
      if uploads.Some? {
        var ok := UploadFiles(uploads.value, dto.productNo, review.reviewNo);
        if !ok {
          reviews, files, nextReviewNo := reviews0, files0, next0;
          return Err(InvalidReviewWriteRequest);
        }
      }
      r := Ok(review);
      OperationsPreserveWellFormed(env, bucketUrl, old(Tables()), dto, uploads, review.reviewNo);
    }

    /**
     * reviewRepository.saveAndFlush, shared by create and update: the row is
     * saved as SavedReview says, or, when the save breaks integrity, nothing
     * changes and no review comes back.
     */
    method SaveAndFlush(dto: Review) returns (saved: Option<Review>)
      modifies this`reviews, this`nextReviewNo
      ensures saved.None? <==> !env.reviewWriteOk(old(reviews), SavedReview(old(Tables()), dto))
      ensures saved.None? ==> Tables() == old(Tables())
      ensures saved.Some? ==> saved.value == SavedReview(old(Tables()), dto) && Tables() == AfterSave(old(Tables()), dto)
    {
      var review := if dto.reviewNo in reviews then dto else dto.(reviewNo := nextReviewNo);
      if !env.reviewWriteOk(reviews, review) {
        return None;
      }
      if dto.reviewNo !in reviews {
        nextReviewNo := nextReviewNo + 1;
      }
      reviews := reviews[review.reviewNo := review];
      saved := Some(review);
    }

    /**
     * uploadFiles: for each upload in order, store the object under the
     * review folder of the product and save a file row pointing at it;
     * false at the first row the file table rejects.
     */
    method UploadFiles(uploads: seq<Upload>, productNo: int, reviewNo: int) returns (ok: bool)
      modifies this`files
      ensures ok == SaveFiles(env, reviews, old(files), AttachmentRecords(env, bucketUrl, productNo, reviewNo, uploads)).Some?
      ensures ok ==> files == old(files) + AttachmentRecords(env, bucketUrl, productNo, reviewNo, uploads)
      ensures var records := AttachmentRecords(env, bucketUrl, productNo, reviewNo, uploads);
        !ok ==> (exists k :: 0 <= k < |uploads| && files == old(files) + records[..k] && !env.fileWriteOk(reviews, files, records[k]) &&
                   forall j :: 0 <= j < k ==> env.fileWriteOk(reviews, old(files) + records[..j], records[j]))
    {
      ghost var records := AttachmentRecords(env, bucketUrl, productNo, reviewNo, uploads);
      var i := 0;
      while i < |uploads|
        invariant 0 <= i <= |uploads|
        invariant files == old(files) + records[..i]
        invariant SaveFiles(env, reviews, old(files), records) == SaveFiles(env, reviews, files, records[i..])
        invariant forall j :: 0 <= j < i ==> env.fileWriteOk(reviews, old(files) + records[..j], records[j])
      {
        var path := UploadPath(productNo);
        var fileKey := env.upload(path, uploads[i]);
        var fileUrl := FileUrl(bucketUrl, fileKey);
        var file := File(uploads[i].originalFilename, fileKey, fileUrl, ReviewCode, reviewNo);
        assert records[i..][0] == file && records[i..][1..] == records[i + 1..];
        if !env.fileWriteOk(reviews, files, file) {
          assert records[i] == file;
          return false;
        }
        assert old(files) + records[..i] == files;
        files := files + [file];
        i := i + 1;
        assert records[..i] == records[..i - 1] + [file];
      }
      assert records[i..] == [];
      return true;
    }

    /** updateReview: rating check, then save; the file table is never touched. */
    method UpdateReview(dto: Review) returns (r: Result<()>)
      requires Valid()
      modifies this
      ensures Valid()
      ensures Transition(r, Tables()) == UpdateReviewSpec(env, old(Tables()), dto)
    {
      if CheckStarRating(dto.starRating).Some? {
        return Err(InvalidStarRatingValue);
      }
      var saved := SaveAndFlush(dto);
      if saved.None? {
        return Err(InvalidReviewWriteRequest);
      }
      r := Ok(());
      OperationsPreserveWellFormed(env, bucketUrl, old(Tables()), dto, None, dto.reviewNo);
    }

    /** deleteReview: drop the review row; its file rows stay. */
    method DeleteReview(reviewNo: int)
      requires Valid()
      modifies this
      ensures Valid()
      ensures Tables() == DeleteReviewSpec(old(Tables()), reviewNo)
    {
      reviews := reviews - {reviewNo};
    }
  }
}
