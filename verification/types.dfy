/** Entities, error codes and external collaborators of the review service. */
module Types {

  /** The three business error codes the service raises. */
  datatype ErrorCode =
    | NotFoundReview             // NOT_FOUND_REVIEW
    | InvalidReviewWriteRequest  // INVALID_REVIEW_WRITE_REQUEST
    | InvalidStarRatingValue     // INVALID_STAR_RATING_VALUE

  datatype Option<T> = None | Some(value: T)

  /** A service call either returns a value or fails with one business error code. */
  datatype Result<T> = Ok(value: T) | Err(code: ErrorCode)

  /** A review row. `starRating` is an exact decimal (BigDecimal in the service). */
  datatype Review = Review(reviewNo: int, productNo: int, starRating: real, content: string)

  /** An uploaded multipart file: its original name and its bytes. */
  datatype Upload = Upload(originalFilename: string, bytes: seq<bv8>)

  /** A row of the file table, shared by several entity kinds through (referenceType, referenceNo). */
  datatype File = File(
    originalFilename: string,
    fileKey: string,
    fileUrl: string,
    referenceType: string,
    referenceNo: int)

  /** What the read operations hand back: a review paired with its attached files. */
  datatype ReviewView = ReviewView(review: Review, files: seq<File>)

  /** The largest accepted star rating. */
  const MaxStarRating: real := 5.0

  /** The review kind's upload folder (FileReferType.REVIEW's domain); its value is not modelled. */
  const ReviewDomain: string

  /** The review kind's reference tag in the file table (FileReferType.REVIEW's code); its value is not modelled. */
  const ReviewCode: string

  /**
   * The collaborators the service calls but does not implement.
   *  - upload: the object-storage upload, from (folder path, file) to the stored object's key;
   *  - reviewWriteOk: whether saving this review into this review table keeps the store's integrity constraints;
   *  - fileWriteOk: the same for saving a file row, given the review table and the file table;
   *  - findByProduct: the repository's product query (filtering, sorting and paging included).
   */
  datatype Collaborators = Collaborators(
    upload: (string, Upload) -> string,
    reviewWriteOk: (map<int, Review>, Review) -> bool,
    fileWriteOk: (map<int, Review>, seq<File>, File) -> bool,
    findByProduct: (map<int, Review>, int) -> seq<Review>)
}
