# Review service — a Dafny model

This project models `ReviewService` from the review module of the product-review API. The service keeps two tables:

- the **review table**: reviews keyed by review number, each carrying a product number, an exact-decimal star rating and its content;
- the shared **file table**: file rows carrying an original filename, an object-storage key, a public URL, and a (reference type, reference number) pair that ties the row to its owner.

It offers five operations:

- `getReviewsByProduct` lists a product's reviews together with their files.
- `getReview` fetches one review with its files.
- `createReview` validates the rating, inserts the review, then uploads each given file and saves a file row for it.
- `updateReview` validates the rating and saves the review again.
- `deleteReview` removes the review row.

Failures are the three business error codes `NOT_FOUND_REVIEW`, `INVALID_REVIEW_WRITE_REQUEST` and `INVALID_STAR_RATING_VALUE`. Here they are the `Err` case of a `Result`, not thrown exceptions.

Layout:

- `types.dfy` (module `Types`): the entities, the error codes, and the `Collaborators` the service calls without implementing them. These are the object-storage upload, the repositories' integrity checks and the repository's product query.
- `decimal.dfy` (module `Decimal`): the decimal text of a product number, as `Long.toString` writes it, and its inverse. The text is used in the upload path.
- `rules.dfy` (module `Rules`): each operation as a pure function from the tables before to the result and the tables after, plus the lemmas about them.
- `service.dfy` (module `Service`): class `ReviewService`. Its fields are the review map, the file sequence, the review-number counter, the bucket URL and the collaborators. The last two are fixed at construction, as the source's `final` fields are. Its methods change those fields step by step, with a loop over the uploads. Each method is proved equal to its `Rules` function. `CreateReview`, `UpdateReview` and `DeleteReview` are also proved to keep the store invariant `WellFormed`.

`WellFormed` has three parts:

- every review is stored under its own number;
- every stored number is below the counter;
- every review-tagged file row points below the counter.

The third part is what makes a fresh review start with no attachments, even though deleted reviews leave their file rows behind.

In `createReview` the `try` block covers the review save and every file-row save (ReviewService.java:70-78). So a rejected file row also yields `INVALID_REVIEW_WRITE_REQUEST`, and the transaction rolls the review back.

`createReview` and `updateReview` make the same `saveAndFlush` call on the DTO's entity. The model gives both one meaning, `SavedReview` and `AfterSave`. A number the review table already holds names the row to replace. Any other number inserts the review under the next number.

## Model

| member | source | states |
|---|---|---|
| `Rules.CheckStarRating` | module-api/src/main/java/com/kernel360/review/service/ReviewService.java:113-121 | a rating passes exactly when 0 <= r <= 5, both ends included; otherwise the error is INVALID_STAR_RATING_VALUE |
| `Rules.RatingGatesWrites` | module-api/src/main/java/com/kernel360/review/service/ReviewService.java:64-105 | create and update fail with INVALID_STAR_RATING_VALUE if and only if the rating is outside 0..5, and then neither table changes |
| `Rules.ReviewFiles` | module-api/src/main/java/com/kernel360/review/service/ReviewService.java:54 | the rows returned for a review are exactly the file rows tagged REVIEW_CODE with that reference number, never more rows than the table holds |
| `Rules.GetReviewSpec` | module-api/src/main/java/com/kernel360/review/service/ReviewService.java:51-62 | NOT_FOUND_REVIEW exactly when no review has that number; otherwise that review together with exactly its REVIEW_CODE file rows |
| `Service.ReviewService.GetReview` | module-api/src/main/java/com/kernel360/review/service/ReviewService.java:51-62 | the read-only query returns what GetReviewSpec gives for the current tables |
| `Rules.ListingPairsReviewsWithFiles` | module-api/src/main/java/com/kernel360/review/service/ReviewService.java:43-49 | the listing keeps the repository's order and length, pairs each review with exactly its REVIEW_CODE rows, and agrees with getReview on each stored review |
| `Service.ReviewService.GetReviewsByProduct` | module-api/src/main/java/com/kernel360/review/service/ReviewService.java:43-49 | the read-only listing equals the listing specification over the current tables |
| `Rules.ListSpec` | module-api/src/main/java/com/kernel360/review/service/ReviewService.java:43-49 | one view per review the product query returns, in its order; each view holds that review and exactly the REVIEW_CODE rows with its number |
| `Decimal.LongToString` | module-api/src/main/java/com/kernel360/review/service/ReviewService.java:86 | the text is a minus sign exactly for negative numbers, followed by at least one digit without leading zeros |
| `Decimal.LongRoundTrip` | module-api/src/main/java/com/kernel360/review/service/ReviewService.java:86 | the product number's text in the upload path reads back as that number |
| `Rules.UploadPath` | module-api/src/main/java/com/kernel360/review/service/ReviewService.java:86 | the folder is REVIEW_DOMAIN, a slash, and a text that reads back as the product number |
| `Rules.UploadPathInjective` | module-api/src/main/java/com/kernel360/review/service/ReviewService.java:86 | distinct products upload into distinct folders |
| `Rules.FileUrl` | module-api/src/main/java/com/kernel360/review/service/ReviewService.java:88 | the URL is the bucket URL, a slash, and the key, each readable back from it |
| `Rules.AttachmentRecords` | module-api/src/main/java/com/kernel360/review/service/ReviewService.java:84-91 | one row per upload, in upload order; each is tagged REVIEW_CODE with the review number, keeps the original filename, holds the key returned by the upload to the product's folder and the URL built from that key |
| `Rules.SaveFiles` | module-api/src/main/java/com/kernel360/review/service/ReviewService.java:84-91 | saving the rows one after another, when no save is rejected, leaves the old table with every row appended in order |
| `Rules.SaveFilesFailsIff` | module-api/src/main/java/com/kernel360/review/service/ReviewService.java:84-91 | the per-file saves fail exactly when some row is rejected against the table as it stands after the rows before it |
| `Service.ReviewService.UploadFiles` | module-api/src/main/java/com/kernel360/review/service/ReviewService.java:84-92 | the loop over the uploads succeeds exactly when the sequential saves do, and then the file table is the old one plus one row per upload, in order; on failure the table holds exactly the rows before the first rejected one: each of those was accepted against the table as it then stood, and the rejected row was rejected against the table it leaves |
| `Rules.SavedReview` | module-api/src/main/java/com/kernel360/review/service/ReviewService.java:71 | the row saved keeps every DTO field but the number; a number the table holds is kept, any other is replaced by the next number |
| `Rules.AfterSave` | module-api/src/main/java/com/kernel360/review/service/ReviewService.java:99 | after the save the saved row is stored under its number, every other review is unchanged, no other number appears, and the file table is untouched |
| `Service.ReviewService.SaveAndFlush` | module-api/src/main/java/com/kernel360/review/service/ReviewService.java:71 | the save fails exactly when the repository rejects the row, and then nothing changes; otherwise the tables are those AfterSave gives |
| `Rules.CreateReviewSpec` | module-api/src/main/java/com/kernel360/review/service/ReviewService.java:64-92 | a failure leaves both tables as they were and is never NOT_FOUND_REVIEW; a success stores the returned review under its number and keeps the old file rows as a prefix, followed by one new row per upload |
| `Rules.CreateAddsReviewAndAttachments` | module-api/src/main/java/com/kernel360/review/service/ReviewService.java:64-92 | a successful create returns the DTO under the saved number. If the DTO's number is not stored, that is a new, unused number and the review count grows by one. Otherwise the stored review is replaced and the count stays. Exactly N rows are appended for N uploads (none for a null list), in order; each row has REVIEW_CODE, the saved number, the original filename, the key uploaded under REVIEW_DOMAIN/productNo, and URL bucketUrl/key |
| `Rules.CreateThenGetReview` | module-api/src/main/java/com/kernel360/review/service/ReviewService.java:51-92 | after a successful create, getReview of the saved number yields the saved review with the rows it had, followed by the new rows in the order they were saved; for a newly inserted review these are exactly the new rows |
| `Rules.CreateWriteFailureRollsBack` | module-api/src/main/java/com/kernel360/review/service/ReviewService.java:64-78 | create yields INVALID_REVIEW_WRITE_REQUEST exactly when the rating passes and either the review save or some file-row save breaks integrity; any failure leaves both tables as they were |
| `Service.ReviewService.CreateReview` | module-api/src/main/java/com/kernel360/review/service/ReviewService.java:64-82 | the method's result and new tables are those of CreateReviewSpec on the old tables, and the store invariant is kept |
| `Rules.UpdateReviewSpec` | module-api/src/main/java/com/kernel360/review/service/ReviewService.java:94-105 | update never touches the file table; a failure changes nothing and is never NOT_FOUND_REVIEW; a success stores the saved review under its number |
| `Rules.CreateAndUpdateSaveAlike` | module-api/src/main/java/com/kernel360/review/service/ReviewService.java:64-105 | with no uploads, create and update leave the same tables and succeed or fail together: both make the same save |
| `Rules.UpdateReplacesReview` | module-api/src/main/java/com/kernel360/review/service/ReviewService.java:94-105 | updating a stored review with a valid rating and no integrity violation replaces exactly that review; the file table and all other reviews are unchanged, and getReview then shows the new review with its old rows |
| `Rules.UpdateKeepsFiles` | module-api/src/main/java/com/kernel360/review/service/ReviewService.java:94-105 | update never changes the file table; it yields INVALID_REVIEW_WRITE_REQUEST exactly when the rating passes and the save is rejected; any failure changes nothing |
| `Service.ReviewService.UpdateReview` | module-api/src/main/java/com/kernel360/review/service/ReviewService.java:94-105 | the method's result and new tables are those of UpdateReviewSpec, and the store invariant is kept |
| `Rules.DeleteReviewSpec` | module-api/src/main/java/com/kernel360/review/service/ReviewService.java:107-111 | delete removes exactly that number from the review table, keeps every other review as it was, and leaves the file table and the counter alone |
| `Rules.DeleteRemovesOnlyReview` | module-api/src/main/java/com/kernel360/review/service/ReviewService.java:107-111 | after delete, getReview of that number yields NOT_FOUND_REVIEW; every other review reads as before; the file table, including that review's own rows, is unchanged |
| `Service.ReviewService.DeleteReview` | module-api/src/main/java/com/kernel360/review/service/ReviewService.java:107-111 | the new tables are those of DeleteReviewSpec, and the store invariant is kept |
| `Rules.OperationsPreserveWellFormed` | module-api/src/main/java/com/kernel360/review/service/ReviewService.java:64-111 | create, update and delete each keep the store invariant |
| `Service.ReviewService.constructor` | module-api/src/main/java/com/kernel360/review/service/ReviewService.java:30-37 | a new service holds the given bucket URL and collaborators and two empty tables, and satisfies the invariant |

## Left out

- Logging: the `log.info` calls are output only.
- Spring wiring: dependency injection, `@Value` loading of the bucket URL and injection of the repositories and the uploader (here constructor arguments) and the `@Transactional` machinery. The transaction is modelled as "on an integrity failure, restore the tables as they were when the operation started".
- Review-number counter: the rollback restores the counter too. A real database identity column may skip the numbers consumed by a rolled-back insert.
- Object storage: `FileUtils.upload` is an arbitrary total function from (path, file) to key. Its byte handling, its own failures, and objects left in the bucket after a rollback are not modelled.
- Integrity checks: the repositories' checks are arbitrary predicates over the tables and the row being saved. A violation detected only at commit, outside the `try` block, is not modelled.
- Sorting and paging of `getReviewsByProduct`: `sortBy`, `Pageable` and the `Page` wrapper are folded into the arbitrary `findByProduct` collaborator, which returns a sequence of reviews.
- DTO and entity mapping: `ReviewDto.from`, `toEntity`, and review fields other than number, product, rating and content (author, timestamps). `REVIEW_DOMAIN` and `REVIEW_CODE` are constants whose values are not modelled.
- Null arguments: a null star rating, product number, filename or review number is not modelled. Only a null file list is modelled, as `None`; it saves no rows.
- Order of attachments: `findByReferenceTypeAndReferenceNo` fixes no order. The model returns the rows in insertion order.
- 64-bit integers: review and product numbers are unbounded integers; `Long` overflow is not modelled.
- Saving a review whose number is absent: this is up to the repository and is not visible in the source. The model follows the classic JPA merge for both create and update: the review is inserted under a fresh number.
- deleteReview on an absent number: modelled as doing nothing. A failure inside `deleteById` is not modelled; the source does not translate it either.
