# Imgur upload service: a verified model

This project models three pieces of the Imgur upload backend, a Spring service
that uploads images to Imgur and records which user owns which remote image:

- **The user service** (`ownership.dfy`, module `Ownership`): the users table
  and the user_images ownership table, each a sequence in insertion order (the order every query returns), with
  registration, image association, the list/single/delete-hash lookups and
  removal. The class `UserService` holds the two tables and the generated-id
  counters and updates them in place; the repository's derived queries are
  filter functions over the tables. The data model's central promise is proved:
  the public image view never exposes a delete hash (`ViewsHideDeleteHash`: two
  tables that differ only in delete hashes give identical views).
  `RegisterScenario`, `UploadScenario` and `RemoveScenario` drive the class
  through a registration, an upload and a removal, asserting what each step
  leaves behind.
- **The Imgur client** (`imgur.dfy`, module `Imgur`): how `uploadImage`,
  `getImage` and `deleteImage` build their request and interpret the answer. The
  HTTP exchange is a function parameter `server: Request -> Exchange`, so each
  result is tied to the request the client builds, including the URL string
  produced by replacing every `{imageHash}` in the configured template (before
  RestTemplate's own URI-template expansion and encoding).
- **The JWT cookie scan** (`jwt.dfy`, module `JwtFilter`): the loop in the request
  filter that takes the value of the first cookie named exactly `JWT`, as a
  method over a nullable cookie array proved against a recursive specification,
  and the filter step that passes a found token to the username extractor (a
  parameter) before handing the request down the chain.

`wrappers.dfy` holds the `Option` and `Result` datatypes used for Java's `null`
and its exceptions.

Inputs the source takes from its environment are parameters: the upload time
(`LocalDateTime.now()`) is passed to `AssociateImageWithUser`; the password
encoder is an uninterpreted function fixed when the service is constructed; the
network is the `server` function; the filter's username extractor is the
`extractUsername` function.

Two behaviours of the code worth knowing:

- The code enforces no uniqueness of (user, image hash): there is no
  constraint and no check. `AssociateImageWithUser` saves a duplicate. Afterwards the
  single-result pair query finds two rows and throws (`MultipleResults`, which
  stands for Spring Data's `IncorrectResultSizeDataAccessException`). This is
  proved in `LookupAfterSave`. Uniqueness of pairs is therefore a separate
  predicate, `PairsUnique`. Saving a record for a fresh pair preserves it
  (`PairsUniqueAfterSave`), so does removing a record
  (`PairsUniqueAfterRemoval`, and `RemoveImageAssociation` keeps it), and under
  it lookups never throw.
- The exceptions of the Imgur client carry fixed messages, not the provider's
  own; the model uses those messages.

## Model

| member | source | states |
|---|---|---|
| Ownership.UserService.RegisterUser | src/main/java/com/synch/imgur/upload/service/UserServiceImpl.java:28-57 | a taken username is refused first with "Username already exists", then a taken email with "Email already exists", both leaving the tables unchanged; otherwise exactly one user is appended with the given username and email and `encode(password)`, and the returned DTO has username and email and no password; the new user is then found by name; table invariants kept |
| Ownership.GetUserByUsernameMeaning | src/main/java/com/synch/imgur/upload/service/UserServiceImpl.java:59-69 | getUserByUsername succeeds exactly when a user has that name, returning that user's DTO; otherwise the error "User not found: " + username |
| Ownership.UserService.AssociateImageWithUser | src/main/java/com/synch/imgur/upload/service/UserServiceImpl.java:71-95 | unknown username: the error "User not found: " + username and nothing saved; otherwise exactly one record is appended with the next id, owned by the user the lookup found, holding the given hash, delete hash, URL and time, and the returned view has hash, URL and date and no delete hash; the table invariants are kept (what the save does to the queries is stated by ViewsAfterSave, LookupAfterSave and PairsUniqueAfterSave) |
| Ownership.GetUserImagesMeaning | src/main/java/com/synch/imgur/upload/service/UserServiceImpl.java:97-103 | getUserImages returns one view per record whose owner has that username, and every view comes from such a record (none of another user's) |
| Ownership.GetUserImageMeaning | src/main/java/com/synch/imgur/upload/service/UserServiceImpl.java:105-111 | getUserImage gives null exactly when no record of that user has that hash (even if another user owns it); otherwise the view of such a record; never the multiple-rows exception while pairs are unique |
| Ownership.GetImageDeleteHashMeaning | src/main/java/com/synch/imgur/upload/service/UserServiceImpl.java:113-119 | getImageDeleteHash gives null exactly when no record matches (username, imageHash); otherwise the stored delete hash of a matching record; never the multiple-rows exception while pairs are unique |
| Ownership.UserService.RemoveImageAssociation | src/main/java/com/synch/imgur/upload/service/UserServiceImpl.java:121-127 | no match: no-op; one match: exactly that record is removed and all others stay in order; two matches: error and no change; after success the pair's view and delete hash are not found, and every other user's list is unchanged; pair uniqueness is kept |
| Ownership.UserDtoHidesCredentials | src/main/java/com/synch/imgur/upload/service/UserServiceImpl.java:129-134 | the user DTO does not depend on the stored password or the id, and its password is null |
| Ownership.ViewsHideDeleteHash | src/main/java/com/synch/imgur/upload/service/UserServiceImpl.java:136-142 | tables that differ only in delete hashes give every user the same image list and every pair the same single view: no view reveals a delete hash |
| Ownership.FilterIgnoresDeleteHash | src/main/java/com/synch/imgur/upload/repository/UserImageRepository.java:11-12 | the two derived queries select the same rows from tables that differ only in delete hashes |
| Ownership.ViewsOfUser | src/main/java/com/synch/imgur/upload/service/UserServiceImpl.java:98-102 | a view is in a user's list exactly when it is the view of a record that user owns |
| Ownership.FilterMembership | src/main/java/com/synch/imgur/upload/repository/UserImageRepository.java:11 | a record is in a filtered query exactly when it is in the table and satisfies the query's condition |
| Ownership.FilterConcat | src/main/java/com/synch/imgur/upload/repository/UserImageRepository.java:11 | a query over two table segments is the query over the first followed by the query over the second: results keep table order |
| Ownership.FilterCommute | src/main/java/com/synch/imgur/upload/repository/UserImageRepository.java:11 | applying two query conditions in either order selects the same rows |
| Ownership.FilterKeepsAll | src/main/java/com/synch/imgur/upload/repository/UserImageRepository.java:11 | a query whose condition every row meets returns the whole table |
| Ownership.FindByUsernameSound | src/main/java/com/synch/imgur/upload/service/UserServiceImpl.java:77-83 | the user lookup finds someone exactly when a user has that name, and what it finds is a registered user with that name |
| Ownership.PairLookupNotFound | src/main/java/com/synch/imgur/upload/repository/UserImageRepository.java:12 | the pair query is empty exactly when no record has that owner username and that hash |
| Ownership.PairLookupFound | src/main/java/com/synch/imgur/upload/repository/UserImageRepository.java:12 | the record the pair query returns is in the table, with that owner username and hash |
| Ownership.OtherOwnersHashNotFound | src/main/java/com/synch/imgur/upload/service/UserServiceImpl.java:106-119 | when every record with that hash belongs to another user, the lookup for this user finds nothing (no ownership leak) |
| Ownership.PairsUniqueLookupDefinite | src/main/java/com/synch/imgur/upload/repository/UserImageRepository.java:12 | while pairs are unique the pair query matches at most one row, so it never throws |
| Ownership.FilterAppend | src/main/java/com/synch/imgur/upload/service/UserServiceImpl.java:91 | saving a row appends it to exactly the queries whose condition it meets |
| Ownership.LookupAfterSave | src/main/java/com/synch/imgur/upload/service/UserServiceImpl.java:85-91 | after a save, a previously absent pair is found as the saved record; a pair that was already present is now a two-row lookup |
| Ownership.OtherLookupsAfterSave | src/main/java/com/synch/imgur/upload/service/UserServiceImpl.java:85-91 | saving a record leaves the lookup of every other pair unchanged |
| Ownership.PairsUniqueAfterSave | src/main/java/com/synch/imgur/upload/service/UserServiceImpl.java:85-91 | saving a record for a fresh pair keeps pairs unique |
| Ownership.PairsUniqueAfterRemoval | src/main/java/com/synch/imgur/upload/service/UserServiceImpl.java:121-127 | removing any one record keeps pairs unique |
| Ownership.ViewsAfterSave | src/main/java/com/synch/imgur/upload/service/UserServiceImpl.java:85-94 | saving a record appends its view to its owner's list and to no one else's |
| Ownership.DeleteRemovesOne | src/main/java/com/synch/imgur/upload/service/UserServiceImpl.java:125-126 | with ids unique, deleting a record removes exactly that position and keeps the rest in order |
| Ownership.FilterDropsOne | src/main/java/com/synch/imgur/upload/repository/UserImageRepository.java:11 | a query condition that rejects exactly one row returns the table without that row, in order |
| Ownership.RemovalOfFound | src/main/java/com/synch/imgur/upload/service/UserServiceImpl.java:123-127 | deleting the record the pair query found removes exactly its position, keeps the tables valid, makes the pair not found and leaves every other user's records as they were |
| Ownership.LookupAfterDelete | src/main/java/com/synch/imgur/upload/service/UserServiceImpl.java:123-127 | after the found record is deleted, its pair is not found |
| Ownership.OtherUsersAfterDelete | src/main/java/com/synch/imgur/upload/service/UserServiceImpl.java:123-127 | deleting one user's record leaves every other user's list unchanged |
| Ownership.TablesValidAfterRemoval | src/main/java/com/synch/imgur/upload/service/UserServiceImpl.java:125-126 | removing one record keeps ids distinct and owners registered |
| Ownership.TablesValidAfterSave | src/main/java/com/synch/imgur/upload/service/UserServiceImpl.java:85-91 | saving a record with the next id for a registered owner keeps ids below the counter and distinct, and owners registered |
| Ownership.SingleRecordQueries | src/main/java/com/synch/imgur/upload/service/UserServiceImpl.java:97-119 | with one record in the table, its owner's list is exactly its view, the pair lookup finds its view and delete hash, and another user asking for the same hash finds nothing |
| Imgur.UploadImage | src/main/java/com/synch/imgur/upload/service/ImgurService.java:47-97 | an unreadable file gives ImageProcessingException("Failed to process image file"); a transport failure gives ImgurApiException("Failed to communicate with Imgur API") with a cause; an absent body or a false flag gives ImgurApiException("Failed to upload image to Imgur") without a cause, not re-wrapped; a result map exists exactly on a successful envelope with link, deletehash and id, and then has exactly the keys imageUrl, deleteHash, imageHash holding those values |
| Imgur.UploadRoundTrip | src/main/java/com/synch/imgur/upload/service/ImgurService.java:78-86 | the identifiers the provider issues for an upload come back unchanged under imageUrl, deleteHash and imageHash, whatever else the data object holds |
| Imgur.UnreadableFileNeverSent | src/main/java/com/synch/imgur/upload/service/ImgurService.java:53 | when the file's bytes cannot be read the result is an error that does not depend on the provider at all |
| Imgur.GetImage | src/main/java/com/synch/imgur/upload/service/ImgurService.java:107-134 | absent body, false flag and transport failure all give ImgurApiException("Failed to retrieve image from Imgur"), only the last with a cause; a result map exists exactly on a successful envelope with all five fields, and then has exactly the keys imageUrl, type, width, height, size holding link, type, width, height, size |
| Imgur.GetImageDefaultUrl | src/main/java/com/synch/imgur/upload/service/ImgurService.java:111 | with the default configuration the metadata request is a GET of "https://api.imgur.com/3/image/" + hash |
| Imgur.DeleteImage | src/main/java/com/synch/imgur/upload/service/ImgurService.java:142-165 | returns normally exactly when the body is present and its flag is true; a transport failure, an absent body or a false flag give ImgurApiException("Failed to delete image from Imgur") |
| Imgur.DeleteUsesDeleteHash | src/main/java/com/synch/imgur/upload/service/ImgurService.java:146 | the default delete URL is the prefix followed by the delete hash, and equals an image's fetch URL only when the delete hash is that image hash |
| Imgur.FailureIsNeverSuccess | src/main/java/com/synch/imgur/upload/service/ImgurService.java:78-89 | a provider that only fails or refuses never yields a result from any of the three calls, and the error is never the null-dereference of a malformed envelope |
| Imgur.ExchangeCasesExhaustive | src/main/java/com/synch/imgur/upload/service/ImgurService.java:78 | every answer is exactly one of transport failure, success, refusal or an envelope without a success field |
| Imgur.DefaultImageUrl | src/main/java/com/synch/imgur/upload/config/ImgurProperties.java:13-15 | the default image and delete templates turn a hash into "https://api.imgur.com/3/image/" + hash, and distinct hashes into distinct URLs |
| Imgur.SubstituteNoPlaceholder | src/main/java/com/synch/imgur/upload/service/ImgurService.java:111 | a template with no `{imageHash}` is left unchanged |
| Imgur.SubstituteAfterPlainPrefix | src/main/java/com/synch/imgur/upload/service/ImgurService.java:111 | text without `{` is copied, the placeholder right after it becomes the value, and replacement continues on the rest |
| Imgur.SubstituteFirstMatch | src/main/java/com/synch/imgur/upload/service/ImgurService.java:111 | for any template, the text before the first placeholder occurrence is kept, that occurrence becomes the value, and replacement resumes right after it; with SubstituteNoPlaceholder this fixes the result of every template, as `String.replace` replaces every non-overlapping occurrence left to right |
| Imgur.MatchShift | src/main/java/com/synch/imgur/upload/service/ImgurService.java:111 | dropping the first character of a template moves every placeholder occurrence one position earlier |
| JwtFilter.ExtractToken | src/main/java/com/synch/imgur/upload/security/JwtRequestFilter.java:31-39 | a null cookie array gives no token; otherwise the loop returns FirstToken of the array |
| JwtFilter.FirstTokenIsFirstMatch | src/main/java/com/synch/imgur/upload/security/JwtRequestFilter.java:33-38 | the token is v exactly when some cookie named "JWT" holds v and no earlier cookie is named "JWT" |
| JwtFilter.NoTokenIffNoJwtCookie | src/main/java/com/synch/imgur/upload/security/JwtRequestFilter.java:31-39 | there is no token exactly when no cookie is named "JWT" |
| JwtFilter.LaterCookiesIgnored | src/main/java/com/synch/imgur/upload/security/JwtRequestFilter.java:36 | once a "JWT" cookie is found, cookies after it, including other "JWT" cookies, do not change the token |
| JwtFilter.NonTokenCookieIgnored | src/main/java/com/synch/imgur/upload/security/JwtRequestFilter.java:34 | a cookie whose name is not exactly "JWT" (the match is case-sensitive, so "jwt" is such a cookie) never changes the token, wherever it sits in the array |
| JwtFilter.DoFilter | src/main/java/com/synch/imgur/upload/security/JwtRequestFilter.java:24-49 | the decode exception escapes exactly when a token was found and the username extractor throws on it, and then the chain is not called; otherwise the request is handed down the chain unchanged |

## Left out

- HTTP transport: `RestTemplate.exchange`/`getForEntity`, the connection pool, timeouts and the authorization header interceptor. They are network plumbing. Any RestClientException, a non-2xx status included, is the single `TransportFailure` answer.
- JSON decoding: a field's text (`asText`) and the flag's boolean reading (`asBoolean`) are given directly in the `Envelope`. So the model does not cover how Jackson converts non-text or non-boolean nodes.
- Imgur.UploadImage, Imgur.GetImage, Imgur.DeleteImage: an absent `success` field, an absent `data` object or an absent data field is modelled as an escaping NullPointerException. The JVM message of that exception is not modelled.
- Imgur.GetImage, Imgur.DeleteImage: the URL in the model is the string handed to RestTemplate, before RestTemplate expands it as a URI template and percent-encodes it. A hash or delete hash containing `{name}` makes that expansion throw IllegalArgumentException, which is not a RestClientException and escapes the client's catch blocks; this case is not modelled, and neither is the encoding of other characters.
- Query order: the derived queries (`findByUserUsername` has no ordering clause) promise no order in the database. The model fixes the order of every query to insertion order, so order-sensitive statements (FilterConcat, ViewsAfterSave, DeleteRemovesOne) hold of the model only.
- The multipart form and its headers: the image part is modelled as the file's bytes and original filename, nothing more.
- Logging and `@Transactional` semantics. Each service method is one atomic step, and a thrown lookup error leaves the tables unchanged.
- JPA cascades and the `images` collection on `User`. Users are never deleted here, so cascading has no effect in the model.
- Generated ids: IDENTITY generation is modelled as counters that start at 1 and increase.
- `UserRepository` is not part of this model. `existsByUsername`, `existsByEmail` and `findByUsername` are given their derived-query meaning over the users table.
- Java `null` in DTO fields other than the password, and null arguments to the service methods.
- Ownership.UserService.RegisterUser: the exception is modelled by its inner DuplicateResourceException message. The wrapping RuntimeException and its message text are not modelled.
- Ownership.UserService.AssociateImageWithUser: the same holds for UserNotFoundException.
- Ownership.GetUserByUsernameMeaning: the same holds for the UserNotFoundException that getUserByUsername wraps in a RuntimeException.
- The password encoder is an uninterpreted function. An exception it might throw on a null password is not modelled.
- JwtFilter.DoFilter: `extractUsername`, which the filter calls on a found token, is not defined in `JwtUtil`; it is a parameter that returns or throws (JwtUtil's only decoder, `JWT.decode`, throws on a malformed token). Token verification, expiry and authentication are not modelled: they are a foreign HMAC library and the wall clock, and the filter's authentication step is only a comment.
- The servlet chain itself. `DoFilter` only states what is passed on.
- The image controller, the stand-alone image service and the upload/fetch/delete orchestrator. They contain no logic of their own, or their implementation is not in this repository.
- The user controller and the security configuration, which are framework wiring.
