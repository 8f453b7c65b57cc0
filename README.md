# AWSIntegration facade — verified model

AWSIntegration is a thin C# facade over the AWS SDK. It has a storage part
(`S3Integration`), a mail part (`SESIntegration`) and a helper (`Util`). This
project models the logic the facade itself defines, in Dafny, and proves
what that logic promises.

- **Email validation** (`Util.dfy`). `IsValidEmail` is a hand-written
  recogniser of the address regex. It splits at the first `@` and then at
  the dots of each half, and checks character classes. It is proved equal
  to the grammar: one or more dot-separated atoms, one `@`, then two or more
  dot-separated labels. As `\Z` allows, one trailing newline is accepted.
  Matching ignores ASCII case. `ValidateEmailList` is the short-circuiting
  loop, proved against the "null, empty or all valid" predicate.
- **Storage decisions** (`S3Integration.dfy`):
  - bucket-name normalisation and the create-if-absent decision;
  - the empty-name guard of `CreateBucket`;
  - the metadata copy into a `PutObjectRequest` object;
  - the 16 KiB buffered read loop of `GetFile`;
  - the error mapping of `DeletingAnObject`;
  - the optional fields of the `ListObjects` request.
- **Mail guards** (`SESIntegration.dfy`). Validation comes before any
  request. `hideCopy` chooses Bcc or To. The one-recipient `SendMail`
  delegates to the list form. The verified-list lookup is exact.
- `Text.dfy` holds the .NET string behaviour the facade relies on: ASCII
  `ToLower`, `Char.IsWhiteSpace` and `Trim`. `Service.dfy` holds the HTTP OK
  status, the SDK faults and the facade's exceptions. `Wrappers.dfy` holds
  `Option` and `Result`.

The remote services are not modelled. Each one appears only as the answers
it gives, passed in as parameters:

- the bucket listing, `None` for a null list;
- an HTTP status code;
- the chunks a response stream yields;
- the verified-address list;
- a fault the SDK raises (`ServiceReply.Raised`).

Each bucket and mail operation returns the requests it would send, in
order. "The service is not contacted" therefore reads `calls == []`.

## Model

| member | source | states |
|---|---|---|
| Util.MatchesAddressIff | AWSIntegration/Util.cs:11 | Without the optional newline, the recogniser accepts a string iff it is a non-empty list of atoms joined by dots, then `@`, then two or more labels joined by dots. |
| Util.IsValidEmail | AWSIntegration/Util.cs:9-16 | An accepted address contains `@` and does not start with it; the full characterisation is `IsValidEmailIff`. |
| Util.IsValidEmailIff | AWSIntegration/Util.cs:9-16 | `IsValidEmail` accepts exactly the grammar language, or a word of it followed by one `\n` (what `\Z` admits). |
| Util.LocalPartShape | AWSIntegration/Util.cs:11 | The part before `@` is accepted iff it is non-empty, uses only atom characters and dots, and has no leading, trailing or doubled dot. |
| Util.DomainShape | AWSIntegration/Util.cs:11 | The part after `@` is accepted iff it contains a dot, every label is non-empty and begins and ends with a letter or digit, and `-` appears only inside labels. |
| Util.MatchesAddressShape | AWSIntegration/Util.cs:11 | The same acceptance, stated character by character around the first `@`. |
| Util.AcceptedAddressShape | AWSIntegration/Util.cs:11 | Every accepted string has exactly one `@`, and a dot after it. |
| Util.RejectsUnlessOneAt | AWSIntegration/Util.cs:11 | A string with no `@`, or with more than one, is rejected. |
| Util.RejectsDoubleAt | AWSIntegration/Util.cs:11 | `"user@@example"` is rejected. |
| Util.AcceptsPlainAddress | AWSIntegration/Util.cs:11 | `"user@example.com"` is accepted. |
| Util.AcceptsCapitalisedAddress | AWSIntegration/Util.cs:11-13 | `"User@example.com"` is accepted. |
| Util.IsValidEmailIgnoresCase | AWSIntegration/Util.cs:13 | Two strings that differ only in the case of ASCII letters are both accepted or both rejected. |
| Util.ValidateEmailList | AWSIntegration/Util.cs:18-32 | True iff the list is null, empty, or all valid. On false, the element at which it stopped is the first invalid one, and every element before it is valid. |
| Util.ListWithInvalidAddressRejected | AWSIntegration/Util.cs:24-30 | `["a@b.com", "bad"]` is not a valid list. |
| Text.TrimIgnoresPadding | AWSIntegration/S3Integration.cs:65 | White space around a string never changes what `Trim` returns. |
| S3Integration.NormalizeBucketName | AWSIntegration/S3Integration.cs:65 | The normalised name is lower-case, no longer than the input, and has no white space at either end. |
| S3Integration.NormalFormIff | AWSIntegration/S3Integration.cs:65 | Normalising leaves a name unchanged iff it is lower-case and unpadded. |
| S3Integration.NormalizeIdempotent | AWSIntegration/S3Integration.cs:65 | Normalising twice is normalising once. |
| S3Integration.NormalizeIgnoresCaseAndPadding | AWSIntegration/S3Integration.cs:65 | Names that differ only in ASCII case and surrounding white space normalise alike. |
| S3Integration.BucketExists | AWSIntegration/S3Integration.cs:71 | True iff some listed bucket name, lower-cased, equals the name sought. |
| S3Integration.CreateBucket | AWSIntegration/S3Integration.cs:86-101 | A null or empty name gives false with no request. Any other name gives exactly one `PutBucket` of that name, and true iff the status is OK. |
| S3Integration.CreateBucketIfNotExists | AWSIntegration/S3Integration.cs:61-79 | A null or empty name sends nothing. Otherwise the listing is sent first and exactly once. One creation follows it exactly when a creation is requested; otherwise the listing is the only request. A creation is requested iff the listing is non-null, no listed name lower-cased equals the normalised name, and that name is non-empty; it uses the normalised name. |
| S3Integration.ProvisioningIgnoresCaseAndPadding | AWSIntegration/S3Integration.cs:65-76 | Two non-empty names that differ only in case and surrounding white space send the same requests against the same listing. |
| S3Integration.CreatedNamesAreNormal | AWSIntegration/S3Integration.cs:65-75 | Every bucket created has a non-empty, already normalised name. |
| S3Integration.WhiteSpaceNameIsNeverCreated | AWSIntegration/S3Integration.cs:63-75 | A non-empty name made only of white space is listed but never created, because `CreateBucket` refuses the empty normalised name. |
| S3Integration.PaddedNameNormalizes | AWSIntegration/S3Integration.cs:65 | `"Photos"` with any white-space padding normalises to `"photos"`. |
| S3Integration.ExistingBucketIsNotCreated | AWSIntegration/S3Integration.cs:65-76 | A listed `"PHOTOS"` matches a padded `"Photos"`, so only the listing is sent. |
| S3Integration.AbsentBucketIsCreated | AWSIntegration/S3Integration.cs:65-76 | Against a listing without it, a padded `"Photos"` is created as `"photos"`. |
| S3Integration.PutObjectRequest.constructor | AWSIntegration/S3Integration.cs:135 | A new request has no field set and no metadata. |
| S3Integration.PutObjectRequest.AddMetadata | AWSIntegration/S3Integration.cs:140-146 | The new metadata is the old metadata plus every entry of a non-null dictionary. A null or empty dictionary adds nothing. The other fields are unchanged. |
| S3Integration.CreateFile | AWSIntegration/S3Integration.cs:131-151 | The request carries the content, bucket, key and exactly the given metadata. The answer is true iff the status is OK. |
| S3Integration.UploadFile | AWSIntegration/S3Integration.cs:158-190 | Provisioning is exactly `CreateBucketIfNotExists` of the raw name. The request names the bucket as given, not normalised, and carries the stream and exactly the given metadata. The answer is true iff the status is OK. |
| S3Integration.UploadFileWithoutMetadata | AWSIntegration/S3Integration.cs:153-156 | The same upload with empty metadata. |
| S3Integration.FirstEmpty | AWSIntegration/S3Integration.cs:209 | The first position whose read is empty, or the end of the stream. Every earlier read is non-empty. |
| S3Integration.Read | AWSIntegration/S3Integration.cs:209 | A read copies the next chunk into the front of the buffer and returns its length. Past the end it returns 0. |
| S3Integration.GetFile | AWSIntegration/S3Integration.cs:192-218 | The result is the concatenation, in read order, of every chunk read before the first empty read, each chunk at most 16384 bytes. |
| S3Integration.GetFileReturnsWholeObject | AWSIntegration/S3Integration.cs:204-214 | An object of any size, delivered as any sequence of non-empty chunks of at most the buffer size, comes back whole. |
| S3Integration.ChunksDeliverWholeObject | AWSIntegration/S3Integration.cs:204-214 | Such a delivery exists for every object: full buffers, then the rest, and reading it back gives the object. |
| S3Integration.ReadingStopsAtFirstEmpty | AWSIntegration/S3Integration.cs:209-212 | Data after the first empty read never reaches the result. |
| S3Integration.DeleteFailedMessage | AWSIntegration/S3Integration.cs:243 | The text is exactly `An error occurred with the message '<message>' when deleting an object`; the message sits between the fixed prefix and suffix. |
| S3Integration.DeleteFailureMessageText | AWSIntegration/S3Integration.cs:237-243 | A storage-service failure with no error code and message `x` throws exactly `An error occurred with the message 'x' when deleting an object`. |
| S3Integration.ParseDeleteFailedMessage | AWSIntegration/S3Integration.cs:243 | A message it parses is exactly the generic deletion message built around the recovered text. |
| S3Integration.DeleteFailedMessageRoundTrip | AWSIntegration/S3Integration.cs:243 | The generic deletion message gives back the service's message. |
| S3Integration.DeletingAnObject | AWSIntegration/S3Integration.cs:220-245 | A successful delete throws nothing. A storage-service exception with code `InvalidAccessKeyId` or `InvalidSecurity` throws exactly the credentials message. Any other code, including none, throws the generic message, from which the original message can be recovered. Other faults pass through unchanged. |
| S3Integration.CredentialsMessageIsNotDeleteFailed | AWSIntegration/S3Integration.cs:241-243 | The credentials message is never a generic deletion message. |
| S3Integration.ListObjects | AWSIntegration/S3Integration.cs:247-268 | The request names the bucket. It carries the prefix iff one is given and non-empty, and the key limit iff one is given. |
| SESIntegration.SendMail | AWSIntegration/SESIntegration.cs:65-113 | An invalid sender or any invalid recipient throws `InvalidOperationException` with no request sent. Otherwise exactly one request goes out, with the given sender, subject and HTML body. Its recipients are all Bcc when `hideCopy` holds and all To otherwise. The answer is true iff the status is OK, and a fault is rethrown unchanged. |
| SESIntegration.SendMailTo | AWSIntegration/SESIntegration.cs:43-50 | Equal to the list form with `[to]` and no hidden copy. It sends iff both addresses are valid, with `to` as the only direct recipient. |
| SESIntegration.InvalidRecipientStopsSend | AWSIntegration/SESIntegration.cs:67-70 | An invalid recipient at any position stops the send before any request. |
| SESIntegration.NoRecipientsStillSends | AWSIntegration/SESIntegration.cs:67 | A null or empty recipient list passes validation. |
| SESIntegration.RecipientsInOneField | AWSIntegration/SESIntegration.cs:84-92 | The list appears in exactly one of To and Bcc, and it is Bcc iff `hideCopy` holds. |
| SESIntegration.DoubleAtSenderRefused | AWSIntegration/SESIntegration.cs:67-70 | A sender `"user@@example"` is refused before any request. |
| SESIntegration.IsVerifiedEmail | AWSIntegration/SESIntegration.cs:121-136 | An invalid address throws with no request sent. Otherwise only the verified list is fetched, and the answer is whether it holds exactly this string. A fault passes through. |
| SESIntegration.VerificationIsCaseSensitive | AWSIntegration/SESIntegration.cs:123-134 | `"User@example.com"` is valid but not verified by a list holding `"user@example.com"`, which is verified. |
| SESIntegration.SendVerificationEmailAmazonSES | AWSIntegration/SESIntegration.cs:145-159 | An invalid address throws with no request sent. Otherwise one verification request carries the address, and the answer is true iff the status is OK. |

## Left out

- `GlacierIntegration.cs` is not part of this model. It only builds SDK requests from its arguments.
- Client construction, configuration reads, region endpoints and `using` scoping are left out. They are I/O and plumbing.
- `ListBuckets`, `ListBucketNames` and `DeleteBucket` only forward to the SDK. The listing appears only as the input of `CreateBucketIfNotExists`.
- The race between listing and creating a bucket is left out. The model is one sequential call.
- Case folding is modelled for ASCII letters only. Culture-sensitive `ToLower` and the extra letters `IgnoreCase` folds (such as the Kelvin sign) are not.
- The regex engine is replaced by the recogniser, which is proved equal to the grammar.
- Null strings and null list elements are left out. `IsValidEmail` throws on them. Strings in the model are never null. Null is modelled only where the facade tests for it: bucket names, metadata dictionaries, the prefix and recipient lists.
- S3Integration.CreateBucket: a fault raised by the service is not modelled. The status code is the only answer, and the bucket region on the request is left out.
- S3Integration.CreateBucketIfNotExists: faults from the listing or the creation are not modelled.
- S3Integration.CreateFile: a fault from the upload is not modelled.
- S3Integration.UploadFile: a fault from the upload is not modelled.
- S3Integration.GetFile: a fault from the download is not modelled. The response stream is the sequence of chunks its reads return.
- S3Integration.ListObjects: the model returns the request it builds, not the service's listing.
- The `byte[]` overload of `UploadFile` with metadata wraps the bytes in a stream and calls the stream overload. It is `UploadFile` itself, since a stream is modelled by its bytes.
- S3Integration.PutObjectRequest.AddMetadata: the SDK's `x-amz-meta-` key prefixing and its merging of keys that collide are not modelled. The model treats the request's metadata as exactly the dictionary, so a dictionary holding both `foo` and `x-amz-meta-foo`, which the SDK would write to one header, is not captured.
- HTTP semantics, request marshalling and the MIME body of mail are left out.
- SESIntegration.IsVerifiedEmail: a null verified list is not modelled. The reply's list is never null.
- `CreateBucketIfNotExists` reassigns its parameter, and `SendMail` fills its request field by field. Both are pure functions here, with let-bindings and datatype updates.
