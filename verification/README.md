# Authors Haven core, modelled in Dafny

This project models the rule-bearing core of the Authors Haven blogging
backend (a Django REST application) and proves properties of it:

- **Article interactions** (`article_ledger.dfy`, module `ArticleLedger`).
  - Rating validation. `re.match("[1-5]")` looks at the first character only.
  - The rating serializer's own-article and rate-twice checks.
  - The 8000-character limit on comment bodies.
  - The like/dislike table and its three verbs: save, update and delete.
- **Marking notifications as read** (`notifications.dfy`, module `NotificationRead`).
  - The validator that compares the requested ids with the caller's unread notifications, including the exact rejection message.
  - The loop that sets `read_status`.
- **The social graph** (`profiles.dfy`, module `Profiles`).
  - The asymmetric `follows` relation.
  - The follow and unfollow endpoints that keep the `followers` / `following` counters in step with it.
  - The followers listing.
- **Identity** (`identity.dfy`, module `Identity`).
  - The username and password rules.
  - The login check chain.
  - The user update that routes passwords through hashing.
  - One-shot account verification.
- **Token authentication** (`jwt_backend.dfy`, module `JwtBackend`).
  - The guard chain over the whitespace-split `Authorization` header.
  - The credential check behind it.
- **Article creation** (`article_create.dfy`, module `ArticleCreate`).
  - The slug: slugified title, `-`, then the last group of a UUID.
  - The request fields the view overwrites.
  - The saved row.
- **Shared modules**:
  - `text.dfy` (module `Text`): ASCII character classes, `str.lower`, `str(int)` and `str(list)`.
  - `wrappers.dfy` (module `Wrappers`): `Option` and `Result`.

How each area is modelled:

- **Database tables** are values the operations rewrite.
  - Likes are a map from (article, user) to the like value.
  - Notifications are a sequence of rows with distinct ids.
  - Follows are a sequence of distinct (follower, followee) edges.
  - Users are a map.
- **Pure steps specify the methods.** Each stateful endpoint is specified by a pure step function (for example `SaveLike`, `FollowStep`, `Verify`). The class method that performs it in place (`LikeTable.PerformSave`, `ProfileStore.FollowProfile`, `UserDirectory.VerifyUser`) ensures that its response and new state are exactly what the step gives. The lemmas about the step functions state the source's promises:
  - a second save is rejected;
  - counters equal the edge degrees after every follow or unfollow;
  - a second verification fails.
- **Loops in the source are methods with invariants:**
  - `update_read_status`;
  - the `setattr` loop of `UserSerializer.update`;
  - the followers listing.
- **Error paths are `Result` failures.** Exceptions raised by the code become failures whose error value names the raised message. Uncaught crashes are modelled as their own outcomes:
  - a JWT payload without `id` (a `KeyError`);
  - a missing article title.

Behaviour of the code kept as written:

- `validate_rating` accepts any string whose first character is 1-5, so "10" and "5x" pass (`ArticleLedger.RatingBoundaries`).
- A mark-as-read request that repeats an id is always rejected. `comparison` holds each stored notification at most once (`NotificationRead.RepeatedIdRejected`).
- The username pattern `^[A-Za-z0-9_]*$` also accepts a word followed by one newline, because Python's `$` matches before a final newline (`Identity.UsernameTrailingNewline`). This holds for `validate_username` called directly. Through the registration endpoint the `CharField` trims surrounding whitespace first, so "alice\n" arrives as "alice".
- `CreateArticleAPIView.post` stores the second element of the authentication result, which is the raw token string, as `user_id` (`ArticleCreate.Prepared`).
- The follow and unfollow endpoints write the counters from two separately loaded objects. `Profiles.Bump` models both saves as starting from the rows as loaded.

## Model

| member | source | states |
|---|---|---|
| `ArticleLedger.ValidateRating` | authors/apps/articles/serializers.py:37-42 | A rating passes iff it is non-empty and its first character is 1-5, and it is returned unchanged. Otherwise it fails with "Rating should be in range of 1 to 5." |
| `ArticleLedger.RateArticle` | authors/apps/articles/serializers.py:44-63 | The checks run in order: range, then own article, then rated before. Each error happens iff the earlier checks pass and its own condition holds, and success returns the request. |
| `ArticleLedger.SecondRatingRejected` | authors/apps/articles/serializers.py:56-62 | After a rating of (article, user) is stored, any further rating of that pair fails, with "rate twice" when its value is in range. |
| `ArticleLedger.RatingBoundaries` | authors/apps/articles/serializers.py:37-42 | "0", "6" and "" are rejected, each digit 1-5 is accepted, and "10" and "5x" are accepted. |
| `ArticleLedger.ValidateCommentBody` | authors/apps/articles/serializers.py:79-87 | A comment body passes iff its length is at most 8000, unchanged. Otherwise it fails with the 8000-character message. Replies follow the same rule. |
| `ArticleLedger.CommentBoundary` | authors/apps/articles/serializers.py:103-111 | 8000 characters pass and 8001 fail, for top-level comments and replies alike. |
| `ArticleLedger.GetDataItems` | authors/apps/articles/serializers.py:152-170 | The status is "dislike" iff the like is false and "like" iff it is true. The other fields are copied. |
| `ArticleLedger.SaveLike` | authors/apps/articles/serializers.py:172-188 | Succeeds iff no row exists for (article, user), then inserts exactly that row. The response echoes the user and article ids and puts "You have provided a like/dislike for the article" under the key `message`. Otherwise it fails with the "already provided" message and changes nothing. |
| `ArticleLedger.UpdateLike` | authors/apps/articles/serializers.py:190-208 | Succeeds iff the row exists, overwrites only that row's value and echoes the ids. It puts "You have updated to like/dislike the article" under the key `status`. Otherwise it fails and changes nothing. |
| `ArticleLedger.DeleteLike` | authors/apps/articles/serializers.py:210-226 | Succeeds iff the row exists, removes only that row and reports `article_like` None with the echoed ids. It puts "Your opinion has been deleted from article likes" under the key `status`. Otherwise it fails and changes nothing. |
| `ArticleLedger.SaveTwiceRejected` | authors/apps/articles/serializers.py:175-188 | A second save for the same pair fails and leaves the table as the first save left it. |
| `ArticleLedger.UpdateOrDeleteBeforeSaveRejected` | authors/apps/articles/serializers.py:194-215 | Without a row, update and delete both fail with their messages and change nothing. |
| `ArticleLedger.LikeLifecycle` | authors/apps/articles/serializers.py:172-226 | Save, then update, then delete all succeed on one pair, and the table ends as it began. |
| `ArticleLedger.LikeTable.ValidateArticleId` | authors/apps/articles/serializers.py:127-134 | An article id passes iff the article exists. Otherwise it fails with "article does not exist". |
| `ArticleLedger.LikeTable.ValidateLikeRequest` | authors/apps/articles/serializers.py:114-134 | A like request passes iff `article_like` is not null and the article exists. A failure reports every failing field: the null error iff `article_like` is null, and "article does not exist" iff the article is missing. |
| `ArticleLedger.LikeTable.VerifyArticleExists` | authors/apps/articles/serializers.py:136-150 | True iff this user already has a like row for the article. That is exactly when a save is refused and an update or a delete goes ahead. |
| `ArticleLedger.LikeTable.PerformSave` | authors/apps/articles/serializers.py:172-188 | The response and new table are those of `SaveLike`, and afterwards a row exists for the pair. |
| `ArticleLedger.LikeTable.PerformUpdate` | authors/apps/articles/serializers.py:190-208 | The response and new table are those of `UpdateLike`. |
| `ArticleLedger.LikeTable.PerformDelete` | authors/apps/articles/serializers.py:210-226 | The response and new table are those of `DeleteLike`, and afterwards no row exists for the pair. |
| `NotificationRead.UnreadIds` | authors/apps/notifications/serializers.py:19-23 | An id is listed iff it names an unread notification of the user, and with unique primary keys no id is listed twice. |
| `NotificationRead.Intersect` | authors/apps/notifications/serializers.py:25 | Membership is membership in both lists, the result is no longer than the first list, and distinctness is kept. |
| `NotificationRead.Comparison` | authors/apps/notifications/serializers.py:25 | `comparison` holds exactly the requested ids that name an unread notification of the caller, and with unique primary keys none of them twice. |
| `NotificationRead.Difference` | authors/apps/notifications/serializers.py:27 | Membership is membership in the first list and not the second. |
| `NotificationRead.DifferenceSingleton` | authors/apps/notifications/serializers.py:27 | A single requested id is kept iff it is not in the comparison list. |
| `NotificationRead.DifferenceAppend` | authors/apps/notifications/serializers.py:27 | The filter distributes over concatenation, so the rejected ids keep the request order and its repeats, as printed in the message. |
| `NotificationRead.RejectedIds` | authors/apps/notifications/serializers.py:25-27 | An id is rejected iff it was requested and is not an unread notification of the user. |
| `NotificationRead.RejectionMessage` | authors/apps/notifications/serializers.py:29-31 | The message is "The ", then `str` of the rejected ids, then " Id(s) do to exist.". The list can be read back from the text through `Text.ListToString`. |
| `NotificationRead.ValidateMarkRead` | authors/apps/notifications/serializers.py:14-32 | On success the data is returned unchanged. A failure's message is "The [ids] Id(s) do to exist." listing the rejected ids. |
| `NotificationRead.ToSetSize` | authors/apps/notifications/serializers.py:29 | A list has at most as many distinct ids as entries, with equality iff no id repeats. This is the counting argument behind the length test. |
| `NotificationRead.ValidateIffAllAcceptable` | authors/apps/notifications/serializers.py:25-31 | For a request without repeats, validation passes iff every requested id is an unread notification of the caller. |
| `NotificationRead.RepeatedIdRejected` | authors/apps/notifications/serializers.py:25-31 | A request that repeats an id is always rejected. |
| `NotificationRead.ValidatedIdsExist` | authors/apps/notifications/serializers.py:14-32 | A validated request has no repeats, and every id in it is a stored unread notification of the caller. |
| `NotificationRead.FixtureAccepted` | authors/apps/notifications/tests/test_notifications.py:24-40 | The owner marking [1] on the one-row table passes. |
| `NotificationRead.FixtureMissingIds` | authors/apps/notifications/tests/test_notifications.py:42-59 | Marking [8, 9] fails with "The [8, 9] Id(s) do to exist." |
| `NotificationRead.FixtureRepeatedId` | authors/apps/notifications/serializers.py:25-31 | Marking [1, 1] fails with "The [] Id(s) do to exist." |
| `NotificationRead.FixtureOtherOwner` | authors/apps/notifications/serializers.py:19-31 | Another user marking [1] fails with "The [1] Id(s) do to exist." |
| `NotificationRead.MarkedRead` | authors/apps/notifications/serializers.py:34-38 | Of the modelled fields only `read_status` changes. It becomes true exactly on the rows whose id is listed and keeps its value elsewhere. |
| `NotificationRead.MarkedReadIdempotent` | authors/apps/notifications/serializers.py:34-38 | Marking the same ids twice equals marking them once. |
| `NotificationRead.SecondMarkReadRejected` | authors/apps/notifications/serializers.py:14-38 | After a successful validation and mark, the same non-empty request is rejected. |
| `NotificationRead.Find` | authors/apps/notifications/serializers.py:36 | The lookup by primary key returns a row with that id, or none exists. |
| `NotificationRead.NotificationTable.UpdateReadStatus` | authors/apps/notifications/serializers.py:34-38 | The ids are processed in order until the first missing one, where `get` raises. The table becomes `MarkedRead` of the processed prefix, and every processed id existed. |
| `Profiles.AddEdge` | authors/apps/profiles/models.py:36-38 | After a follow the edge is present and no other edge changes. An existing edge is not duplicated, and distinctness is kept. |
| `Profiles.Profile.ToString` | authors/apps/profiles/models.py:33-34 | `__str__` is the owning user's username. The followers listing is made of these. |
| `Profiles.RemoveEdge` | authors/apps/profiles/models.py:40-42 | After an unfollow the edge is absent and no other edge changes. Removing an absent edge is a no-op, and distinctness is kept. |
| `Profiles.FollowIsAsymmetric` | authors/apps/profiles/models.py:27-31 | `a` following `b` does not make `b` follow `a`. |
| `Profiles.EdgeUpdatesIdempotent` | authors/apps/profiles/models.py:36-42 | Following twice equals following once, and unfollowing twice equals unfollowing once. |
| `Profiles.RemoveAfterAdd` | authors/apps/profiles/models.py:36-42 | Unfollowing right after a new follow restores the through table exactly. |
| `Profiles.DegreesRemove` | authors/apps/profiles/models.py:40-42 | Removing an edge lowers exactly its two ends' in- and out-degree by one. |
| `Profiles.Bump` | authors/apps/profiles/views.py:61-66 | For distinct profiles, the followee's `followers` and the follower's `following` move by `delta` and every other profile is unchanged. |
| `Profiles.FollowKeepsCountersConsistent` | authors/apps/profiles/views.py:59-66 | Adding a new edge and raising both counters keeps the counters equal to the degrees. |
| `Profiles.UnfollowKeepsCountersConsistent` | authors/apps/profiles/views.py:85-93 | Removing an edge and lowering both counters keeps the counters equal to the degrees. |
| `Profiles.FollowThenUnfollowRestores` | authors/apps/profiles/views.py:59-93 | Follow then unfollow restores both the through table and the counters. |
| `Profiles.FollowStep` | authors/apps/profiles/views.py:45-72 | The checks run in order: unknown username, then self-follow, then already following, each iff its condition holds, and a failure changes nothing. Success appends the edge, bumps both counters and returns the followee's updated profile. |
| `Profiles.UnfollowStep` | authors/apps/profiles/views.py:74-99 | Unknown username, then not following, each iff its condition holds. Success removes the edge, lowers both counters and returns the followee's updated profile. |
| `Profiles.FollowStepKeepsConsistent` | authors/apps/profiles/views.py:45-72 | With the value-equality guard, every follow call keeps counters equal to degrees. |
| `Profiles.UnfollowStepKeepsConsistent` | authors/apps/profiles/views.py:74-99 | Every unfollow call keeps counters equal to degrees. |
| `Profiles.FollowThenUnfollowStepRestores` | authors/apps/profiles/views.py:45-99 | A successful follow, then an unfollow of the same username, succeeds and restores both tables. |
| `Profiles.SelfFollowAsWritten` | authors/apps/profiles/views.py:53-66 | With the identity guard as written, the profile with pk 300 follows itself. Its `followers` stays 0 while one edge points at it, so the counters are inconsistent. |
| `Profiles.FollowerNames` | authors/apps/profiles/views.py:121-125 | The listing has one name per edge into the profile, so its length is the in-degree. |
| `Profiles.FollowerNamesExact` | authors/apps/profiles/views.py:121-125 | A username is listed iff its profile has an edge into the target. |
| `Profiles.ProfileStore.Follow` | authors/apps/profiles/models.py:36-38 | The through table becomes `AddEdge` of the old one, and the follower then follows the followee. |
| `Profiles.ProfileStore.Unfollow` | authors/apps/profiles/models.py:40-42 | The through table becomes `RemoveEdge` of the old one, and the follower no longer follows the followee. |
| `Profiles.ProfileStore.IsFollowing` | authors/apps/profiles/models.py:44-46 | `is_following` holds iff a follow of the same pair would leave the through table unchanged. |
| `Profiles.ProfileStore.FollowProfile` | authors/apps/profiles/views.py:45-72 | The response and new tables are those of `FollowStep` with `==`, and consistent counters stay consistent. |
| `Profiles.ProfileStore.UnfollowProfile` | authors/apps/profiles/views.py:74-99 | The response and new tables are those of `UnfollowStep`, and consistent counters stay consistent. |
| `Profiles.ProfileStore.RetrieveFollowers` | authors/apps/profiles/views.py:111-129 | An unknown username fails. Otherwise the list holds exactly the usernames of the followers, one per edge, and its length equals `followers` when the counters are consistent. |
| `Identity.WordPrefix` | authors/apps/authentication/serializers.py:60 | The greedy `[A-Za-z0-9_]*` stops at the first non-word character. |
| `Identity.UsernamePatternMatches` | authors/apps/authentication/serializers.py:60 | `re.match("^[A-Za-z0-9_]*$")` succeeds iff the string is all word characters, or all word characters followed by one final newline. |
| `Identity.ValidateUsername` | authors/apps/authentication/serializers.py:52-67 | Fails on length iff the length is not 5-24, then on characters iff a non-word character occurs other than one final newline, then on "taken" iff the name is in use. Success returns the name. |
| `Identity.UsernameAcceptance` | authors/apps/authentication/serializers.py:56-67 | A name of word characters passes iff it is 5-24 long and unused. |
| `Identity.UsernameTrailingNewline` | authors/apps/authentication/serializers.py:60-62 | "alice\n" passes and "ali\nce" fails the character check. |
| `Identity.SearchDigitOrUpper` | authors/apps/authentication/serializers.py:79 | Finds the first digit or capital letter, or reports that there is none. |
| `Identity.ValidatePassword` | authors/apps/authentication/serializers.py:70-83 | Too short iff under 8 and too long iff 128 or more. Success iff 8-127 long, with a non-alphanumeric character and a digit or capital letter. |
| `Identity.AlphanumericPasswordRejected` | authors/apps/authentication/serializers.py:79-81 | A password of letters and digits only is rejected as too weak. |
| `Identity.Login` | authors/apps/authentication/serializers.py:108-166 | The checks run in order: missing email, missing password, no match, unverified, inactive, each iff its condition holds. Success returns the matched user's email, username and token. |
| `Identity.LoginSucceedsIffVerifiedAndActive` | authors/apps/authentication/serializers.py:135-166 | With both fields supplied, login succeeds iff `authenticate` finds a verified, active user. |
| `Identity.PasswordOf` | authors/apps/authentication/serializers.py:203 | The popped password is the supplied one, or there is none. |
| `Identity.WithoutPassword` | authors/apps/authentication/serializers.py:203-205 | What remains after the pop is exactly the non-password items. |
| `Identity.ApplyAllKeeps` | authors/apps/authentication/serializers.py:205-208 | The `setattr` loop never touches the password hash, the token or the flags. |
| `Identity.ApplyAllUntouched` | authors/apps/authentication/serializers.py:205-208 | A field no item names keeps its value. |
| `Identity.ApplyAllLast` | authors/apps/authentication/serializers.py:205-208 | A field ends with the value of the last item that names it. |
| `Identity.UpdateEffect` | authors/apps/authentication/serializers.py:195-220 | Each supplied field is copied. The password hash changes only when a password is supplied, and then to `set_password`'s hash. Unsupplied fields, the token and the flags keep their values. |
| `Identity.User.Update` | authors/apps/authentication/serializers.py:195-220 | The user record becomes `Updated` of the old record. |
| `Identity.Verify` | authors/apps/authentication/serializers.py:332-358 | Fails on a missing token key, then an unknown user, then an already-verified account, each iff its condition holds. Success sets `is_verified` on that user alone. |
| `Identity.SecondVerificationFails` | authors/apps/authentication/serializers.py:349-354 | After a successful verification, the same request fails with "already verified". |
| `Identity.UserDirectory.VerifyUser` | authors/apps/authentication/serializers.py:332-358 | The response and new table are those of `Verify`, with the success message on success. |
| `JwtBackend.WordLength` | authors/apps/authentication/backends.py:22 | Gives the length of the leading run of non-whitespace. |
| `JwtBackend.SplitWhitespace` | authors/apps/authentication/backends.py:22 | Every part is non-empty and free of whitespace, and there are no parts iff the header is all whitespace. |
| `JwtBackend.SplitJoinSpace` | authors/apps/authentication/backends.py:22 | Splitting undoes joining whitespace-free words with spaces. |
| `JwtBackend.AuthenticateHeader` | authors/apps/authentication/backends.py:68-69 | The challenge lowers to "token", the scheme `authenticate` accepts. |
| `JwtBackend.AuthenticateCredentials` | authors/apps/authentication/backends.py:46-66 | The checks are: undecodable token, payload without `id`, unknown user, inactive user, each iff its condition holds. Success returns that active user and the token unchanged. |
| `JwtBackend.Authenticate` | authors/apps/authentication/backends.py:15-44 | Anonymous iff the header does not split into exactly two parts whose first lowers to "token". Otherwise the result is the credential check of the second part, and an authenticated token is whitespace-free. |
| `JwtBackend.PrefixAccepted` | authors/apps/authentication/backends.py:40-42 | The prefix passes iff it is "token" in any mix of cases. |
| `JwtBackend.WellFormedHeader` | authors/apps/authentication/backends.py:36-44 | "<prefix> <token>" goes to the credential check with the token unchanged. |
| `JwtBackend.EmptyHeaderAnonymous` | authors/apps/authentication/backends.py:25-26 | An empty header is anonymous. |
| `JwtBackend.PrefixOnlyAnonymous` | authors/apps/authentication/backends.py:28-30 | "Token " is anonymous. |
| `JwtBackend.ThreePartsAnonymous` | authors/apps/authentication/backends.py:32-34 | "Token a b" is anonymous. |
| `JwtBackend.OtherSchemeAnonymous` | authors/apps/authentication/backends.py:40-42 | "Bearer abc" is anonymous. |
| `ArticleCreate.Replace` | authors/apps/articles/views.py:32 | Each `_` becomes `-` and nothing else changes, so no `_` remains. |
| `ArticleCreate.SplitOn` | authors/apps/articles/views.py:33 | `split("-")` gives at least one piece, and no piece contains the separator. |
| `ArticleCreate.SplitOnLast` | authors/apps/articles/views.py:33 | The last piece is the suffix after the final separator, or the whole string. |
| `ArticleCreate.SplitOnJoin` | authors/apps/articles/views.py:33 | Joining the pieces back with the separator gives the original string. |
| `ArticleCreate.LastGroup` | authors/apps/articles/views.py:33 | `split("-")[-1]` is a suffix without `-` that starts the string or follows a `-`, that is, the text after the last `-`. |
| `ArticleCreate.LastGroupAfterSeparator` | authors/apps/articles/views.py:33 | The last group of `a + "-" + b` is `b` when `b` has no `-`. |
| `ArticleCreate.MakeSlug` | authors/apps/articles/views.py:32-33 | The slug is the title with each `_` replaced by `-`, then `-`, then the UUID's last group, and the text after its final `-` is that group. |
| `ArticleCreate.SlugEndsWithUuidNode` | authors/apps/articles/views.py:33 | With a canonical UUID, the slug ends in the 12 lower-case hex digits of its node group. |
| `ArticleCreate.Prepared` | authors/apps/articles/views.py:27-34 | `user_id` becomes the token and `slug` is overwritten. Every other client field is kept. |
| `ArticleCreate.ArticleStore.Post` | authors/apps/articles/views.py:23-45 | Fails iff authentication did not succeed, then iff the title is missing. Succeeds iff the prepared article validates, then appends exactly that article and answers 201 "Article created successfully.". A failure saves nothing. |
| `Text.ToLower` | authors/apps/authentication/backends.py:40 | `lower()` on ASCII maps each capital to its small letter and keeps every other character. |
| `Text.IntToString` | authors/apps/notifications/serializers.py:31 | `str(i)` starts with `-` iff `i` is negative, and digits follow. The first digit is `0` only for 0, and reading the text back gives `i`. |
| `Text.NatToStringValue` | authors/apps/notifications/serializers.py:31 | The decimal digits of `n` read back as `n`, and only 0 starts with `0`, so the text is the canonical decimal form. |
| `Text.ListToString` | authors/apps/notifications/serializers.py:31 | `str(list)` is bracketed. Between the brackets are the elements as `str` writes them, separated by ", ", and reading that text back gives the list. |
| `Text.JoinIntsRoundTrip` | authors/apps/notifications/serializers.py:31 | Splitting the joined elements at their commas gives back the list. |

## Findings

| source | as written | input that shows it | evidently intended | confidence | as-written member | corrected member |
|---|---|---|---|---|---|---|
| authors/apps/profiles/views.py:53 | `follower.pk is followee.pk` compares object identity. CPython shares int objects only between -5 and 256, so two separately loaded equal pks above 256 are different objects. | A user whose profile pk is 300 posts a follow of their own username. The guard lets it through, a self-edge is added, and the stale follower save overwrites the followee's `followers + 1`. | `follower.pk == followee.pk`, rejecting every self-follow so that counters stay equal to degrees | medium; not executed | `Profiles.SelfFollowAsWritten` | `Profiles.FollowStepKeepsConsistent` |

## Left out

- Database I/O, transactions and concurrency. Every operation runs alone and in sequence. The check-then-insert races in likes and ratings are not modelled.
- `jwt.decode` is a parameter of `JwtBackend.Authenticate`, and `User.token` is a given field of `Identity.Account`. This is foreign cryptography.
- `JwtBackend.AuthenticateCredentials` types the decoded payload as a map to integers. A payload whose `id` is not an integer, where `User.objects.get(pk=...)` raises an uncaught `ValueError`, is not modelled.
- `authenticate()` is a parameter of `Identity.Login`. Django's password check is foreign code.
- `set_password` is a parameter of `Identity.User.Update`. `instance.save()` is implicit in updating the record in place.
- `slugify`, `uuid.uuid4` and the article serializer's field validation (`is_valid`) are parameters of `ArticleCreate.ArticleStore.Post`.
- `Mailer.verify_email_exists`, `validate_email`, `validate_callbackurl` and `RegistrationSerializer.create` are left out. They do network I/O and create users through the user manager, which is not part of this model.
- The Google and Facebook social login serializers are left out. They are foreign OAuth and Graph API calls.
- The profile `ProfileDoesNotExist` exception class is not part of this model. Its message text is not given.
- `request.user = None` in `authenticate` is left out. The request object is not modelled.
- Unicode: `isalnum`, `lower` and the regular expressions are restricted to ASCII. The header is taken as already-decoded text, so a UTF-8 decode error is not modelled.
- `notifications` is a `ListField` and may hold non-integer values. The model takes a list of integers.
- `NotificationRead.NotificationTable.UpdateReadStatus` stops at the first missing id, where `get` raises. The HTTP error that follows is not modelled.
- `Profiles.ProfileStore.FollowProfile` uses `==` for the self-follow guard instead of the source's `is`. See Findings.
- `ArticleLedger.RateArticle` takes the article's author id as a field of the request. The `article_id.user_id` lookup through the model instance is not modelled.
- `Identity.Login` does not model the serializer field limits (`max_length`). DRF enforces those before `validate` runs. Its email and password fields are required, so the `EmailRequired` and `PasswordRequired` branches cannot be reached through `LoginSerializer`. The model keeps them because `validate` has them.
- DRF field parsing before the `validate_<field>` methods is not modelled: `trim_whitespace`, `allow_blank=False`, and the required and null checks. The members affected are `Identity.ValidateUsername`, `Identity.ValidatePassword`, `ArticleLedger.ValidateRating`, `ArticleLedger.ValidateCommentBody` and `Identity.Login`. Each takes the value as it reaches the method.
- `NotificationRead.MarkedRead` and `NotificationRead.NotificationTable.UpdateReadStatus`: `instance.save()` also rewrites `updated_at`, which is `auto_now`. The `Notification` datatype leaves out `created_at` and `updated_at`, so the model says nothing about the timestamps.
