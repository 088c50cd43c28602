# Blog-App core in Dafny

This project models the logic at the centre of the Blog-App, a blog with an Express/Prisma backend, a React/Redux front end and a Python helper that asks a language model to write posts. Every database call becomes an operation on immutable in-memory tables. Every handler becomes a pure function from a request and a store to a response and a new store. Every reducer becomes a pure function from a state and an action to a state.

The modules follow the program's structure:

- `Text` (text.dfy): Python and JavaScript whitespace classes, `strip`/`lstrip`/`trim`, case folding, `split('\n')`/`'\n'.join`, decimal printing of integers, and JavaScript's UTF-16 string length.
- `Seqs` (seqs.dfy): the generic table operations the handlers are built from, such as filtering out rows, selecting rows, counting, stable sorting by a key, first index and order-preserving subsequences.
- `IntroFilter` (intro_filter.dfy): `clean_intro`, which drops the first four lines of generated text and then every later line matching one of the 25 Turkish preamble patterns. Each regular expression is written as one of four pattern shapes over the stripped, folded line.
- `Mentions` (mentions.dfy): `extractMentions`, the `@(\w+)` scan.
- `Validators` (validators.dfy): the reaction-type and comment-text middlewares.
- `Store` (store.dfy): the tables, the requester the token middleware produces, and the response shape.
- `Auth`, `Posts`, `Comments`, `Reactions`, `Notifications`, `Search` (one file each): the controllers.
- `SocketRegistry` (socket.dfy): the `connectedUsers` and `socketToPostMap` bookkeeping of the socket server.
- `PostsSlice`, `NotificationSlice`, `CommentsSlice`, `AuthSlice`: the Redux slices.

Four facts about `clean_intro` shape the intro filter's model:

- A text of four lines or fewer gives `""`.
- Every line after the first four that matches a pattern is dropped, wherever it stands.
- The table has 25 patterns.
- Each pattern must match the whole stripped line, because it ends in `$`.

## Model

| member | source | states |
|---|---|---|
| IntroFilter.CleanIntro | backend/src/gemini/blog-creation-with-ai.py:11-49 | the result is the surviving lines after the first four, re-joined with newlines and left-stripped; it never starts with whitespace; it is empty when the text has at most four lines; otherwise it has at most four lines fewer than the text |
| IntroFilter.Survivors | backend/src/gemini/blog-creation-with-ai.py:45-48 | the kept lines are an order-preserving selection of the lines after the header, a line is kept iff it comes after the header and matches no pattern, and each kept line occurs as often as it did after the header |
| IntroFilter.LineBound | backend/src/gemini/blog-creation-with-ai.py:45-49 | re-joining the survivors and left-stripping gives at most four lines fewer than the input |
| IntroFilter.MatchesAnyIff | backend/src/gemini/blog-creation-with-ai.py:46 | `any` over the patterns in order succeeds iff some entry of the table matches the line |
| IntroFilter.SameKeySameMatches | backend/src/gemini/blog-creation-with-ai.py:46 | two lines with the same stripped, folded text meet the same patterns |
| IntroFilter.KeptAsCovers | backend/src/gemini/blog-creation-with-ai.py:18-44 | each of the 25 entries is covered by a kept entry: the same one, or a bare lead entry whose word its own word starts with |
| IntroFilter.Subsumed | backend/src/gemini/blog-creation-with-ai.py:18-44 | every line an entry matches is matched by the kept entry that covers it |
| IntroFilter.EssentialEquivalent | backend/src/gemini/blog-creation-with-ai.py:18-46 | the ten redundant entries change nothing: a line is dropped iff one of the fifteen remaining entries matches it |
| IntroFilter.PreambleInitials | backend/src/gemini/blog-creation-with-ai.py:19-43 | a dropped line's folded, stripped text starts with one of the initials of the lead words |
| IntroFilter.BlankLineSurvives | backend/src/gemini/blog-creation-with-ai.py:45-48 | an empty or whitespace-only line is never dropped |
| IntroFilter.IgnoresCase | backend/src/gemini/blog-creation-with-ai.py:46 | lines that fold alike are dropped alike |
| IntroFilter.UnconditionalLeadDrops | backend/src/gemini/blog-creation-with-ai.py:24-42 | a line starting with one of the eight unconditional lead words is always dropped |
| IntroFilter.ElbetteNeedsTail | backend/src/gemini/blog-creation-with-ai.py:19-21 | a line starting with "Elbette" is dropped iff it ends in "bulunmaktadır" or "verilmiştir", optionally followed by . or !, or "aşağıda" appears later |
| IntroFilter.SimdiNeedsTail | backend/src/gemini/blog-creation-with-ai.py:37 | a line starting with "Şimdi" is dropped iff it ends in "başlayalım", optionally followed by . or ! |
| IntroFilter.GelinNeedsTail | backend/src/gemini/blog-creation-with-ai.py:38-39 | a line starting with "Gelin" is dropped iff it ends in "keşfedelim" or "bakalım", optionally followed by . or ! |
| IntroFilter.YapayZekaNeedsWords | backend/src/gemini/blog-creation-with-ai.py:26 | a line starting with "Yapay zekanın" is dropped iff "etkilerini", "anlatan" and "yazı" follow in order |
| IntroFilter.ElbetteKeptWhen | backend/src/gemini/blog-creation-with-ai.py:19-21 | "Elbette" followed by text without "ş" whose last character is not r, . or ! is kept |
| IntroFilter.ElbetteDroppedWhen | backend/src/gemini/blog-creation-with-ai.py:19 | "Elbette", any text, then "bulunmaktadır." is dropped |
| IntroFilter.ElbetteWithoutTailKept | backend/src/gemini/blog-creation-with-ai.py:19-21 | "Elbette güzel bir gün" is kept |
| IntroFilter.ElbetteWithTailDropped | backend/src/gemini/blog-creation-with-ai.py:19 | "Elbette, aşağıda bir yazı bulunmaktadır." is dropped |
| IntroFilter.ShoutedPreambleDropped | backend/src/gemini/blog-creation-with-ai.py:19 | the upper-case "ELBETTE … bulunmaktadır." is dropped as well |
| IntroFilter.IsteLeadDrops | backend/src/gemini/blog-creation-with-ai.py:24 | any line starting with "İşte" is dropped |
| IntroFilter.IsteIsPreamble | backend/src/gemini/blog-creation-with-ai.py:24 | "İşte blog yazınız:" is dropped |
| IntroFilter.KeptByInitial | backend/src/gemini/blog-creation-with-ai.py:19-43 | a line whose first character folds to none of the initials is kept |
| IntroFilter.KahveIsKept | backend/src/gemini/blog-creation-with-ai.py:19-43 | "Kahve hakkında:" is kept |
| IntroFilter.HeaderAndPreambleRemoved | backend/src/gemini/blog-creation-with-ai.py:13-49 | four header lines, a preamble line and a body line give exactly the body |
| IntroFilter.OrdinaryHeadingKept | backend/src/gemini/blog-creation-with-ai.py:13-49 | four header lines, an ordinary heading and a body give the heading and the body joined by a newline |
| Text.TrimStart | backend/src/gemini/blog-creation-with-ai.py:49 | `lstrip` removes exactly a leading run of whitespace: the result is a suffix of the input, everything cut is whitespace, and the result does not start with whitespace |
| Text.Trim | backend/src/gemini/blog-creation-with-ai.py:46 | `strip` leaves a contiguous core of the input with only whitespace cut on both sides, and the core neither starts nor ends with whitespace |
| Text.TrimEmptyIffAllSpace | backend/src/controllers/SearchController.ts:27 | a string trims to empty iff all its characters are whitespace |
| Text.Split | backend/src/gemini/blog-creation-with-ai.py:13 | `split('\n')` gives at least one piece and no piece holds a newline |
| Text.JoinSplit | backend/src/gemini/blog-creation-with-ai.py:13 | joining the pieces of a split with newlines gives the text back |
| Text.SplitJoin | backend/src/gemini/blog-creation-with-ai.py:49 | splitting a newline join of newline-free lines gives the lines back |
| Text.Fold | backend/src/gemini/blog-creation-with-ai.py:46 | case folding keeps the length and folds each character on its own |
| Text.IntToStringInjective | backend/src/controllers/notificationController.ts:80 | different counts print as different decimal strings, so the message names the count |
| Validators.ValidateReaction | backend/src/middlewares/validatePostReaction.ts:5-18 | a reaction goes on exactly when it is a string in the allowed list; a missing, empty or non-string value gets the validator's own message, any other string a 400 message quoting it |
| Validators.ValidatePostReaction | backend/src/middlewares/validatePostReaction.ts:3-18 | a post reaction goes on exactly when it is one of "like", "love", "haha", "sad", "angry"; otherwise 400 |
| Validators.ValidateCommentReaction | backend/src/middlewares/validateCommentReaction.ts:3-18 | a comment reaction goes on exactly when it is one of "like", "dislike", "laugh"; otherwise 400 |
| Validators.ValidateComment | backend/src/middlewares/commentValidation.ts:3-10 | a comment body goes on exactly when `text` is a string with a non-whitespace character; otherwise 400 "Yorum boş olamaz" |
| Validators.MissingPostReaction | backend/src/middlewares/validatePostReaction.ts:9-12 | a missing, empty or non-string post reaction gets "Gönderi tepkisi geçerli değil." |
| Validators.LoveOnlyForPosts | backend/src/middlewares/validateCommentReaction.ts:3-16 | "love" passes the post validator and is refused by the comment validator with a message quoting it |
| Validators.SharedReactions | backend/src/middlewares/validatePostReaction.ts:3 | every comment reaction other than "dislike" and "laugh" is also a post reaction |
| Validators.PaddingIrrelevant | backend/src/middlewares/commentValidation.ts:5 | whitespace around a comment's text never changes whether it passes |
| Mentions.ExtractMentions | backend/src/utils/mentionParser.ts:1-9 | the `exec` loop, resuming just past each match, returns exactly the reference reading: one name per `@` followed by a word character, in text order, each a non-empty run of word characters |
| Mentions.NameAt | backend/src/utils/mentionParser.ts:2 | the captured name is the whole non-empty run of word characters after the `@`: the character after it, if any, is not a word character |
| Mentions.MentionsAreNames | backend/src/utils/mentionParser.ts:2-6 | every name found is the name captured at some `@` of the text at or after the start |
| Mentions.NoAtNoMentions | backend/src/utils/mentionParser.ts:2-8 | a text without `@` mentions nobody |
| Mentions.MentionsFromAppend | backend/src/utils/mentionParser.ts:2-8 | the mentions of two texts, the second not starting with a word character, are those of the first followed by those of the second, repeats included |
| Mentions.NonAsciiStopsName | backend/src/utils/mentionParser.ts:2 | in "@oğuz" only "o" is captured, since `ğ` is not a word character without the `u` flag |
| Mentions.SingleMention | backend/src/utils/mentionParser.ts:2-8 | a text that is one `@name` mentions exactly that name |
| Mentions.RepeatedMention | backend/src/utils/mentionParser.ts:5-8 | the same name mentioned twice is reported twice |
| Store.FromToken | backend/src/middlewares/authMiddleware.ts:19-26 | the requester the token middleware builds carries exactly the token's user id and no role, so it is never an admin |
| Validators.BlankMeansSpace | backend/src/middlewares/commentValidation.ts:5 | `text.trim() === ""` holds exactly when every character of the text is whitespace |
| Mentions.MentionStep | backend/src/utils/mentionParser.ts:2-8 | at a match the name is reported and the scan resumes just past it; an `@` not followed by a word character, or any other character, contributes nothing |
| Auth.EmailRegexIsShape | backend/src/controllers/authController.ts:19 | the email pattern of `signup` accepts exactly the texts with no whitespace, a single `@` with something before it, and a `.` after it that is neither the first nor the last character of the domain |
| Auth.BlankIsSpace | backend/src/controllers/authController.ts:16 | the test `!s \|\| s.trim() === ""` holds exactly for a missing field or one made only of whitespace |
| Auth.SessionOf | backend/src/controllers/authController.ts:47-59 | the token claims carry the row's id and role, and the reply's `user` carries its id, name, email and username |
| Auth.Signup | backend/src/controllers/authController.ts:12-64 | username, email, password and name are checked in that order, each with its own 400 message; once all four pass, a taken email gets 409 "Email already in use" and otherwise a taken username gets 409 "Username already taken"; 201 is answered exactly when all four pass and neither the email nor the username is taken; then one row with the next id, the hashed password and the default role is appended and the reply is built from it; on any other answer the tables are unchanged |
| Auth.TakenIsFound | backend/src/controllers/authController.ts:30-38 | a `findUnique` on the email or the username finds a row exactly when some user has that key |
| Auth.EmailBeforeUsername | backend/src/controllers/authController.ts:32-40 | when both checks would fail, the taken email is reported (409 "Email already in use") before the username is looked at |
| Text.Utf16Length | backend/src/controllers/authController.ts:22 | a string's `length` counts one unit per character and two per character outside the Basic Multilingual Plane, so it lies between the character count and twice it, and equals the character count exactly when every character is inside that plane |
| Auth.PasswordLength | backend/src/controllers/authController.ts:22-24 | the signup password check counts UTF-16 code units as JavaScript's `length` does: a password passes exactly when it has at least six, spaces included; for text inside the Basic Multilingual Plane that is six characters, and three characters outside it already pass |
| Auth.AuthenticatesByLookup | backend/src/controllers/authController.ts:78-86 | "the first row with the email exists and its hash matches" is the same as looking the email up and comparing the password with the row found |
| Auth.Login | backend/src/controllers/authController.ts:67-105 | a blank email and then a blank password get their 400 messages; 200 is answered exactly when both are present and the row found by the email matches the password, and the reply is then the session built from that row, whose user carries the email; every other answer is a 400 error |
| Auth.SameAnswerForBadCredentials | backend/src/controllers/authController.ts:79-86 | an unknown email and a wrong password both get 400 "Invalid credentials" |
| Auth.SignupThenLogin | backend/src/controllers/authController.ts:12-105 | after a successful signup, a login with the same email and a password the hash accepts succeeds and returns the new user with the next id |
| Auth.SpacePasswordLocksOut | backend/src/controllers/authController.ts:22-75 | a password of six or more spaces passes the signup check but is refused by login as "Password is required", whatever the table holds |
| AuthSlice.Reduce | blog-frontend/src/store/slices/authSlice.ts:58-101 | an unhandled action changes nothing; only logout and a fulfilled request change the session, logout back to the initial state and a fulfilled request to its user and token; loading is on exactly after a pending request or while an unhandled action follows one; an error is shown exactly after a rejection or while unhandled actions follow it |
| AuthSlice.LoggedOut | blog-frontend/src/store/slices/authSlice.ts:62-68 | `logout` clears the user, the token, the loading flag and the error |
| AuthSlice.StartLoading | blog-frontend/src/store/slices/authSlice.ts:72-75 | a pending login or signup sets loading, clears the error and keeps the session |
| AuthSlice.SignedIn | blog-frontend/src/store/slices/authSlice.ts:76-81 | a fulfilled login or signup stores the payload's user and token, stops loading and clears the error |
| AuthSlice.Failed | blog-frontend/src/store/slices/authSlice.ts:82-85 | a rejection keeps the session, stops loading and shows the payload, or the request's fallback message when the payload is missing or empty |
| AuthSlice.KeepsSessionWhole | blog-frontend/src/store/slices/authSlice.ts:58-101 | no action leaves a user without a token or a token without a user |
| AuthSlice.LogoutResets | blog-frontend/src/store/slices/authSlice.ts:20-68 | from any state, `logout` gives the initial state |
| AuthSlice.LoginAndSignupAgree | blog-frontend/src/store/slices/authSlice.ts:76-95 | a fulfilled login and a fulfilled signup with the same payload leave the same state |
| AuthSlice.FailureKeepsSession | blog-frontend/src/store/slices/authSlice.ts:72-99 | a pending and then rejected request after a sign-in keeps the signed-in user and token and shows an error |
| Comments.AuthorOf | backend/src/controllers/commentController.ts:13-35 | the joined author is null exactly when the comment has no author id or no user row has it; otherwise it is that row's id, name and email |
| Comments.View | backend/src/controllers/commentController.ts:25-36 | the reply object keeps the comment's id, text and creation time, and its author is null exactly when no author row is found |
| Comments.OnPost | backend/src/controllers/commentController.ts:11-23 | the listing holds each comment of the post as often as the table does and no other, oldest first |
| Comments.GetCommentsByPost | backend/src/controllers/commentController.ts:5-42 | a NaN post id gets 400 "Geçersiz post ID"; otherwise 200 with one reply object per listed comment, in listing order |
| Comments.ListingIsThePosts | backend/src/controllers/commentController.ts:11-12 | a comment is listed exactly when it is in the table and belongs to the post |
| Comments.AddComment | backend/src/controllers/commentController.ts:44-90 | a NaN post id, then a missing user, then blank text get 400, 401 and 400 without storing anything; 201 is answered exactly when all pass, and then the comment is appended with the next id, the text as sent and the caller as author |
| Comments.AddCommentRoute | backend/src/middlewares/commentValidation.ts:1-10 | behind the body validator, 201 is answered exactly for a string text that is not blank, and then one comment carrying that text is appended; otherwise the tables are unchanged |
| Comments.DeleteComment | backend/src/controllers/commentController.ts:92-122 | 400, 401, 404 and 403 are answered in that order, each exactly in its case; on 200 the caller owns the comment or is an admin, and the rows with the id are removed, the others kept in order |
| Comments.DeleteRemovesOne | backend/src/controllers/commentController.ts:114-117 | with unique comment ids a successful delete removes exactly one row |
| Comments.ForbiddenIff | backend/src/controllers/commentController.ts:109-113 | with unique ids, 403 is answered exactly when the comment with the id belongs to someone else and the caller is not an admin |
| Comments.AddedIsListed | backend/src/controllers/commentController.ts:5-90 | a comment added through the route appears in its post's listing with the text as sent |
| CommentsSlice.Reduce | blog-frontend/src/store/slices/commentsSlice.ts:35-55 | an unhandled action changes nothing; only a fetched, added or deleted comment changes the list, and every listed comment was listed before or came with the action; loading is on exactly after a pending fetch or while non-fetch actions follow it; only the fetch's pending and rejected actions touch the error, clearing it and setting the thrown message |
| CommentsSlice.StartLoading | blog-frontend/src/store/slices/commentsSlice.ts:37-40 | a pending fetch sets loading, clears the error and keeps the list |
| CommentsSlice.Fetched | blog-frontend/src/store/slices/commentsSlice.ts:41-44 | a fulfilled fetch replaces the list, stops loading and leaves the error as it was |
| CommentsSlice.Failed | blog-frontend/src/store/slices/commentsSlice.ts:45-48 | a rejected fetch keeps the list, stops loading and shows the thrown error's message |
| CommentsSlice.Append | blog-frontend/src/store/slices/commentsSlice.ts:49-51 | an added comment goes after all the others, which are unchanged |
| CommentsSlice.Remove | blog-frontend/src/store/slices/commentsSlice.ts:52-54 | a delete removes every comment with the id and keeps the others in order |
| CommentsSlice.AddThenDelete | blog-frontend/src/store/slices/commentsSlice.ts:49-54 | deleting a comment just added, whose id was new, gives back the state before the add |
| CommentsSlice.DeleteTwice | blog-frontend/src/store/slices/commentsSlice.ts:52-54 | a second delete of the same id changes nothing |
| CommentsSlice.KeepsUniqueIds | blog-frontend/src/store/slices/commentsSlice.ts:35-55 | given a fetched list without repeated ids and an added comment with a new id, no action puts two comments with one id in the list |
| Posts.FindPost | backend/src/controllers/postController.ts:38-39 | the lookup by id finds a row exactly when a post with the id exists, and the row it finds has the id |
| Posts.GetPostById | backend/src/controllers/postController.ts:31-58 | 404 "Post not found" exactly when no post has the id; otherwise 200 with a stored post carrying the id |
| Posts.UpdatePost | backend/src/controllers/postController.ts:87-119 | a missing post gets 403, and a 403 changes nothing; otherwise the caller owns the post or is an admin, and that row alone is replaced by one with the same id and author, the new title and content where given and the old ones where absent, which is also the reply |
| Posts.DeletePost | backend/src/controllers/postController.ts:121-149 | a missing post gets 403, and a 403 changes nothing; otherwise the caller owns the post or is an admin, the answer is 204, the post, its likes and its comments are removed with every other row kept in order, and users, reactions and notifications are untouched |
| Posts.LikePost | backend/src/controllers/postController.ts:151-166 | 401 exactly without a user; otherwise `{liked: true}`, the like exists afterwards, and 201 with one new like row is answered exactly when there was none, 200 with nothing changed otherwise |
| Posts.UnlikePost | backend/src/controllers/postController.ts:168-179 | 401 exactly without a user; otherwise `{liked: false}` with every like of the caller on the post removed and the other likes kept in order |
| Posts.IsPostLiked | backend/src/controllers/postController.ts:181-192 | always 200, with `true` exactly when a user is signed in and has liked the post |
| Posts.LikesNewestFirst | backend/src/controllers/postController.ts:198-208 | the likes fetched are exactly the caller's, each as often as stored, newest id first |
| Posts.PostOfLike | backend/src/controllers/postController.ts:201-205 | a like's post is a stored post with the like's post id, and is missing exactly when no such post is stored |
| Posts.GetLikedPosts | backend/src/controllers/postController.ts:194-215 | 401 exactly without a user; otherwise 200 with one post per fetched like, in the likes' order, each the post that like points at |
| Posts.LikedPostsResolve | backend/src/controllers/postController.ts:198-210 | while every like points at a stored post, every entry of the reply is a post, with the post id of the caller's like at that position |
| Posts.LikeKeepsLikesHavePosts | backend/src/controllers/postController.ts:151-166 | liking a stored post keeps every like pointing at a stored post |
| Posts.LikeOnMissingPost | backend/src/controllers/postController.ts:151-166 | a first like on a post that is not stored leaves a like pointing nowhere, since the handler does not look the post up |
| Posts.DeleteKeepsLikesHavePosts | backend/src/controllers/postController.ts:121-149 | deleting a post also deletes its likes, so every remaining like still points at a stored post |
| Posts.EditAllowedIff | backend/src/controllers/postController.ts:96-105 | with unique post ids, update and delete go ahead exactly when the post exists and the caller owns it or is an admin |
| Posts.OnlyAuthorThroughToken | backend/src/controllers/postController.ts:98-103 | behind the token middleware, which sets no role, only the post's author gets past the 403 of update and delete |
| Posts.DeleteThenGet | backend/src/controllers/postController.ts:121-149 | after a successful delete, looking the post up answers 404 |
| Posts.LikeTwice | backend/src/controllers/postController.ts:157-159 | a second like changes nothing and answers 200 `{liked: true}` |
| Posts.LikeKeepsUnique | backend/src/controllers/postController.ts:158-160 | liking never puts two likes of one user on one post in the table |
| Posts.LikeThenUnlike | backend/src/controllers/postController.ts:151-179 | liking a post not yet liked and then unliking it restores the like table |
| Posts.LikedReflectsHandlers | backend/src/controllers/postController.ts:151-192 | after a like the post reads as liked, and after an unlike as not liked |
| Reactions.NewRow | backend/src/controllers/postReactionsController.ts:43-49 | the created row belongs to the user and the target (the other target column null) and has the requested type |
| Reactions.Add | backend/src/controllers/postReactionsController.ts:5-51 | 400 iff the user is missing or zero or the id is NaN, with nothing changed; otherwise only the reaction table changes, and: the same type again deletes the user's row by its id and replies 200 "Tepki kaldırıldı." with no reaction; another type changes that row's type in place, keeping its id and position, and replies 200 "Tepki güncellendi." with the updated row; no reaction yet appends a row under the next id and replies 201 "Tepki eklendi." with it |
| Reactions.AddToggles | backend/src/controllers/commentReactionsController.ts:16-49 | after an add, the user's reaction on the target is gone when it already had the requested type, and has the requested type otherwise |
| Reactions.AddLeavesOthers | backend/src/controllers/postReactionsController.ts:25-49 | an add changes no row that is not this user's reaction on this target |
| Reactions.AddKeepsConsistent | backend/src/controllers/postReactionsController.ts:16-49 | at most one reaction per user and target, unique ids and ids below the next id all survive any add |
| Reactions.AddTwiceRestores | backend/src/controllers/postReactionsController.ts:24-30 | reacting twice with the same type, starting from no reaction, leaves the table as it was |
| Reactions.OffClears | backend/src/controllers/postReactionsController.ts:26-30 | deleting the user's reaction by its id leaves the user no reaction on the target |
| Reactions.SwitchSets | backend/src/controllers/postReactionsController.ts:32-37 | updating the found reaction's type makes that type the user's current one |
| Reactions.CreateSets | backend/src/controllers/postReactionsController.ts:43-49 | appending the first reaction of a user on a target makes it the current one |
| Reactions.Remove | backend/src/controllers/postReactionsController.ts:57-80 | 400 iff the user is missing or zero or the id is NaN; 404 iff the user had no reaction on the target, with nothing changed; otherwise 200; afterwards the user has no reaction on the target and every other row is kept |
| Reactions.RemovedNone | backend/src/controllers/commentReactionsController.ts:65-76 | the deleted count is zero iff the user had no reaction on the target, and then the table is unchanged |
| Reactions.Groups | backend/src/controllers/postReactionsController.ts:96-113 | one group per type present on the target, no type twice, each counted exactly and marked iff it is the caller's type |
| Reactions.Get | backend/src/controllers/postReactionsController.ts:86-115 | 400 iff the id is NaN; otherwise 200 with the grouped counts; without a signed-in user nothing is marked and `userReaction` is null; with one, exactly the caller's type is marked and `userReaction` is that type, an empty type reading as null |
| Reactions.AtMostOneMine | backend/src/controllers/commentReactionsController.ts:106-112 | at most one group is marked as the caller's |
| Reactions.AddRoute | backend/src/routes/postReactionsRoutes.ts:16 | a body the side's validator refuses gets 400 with the table unchanged; an accepted one reaches the add handler |
| Reactions.RouteKeepsTypes | backend/src/middlewares/validatePostReaction.ts:3-18 | through the routes, post reactions only ever hold a post type and comment reactions a comment type |
| Notifications.GetNotifications | backend/src/controllers/notificationController.ts:5-19 | 401 exactly when no user is signed in; otherwise 200 with a permutation of the requester's notifications (each kept as many times as stored, nobody else's) ordered by `createdAt`, newest first |
| Notifications.ListingIsTheRequesters | backend/src/controllers/notificationController.ts:14-17 | a notification is listed iff it is stored and addressed to the requester |
| Notifications.DeleteNotification | backend/src/controllers/notificationController.ts:25-58 | 401 iff signed out; 400 iff the id is not a number; 404 iff no notification has that id and the requester as receiver; any failure leaves the table alone; on success the table keeps its order and loses exactly the rows with that id |
| Notifications.NeverForbidden | backend/src/controllers/notificationController.ts:41-55 | the 403 branch is unreachable, because the lookup already filters by receiver |
| Notifications.OthersAreNotFound | backend/src/controllers/notificationController.ts:41-49 | deleting another user's notification answers 404 and changes nothing |
| Notifications.DeleteRemovesOne | backend/src/controllers/notificationController.ts:57 | with unique ids, a successful delete shortens the table by exactly one |
| Notifications.DeleteAllNotifications | backend/src/controllers/notificationController.ts:64-80 | 401 iff signed out, with nothing removed; otherwise the table keeps its order, loses exactly the requester's notifications, and the message reports how many rows went |
| Notifications.CountIsTheRequesters | backend/src/controllers/notificationController.ts:75-80 | the reported count is the number of notifications addressed to the requester |
| Notifications.DeleteAllEmptiesListing | backend/src/controllers/notificationController.ts:75-77 | after deleting all, the requester's listing is empty |
| Notifications.DeleteAllSparesOthers | backend/src/controllers/notificationController.ts:75-77 | deleting all of one user's notifications leaves every other user's listing unchanged as a multiset |
| Search.SearchPostsByTitle | backend/src/controllers/SearchController.ts:20-56 | always 200; a missing, empty or all-whitespace query gives `[]`; any other query gives an acceptable answer: at most ten posts, an order-preserving selection of the table, each title containing the query ignoring case, and every match when there are at most ten |
| Search.FirstMatchesAcceptable | backend/src/controllers/SearchController.ts:31-54 | the first matches in table order, capped at ten, meet every promise of the query |
| Search.BlankIsSpace | backend/src/controllers/SearchController.ts:27 | `query.trim()` is empty iff every character of the query is whitespace |
| Search.FewMatchesAllFound | backend/src/controllers/SearchController.ts:31-53 | when fewer than ten posts match, every matching post is in the answer |
| SocketRegistry.SocketsOf | backend/src/socket.ts:25 | `connectedUsers.get` is undefined iff no entry has the key, and otherwise gives that entry's sockets |
| SocketRegistry.SetEntry | backend/src/socket.ts:27 | `Map.set` replaces a present key in place, touching no other entry, and appends a new key at the end |
| SocketRegistry.Register | backend/src/socket.ts:23-30 | after `register` the user's socket set is the one held before, or an empty one, plus the socket; every other user's set and the post records are untouched; one entry per key and no empty socket set are preserved |
| SocketRegistry.RegisterFacts | backend/src/socket.ts:25-27 | setting a user's socket set makes it the set `get` returns, and keeps the registry well formed |
| SocketRegistry.NumberAndStringShare | backend/src/socket.ts:24 | a numeric user id and its decimal string register the same user |
| SocketRegistry.SetEntryOthers | backend/src/socket.ts:27 | setting one user's socket set leaves what the lookup finds for every other user |
| SocketRegistry.RegisterIdempotent | backend/src/socket.ts:23-27 | registering the same socket for the same user twice is the same as once |
| SocketRegistry.JoinPost | backend/src/socket.ts:32-34 | the socket's post record becomes the joined post; every other socket's record is kept |
| SocketRegistry.LeavePost | backend/src/socket.ts:42-44 | the socket's post record is deleted and every other record is kept |
| SocketRegistry.JoinThenLeave | backend/src/socket.ts:32-44 | a `leave_post` after a `join_post` leaves the records as if the socket had only left |
| SocketRegistry.LastJoinWins | backend/src/socket.ts:32-34 | of two `join_post` events from one socket the later one decides its post record |
| SocketRegistry.LeaveIgnoresPostId | backend/src/socket.ts:42-44 | which post `leave_post` names makes no difference to the records |
| SocketRegistry.DetachLoop | backend/src/socket.ts:69-79 | the `disconnect` loop computes the reference removal: the first entry holding the socket loses it and is deleted if emptied |
| SocketRegistry.Disconnect | backend/src/socket.ts:57-79 | the socket's post record goes only when it is present and non-empty; the user entries change as the reference removal says |
| SocketRegistry.DetachTouchesFirstHolder | backend/src/socket.ts:69-78 | entries before the first holder are unchanged; the holder loses the socket or is deleted; entries after it are unchanged |
| SocketRegistry.DetachKeepsWellFormed | backend/src/socket.ts:71-76 | a disconnect keeps one entry per key and no empty socket set |
| SocketRegistry.DetachStopsAtFirst | backend/src/socket.ts:77 | because of the `break`, a later entry holding the same socket keeps it |
| PostsSlice.Reduce | blog-frontend/src/store/slices/postsSlice.ts:90-134 | an unhandled action changes nothing; only fetch, add, delete and update results change the list, and every listed post was listed before or came with the action; loading is on exactly after a pending fetch or update, or while adds, deletes and unhandled actions follow one; pending actions and a fetched list clear the error, a failed fetch always shows one, and add and delete results leave it |
| PostsSlice.StartLoading | blog-frontend/src/store/slices/postsSlice.ts:92-95 | a pending fetch or update sets loading, clears the error and keeps the list |
| PostsSlice.Fetched | blog-frontend/src/store/slices/postsSlice.ts:96-103 | a fulfilled fetch replaces the list, stops loading and clears the error |
| PostsSlice.FetchFailedWith | blog-frontend/src/store/slices/postsSlice.ts:104-107 | a rejected fetch keeps the list, stops loading and shows the payload, or "Post yükleme hatası" when it is missing or empty |
| PostsSlice.Prepend | blog-frontend/src/store/slices/postsSlice.ts:108-110 | an added post goes in front of the others, which are unchanged |
| PostsSlice.Remove | blog-frontend/src/store/slices/postsSlice.ts:111-113 | a delete removes every post with the id and keeps the others in order |
| PostsSlice.Replace | blog-frontend/src/store/slices/postsSlice.ts:118-129 | a fulfilled update replaces the first post with the payload's id by the payload, changes nothing when there is none, keeps every position's id, stops loading and leaves the error |
| PostsSlice.UpdateFailed | blog-frontend/src/store/slices/postsSlice.ts:130-133 | a rejected update keeps the list, stops loading and shows the payload as it came |
| PostsSlice.AddThenDelete | blog-frontend/src/store/slices/postsSlice.ts:108-113 | deleting a post just added, whose id was new, gives back the state before the add |
| PostsSlice.DeleteTwice | blog-frontend/src/store/slices/postsSlice.ts:111-113 | a second delete of the same id changes nothing |
| PostsSlice.UpdateThenFind | blog-frontend/src/store/slices/postsSlice.ts:118-129 | after an update of a listed post, the id is found at the same place as before and holds the payload |
| PostsSlice.KeepsUniqueIds | blog-frontend/src/store/slices/postsSlice.ts:90-134 | given a fetched list without repeated ids and an added post with a new id, no action puts two posts with one id in the list |
| PostsSlice.FetchCycle | blog-frontend/src/store/slices/postsSlice.ts:92-103 | a fetch answered after its pending action shows exactly the fetched list, not loading, with no error |
| NotificationSlice.Reduce | blog-frontend/src/store/slices/notificationSlice.ts:74-106 | an unhandled action changes nothing; only pushed, created, fetched, deleted or cleared notifications change the list, and every listed notification was listed before or came with the action; loading is on exactly after a pending fetch or while non-fetch actions follow it; only the fetch's pending and rejected actions touch the error, clearing it and setting the payload |
| NotificationSlice.Prepend | blog-frontend/src/store/slices/notificationSlice.ts:78-80 | a notification pushed over the socket goes in front of the others, which are unchanged |
| NotificationSlice.Cleared | blog-frontend/src/store/slices/notificationSlice.ts:81-83 | clearing empties the list and leaves loading and the error |
| NotificationSlice.StartLoading | blog-frontend/src/store/slices/notificationSlice.ts:87-90 | a pending fetch sets loading, clears the error and keeps the list |
| NotificationSlice.Fetched | blog-frontend/src/store/slices/notificationSlice.ts:91-94 | a fulfilled fetch replaces the list and stops loading without touching the error |
| NotificationSlice.FetchFailedWith | blog-frontend/src/store/slices/notificationSlice.ts:95-98 | a rejected fetch keeps the list, stops loading and shows the payload as it came |
| NotificationSlice.Remove | blog-frontend/src/store/slices/notificationSlice.ts:99-101 | a delete removes every notification with the id and keeps the others in order |
| NotificationSlice.SocketAndCreateAgree | blog-frontend/src/store/slices/notificationSlice.ts:78-104 | a notification pushed over the socket and one created by this client land in the same place |
| NotificationSlice.PushThenDelete | blog-frontend/src/store/slices/notificationSlice.ts:78-101 | deleting a notification just pushed, whose id was new, gives back the state before the push |
| NotificationSlice.DeleteTwice | blog-frontend/src/store/slices/notificationSlice.ts:99-101 | a second delete of the same id changes nothing |
| NotificationSlice.FetchedKeepsError | blog-frontend/src/store/slices/notificationSlice.ts:91-98 | an error from a failed fetch is still shown after a later successful fetch with no pending action between |
| NotificationSlice.KeepsUniqueIds | blog-frontend/src/store/slices/notificationSlice.ts:74-106 | given a fetched list without repeated ids and pushed or created notifications with new ids, no action puts two notifications with one id in the list |

## Left out

- The model-calling part of the Python helper (`generate`, the API client, the environment key, reading the prompt and printing JSON) is network and process I/O.
- Text.Fold: case-insensitive matching uses a per-character folding of ASCII letters and the Turkish capitals, with İ and ı both folding to i. Python's full Unicode ignore-case rules are not modelled.
- IntroFilter: each regular expression is one of four shapes. Where a regex has `[,.!\s]*`, `(aşağıda)?` or `[.!\s]*` directly before `[\s\S]*`, the any-character run absorbs it, so the entry is written without it.
- Prisma itself is left out. Queries are operations on sequences in storage order; ids come from one counter; foreign keys and cascades are not enforced beyond what the handlers do themselves.
- A thrown database error, which the handlers pass to `next(err)` or answer with 500, is not modelled. The global error handler's choice of status is reduced to "the status the handler set".
- Posts: `Number(req.params.id)` is taken to be an integer. The NaN case is not modelled, because these handlers never check for it.
- Search: `req.query.q` given as an array is not modelled; the query is a string or missing.
- Search.SearchPostsByTitle: the database promises no order or choice of the ten results. The model returns the first ten matches in table order, and its contract states only what any acceptable answer satisfies. `mode: 'insensitive'` is modelled by the same folding as the intro filter.
- Comments.GetCommentsByPost: the database does not promise an order among comments with equal `createdAt`. The contract fixes one, the table order (a stable sort by `createdAt`), so it is more specific than the source there. ListingIsThePosts and OnPost state what any order satisfies: the post's comments with their multiplicities, ascending by `createdAt`.
- Notifications.GetNotifications: the order among notifications with equal `createdAt` is not promised by the database, so the contract fixes only the order by time and the contents.
- Reactions.Get: `groupBy` promises no order of the groups. The model lists them in the order each type first appears, and the contract states only the grouping, the counts and the marking.
- Password hashing and comparison are parameters (`hash`, `matches`). Token signing and verification are left out; a session carries the claims the token would be signed over.
- Posts.GetLikedPosts: each post comes without its joined author. A like whose post row is missing gives `None`; the database's foreign key rules that out. The model states it as LikesHavePosts, which deleting a post and liking a stored post keep, and which a like on a missing post breaks, because the foreign-key error is not modelled.
- Store.FromToken: a missing or invalid token, which the middleware answers with 401 or 403, is not modelled. Handlers receive the requester directly.
- No body schema is mounted on the signup, login or post update routes (backend/src/routes/authRoutes.ts:12-13, backend/src/routes/postRoutes.ts:28). The schema on the post create route guards `createPost`, which is outside the modelled core.
- Auth.Signup: body fields are taken to be strings or missing. A falsy field of another type (`0`, `false`, `null`) counts as missing. A numeric password is not modelled: it passes the length check, because `(1234).length < 6` is `undefined < 6` and so false, and then reaches the 409 lookups and `bcrypt.hash`, which throws. A non-string `username`, `email` or `name` that is truthy makes `.trim()` throw a TypeError, which `asyncHandler` passes to `next(err)`; that is not modelled either.
- Auth.Login: a truthy non-string `email` or `password` makes `.trim()` throw a TypeError, which reaches `next(err)`. That is not modelled; the fields are strings or missing.
- Posts.UpdatePost: `title` and `content` are taken to be strings or missing. A value of another type would be handed to the database, which would reject it, and that error is not modelled.
- SocketRegistry: socket rooms, viewer counts, emitted events and `notifyUser` are network delivery. Only the two maps are modelled.
- Profile, upload, admin and AI controllers, `getAllPosts`, `createPost`, and the joined `include`/`select` fields other than a comment's author are outside the modelled core.
- Front end: React pages, components, localStorage, the thunks' HTTP calls and the selectors are not modelled. The reducers receive the thunks' payloads as actions.
- Time: `createdAt` is an integer timestamp on the server and an opaque string on the client; date arithmetic and formatting are not modelled.
- Concurrency between a handler's lookup and its write (reactions, likes) is not modelled; handlers run one at a time.
- Validators: that a middleware never changes the request body holds by construction, because validators are pure functions of the field and return only a verdict.
