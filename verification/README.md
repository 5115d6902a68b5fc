# LITRevu review site: a Dafny model of its domain logic

LITRevu is a small Django site where members post *tickets* (requests for a
book or article review), write *reviews* with a rating, comment on tickets and
*follow* each other. This project models the parts of the site that carry
domain logic, over an abstract in-memory store of five tables (users,
tickets, reviews, follow edges, comments):

- the record constraints of `reviews/models.py`: field length limits, the
  0 to 5 rating range, the gender choices, unique e-mails and usernames,
  one follow edge per ordered (follower, followed) pair, foreign keys, and the
  cascade deletes from tickets and from users (module `Models`, `models.dfy`);
- the feed: three queries chained without removing duplicates and sorted
  newest first, plus the two older "viewable tickets/reviews" helpers
  (module `Feed`, `feed.dfy`; pure functions and lemmas);
- the mutating views `add_ticket`, `edit_ticket`, `delete_ticket`,
  `edit_comment`, `delete_comment`, `add_follow` and `remove_follow`, each as
  a pure step function from a store snapshot to an outcome and the next
  snapshot, with lemmas about ownership, POST-only deletion, the follow
  decision chain and store consistency (module `Views`, `views.dfy`);
- the store itself as a class whose methods change its tables in place, as
  the views do through `save()`, `delete()` and `objects.create()`. Each
  method is proved to produce exactly the outcome and the tables of the
  matching step function and to keep the store consistent, with fresh primary
  keys (module `Store`, `store.dfy`).

HTTP is reduced to the current user (or an anonymous caller for the two
comment views, which have no login requirement) and a flag saying whether the
request is a POST. Redirects, templates and flash messages become outcome
values. Timestamps are given natural numbers. The "next id" counters stand for
the database's key allocation.

The model follows the code where it behaves in ways its names, messages and comments do not announce:

- The feed does not remove duplicates. A review that is both by a visible
  author and on the user's own ticket appears twice (`FeedReviewMultiplicity`,
  `OwnReviewOnOwnTicketTwice`).
- Ties in `time_created` keep the order of the chained queries, because
  Python's `sorted` is stable (`FeedTiesInChainOrder`).
- `add_follow` with an unknown username never shows its "Cet utilisateur
  n'existe pas." message (reviews/views.py:224). Its
  `except get_user_model.DoesNotExist` clause raises `AttributeError` itself,
  so the request fails with no edge created (outcome `UserLookupCrash`).
- `edit_ticket` and `delete_ticket` look the ticket up with `.get`, which
  raises on a missing id (outcome `ServerError`). The comment views use
  `get_object_or_404` (outcome `NotFound404`).
- The ownership checks redirect silently; the model reports them as `NotOwner`
  with the store unchanged.

## Model

| member | source | states |
|---|---|---|
| Models.ValidDb | reviews/models.py:7-55 | definition (no contract of its own): the record constraints, key uniqueness, `unique_together` on follow edges and the foreign keys; preserved by every view (the Views.*KeepsValid lemmas) and by both cascades (Models.DeleteTicketCascadeKeepsValid, Models.DeleteUserCascadeKeepsValid) |
| Models.Filter | reviews/models.py:32 | the kept rows are exactly the rows satisfying the predicate, none more often than before |
| Models.DeleteTicketCascade | reviews/models.py:31-32 | deleting a ticket keeps users and follow edges, and removes exactly that ticket and every review and comment on it |
| Models.DeleteTicketCascadeKeepsValid | reviews/models.py:31-55 | after a ticket delete the store is consistent and the ticket ids are the old ones minus the deleted id |
| Models.TicketIdsAfterTicketDelete | reviews/models.py:31-32 | the ticket ids left after a ticket delete are the old ids minus the deleted one |
| Models.DeleteUserCascade | reviews/models.py:24 | deleting a user removes them, their tickets, their reviews and comments, those on their tickets, and every edge that names them at either end |
| Models.DeleteUserCascadeKeepsValid | reviews/models.py:24-54 | after a user delete the store is consistent and nothing left refers to the user or to their tickets |
| Models.UserIdsAfterUserDelete | reviews/models.py:7-8 | the user ids left after a user delete are the old ones minus the deleted user |
| Models.TicketIdsAfterUserDelete | reviews/models.py:24 | every ticket not owned by the deleted user survives the user delete |
| Models.UniqueSubMultiset | reviews/models.py:46-49 | a subset of rows that were unique on a key (such as the follower/followed pair) is still unique |
| Models.UsersKept | reviews/models.py:7-15 | keeping some users keeps ids, usernames and e-mails unique and every user's fields valid |
| Models.TicketsKept | reviews/models.py:21-24 | keeping some tickets whose owners remain keeps the ticket table valid |
| Models.ReviewsKept | reviews/models.py:31-38 | keeping some reviews whose author and ticket remain keeps the review table valid, ratings in 0..5 included |
| Models.FollowsKept | reviews/models.py:42-49 | keeping some follow edges whose ends remain keeps one edge per ordered pair |
| Models.CommentsKept | reviews/models.py:52-55 | keeping some comments whose author and ticket remain keeps the comment table valid |
| Feed.FollowedUsers | reviews/views.py:57 | definition (no contract of its own): the followed ends of the user's follow edges; used by Feed.FeedTicketMembership and Feed.FeedReviewMembership |
| Feed.Chain | reviews/views.py:76-81 | definition (no contract of its own): the three queries concatenated in order; its contents are stated by Feed.TicketPosts, Feed.ReviewPosts and Feed.ReviewsOnTickets |
| Feed.Insert | reviews/views.py:76-86 | definition (no contract of its own): one step of the stable newest-first sort; see Feed.InsertPermutation and Feed.InsertNewestFirst |
| Feed.SortNewestFirst | reviews/views.py:76-86 | definition (no contract of its own) of `sorted(..., key=time_created, reverse=True)`; see Feed.SortPermutationNewestFirst and Feed.SortKeepsTieOrder |
| Feed.Feed | reviews/views.py:52-89 | definition (no contract of its own): newest first, stable, no de-duplication; see Feed.FeedNewestFirst, Feed.FeedIsPermutationOfChain, Feed.FeedTiesInChainOrder, Feed.FeedTicketCount, Feed.FeedReviewCount |
| Feed.ViewableTickets | reviews/views.py:41-49 | definition (no contract of its own) of the SQL union of own and followed tickets; see Feed.ViewableTicketsMatchFeedQuery |
| Feed.ViewableReviews | reviews/views.py:30-38 | definition (no contract of its own) of the SQL union of own and followed reviews; see Feed.ViewableReviewsMatchFeedQuery |
| Feed.TicketPosts | reviews/views.py:60-62 | each ticket by one of the authors appears as often as it is stored, and no other post appears |
| Feed.ReviewPosts | reviews/views.py:65-67 | each review by one of the authors appears as often as it is stored, and no other post appears |
| Feed.ReviewsOnTickets | reviews/views.py:70-72 | each review on one of the given tickets appears as often as it is stored, whoever wrote it |
| Feed.InsertPermutation | reviews/views.py:76-86 | inserting a post adds exactly that post |
| Feed.InsertNewestFirst | reviews/views.py:84-85 | inserting into a newest-first list keeps it newest first |
| Feed.SortPermutationNewestFirst | reviews/views.py:76-86 | the sort returns a newest-first permutation of its input |
| Feed.SortKeepsTieOrder | reviews/views.py:76-86 | the sort keeps posts created at the same time in their input order (Python's sort is stable) |
| Feed.FeedNewestFirst | reviews/views.py:76-86 | no post in the feed is followed by a more recently created one |
| Feed.FeedIsPermutationOfChain | reviews/views.py:76-81 | the feed is a permutation of tickets ++ reviews ++ reviews on the user's tickets: nothing added or dropped |
| Feed.FeedTiesInChainOrder | reviews/views.py:76-86 | posts with the same creation time appear in the order of the chained queries |
| Feed.FeedTicketCount | reviews/views.py:57-62 | a ticket appears once per stored row if its author is the user or followed by the user, otherwise never |
| Feed.FeedReviewCount | reviews/views.py:65-81 | a review appears once for the author rule plus once for the own-ticket rule, per stored row |
| Feed.FeedTicketMembership | reviews/views.py:57-62 | a ticket is in the feed if and only if it is stored and its author is the user or someone the user follows |
| Feed.FeedReviewMembership | reviews/views.py:65-72 | a review is in the feed if and only if it is stored and its author is visible or its ticket is the user's |
| Feed.FeedReviewMultiplicity | reviews/views.py:65-81 | in a consistent store a review meeting both rules appears exactly twice, one meeting one rule exactly once |
| Feed.FeedTicketAtMostOnce | reviews/views.py:57-62 | in a consistent store no ticket appears twice |
| Feed.ViewableTicketsMatchFeedQuery | reviews/views.py:41-49 | the viewable tickets are exactly the tickets of the feed's ticket query, taken as a set |
| Feed.ViewableReviewsMatchFeedQuery | reviews/views.py:30-38 | the viewable reviews are exactly the reviews of the feed's second query; reviews on own tickets by others are not among them |
| Feed.AliceFeedExample | reviews/views.py:52-86 | a review of another user's ticket followed by a newer ticket of the reviewer gives the reviewer the feed [ticket, review]; the unfollowed author's ticket is absent |
| Feed.OwnReviewOnOwnTicketTwice | reviews/views.py:65-81 | a review of one's own ticket appears twice in one's own feed |
| Views.TicketFormValid | reviews/forms.py:10-14 | definition (no contract of its own): a required title of at most 128 characters and a description of at most 2048, the limits of reviews/models.py:22-23 |
| Views.CommentFormValid | reviews/forms.py:16-19 | definition (no contract of its own): a required body of at most 2048 characters, the limit of reviews/models.py:53 |
| Views.AddTicket | reviews/views.py:113-126 | definition (no contract of its own) of add_ticket; see Views.AddTicketOwnedByRequester and Views.AddTicketKeepsValid |
| Views.EditTicket | reviews/views.py:128-144 | definition (no contract of its own) of edit_ticket; see Views.EditTicketChangesOnlyTitleAndDescription and Views.EditTicketKeepsValid |
| Views.DeleteTicket | reviews/views.py:146-158 | definition (no contract of its own) of delete_ticket; see Views.DeleteTicketOnlyByOwnerOnPost and Views.DeleteTicketKeepsValid |
| Views.EditComment | reviews/views.py:174-189 | definition (no contract of its own) of edit_comment; see Views.EditCommentChangesOnlyBody and Views.EditCommentKeepsValid |
| Views.DeleteComment | reviews/views.py:191-202 | definition (no contract of its own) of delete_comment; see Views.DeleteCommentOnlyByOwnerOnPost and Views.DeleteCommentKeepsValid |
| Views.AddFollow | reviews/views.py:209-226 | definition (no contract of its own) of add_follow; see Views.AddFollowOutcomes, Views.AddFollowKeepsValid and Views.AddFollowTwiceLeavesOneEdge |
| Views.RemoveFollow | reviews/views.py:229-238 | definition (no contract of its own) of remove_follow; see Views.RemoveFollowOnlyOwnEdge and Views.RemoveFollowKeepsValid |
| Views.IndexOfTicket | reviews/views.py:131 | finds a ticket with the id, or reports that no stored ticket has it |
| Views.IndexOfComment | reviews/views.py:176 | finds a comment with the id, or reports that no stored comment has it |
| Views.IndexOfOwnedFollow | reviews/views.py:232 | finds an edge with the id whose follower is the requester, or reports that there is none |
| Views.FindUserByUsername | reviews/views.py:214 | finds a stored user with the username, or reports that no user has it |
| Views.EdgeCountPositive | reviews/views.py:217 | the edge count is positive exactly when an edge (follower, followed) exists |
| Views.EdgeCountAtMostOne | reviews/models.py:49 | in a table unique on the pair, each ordered pair has at most one edge |
| Views.EdgeCountAppend | reviews/views.py:220 | appending an edge adds one to the count of its own pair only |
| Views.UniqueUpdate | reviews/views.py:139 | replacing a row by one with the same key keeps the table unique |
| Views.RemoveAt | reviews/views.py:199 | removing one row of a unique table removes exactly that row and keeps the table unique |
| Views.AddTicketKeepsValid | reviews/views.py:115-121 | add_ticket keeps the store consistent when the new id is fresh and the requester exists |
| Views.AddTicketOwnedByRequester | reviews/views.py:116-121 | add_ticket saves exactly on a valid POST; the one new ticket is owned by the requester and no other table or owner changes |
| Views.EditTicketKeepsValid | reviews/views.py:130-139 | edit_ticket keeps the store consistent |
| Views.EditTicketChangesOnlyTitleAndDescription | reviews/views.py:130-144 | a missing id fails, a non-owner changes nothing, any outcome but Saved leaves the store as it was, only the owner's valid POST saves, and it changes only title and description of that one ticket |
| Views.DeleteTicketKeepsValid | reviews/views.py:148-155 | delete_ticket keeps the store consistent |
| Views.DeleteTicketOnlyByOwnerOnPost | reviews/views.py:148-158 | a non-owner changes nothing, the owner's GET only shows the confirmation, the owner's POST removes the ticket with its reviews and comments and nothing else |
| Views.EditCommentKeepsValid | reviews/views.py:175-184 | edit_comment keeps the store consistent |
| Views.EditCommentChangesOnlyBody | reviews/views.py:175-189 | a missing id gives 404, a non-owner or anonymous caller changes nothing, any outcome but Saved leaves the store as it was, only the owner's valid POST saves, and it changes only that comment's body |
| Views.DeleteCommentKeepsValid | reviews/views.py:192-199 | delete_comment keeps the store consistent |
| Views.DeleteCommentOnlyByOwnerOnPost | reviews/views.py:192-202 | a non-owner changes nothing, the owner's GET only shows the confirmation, the owner's POST removes exactly that comment |
| Views.AddFollowOutcomes | reviews/views.py:211-226 | GET and an unknown name change nothing; self-follow and an existing edge change nothing; otherwise exactly the edge (requester, target) is appended |
| Views.AddFollowKeepsValid | reviews/views.py:214-220 | add_follow keeps the store consistent, one edge per ordered pair included, given a fresh edge id |
| Views.AddFollowTwiceLeavesOneEdge | reviews/views.py:217-220 | following the same user twice: the second call reports AlreadyFollowing, changes nothing, and exactly one edge exists |
| Views.RemoveFollowKeepsValid | reviews/views.py:230-233 | remove_follow keeps the store consistent |
| Views.RemoveFollowOnlyOwnEdge | reviews/views.py:230-238 | a missing id and someone else's edge take the same path and change nothing; the requester's own edge is removed and nothing else |
| Store.DeleteTicketKeepsStoreValid | reviews/models.py:31-32 | a ticket delete keeps the store consistent and the next ids fresh |
| Store.Store.constructor | reviews/models.py:7-55 | a store built from a consistent snapshot with fresh next ids holds that snapshot and is valid |
| Store.Store.AddTicket | reviews/views.py:115-126 | outcome and tables are those of Views.AddTicket with the next ticket id, which advances only on Saved; the store stays valid |
| Store.Store.EditTicket | reviews/views.py:130-144 | outcome and tables are those of Views.EditTicket; nothing changes unless Saved; the store stays valid |
| Store.Store.DeleteTicket | reviews/views.py:148-158 | outcome and tables are those of Views.DeleteTicket; nothing changes unless Saved; the store stays valid |
| Store.Store.Cascade | reviews/views.py:155 | the tables become the ticket-delete cascade of the old tables; the store stays valid |
| Store.Store.EditComment | reviews/views.py:175-189 | outcome and tables are those of Views.EditComment; nothing changes unless Saved; the store stays valid |
| Store.Store.DeleteComment | reviews/views.py:192-202 | outcome and tables are those of Views.DeleteComment; nothing changes unless Saved; the store stays valid |
| Store.Store.AddFollow | reviews/views.py:209-226 | outcome and tables are those of Views.AddFollow with the next edge id, which advances only on Followed; the store stays valid |
| Store.Store.RemoveFollow | reviews/views.py:229-238 | outcome and tables are those of Views.RemoveFollow; nothing changes unless Unfollowed; the store stays valid |

## Left out

- Registration, login, logout and session handling (reviews/views.py:14-27, 92-111): the current user is a parameter.
- Templates, flash messages and redirects: they become outcome values.
- URL routing and the admin site (litrevu/urls.py): configuration only.
- `add_comment` (reviews/views.py:161-172): its form never sets the comment's ticket and the view has no login requirement, so the view cannot save a comment as written.
- `list_followed_users` (reviews/views.py:204-207): it only renders the follow edges of the user.
- Form internals: whitespace stripping and the browser-side checks of Django forms are not modelled. A form is valid when the required fields are non-empty and within their length limits.
- A POST to add_follow without a `username` field is not modelled; the username is always a string.
- Timestamps come from the database clock (`auto_now_add`); the model takes them as given natural numbers.
- The order of rows within each query is the table order; the database does not promise any order, and only the final sort is specified.
- Datastore failures and concurrent requests are not modelled; each view runs alone on a consistent store.
- Deleting a user is modelled as a cascade on the store (Models.DeleteUserCascade) only; no view of the site deletes users.
- Models.Filter: states which rows are kept and that none is duplicated, but neither that their relative order is kept nor that a row stored several times and satisfying the predicate keeps all its copies (only an upper bound on each row's count is stated; under Models.ValidDb every row is stored once, so the bound is exact there).
