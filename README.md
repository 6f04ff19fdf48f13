# Polite comment moderation, modelled in Dafny

polite_back is the backend of a comment board that moderates what readers write. Each
post has a policy mode:

- `block` stores an over-threshold comment hidden, with no final text;
- `nofilter` stores everything as written;
- `polite_one_edit` offers a rewritten, politer text when the original is over the
  threshold. The writer may send one edit of their own. The edit is accepted when it
  scores under the threshold; otherwise the polite text is stored.

A KoELECTRA classifier scores texts behind a lexical block list. A KoBART rewriter
produces the polite text.

Around this engine sit small tables. Those whose rows the routes change (comments,
reactions, reward claims, users) are modelled as classes. The posts, which the routes only
read, are a sequence of rows that functions query:

- users, with unique names;
- posts, with a password gate and up to three sections;
- comments, where a user is locked to the first post they comment on and a soft delete
  keeps the row;
- like and hate reactions, which toggle;
- a one-per-user reward claim, granted to a writer with three accepted comments in each
  section.

This project models those pieces and proves the properties their code promises.

Module layout:

- `Wrappers` (wrappers.dfy): `Option`, `Result`, and the HTTP errors the routes raise.
- `Seqs` (seqs.dfy): filters, first-match search and an insertion sort. These are the
  shapes of the SQL queries the routes issue.
- `Model` (model.dfy): the enums, the rows, their column defaults, and the unique and
  check constraints of `polite_back/model.py`.
- `Schemas` (schemas.dfy): the request shapes and their pydantic constraints. The field
  constraints become validity predicates, which serve as route preconditions.
- `BertModel` (bert_model.py's front end):
  - the block-list loop;
  - the strict threshold rule;
  - the lazily loaded global singletons, as the class `Classifier`.
- `Policy` (the decision part of comment.py):
  - `Decide`, the pure decision tree of `add_comment`;
  - `Suggest`, the read-only preview.

  The classifier and the rewriter are function-valued parameters (oracles). Every call
  to them is returned as a trace, so the number and order of calls can be stated.
- `Comments` (the storage part of comment.py): the three guards, and `CommentTable`
  with add, list and soft delete.
- `Reward` (reward.py):
  - the per-section count, as the grouping query plus the copying loop;
  - the eligibility rule;
  - `ClaimTable` with check and claim.
- `Reactions` (reaction.py): `ReactionTable` with toggles, the single status and the
  batch status.
- `Users` (users.py) and `Posts` (post.py).

Points of the code's behaviour that the model keeps as written:

- `suggest` checks only that the post exists. It checks neither the section nor the
  user lock (polite_back/routes/comment.py:80-83); only a submission checks those.
- A missing section is answered with 400, not with "not found"
  (polite_back/routes/comment.py:57-58).
- In `polite_one_edit` a submission can call the classifier up to three times: the
  original, the edit, and the polite text's own score. The rewriter is called at most
  once (polite_back/routes/comment.py:133-325). `Policy.CallBounds` states this bound.
- With an edit that is accepted, the polite text has still been generated. It is stored
  in `text_generated_polite`.

## Model

| member | source | states |
|---|---|---|
| BertModel.ContainsIsSubstring | polite_back/models/bert_model.py:50-51 | `word in text` holds exactly when some window of the text equals the word |
| BertModel.StrictThreshold | polite_back/models/bert_model.py:65 | off the block list, a text is over exactly when its score is strictly above the threshold; a score equal to the threshold passes; the network's score is reported unchanged |
| BertModel.BlockListOverridesThreshold | polite_back/models/bert_model.py:50-52 | a block-listed text gives (over, 0.9) whatever its score and threshold; with a threshold of 0.9 or more, `over` holds although the score is not above the threshold |
| BertModel.OverIsMonotone | polite_back/models/bert_model.py:49-70 | lowering the threshold never turns an over-threshold text into a passing one, and the score stays the same |
| BertModel.Classifier.constructor | polite_back/models/bert_model.py:11-23 | at import the block list is read, and neither the tokenizer nor the network is loaded |
| BertModel.Classifier.EnsureLoaded | polite_back/models/bert_model.py:38-47 | loads only while the network is unset; once set, neither the network nor the tokenizer is replaced; at most one load ever happens |
| BertModel.Classifier.Predict | polite_back/models/bert_model.py:49-70 | a block-listed text gives (over, 0.9) and loads nothing; otherwise a first load installs exactly the given tokenizer and network, existing ones are kept, and the result is the strict comparison of the network's score with the threshold |
| Comments.LoadPost | polite_back/routes/comment.py:62-67 | the post with that id; 404 exactly when no post has the id |
| Comments.RequireSubpost | polite_back/routes/comment.py:51-59 | the section with that post and ord; 400 exactly when there is none |
| Comments.LockedPost | polite_back/routes/comment.py:69-77 | none exactly when the user has no comment, deleted or blocked ones included; otherwise the post of one of the user's comments |
| Comments.AppendKeepsOnePostPerUser | polite_back/routes/comment.py:69-77 | a row that passes the lock check keeps every user's comments on one post |
| Comments.AppendKeepsValid | polite_back/routes/comment.py:135-138 | a consistent row in a section, carrying the next id, admitted by the lock check, keeps the comment table's invariant |
| Comments.SoftDeleteIdempotent | polite_back/routes/comment.py:350-363 | deleting a second time changes nothing, and the first deletion time stays; the second call finds the same row, already marked deleted, so it answers `already` |
| Comments.SoftDeleteTouchesOneRow | polite_back/routes/comment.py:357-361 | soft deletion keeps the row count; it changes only the undeleted row with that id, and only by marking it deleted at the request time |
| Comments.SuggestRoute | polite_back/routes/comment.py:80-83 | 404 exactly when the post is missing; otherwise the preview under the post's own mode and threshold, with no section or lock check |
| Comments.CommentTable.Admit | polite_back/routes/comment.py:135-138 | the guards in order: 404 without the post, then 400 without the section, then 403 exactly when the user has a comment on another post; a request is admitted exactly when the post and section exist and every comment of the user is on this post, and it is given the post and section the guards found |
| Comments.CommentTable.AddComment | polite_back/routes/comment.py:133-325 | a failed guard writes nothing and calls no oracle; otherwise exactly one row is appended, blocked submissions included. The row carries the next id, the section, and `Decide`'s outcome. The answer reports the row's id, its source and whether it is visible. The table keeps unique increasing ids, one post per user and consistent outcomes |
| Comments.CommentTable.ListComments | polite_back/routes/comment.py:328-348 | 400 exactly when the section is missing; otherwise exactly the section's visible rows: accepted, and undeleted unless deleted ones are asked for. They are ordered by (created_at, id) and never include a blocked row |
| Comments.CommentTable.SoftDelete | polite_back/routes/comment.py:350-363 | 404 for an unknown id, with nothing changed; otherwise the comment is marked deleted at the request time unless it already was, and the answer says `already` exactly when it was |
| Model.ParsePolicyMode | polite_back/model.py:28-31 | reading a tag gives back a mode only for that mode's own tag |
| Model.PolicyModeRoundTrip | polite_back/model.py:28-31 | a mode's tag reads back as the mode, and a tag reads as a mode exactly when it is that mode's tag |
| Model.ParseFinalSource | polite_back/model.py:43-48 | reading a tag gives back a final source only for that source's own tag |
| Model.FinalSourceRoundTrip | polite_back/model.py:43-48 | a final source's tag reads back as the source, and a tag reads as a source exactly when it is that source's tag |
| Model.EnumsAreExhaustive | polite_back/model.py:28-53 | there are exactly three policy modes and five final sources, and their tags are distinct |
| Model.NewComment | polite_back/model.py:182-186 | a new comment is undeleted, with no deletion or update time, and keeps the ids and outcome it is given |
| Model.NewEvent | polite_back/model.py:107-150 | an intervention event built with the column defaults has attempt 1, action "none", no rule and an unknown choice; it meets the check constraints exactly when its section is 1, 2 or 3 |
| Model.AtMostThreeSections | polite_back/model.py:100-103 | under the ord check and the (post, ord) unique constraint, a post has at most three sections |
| Policy.TableIsAFunction | polite_back/routes/comment.py:141-325 | the decision table gives exactly one final source for every mode, original verdict, edit presence and edit verdict |
| Policy.Decide | polite_back/routes/comment.py:141-325 | every stored outcome: has attempt 1 and records the original's score and the threshold; is edited exactly when it is `user_edit` and hidden exactly when it is `blocked`; has no final text or score exactly when blocked; takes its final text from its source. The source is one the mode allows, and the first oracle call scores the original |
| Policy.DecideFollowsTable | polite_back/routes/comment.py:141-325 | the stored source is the one the decision table gives |
| Policy.BlockMode | polite_back/routes/comment.py:142-188 | block mode calls only the classifier, once; over threshold the row is blocked, hidden, and has no final text or score; otherwise it stores the original with the original's score |
| Policy.NoFilterMode | polite_back/routes/comment.py:191-213 | no-filter mode stores the original as `nofilter`, visible, whatever the classifier says |
| Policy.NoInterventionIgnoresEdits | polite_back/routes/comment.py:142-240 | outside polite mode over threshold, the edit and the pre-generated text change nothing, and the rewriter is not called; in polite mode under threshold the original is stored |
| Policy.InterventionTrace | polite_back/routes/comment.py:243-325 | the exact oracle calls in polite mode over threshold: the original's score; a rewrite unless a non-empty polite text was sent; the edit's score if an edit was given; the polite text's score unless the edit was accepted |
| Policy.EditAccepted | polite_back/routes/comment.py:246-273 | an edit under the threshold is stored as `user_edit`, marked edited, with the edit as final text and the edit's score as final score |
| Policy.PoliteFallback | polite_back/routes/comment.py:275-325 | with no edit, or an edit over threshold, the polite text is stored with its own score, not marked edited, and a rejected edit is still recorded |
| Policy.EditLogitIffEvaluated | polite_back/routes/comment.py:246-300 | the edit's score is recorded exactly when an edit was scored, and it is that score |
| Policy.CallBounds | polite_back/routes/comment.py:141-325 | a submission calls the classifier at most three times; it calls the rewriter exactly once in polite mode over threshold without a pre-generated text, and never otherwise |
| Policy.Suggest | polite_back/routes/comment.py:80-130 | the preview reports the post's mode and threshold and the classifier's verdict; it carries a polite text exactly in polite mode over threshold, and a score exactly in no-filter mode |
| Policy.SuggestPreviewsDecide | polite_back/routes/comment.py:80-130 | the preview foretells the submission of the same text: block mode previews exactly what it would block; polite mode previews the text it would store, and under threshold the submission keeps the original; no-filter mode reports the score it would record |
| Policy.PreviewedTextSubstitutes | polite_back/routes/comment.py:243 | sending back the previewed polite text stores the same row as letting the submission rewrite, with no rewrite call |
| Policy.BlockListedNeverPasses | polite_back/models/bert_model.py:50-52 | with `predict` as the classifier, a block-listed text is blocked in block mode, and a block-listed edit is never accepted, whatever the threshold |
| Posts.GetAllPosts | polite_back/routes/post.py:12-27 | every post, in table order, with its id, title, content, mode and threshold |
| Posts.VerifyPostPassword | polite_back/routes/post.py:30-61 | the post opens exactly when it exists and its stored hash equals the sent password; then its summary and the summaries of its sections, ordered by ord and a permutation of them |
| Posts.OpenedShowsAtMostThree | polite_back/routes/post.py:40-61 | an opened post shows at most three sections |
| Posts.PasswordlessPosts | polite_back/routes/post.py:32-38 | a post without a password opens exactly for a request without one; a post with one never opens for a request without one |
| Reactions.CountIsUsers | polite_back/routes/reaction.py:27-46 | under the unique constraint, a count is the number of distinct users with that reaction on the comment |
| Reactions.FlagIsEntry | polite_back/routes/reaction.py:49-74 | a flag holds exactly when the (comment, user, type) triple is present |
| Reactions.ToggledEntries | polite_back/routes/reaction.py:77-101 | a toggle removes the triple when present and adds it otherwise; no other triple changes |
| Reactions.ToggledUnique | polite_back/routes/reaction.py:77-101 | a toggle keeps at most one row per (comment, user, type) |
| Reactions.ToggleTwice | polite_back/routes/reaction.py:77-101 | toggling the same reaction twice restores the triples present |
| Reactions.ToggleFlipsFlag | polite_back/routes/reaction.py:104-135 | a toggle flips that user's flag of that type; the other type's flag, and everyone else's flags, stay as they were |
| Reactions.ToggleMovesCount | polite_back/routes/reaction.py:77-101 | a toggle lowers its own count by one when the reaction was there and raises it by one otherwise; every other count stays |
| Reactions.ReactionTable.Toggle | polite_back/routes/reaction.py:77-101 | 404 for an unknown comment, with nothing written; otherwise the toggle, a fresh id used only on insert, then the status read back; the table stays unique |
| Reactions.ReactionTable.ToggleLike | polite_back/routes/reaction.py:104-118 | the like toggle with 404 first, and the status afterwards |
| Reactions.ReactionTable.ToggleHate | polite_back/routes/reaction.py:121-135 | the hate toggle with 404 first, and the status afterwards |
| Reactions.ReactionTable.GetReactionStatus | polite_back/routes/reaction.py:138-151 | 404 exactly for an unknown comment; otherwise each count is the number of distinct users reacting that way, and each flag says whether this user is one of them |
| Reactions.ReactionTable.GetBatchReactionStatus | polite_back/routes/reaction.py:154-179 | one status per requested id that exists, in request order, repeats kept; unknown ids are skipped; nothing is written |
| Reward.SectionCountAppend | polite_back/routes/reward.py:22-27 | a counted comment adds one to its own section only; a comment of another user or post, a blocked one or a deleted one counts nowhere |
| Reward.GroupBy | polite_back/routes/reward.py:29-38 | one row per distinct ord with its number of occurrences: what the grouping query returns |
| Reward.Tally | polite_back/routes/reward.py:40-48 | whatever order the groups come in, the dictionary has exactly keys 1 to 3, each holding that section's count, with 0 for an empty section; null and out-of-range ords are skipped |
| Reward.SumOfSections | polite_back/routes/reward.py:52 | on the three-section dictionary, the sum of values is the sum of the three counts |
| Reward.IsEligible | polite_back/routes/reward.py:51-54 | the total is the sum of the values; eligible exactly when each of sections 1 to 3 has at least three and the total is at least nine |
| Reward.EligibleIffThreeEach | polite_back/routes/reward.py:51-54 | on the three-section dictionary the nine-in-all condition adds nothing: eligible exactly when every section has three |
| Reward.EligibilityExamples | polite_back/routes/reward.py:51-54 | 3-3-3 is eligible with total 9; 2-5-5 is not, though its total is 12 |
| Reward.OrNone | polite_back/routes/reward.py:97-98 | an unset, empty setting is reported as null, and any other value as itself |
| Reward.AppendClaimKeepsValid | polite_back/routes/reward.py:107-109 | recording a claim for a user without one keeps one claim per user, and the user then holds a claim |
| Reward.CountsBySection | polite_back/routes/reward.py:21-48 | the grouping query plus its loop give exactly the per-section counts of the user's accepted, undeleted comments on the post |
| Reward.ClaimTable.CheckEligibility | polite_back/routes/reward.py:57-78 | 404 exactly when the post is missing; otherwise the counts, their total, eligibility exactly when each section has three, and `already_claimed` exactly when the user holds a claim for any post; nothing is written |
| Reward.ClaimTable.ClaimReward | polite_back/routes/reward.py:81-116 | 404 without the post, with nothing written. A user with a claim gets the link again, with no eligibility check and no write. An ineligible user gets nothing. Otherwise exactly one "granted" claim is added. Afterwards the user holds a claim exactly when they held one before or this call granted it, and claims stay one per user |
| Users.FindByName | polite_back/routes/users.py:22-23 | a user with that name from the table, and none exactly when no user has the name |
| Users.FindById | polite_back/routes/users.py:44 | a user with that id from the table, and none exactly when no user has the id |
| Users.RegisteredIsFound | polite_back/routes/users.py:20-36 | after a registration under a fresh name, that name finds the new user, and every other name finds what it found before |
| Users.UserTable.Register | polite_back/routes/users.py:20-36 | a taken name gives 400 and writes nothing; otherwise exactly one user with the next id is appended; names stay unique |
| Users.UserTable.Verify | polite_back/routes/users.py:39-55 | a non-empty name is looked up even when an id is also sent; otherwise the id is used; with neither, 400. `exists` holds exactly when a matching user is in the table, and then the answer is that user |

## Left out

- Concurrency: the semaphores of the classifier and rewriter routes, and the async
  scheduling. The model is sequential, one request at a time.
- The neural network, the tokenizer and the rewriter's generation. They are oracles:
  `infer` in `BertModel.Classifier.Predict`, and the `classify: ClassifyOracle` and
  `rewrite: Rewriter` parameters of `Policy.Decide` and `Policy.Suggest`. A failing inference call is not modelled.
- `Policy.Decide` takes the classifier as a pure function. The load-once state of
  `BertModel.Classifier` is therefore not threaded through a submission. The two are
  combined only in `Policy.BlockListedNeverPasses`.
- polite_back/routes/bert.py, polite_back/routes/kobart.py, kobart_model.py,
  intervention.py, database.py and both main.py files are not part of this model.
  They are thin wrappers, configuration or wiring. intervention.py's log record appears
  only through its table's defaults (`Model.NewEvent`).
- Time: `datetime.now` becomes an integer `now` passed in. Database-side defaults such
  as `created_at` and `claimed_at` also take that value. Time zones are not modelled.
- Autoincrement ids are a `nextId` counter per table, starting at 1.
- `commit`, `refresh`, transactions and the uniqueness constraints as a race backstop
  are not modelled. The constraints are kept as class invariants instead.
- Scores are opaque reals, only compared and recorded. The sigmoid, the float
  conversion of the threshold, and the rounding in the classifier route are not
  modelled.
- `scalar_one_or_none` raises when several rows match. The model takes the first match.
  Under the unique constraints only the lock query can match several rows, and it has
  `LIMIT 1`. The sub-post query matches at most one row, because `uk_sub_posts_post_ord`
  makes (post id, ord) unique (polite_back/model.py:101).
- Response dictionaries (`comment_to_dict`, the user and post dictionaries) are
  modelled as the rows or summaries they project. The section that `comment_to_dict`
  echoes is not modelled.
- The preview's fixed Korean message strings are an enumeration (`Schemas.Notice`).
- Comments.CommentTable.SoftDelete: the source's answer for a fresh deletion has no
  `already` key at all. The model reports `already = false` there.
- Model.NewComment: the defaults of `was_edited`, `attempts_count` and `submit_success`
  go unused, because every insert in comment.py sets them explicitly. The model states
  the defaults that do apply (`is_deleted`, `deleted_at`, `updated_at`).
- BertModel.Classifier.Predict: the default threshold 0.5 is the constant
  `DEFAULT_THRESHOLD`. Every caller in the core passes a threshold, so the default
  argument is not modelled.
- Posts.VerifyPostPassword: the request body is any JSON dictionary, so its `password`
  may be any JSON value. Only a string, or a missing or null password, is modelled. A
  number or a list never equals the stored hash, so its answer is invalid, as for a
  wrong string.
- Reactions.ReactionTable.ToggleLike: states the rows and the status like `Toggle`, but
  leaves out `Toggle`'s statement about the id counter. ToggleHate does the same.
- Request validation by pydantic is a precondition of the routes that need it:
  `ValidSaveReq` on `AddComment`, `ValidUserRegister` on `Register`, `ValidUserVerify`
  on `Verify`, `ValidSuggestReq` on `SuggestRoute`, and `ValidListQuery` on
  `ListComments` (the query bounds of polite_back/routes/comment.py:330-331). It is not a
  modelled error path, because FastAPI answers 422 before the route runs.
