/** The request and response shapes of schemas/schemas.py. The pydantic field
    constraints become validity predicates: FastAPI rejects a request that breaks
    them before the route runs, so the routes may assume them. */
module Schemas {
  import opened Wrappers
  import opened Model

  datatype UserRegister = UserRegister(username: string)

  datatype UserVerify = UserVerify(username: Option<string>, id: Option<int>)

  datatype SuggestReq = SuggestReq(postId: int, section: int, text: string)

  datatype SaveReq = SaveReq(
    userId: int,
    postId: int,
    section: int,
    textOriginal: string,
    parentCommentId: Option<int>,
    generatedPoliteText: Option<string>,
    textUserEdit: Option<string>)

  /** The answer of a submission: whether the comment is visible and where its text came from. */
  datatype SaveRes = SaveRes(saved: bool, finalSource: FinalSource, commentId: Option<int>)

  /** The fixed messages a preview can carry. */
  datatype Notice = BlockedRetry | Passable | NoFilterNotice

  datatype SuggestRes = SuggestRes(
    policyMode: PolicyMode,
    overThreshold: bool,
    thresholdApplied: real,
    politeText: Option<string>,
    message: Option<Notice>,
    logit: Option<real>)

  /** `username` has 1 to 50 characters. */
  predicate ValidUserRegister(r: UserRegister) {
    1 <= |r.username| <= 50
  }

  predicate ValidUserVerify(r: UserVerify) {
    r.username.Some? ==> 1 <= |r.username.value| <= 50
  }

  predicate ValidSuggestReq(r: SuggestReq) {
    r.postId > 0 && 1 <= r.section <= 3 && |r.text| >= 1
  }

  /** `generated_polite_text`, `text_user_edit` and `parent_comment_id` are unconstrained options. */
  predicate ValidSaveReq(r: SaveReq) {
    r.userId > 0 && r.postId > 0 && 1 <= r.section <= 3 && |r.textOriginal| >= 1
  }
}
