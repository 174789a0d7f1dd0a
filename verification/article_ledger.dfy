/** The article interaction rules of authors/apps/articles/serializers.py:
    rating validation, the comment body limit and the like/dislike table with
    its three verbs save, update and delete. */
module ArticleLedger {
  import opened Wrappers

  // ---------------------------------------------------------------- ratings

  const RatingDigits: set<char> := {'1', '2', '3', '4', '5'}

  datatype RatingError = RatingOutOfRange | OwnArticle | RatedTwice {
    function Message(): string
    {
      match this
      case RatingOutOfRange => "Rating should be in range of 1 to 5."
      case OwnArticle => "You cannot rate your own article"
      case RatedTwice => "You cannot rate an article twice."
    }
  }

  /** `validate_rating`: `re.match("[1-5]", s)` anchors at the start only, so
      the first character alone decides. */
  function ValidateRating(rating: string): (r: Result<string, RatingError>)
    ensures r.Success? <==> |rating| > 0 && '1' <= rating[0] <= '5'
    ensures r.Success? ==> r.value == rating
    ensures r.Failure? ==> r.error == RatingOutOfRange
  {
    if |rating| > 0 && rating[0] in RatingDigits then Success(rating)
    else Failure(RatingOutOfRange)
  }

  /** A rating request after field parsing: the article's primary key, the
      primary key of its author and the primary key of the rating user. */
  datatype RatingRequest = RatingRequest(
    rating: string, review: string, articleId: int, articleAuthor: int, userId: int)
  {
    function Key(): (int, int) { (articleId, userId) }
  }

  /** The rating serializer as a whole: the field check `validate_rating`
      runs first, then `validate` rejects a rating of one's own article
      before looking for an earlier rating. `rated` holds the
      (article, user) pairs of the stored ratings. */
  function RateArticle(req: RatingRequest, rated: set<(int, int)>): (r: Result<RatingRequest, RatingError>)
    ensures r.Success? <==>
      ValidateRating(req.rating).Success? && req.articleAuthor != req.userId && req.Key() !in rated
    ensures r == Failure(OwnArticle) <==>
      ValidateRating(req.rating).Success? && req.articleAuthor == req.userId
    ensures r == Failure(RatedTwice) <==>
      ValidateRating(req.rating).Success? && req.articleAuthor != req.userId && req.Key() in rated
    ensures r.Success? ==> r.value == req
  {
    if ValidateRating(req.rating).Failure? then Failure(RatingOutOfRange)
    else if req.articleAuthor == req.userId then Failure(OwnArticle)
    else if req.Key() in rated then Failure(RatedTwice)
    else Success(req)
  }

  /** Once a rating for (article, user) is stored, every further rating of
      that article by that user is rejected, whatever its value. */
  lemma SecondRatingRejected(first: RatingRequest, second: RatingRequest, rated: set<(int, int)>)
    requires RateArticle(first, rated).Success?
    requires second.Key() == first.Key() && second.articleAuthor == first.articleAuthor
    ensures RateArticle(second, rated + {first.Key()}).Failure?
    ensures ValidateRating(second.rating).Success? ==>
      RateArticle(second, rated + {first.Key()}) == Failure(RatedTwice)
  {
  }

  /** Boundary values: "0" and "6" fail, "1" to "5" pass, and because only
      the first character is examined "10" and "5x" pass as well. */
  lemma RatingBoundaries()
    ensures ValidateRating("0") == Failure(RatingOutOfRange)
    ensures ValidateRating("6") == Failure(RatingOutOfRange)
    ensures ValidateRating("") == Failure(RatingOutOfRange)
    ensures forall d :: d in "12345" ==> ValidateRating([d]).Success?
    ensures ValidateRating("10").Success? && ValidateRating("5x").Success?
  {
  }

  // --------------------------------------------------------------- comments

  const MaxCommentLength := 8000

  const CommentTooLong := "A comment cannot be more than 8000 characters including spaces."

  /** `CommentArticleAPIViewSerializer.validate_body`; the reply
      serializer `ChildCommentSerializer.validate_body` applies the same
      rule with the same message. */
  function ValidateCommentBody(body: string): (r: Result<string, string>)
    ensures r.Success? <==> |body| <= 8000
    ensures r.Success? ==> r.value == body
    ensures r.Failure? ==> r.error == CommentTooLong
  {
    if |body| > MaxCommentLength then Failure(CommentTooLong) else Success(body)
  }

  /** 8000 characters are accepted and 8001 rejected. */
  lemma CommentBoundary(c: char)
    ensures ValidateCommentBody(seq(8000, _ => c)).Success?
    ensures ValidateCommentBody(seq(8001, _ => c)) == Failure(CommentTooLong)
  {
  }

  // ------------------------------------------------------------------ likes

  /** The like table: (article_id, user_id) to `article_like`; an absent key
      means no opinion. The stored value is a bool, never null. */
  type LikeKey = (int, int)

  /** A like request as the serializer receives it; `articleLike` is None
      when the client sent `null`. */
  datatype RawLikeRequest = RawLikeRequest(articleLike: Option<bool>, userId: int, articleId: int)

  datatype LikeRequest = LikeRequest(articleLike: bool, userId: int, articleId: int)
  {
    function Key(): LikeKey { (articleId, userId) }
  }

  /** `get_data_items`: the request's fields plus the status word. */
  datatype DataItems = DataItems(articleLike: bool, userId: int, articleId: int, status: string)

  /** The dictionary `perform_save`, `perform_update` and `perform_delete`
      return: `article_like` is None after a delete, and the text sits under
      the key `messageKey`, "message" after a save and "status" after an
      update or a delete. */
  datatype LikeResponse = LikeResponse(articleLike: Option<bool>, userId: int, articleId: int,
                                       messageKey: string, message: string)

  datatype LikeInputError = LikeMayNotBeNull | ArticleDoesNotExist

  const AlreadyLiked := "You have already provided a like or dislike for this article"
  const MustLikeFirst := "You need to first like or dislike the article"
  const CannotDeleteUnliked := "You cannot delete an article you have not liked or disliked"

  function GetDataItems(req: LikeRequest): (d: DataItems)
    ensures d.status == "dislike" <==> !req.articleLike
    ensures d.status == "like" <==> req.articleLike
    ensures d.articleLike == req.articleLike && d.userId == req.userId && d.articleId == req.articleId
  {
    var items := DataItems(req.articleLike, req.userId, req.articleId, "like");
    if !req.articleLike then items.(status := "dislike") else items
  }

  /** The outcome of one verb: its response (or the error message it
      raises) and the like table afterwards. */
  datatype LikeStep = LikeStep(response: Result<LikeResponse, string>, likes: map<LikeKey, bool>)

  /** `perform_save`: inserts a row only when none exists for the key. */
  function SaveLike(likes: map<LikeKey, bool>, req: LikeRequest): (s: LikeStep)
    ensures s.response.Success? <==> req.Key() !in likes
    ensures s.response.Success? ==>
      && s.likes == likes[req.Key() := req.articleLike]
      && s.response.value.articleLike == Some(req.articleLike)
      && s.response.value.userId == req.userId && s.response.value.articleId == req.articleId
      && s.response.value.messageKey == "message"
      && s.response.value.message ==
           "You have provided a " + (if req.articleLike then "like" else "dislike") + " for the article"
    ensures s.response.Failure? ==> s.likes == likes && s.response.error == AlreadyLiked
    ensures req.Key() in s.likes && s.likes[req.Key()] == (if req.Key() in likes then likes[req.Key()] else req.articleLike)
  {
    if req.Key() !in likes then
      var item := GetDataItems(req);
      LikeStep(Success(LikeResponse(Some(item.articleLike), item.userId, item.articleId, "message",
                                    "You have provided a " + item.status + " for the article")),
               likes[req.Key() := item.articleLike])
    else
      LikeStep(Failure(AlreadyLiked), likes)
  }

  /** `perform_update`: overwrites the existing row and nothing else. */
  function UpdateLike(likes: map<LikeKey, bool>, req: LikeRequest): (s: LikeStep)
    ensures s.response.Success? <==> req.Key() in likes
    ensures s.response.Success? ==>
      && s.likes.Keys == likes.Keys
      && s.likes[req.Key()] == req.articleLike
      && (forall k :: k in likes && k != req.Key() ==> s.likes[k] == likes[k])
      && s.response.value.articleLike == Some(req.articleLike)
      && s.response.value.userId == req.userId && s.response.value.articleId == req.articleId
      && s.response.value.messageKey == "status"
      && s.response.value.message ==
           "You have updated to " + (if req.articleLike then "like" else "dislike") + " the article"
    ensures s.response.Failure? ==> s.likes == likes && s.response.error == MustLikeFirst
  {
    if req.Key() !in likes then LikeStep(Failure(MustLikeFirst), likes)
    else
      var item := GetDataItems(req);
      LikeStep(Success(LikeResponse(Some(item.articleLike), item.userId, item.articleId, "status",
                                    "You have updated to " + item.status + " the article")),
               likes[req.Key() := item.articleLike])
  }

  /** `perform_delete`: removes the row and reports no opinion. */
  function DeleteLike(likes: map<LikeKey, bool>, req: LikeRequest): (s: LikeStep)
    ensures s.response.Success? <==> req.Key() in likes
    ensures s.response.Success? ==>
      && s.likes.Keys == likes.Keys - {req.Key()}
      && (forall k :: k in s.likes ==> s.likes[k] == likes[k])
      && s.response.value.articleLike == None
      && s.response.value.userId == req.userId && s.response.value.articleId == req.articleId
      && s.response.value.messageKey == "status"
      && s.response.value.message == "Your opinion has been deleted from article likes"
    ensures s.response.Failure? ==> s.likes == likes && s.response.error == CannotDeleteUnliked
    ensures req.Key() !in s.likes
  {
    if req.Key() !in likes then LikeStep(Failure(CannotDeleteUnliked), likes)
    else
      var item := GetDataItems(req);
      LikeStep(Success(LikeResponse(None, item.userId, item.articleId, "status",
                                    "Your opinion has been deleted from article likes")),
               likes - {req.Key()})
  }

  /** A second save for the same (article, user) raises, and leaves the
      table as the first save left it. */
  lemma SaveTwiceRejected(likes: map<LikeKey, bool>, req: LikeRequest, again: LikeRequest)
    requires SaveLike(likes, req).response.Success?
    requires again.Key() == req.Key()
    ensures var after := SaveLike(likes, req).likes;
      SaveLike(after, again) == LikeStep(Failure(AlreadyLiked), after)
  {
  }

  /** Without a prior save, update and delete both raise and change nothing. */
  lemma UpdateOrDeleteBeforeSaveRejected(likes: map<LikeKey, bool>, req: LikeRequest)
    requires req.Key() !in likes
    ensures UpdateLike(likes, req) == LikeStep(Failure(MustLikeFirst), likes)
    ensures DeleteLike(likes, req) == LikeStep(Failure(CannotDeleteUnliked), likes)
  {
  }

  /** Save, then update, then delete on one key all succeed in that order,
      and the table ends as it began. */
  lemma LikeLifecycle(likes: map<LikeKey, bool>, req: LikeRequest, change: bool)
    requires req.Key() !in likes
    ensures var s1 := SaveLike(likes, req);
      var s2 := UpdateLike(s1.likes, req.(articleLike := change));
      var s3 := DeleteLike(s2.likes, req);
      s1.response.Success? && s2.response.Success? && s3.response.Success? &&
      s2.likes[req.Key()] == change && s3.likes == likes
  {
    var s1 := SaveLike(likes, req);
    var s2 := UpdateLike(s1.likes, req.(articleLike := change));
    var s3 := DeleteLike(s2.likes, req);
    assert s3.likes.Keys == likes.Keys;
  }

  /** The table of likes for the articles that exist. */
  class LikeTable {
    var articles: set<int>
    var likes: map<LikeKey, bool>

    constructor (articles: set<int>)
      ensures this.articles == articles && likes == map[]
    {
      this.articles := articles;
      likes := map[];
    }

    /** `validate_article_id`. */
    function ValidateArticleId(articleId: int): (r: Result<int, LikeInputError>)
      reads this
      ensures r.Success? <==> articleId in articles
      ensures r.Success? ==> r.value == articleId
      ensures r.Failure? ==> r.error == ArticleDoesNotExist
    {
      if articleId in articles then Success(articleId) else Failure(ArticleDoesNotExist)
    }

    /** Field validation of a like request. As a serializer does, every
        field is checked and the errors of all failing fields are reported
        together: `article_like` is a boolean that may not be null, and
        `validate_article_id` checks the article. */
    function ValidateLikeRequest(raw: RawLikeRequest): (r: Result<LikeRequest, set<LikeInputError>>)
      reads this
      ensures r.Success? <==> raw.articleLike.Some? && raw.articleId in articles
      ensures r.Failure? ==> r.error != {}
      ensures r.Failure? ==> (LikeMayNotBeNull in r.error <==> raw.articleLike.None?)
      ensures r.Failure? ==> (ArticleDoesNotExist in r.error <==> raw.articleId !in articles)
      ensures r.Success? ==> r.value == LikeRequest(raw.articleLike.value, raw.userId, raw.articleId)
    {
      var likeErrors := if raw.articleLike.None? then {LikeMayNotBeNull} else {};
      var idErrors := if ValidateArticleId(raw.articleId).Failure? then {ValidateArticleId(raw.articleId).error} else {};
      if likeErrors + idErrors == {} then Success(LikeRequest(raw.articleLike.value, raw.userId, raw.articleId))
      else Failure(likeErrors + idErrors)
    }

    /** `verify_article_exists`: despite its name, whether this user already
        has a like row for the article, which is exactly when a save is
        refused and an update or a delete goes ahead. */
    predicate VerifyArticleExists(req: LikeRequest)
      reads this
      ensures VerifyArticleExists(req) <==> SaveLike(likes, req).response.Failure?
      ensures VerifyArticleExists(req) <==> UpdateLike(likes, req).response.Success?
      ensures VerifyArticleExists(req) <==> DeleteLike(likes, req).response.Success?
    {
      req.Key() in likes
    }

    method PerformSave(req: LikeRequest) returns (r: Result<LikeResponse, string>)
      modifies this`likes
      ensures LikeStep(r, likes) == SaveLike(old(likes), req)
      ensures VerifyArticleExists(req)
    {
      if !VerifyArticleExists(req) {
        var item := GetDataItems(req);
        likes := likes[req.Key() := item.articleLike];
        r := Success(LikeResponse(Some(item.articleLike), item.userId, item.articleId, "message",
                                  "You have provided a " + item.status + " for the article"));
      } else {
        r := Failure(AlreadyLiked);
      }
    }

    method PerformUpdate(req: LikeRequest) returns (r: Result<LikeResponse, string>)
      modifies this`likes
      ensures LikeStep(r, likes) == UpdateLike(old(likes), req)
    {
      if !VerifyArticleExists(req) {
        r := Failure(MustLikeFirst);
      } else {
        var item := GetDataItems(req);
        likes := likes[req.Key() := item.articleLike];
        r := Success(LikeResponse(Some(item.articleLike), item.userId, item.articleId, "status",
                                  "You have updated to " + item.status + " the article"));
      }
    }

    method PerformDelete(req: LikeRequest) returns (r: Result<LikeResponse, string>)
      modifies this`likes
      ensures LikeStep(r, likes) == DeleteLike(old(likes), req)
      ensures !VerifyArticleExists(req)
    {
      if !VerifyArticleExists(req) {
        r := Failure(CannotDeleteUnliked);
      } else {
        var item := GetDataItems(req);
        likes := likes - {req.Key()};
        r := Success(LikeResponse(None, item.userId, item.articleId, "status",
                                  "Your opinion has been deleted from article likes"));
      }
    }
  }
}
