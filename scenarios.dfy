/**
 * End-to-end runs of the comment widget, each checked statically: the
 * widget's method contracts are enough to know every state along the way.
 */
module CrmCommentScenarios {
  import opened Js
  import opened TaskManageUtils
  import opened CrmCommentWidget

  /** Seven comments and the default page size: the first two pages hold 3 comments each and leave more to load. */
  method PagingThroughSevenComments(page1: seq<Record>, page2: seq<Record>)
    requires |page1| == 3 && |page2| == 3
    requires forall r :: r in page1 ==> |r| > 0
    requires forall r :: r in page2 ==> |r| > 0
  {
    var w := new CrmComment(Str("T-1"), Str("1"), true, None);
    assert w.PAGE_SIZE == 3;
    assert w.listRequests == [ListRequest(0, 3, Replace)];

    MapListKeysCount(page1);
    w.ReceiveList(0, ListReply(Undefined, page1, 7));
    assert w.startIndex == 3 && |w.currentList| == 3 && w.IsThereMoreData();

    w.GetNextPageCommentList();
    assert w.listRequests == [ListRequest(3, 3, Append)];
    MapListKeysCount(page2);
    w.ReceiveList(0, ListReply(Null, page2, 7));
    assert w.startIndex == 6 && |w.currentList| == 6 && w.IsThereMoreData();
  }

  /** With 6 of 7 comments loaded, the next page holds the last one, after which "load more" does nothing. */
  method LastPageEndsPaging(w: CrmComment, page3: seq<Record>)
    requires w.PAGE_SIZE == 3 && w.startIndex == 6 && w.totalCount == 7 && |w.currentList| == 6
    requires w.listRequests == []
    requires |page3| == 1 && |page3[0]| > 0
    modifies w
  {
    w.GetNextPageCommentList();
    assert w.listRequests == [ListRequest(6, 3, Append)];
    assert forall r :: r in page3 ==> |r| > 0;
    MapListKeysCount(page3);
    w.ReceiveList(0, ListReply(Str(""), page3, 7));
    assert w.startIndex == 7 && |w.currentList| == 7 && !w.IsThereMoreData();

    w.GetNextPageCommentList();
    assert w.listRequests == [];
  }

  /** A list reply with an error message is reported and leaves the list as it was. */
  method FailedLoadKeepsTheList()
  {
    var w := new CrmComment(Str("T-1"), Str("1"), false, Some(5));
    assert w.PAGE_SIZE == 5;
    w.ReceiveList(0, ListReply(Str("timeout"), [], 1));
    assert w.currentList == [] && w.startIndex == 0;
    assert w.errors == [Str("timeout")];
    assert w.listRequests == [];
  }

  /** Clicking Alice's comment starts a reply: the input holds "回复 Alice:". */
  method ClickingAliceStartsAReply()
  {
    var w := new CrmComment(Str("T-1"), Str("1"), true, None);
    w.ReceiveList(0, ListReply(Undefined, [], 2));
    assert w.Rendered();

    var alice := Target(2, 1, "u-alice", "Alice");
    w.CommentRowClick(Some(alice));
    assert ReplyPrefix(false, Some("Alice")) == "\U{56DE}\U{590D} Alice:";
    assert w.inputValue == "\U{56DE}\U{590D} Alice:" && !w.isOwnComment;
    assert w.comment2Reply.Fields() == TargetFields(Some(2), Some(1), Some("u-alice"), Some("Alice"));
  }

  /** While replying to Alice, the text typed after the prefix is posted with her comment id and user id. */
  method ReplyingToAlice(w: CrmComment)
    requires w.Valid() && w.Rendered() && w.canAddComment && w.postRequests == []
    requires !w.isOwnComment && w.comment2Reply.Fields() == TargetFields(Some(2), Some(1), Some("u-alice"), Some("Alice"))
    modifies w
  {
    var prefix := ReplyPrefix(false, Some("Alice"));
    w.InputEdit(prefix + "thanks");
    ReplyPostsTypedText("Alice", "thanks");
    assert !AllWhitespace("thanks") by {
      assert !IsJsWhitespace("thanks"[0]);
    }
    w.SendClick();
    var posted := w.postRequests[0];
    assert posted.cmtCncnt == "thanks" && posted.cmtId == Num(2) && posted.cmtTgtUsrId == Some("u-alice");
  }

  /** Once the server accepts a reply, the widget composes an own comment again and reloads one more comment than it had. */
  method AcceptedReplyResetsTheInput(w: CrmComment)
    requires w.Valid() && !w.isOwnComment && w.startIndex == 4 && w.listRequests == [] && |w.postRequests| == 1
    modifies w
  {
    w.ReceivePost(0, Num(0));
    assert w.isOwnComment && w.comment2Reply.Fields() == NO_TARGET && w.inputValue == "";
    assert w.listRequests == [ListRequest(0, 5, Replace)] && w.postRequests == [];
  }

  /** Deleting into the reply prefix gives up the reply: the input is blanked and the target dropped. */
  method DeletingThePrefixCancelsTheReply()
  {
    var w := new CrmComment(Str("T-1"), Str("1"), true, None);
    w.ReceiveList(0, ListReply(Undefined, [], 1));
    w.CommentRowClick(Some(Target(1, 0, "u-alice", "Alice")));
    var prefix := w.inputValue;
    assert |prefix| == 9;
    w.InputEdit(prefix[..8]);
    assert w.isOwnComment && w.inputValue == "" && w.comment2Reply.Fields() == NO_TARGET;
  }

  /** Input made of spaces and line breaks never posts anything, by button or by Shift+Enter. */
  method BlankInputNeverPosts()
  {
    var w := new CrmComment(Str("T-1"), Str("1"), true, None);
    w.ReceiveList(0, ListReply(Undefined, [], 0));
    w.InputEdit("  \n\t ");
    assert AllWhitespace("  \n\t ");
    w.SendClick();
    assert w.postRequests == [];
    w.KeyPress(13, 13, false, true);
    assert w.postRequests == [];
  }

  /** A comment of 600 characters is posted as its first 500. */
  method LongCommentIsCut(content: string)
    requires |content| == 600
  {
    var w := new CrmComment(Str("T-1"), Str("1"), true, None);
    w.AddComment(content);
    assert w.postRequests[0].cmtCncnt == content[..500];
  }
}
