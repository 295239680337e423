/**
 * The comment widget `CrmComment`: a paged list of comments on one subject,
 * loaded from the server a page at a time, and a text area in which the user
 * either writes a comment of their own or replies to a comment of the list.
 *
 * The pure parts (key renaming of server records, the reply prefix, the
 * content that a send click posts, the post payload, the key combination that
 * sends, the visibility decisions of the templates) are functions; the widget
 * itself is a class whose methods change its fields as the source's methods
 * and event handlers do.
 */
module CrmCommentWidget {
  import opened Js
  import opened TaskManageUtils

  // ---------------------------------------------------------------------------
  // Constants
  // ---------------------------------------------------------------------------

  /** The semantic keys of a comment, in the order of the raw keys below. */
  const DEST_KEYS: seq<string> :=
    ["id", "parentId", "userId", "userName", "targetUserId", "targetUserName", "date", "content"]

  /** The raw keys of a comment record as the server sends it. */
  const ORIGIN_KEYS: seq<string> :=
    ["cmtId", "prnCmtId", "cmtUsrId", "cmtUsrNm", "cmtTgtUsrId", "cmtTgtUsrNm", "cmtTm", "cmtCncnt"]

  /** Page size used when the options give none (or 0). */
  const DEFAULT_PAGE_SIZE: int := 3

  /**
   * At most this many characters of a comment are posted. A `char` is a Unicode
   * scalar value; the source counts UTF-16 code units, and the two agree only
   * for text in the Basic Multilingual Plane.
   */
  const MAX_CONTENT: nat := 500

  /** "回复 " ("reply", then a space): the start of the text put in the input when replying. */
  const REPLY_WORD: string := "\U{56DE}\U{590D} "

  // ---------------------------------------------------------------------------
  // mapListKeys
  // ---------------------------------------------------------------------------

  /** `list.filter(o => Object.keys(o).length > 0)`. */
  function NonEmptyRecords(list: seq<Record>): (kept: seq<Record>)
    ensures |kept| <= |list|
  {
    if list == [] then []
    else (if |list[0]| > 0 then [list[0]] else []) + NonEmptyRecords(list[1..])
  }

  /**
   * The filter keeps exactly the records of the list that have a key, and all
   * of them when none is empty.
   */
  lemma {:induction false} NonEmptyRecordsKeeps(list: seq<Record>)
    ensures forall r :: r in NonEmptyRecords(list) <==> r in list && |r| > 0
    ensures (forall r :: r in list ==> |r| > 0) ==> NonEmptyRecords(list) == list
  {
    if list != [] {
      NonEmptyRecordsKeeps(list[1..]);
      assert list == [list[0]] + list[1..];
      assert forall r :: r in list <==> r == list[0] || r in list[1..];
      if forall r :: r in list ==> |r| > 0 {
        assert list[0] in list;
      }
    }
  }

  /** Filtering two lists one after the other gives the filter of both together: the kept records keep their order. */
  lemma {:induction false} NonEmptyRecordsAppend(a: seq<Record>, b: seq<Record>)
    ensures NonEmptyRecords(a + b) == NonEmptyRecords(a) + NonEmptyRecords(b)
  {
    if a != [] {
      var head := if |a[0]| > 0 then [a[0]] else [];
      assert (a + b)[0] == a[0];
      assert (a + b)[1..] == a[1..] + b;
      NonEmptyRecordsAppend(a[1..], b);
      calc {
        NonEmptyRecords(a + b);
        head + NonEmptyRecords(a[1..] + b);
        head + (NonEmptyRecords(a[1..]) + NonEmptyRecords(b));
        (head + NonEmptyRecords(a[1..])) + NonEmptyRecords(b);
        NonEmptyRecords(a) + NonEmptyRecords(b);
      }
    } else {
      assert a + b == b;
    }
  }

  /** `mapKeys(o, ORIGIN_KEYS, DEST_KEYS)`: the renaming of one record. */
  function MapRecord(o: Record): Record
  {
    MappedObject(Some(o), ORIGIN_KEYS, DEST_KEYS)
  }

  /** A renamed record has exactly the semantic keys, each holding the value of the raw key at the same position. */
  lemma MapRecordRenames(o: Record)
    ensures forall key :: key in MapRecord(o) <==> key in DEST_KEYS
    ensures forall i :: 0 <= i < |DEST_KEYS| ==> MapRecord(o)[DEST_KEYS[i]] == Get(o, ORIGIN_KEYS[i])
  {
    var m := MapRecord(o);
    assert DEST_KEYS[..|ORIGIN_KEYS|] == DEST_KEYS;
    forall i | 0 <= i < |DEST_KEYS|
      ensures m[DEST_KEYS[i]] == Get(o, ORIGIN_KEYS[i])
    {
      assert LastWrite(DEST_KEYS, |ORIGIN_KEYS|, i);
      MappedPrefixAt(o, ORIGIN_KEYS, DEST_KEYS, |ORIGIN_KEYS|, i);
    }
  }

  /**
   * mapListKeys: the records with no key are dropped, the others keep their
   * order and are renamed one by one.
   */
  function MapListKeys(list: seq<Record>): (out: seq<Record>)
    ensures |out| == |NonEmptyRecords(list)|
  {
    if list == [] then []
    else (if |list[0]| > 0 then [MapRecord(list[0])] else []) + MapListKeys(list[1..])
  }

  /** The `i`-th comment is the renaming of the `i`-th record that has a key. */
  lemma {:induction false} MapListKeysAt(list: seq<Record>, i: nat)
    requires i < |MapListKeys(list)|
    ensures MapListKeys(list)[i] == MapRecord(NonEmptyRecords(list)[i])
  {
    if |list[0]| > 0 {
      if i > 0 {
        MapListKeysAt(list[1..], i - 1);
      }
    } else {
      MapListKeysAt(list[1..], i);
    }
  }

  /** Mapping two pages one after the other gives the mapping of both pages together, in fetch order. */
  lemma {:induction false} MapListKeysAppend(a: seq<Record>, b: seq<Record>)
    ensures MapListKeys(a + b) == MapListKeys(a) + MapListKeys(b)
  {
    if a != [] {
      var head := if |a[0]| > 0 then [MapRecord(a[0])] else [];
      assert (a + b)[0] == a[0];
      assert (a + b)[1..] == a[1..] + b;
      MapListKeysAppend(a[1..], b);
      calc {
        MapListKeys(a + b);
        head + MapListKeys(a[1..] + b);
        head + (MapListKeys(a[1..]) + MapListKeys(b));
        (head + MapListKeys(a[1..])) + MapListKeys(b);
        MapListKeys(a) + MapListKeys(b);
      }
    } else {
      assert a + b == b;
    }
  }

  /** When the server sends no empty record, every record yields exactly one comment. */
  lemma MapListKeysCount(list: seq<Record>)
    requires forall r :: r in list ==> |r| > 0
    ensures |MapListKeys(list)| == |list|
  {
    NonEmptyRecordsKeeps(list);
  }

  // ---------------------------------------------------------------------------
  // The reply prefix and what a send click posts
  // ---------------------------------------------------------------------------

  /**
   * autoInputText: `"回复 " + userName + ":"` while replying to a comment whose
   * author name is non-empty, and "" otherwise.
   */
  function ReplyPrefix(isOwnComment: bool, userName: Option<string>): (t: string)
    ensures t != [] <==> !isOwnComment && userName.Some? && userName.value != []
    ensures t != [] ==> |t| == |REPLY_WORD| + |userName.value| + 1
                        && t[..|REPLY_WORD|] == REPLY_WORD
                        && t[|REPLY_WORD|..|t| - 1] == userName.value
                        && t[|t| - 1] == ':'
  {
    if !isOwnComment && userName.Some? && userName.value != [] then
      var t := REPLY_WORD + userName.value + ":";
      assert t[..|REPLY_WORD|] == REPLY_WORD;
      assert t[|REPLY_WORD|..|t| - 1] == userName.value;
      t
    else
      ""
  }

  /** `value.slice(n)` for `n >= 0`: the characters from position `n` on, "" when `n` is past the end. */
  function SliceFrom(value: string, n: nat): (r: string)
    ensures n <= |value| ==> value == value[..n] + r
    ensures |value| <= n ==> r == []
  {
    if n <= |value| then value[n..] else []
  }

  /**
   * The user's own text: the whole input for an own comment; while replying,
   * the input with its first `|prefix|` characters cut off, whatever they are.
   */
  function UserContent(value: string, isOwnComment: bool, prefix: string): (content: string)
    ensures isOwnComment ==> content == value
    ensures !isOwnComment && |prefix| <= |value| ==> value == value[..|prefix|] + content
    ensures !isOwnComment && |value| <= |prefix| ==> content == []
  {
    if isOwnComment then value else SliceFrom(value, |prefix|)
  }

  /** Text typed after the prefix comes back exactly. */
  lemma UserContentAfterPrefix(prefix: string, typed: string)
    ensures UserContent(prefix + typed, false, prefix) == typed
  {
    assert (prefix + typed)[..|prefix|] == prefix;
  }

  /**
   * The prefix is cut by length, not by content: an input whose first
   * characters were edited still loses exactly `|prefix|` of them.
   */
  lemma UserContentCutsByLength(prefix: string, edited: string, typed: string)
    requires |edited| == |prefix|
    ensures UserContent(edited + typed, false, prefix) == typed
  {
    assert (edited + typed)[|prefix|..] == typed;
  }

  /**
   * The send click: the content to post, or None when the user's own text is
   * empty or only whitespace, in which case nothing is posted.
   */
  function SendContent(value: string, isOwnComment: bool, prefix: string): (c: Option<string>)
    ensures c.None? <==> AllWhitespace(UserContent(value, isOwnComment, prefix))
    ensures c.Some? ==> c.value == UserContent(value, isOwnComment, prefix)
  {
    var content := UserContent(value, isOwnComment, prefix);
    if content == [] || Trim(content) == [] then None else Some(content)
  }

  /** Replying: the text typed after the prefix is posted as it is, unless it is blank. */
  lemma ReplyPostsTypedText(userName: string, typed: string)
    ensures var prefix := ReplyPrefix(false, Some(userName));
      SendContent(prefix + typed, false, prefix) == if AllWhitespace(typed) then None else Some(typed)
  {
    UserContentAfterPrefix(ReplyPrefix(false, Some(userName)), typed);
  }

  /** A reply target as read from a clicked comment row. */
  datatype Target = Target(id: int, parentId: int, userId: string, userName: string)

  /**
   * The fields of the reply object: `{}` has none of them, a row click sets all four.
   * The id and parent id are numbers (`+` of the row's text), the others strings.
   */
  datatype TargetFields = TargetFields(id: Option<int>, parentId: Option<int>, userId: Option<string>, userName: Option<string>)
  {
    predicate IsEmpty()
    {
      id.None? && parentId.None? && userId.None? && userName.None?
    }

    predicate IsSet()
    {
      id.Some? && parentId.Some? && userId.Some? && userName.Some?
    }
  }

  const NO_TARGET: TargetFields := TargetFields(None, None, None, None)

  function FieldsOf(t: Target): TargetFields
  {
    TargetFields(Some(t.id), Some(t.parentId), Some(t.userId), Some(t.userName))
  }

  /** The body of the add-comment request. There is no parent-id field: the source does not send it. */
  datatype Payload = Payload(busId: Value, sbjTyp: Value, cmtCncnt: string, cmtId: Value, cmtTgtUsrId: Option<string>)

  /**
   * addComment's request body: subject, the content cut to 500 characters, and
   * `cmtId` "" for an own comment; when replying, the target's id as `cmtId`
   * and its user id as `cmtTgtUsrId`.
   */
  function PostPayload(subjectId: Value, subjectType: Value, content: string, isOwnComment: bool, target: TargetFields): (p: Payload)
    requires !isOwnComment ==> target.IsSet()
    ensures p.busId == subjectId && p.sbjTyp == subjectType
    ensures |p.cmtCncnt| == if |content| <= MAX_CONTENT then |content| else MAX_CONTENT
    ensures p.cmtCncnt == content[..|p.cmtCncnt|]
    ensures isOwnComment ==> p.cmtId == Str("") && p.cmtTgtUsrId.None?
    ensures !isOwnComment ==> p.cmtId == Num(target.id.value) && p.cmtTgtUsrId == target.userId
  {
    var text := if |content| <= MAX_CONTENT then content else content[..MAX_CONTENT];
    if isOwnComment then Payload(subjectId, subjectType, text, Str(""), None)
    else Payload(subjectId, subjectType, text, Num(target.id.value), target.userId)
  }

  /** The parent id of the target is recorded but never sent: two targets differing only there give the same body. */
  lemma PayloadIgnoresParent(subjectId: Value, subjectType: Value, content: string, t: Target, parentId: int)
    ensures PostPayload(subjectId, subjectType, content, false, FieldsOf(t))
         == PostPayload(subjectId, subjectType, content, false, FieldsOf(t.(parentId := parentId)))
  {
  }

  /** The posted content is never longer than 500 characters, and content that fits is posted whole. */
  lemma PayloadCapped(subjectId: Value, subjectType: Value, content: string, isOwnComment: bool, target: TargetFields)
    requires !isOwnComment ==> target.IsSet()
    ensures var p := PostPayload(subjectId, subjectType, content, isOwnComment, target);
      |p.cmtCncnt| <= MAX_CONTENT && (|content| <= MAX_CONTENT ==> p.cmtCncnt == content)
  {
  }

  // ---------------------------------------------------------------------------
  // Key combination, visibility
  // ---------------------------------------------------------------------------

  /** `charCode || keyCode`, then Ctrl with code 10 or Shift with code 13 sends. */
  function TriggersSend(charCode: int, keyCode: int, ctrlKey: bool, shiftKey: bool): (send: bool)
    ensures send ==> ctrlKey || shiftKey
    ensures send <==> ((charCode == 10 || (charCode == 0 && keyCode == 10)) && ctrlKey)
                      || ((charCode == 13 || (charCode == 0 && keyCode == 13)) && shiftKey)
  {
    var code := if charCode != 0 then charCode else keyCode;
    (code == 10 && ctrlKey) || (code == 13 && shiftKey)
  }

  /** What the templates show: the padding of the whole area, the list's visibility and the "load more" link. */
  datatype Layout = Layout(padded: bool, listHidden: bool, loadMore: bool)

  /** The visibility decisions of the prefix, list and load-more templates. */
  function LayoutOf(canAddComment: bool, startIndex: int, totalCount: int): (l: Layout)
    ensures l.padded <==> canAddComment || totalCount != 0
    ensures l.listHidden <==> totalCount == 0
    ensures l.loadMore <==> startIndex < totalCount
  {
    Layout(!(!canAddComment && totalCount == 0), totalCount == 0, !(startIndex >= totalCount))
  }

  /** A read-only widget on a subject without comments shows nothing at all: no padding, no list, no link. */
  lemma EmptyReadOnlyCollapses(startIndex: nat)
    ensures LayoutOf(false, startIndex, 0) == Layout(false, true, false)
  {
  }

  /** The "load more" link is never shown when the list is hidden, since the start index is never negative. */
  lemma HiddenListHasNoLoadMore(canAddComment: bool, startIndex: nat, totalCount: int)
    ensures LayoutOf(canAddComment, startIndex, totalCount).listHidden ==> !LayoutOf(canAddComment, startIndex, totalCount).loadMore
  {
  }

  /** The template of one comment row, reduced to what it decides. */
  datatype RowView = RowView(bubble: bool, showsTarget: bool, pointer: bool, content: string)

  /** A record value used as the comment text: only a string is text. */
  function TextOf(v: Value): Option<string>
  {
    if v.Str? then Some(v.s) else None
  }

  /**
   * getCommentTemplate: the first row carries the bubble, the "reply to" part
   * appears when the record has a target user id or name, rows look clickable
   * when comments can be added, and the content is sanitised by transformHtml.
   */
  function RowOf(comment: Record, index: nat, canAddComment: bool): (v: RowView)
    ensures v.bubble <==> index == 0
    ensures v.showsTarget <==> Truthy(Get(comment, "targetUserId")) || Truthy(Get(comment, "targetUserName"))
    ensures v.pointer == canAddComment
    ensures v.content == TransformHtml(TextOf(Get(comment, "content")))
  {
    RowView(index == 0,
            Truthy(Get(comment, "targetUserId")) || Truthy(Get(comment, "targetUserName")),
            canAddComment,
            TransformHtml(TextOf(Get(comment, "content"))))
  }

  /** The shown text of a row holds no whitespace, and it is empty exactly when the record's content is absent or blank. */
  lemma RowContentSanitised(comment: Record, index: nat, canAddComment: bool)
    ensures var v := RowOf(comment, index, canAddComment);
      && NoWhitespace(v.content)
      && (v.content == [] <==> TextOf(Get(comment, "content")).None? || AllWhitespace(Get(comment, "content").s))
  {
  }

  // ---------------------------------------------------------------------------
  // Requests, replies and the paint log
  // ---------------------------------------------------------------------------

  /** What becomes of the current list when a page arrives. */
  datatype Merge = Replace | Append

  /**
   * The list handlers: the one of initCommentList and refreshCommentList
   * returns the new page, the one of getNextPageCommentList appends it.
   */
  function MergeLists(merge: Merge, current: seq<Record>, page: seq<Record>): seq<Record>
  {
    match merge
    case Replace => page
    case Append => current + page
  }

  /** The new page always ends the merged list; appending keeps the current list in front of it, replacing drops it. */
  lemma MergeListsKeeps(merge: Merge, current: seq<Record>, page: seq<Record>)
    ensures var merged := MergeLists(merge, current, page);
      && |merged| == |page| + (if merge == Append then |current| else 0)
      && merged[|merged| - |page|..] == page
      && (merge == Append ==> merged[..|current|] == current)
  {
  }

  /** A list request in flight: the start index and page size sent, and the merge to apply on arrival. */
  datatype ListRequest = ListRequest(startIndex: nat, pageSize: int, merge: Merge)

  /** A list response: the error message, the raw records and the server's total count. */
  datatype ListReply = ListReply(errMsg: Value, rows: seq<Record>, totalCount: int)

  /** What the wrapper element shows: the loading skeleton or the rendered widget. */
  datatype Paint = Skeleton | Render

  /** `s` without its element at `k`. */
  function Without<T>(s: seq<T>, k: nat): (r: seq<T>)
    requires k < |s|
    ensures |r| == |s| - 1
    ensures forall i :: 0 <= i < k ==> r[i] == s[i]
    ensures forall i :: k <= i < |r| ==> r[i] == s[i + 1]
  {
    s[..k] + s[k + 1..]
  }

  /** Every field of the widget that its methods assign, as one value. */
  datatype Snapshot = Snapshot(
    startIndex: nat,
    currentList: seq<Record>,
    totalCount: int,
    isOwnComment: bool,
    target: TargetFields,
    textAreaRowsAdded: bool,
    inputValue: string,
    inputRows: nat,
    listRequests: seq<ListRequest>,
    postRequests: seq<Payload>)

  // ---------------------------------------------------------------------------
  // The reply target object
  // ---------------------------------------------------------------------------

  /** `comment2Reply`: `{}` at first, filled in place by a row click, replaced by a new `{}` when cleared. */
  class ReplyTarget {
    var id: Option<int>
    var parentId: Option<int>
    var userId: Option<string>
    var userName: Option<string>

    function Fields(): TargetFields
      reads this
    {
      TargetFields(id, parentId, userId, userName)
    }

    constructor ()
      ensures Fields() == NO_TARGET
    {
      id, parentId, userId, userName := None, None, None, None;
    }
  }

  // ---------------------------------------------------------------------------
  // The widget
  // ---------------------------------------------------------------------------

  class CrmComment {
    const subjectId: Value
    const subjectType: Value
    const canAddComment: bool
    const PAGE_SIZE: int

    var startIndex: nat
    var currentList: seq<Record>
    var totalCount: int
    var comment2Reply: ReplyTarget
    var isOwnComment: bool
    var textAreaRowsAdded: bool
    /** The value of the text area (meaningful while the widget is rendered and comments can be added). */
    var inputValue: string
    /** The `rows` attribute of the text area. */
    var inputRows: nat
    /** List requests sent and not yet answered, in the order sent. */
    var listRequests: seq<ListRequest>
    /** Add-comment requests sent and not yet answered, in the order sent. */
    var postRequests: seq<Payload>
    /** Everything painted into the wrapper, in order. */
    ghost var paints: seq<Paint>
    /** Every error message reported to the user, in order. */
    ghost var errors: seq<Value>

    /**
     * The reply mode: composing an own comment with an empty target, or
     * replying with all four target fields set. Only a widget that can add
     * comments ever replies or enlarges its text area.
     */
    predicate Valid()
      reads this, comment2Reply
    {
      && (isOwnComment ==> comment2Reply.Fields().IsEmpty())
      && (!isOwnComment ==> comment2Reply.Fields().IsSet())
      && (!canAddComment ==> isOwnComment && !textAreaRowsAdded)
    }

    /** The last thing painted is the rendered widget, so its elements and handlers exist. */
    ghost predicate Rendered()
      reads this
    {
      |paints| > 0 && paints[|paints| - 1] == Render
    }

    /**
     * The skeleton is shown over an earlier render: the wrapper's click handler,
     * bound by that render, is still there, but the text area is gone.
     */
    ghost predicate Loading()
      reads this
    {
      |paints| > 0 && paints[|paints| - 1] == Skeleton && Render in paints
    }

    function State(): Snapshot
      reads this, comment2Reply
    {
      Snapshot(startIndex, currentList, totalCount, isOwnComment, comment2Reply.Fields(),
               textAreaRowsAdded, inputValue, inputRows, listRequests, postRequests)
    }

    /** isThereMoreData. */
    function IsThereMoreData(): (more: bool)
      reads this
      ensures more <==> startIndex < totalCount
      ensures more == LayoutOf(canAddComment, startIndex, totalCount).loadMore
    {
      !(startIndex >= totalCount)
    }

    /** autoInputText. */
    function AutoInputText(): (t: string)
      reads this, comment2Reply
      ensures t == ReplyPrefix(isOwnComment, comment2Reply.userName)
    {
      ReplyPrefix(isOwnComment, comment2Reply.userName)
    }

    /**
     * The constructor: page size `pageSize || 3`, nothing loaded, composing
     * an own comment; then the first page is requested.
     */
    constructor (subjectId: Value, subjectType: Value, canAddComment: bool, pageSize: Option<int>)
      ensures Valid()
      ensures this.subjectId == subjectId && this.subjectType == subjectType
      ensures this.canAddComment == canAddComment
      ensures PAGE_SIZE == OrElse(pageSize, DEFAULT_PAGE_SIZE)
      ensures State() == Snapshot(0, [], 0, true, NO_TARGET, false, "", 1,
                                  [ListRequest(0, PAGE_SIZE, Replace)], [])
      ensures paints == [Skeleton] && errors == []
      ensures fresh(comment2Reply)
    {
      this.subjectId := subjectId;
      this.subjectType := subjectType;
      this.canAddComment := canAddComment;
      PAGE_SIZE := OrElse(pageSize, DEFAULT_PAGE_SIZE);
      startIndex := 0;
      currentList := [];
      totalCount := 0;
      comment2Reply := new ReplyTarget();
      isOwnComment := true;
      textAreaRowsAdded := false;
      inputValue := "";
      inputRows := 1;
      listRequests := [];
      postRequests := [];
      paints := [];
      errors := [];
      new;
      InitCommentList();
    }

    /**
     * getListHelper up to the request: the skeleton is painted and a request
     * for `pageSize` comments from `start` is sent; the merge waits for the reply.
     */
    method GetListHelper(start: nat, pageSize: int, merge: Merge)
      modifies this
      ensures State() == old(State()).(listRequests := old(listRequests) + [ListRequest(start, pageSize, merge)])
      ensures paints == old(paints) + [Skeleton] && errors == old(errors)
      ensures comment2Reply == old(comment2Reply)
    {
      paints := paints + [Skeleton];
      listRequests := listRequests + [ListRequest(start, pageSize, merge)];
    }

    /** initCommentList: restart from 0 and request a first page that replaces the list. */
    method InitCommentList()
      modifies this
      ensures State() == old(State()).(startIndex := 0,
                                       listRequests := old(listRequests) + [ListRequest(0, PAGE_SIZE, Replace)])
      ensures paints == old(paints) + [Skeleton] && errors == old(errors)
      ensures comment2Reply == old(comment2Reply)
    {
      startIndex := 0;
      GetListHelper(startIndex, PAGE_SIZE, Replace);
    }

    /**
     * getNextPageCommentList: without more data, nothing at all happens;
     * otherwise a page from the current start index is requested, to be appended.
     */
    method GetNextPageCommentList()
      modifies this
      ensures !old(IsThereMoreData()) ==> unchanged(this)
      ensures old(IsThereMoreData()) ==>
        && State() == old(State()).(listRequests := old(listRequests) + [ListRequest(startIndex, PAGE_SIZE, Append)])
        && paints == old(paints) + [Skeleton] && errors == old(errors)
      ensures comment2Reply == old(comment2Reply)
    {
      if !IsThereMoreData() {
        return;
      }
      GetListHelper(startIndex, PAGE_SIZE, Append);
    }

    /** refreshCommentList: restart from 0 and request `tempPageSize || PAGE_SIZE` comments that replace the list. */
    method RefreshCommentList(tempPageSize: Option<int>)
      modifies this
      ensures State() == old(State()).(startIndex := 0,
        listRequests := old(listRequests) + [ListRequest(0, OrElse(tempPageSize, PAGE_SIZE), Replace)])
      ensures paints == old(paints) + [Skeleton] && errors == old(errors)
      ensures comment2Reply == old(comment2Reply)
    {
      var pageSize := OrElse(tempPageSize, PAGE_SIZE);
      startIndex := 0;
      GetListHelper(startIndex, pageSize, Replace);
    }

    /**
     * The reply to list request `k`. On success the renamed page is merged
     * into the current list, the start index (as it is now, not as it was at
     * the request) advances by the page's length, the total count is the
     * server's, and the widget is rendered, which recreates an empty one-row
     * text area. On an error the message is reported and nothing else changes.
     */
    method ReceiveList(k: nat, reply: ListReply)
      requires k < |listRequests|
      modifies this
      ensures var request := old(listRequests[k]);
              var page := MapListKeys(reply.rows);
              NoErrorMessage(reply.errMsg) ==>
        && State() == old(State()).(listRequests := Without(old(listRequests), k),
                                    currentList := MergeLists(request.merge, old(currentList), page),
                                    startIndex := old(startIndex) + |page|,
                                    totalCount := reply.totalCount,
                                    inputValue := "", inputRows := 1)
        && paints == old(paints) + [Render] && errors == old(errors)
      ensures !NoErrorMessage(reply.errMsg) ==>
        && State() == old(State()).(listRequests := Without(old(listRequests), k))
        && paints == old(paints) && errors == old(errors) + [reply.errMsg]
      ensures comment2Reply == old(comment2Reply)
    {
      var request := listRequests[k];
      listRequests := Without(listRequests, k);
      match CommonFetchData(reply.errMsg, reply) {
        case Success(body) =>
          ApplyPage(request.merge, MapListKeys(body.rows), body.totalCount);
        case ErrorReported(message) =>
          errors := errors + [message];
      }
    }

    /**
     * The success callback of getListHelper: the list handler merges the new
     * list into the current one, the total count is the server's, the start
     * index advances by the new list's length and the widget is rendered.
     */
    method ApplyPage(merge: Merge, newList: seq<Record>, total: int)
      modifies this
      ensures State() == old(State()).(currentList := MergeLists(merge, old(currentList), newList),
                                  startIndex := old(startIndex) + |newList|,
                                  totalCount := total,
                                  inputValue := "", inputRows := 1)
      ensures paints == old(paints) + [Render] && errors == old(errors)
      ensures comment2Reply == old(comment2Reply)
    {
      currentList := MergeLists(merge, currentList, newList);
      totalCount := total;
      startIndex := startIndex + |newList|;
      paints := paints + [Render];
      inputValue := "";
      inputRows := 1;
    }

    /** addComment: the request body is built from the content and the reply mode and sent. */
    method AddComment(content: string)
      requires Valid()
      modifies this
      ensures Valid()
      ensures State() == old(State()).(postRequests := old(postRequests) +
        [PostPayload(subjectId, subjectType, content, isOwnComment, comment2Reply.Fields())])
      ensures paints == old(paints) && errors == old(errors)
      ensures comment2Reply == old(comment2Reply)
    {
      var payload := PostPayload(subjectId, subjectType, content, isOwnComment, comment2Reply.Fields());
      postRequests := postRequests + [payload];
    }

    /**
     * The success callback of addComment: back to composing an own comment
     * with a new empty target, a text area that may be enlarged again and an
     * empty input, then a refresh asking for one more comment than are loaded.
     */
    method CommentAdded()
      modifies this
      ensures State() == old(State()).(textAreaRowsAdded := false, isOwnComment := true,
                                  target := NO_TARGET, inputValue := "", startIndex := 0,
                                  listRequests := old(listRequests) + [ListRequest(0, old(startIndex) + 1, Replace)])
      ensures paints == old(paints) + [Skeleton] && errors == old(errors)
      ensures fresh(comment2Reply)
    {
      textAreaRowsAdded := false;
      isOwnComment := true;
      comment2Reply := new ReplyTarget();
      inputValue := "";
      RefreshCommentList(Some(startIndex + 1));
    }

    /**
     * The reply to add-comment request `k`. On success the widget returns to
     * composing an own comment with a new empty target, a one-row-collapsible
     * text area and an empty input, and the list is refreshed with one more
     * row than were loaded before the refresh reset the start index.
     */
    method ReceivePost(k: nat, errMsg: Value)
      requires k < |postRequests|
      modifies this
      ensures NoErrorMessage(errMsg) ==>
        && State() == old(State()).(postRequests := Without(old(postRequests), k),
                                    textAreaRowsAdded := false, isOwnComment := true,
                                    target := NO_TARGET, inputValue := "", startIndex := 0,
                                    listRequests := old(listRequests) + [ListRequest(0, old(startIndex) + 1, Replace)])
        && paints == old(paints) + [Skeleton] && errors == old(errors)
        && fresh(comment2Reply)
      ensures !NoErrorMessage(errMsg) ==>
        && State() == old(State()).(postRequests := Without(old(postRequests), k))
        && paints == old(paints) && errors == old(errors) + [errMsg]
        && comment2Reply == old(comment2Reply)
    {
      postRequests := Without(postRequests, k);
      match CommonFetchData(errMsg, k) {
        case Success(_) =>
          CommentAdded();
        case ErrorReported(message) =>
          errors := errors + [message];
      }
    }

    /**
     * A click in the comment list. Outside a row, or when comments cannot be
     * added, nothing happens. On a row the target's fields are assigned in
     * place, the widget switches to replying and the input is set to the
     * reply prefix.
     */
    method CommentRowClick(hit: Option<Target>)
      requires Valid() && Rendered()
      modifies this, comment2Reply
      ensures comment2Reply == old(comment2Reply)
      ensures Valid()
      ensures !canAddComment || hit.None? ==> unchanged(this, comment2Reply)
      ensures canAddComment && hit.Some? ==>
        && State() == old(State()).(isOwnComment := false, target := FieldsOf(hit.value),
                                    inputValue := ReplyPrefix(false, Some(hit.value.userName)))
        && paints == old(paints) && errors == old(errors)
    {
      if !canAddComment || hit.None? {
        return;
      }
      var row := hit.value;
      comment2Reply.id := Some(row.id);
      comment2Reply.parentId := Some(row.parentId);
      comment2Reply.userId := Some(row.userId);
      comment2Reply.userName := Some(row.userName);
      isOwnComment := false;
      inputValue := AutoInputText();
    }

    /**
     * The input event with the edited value. While replying, a value shorter
     * than the reply prefix blanks the input and switches for good to
     * composing an own comment with a new empty target; any other edit only
     * changes the value.
     */
    method InputEdit(value: string)
      requires Valid() && Rendered() && canAddComment
      modifies this
      ensures Valid()
      ensures !old(isOwnComment) && |value| < |old(AutoInputText())| ==>
        && State() == old(State()).(inputValue := "", isOwnComment := true, target := NO_TARGET)
        && fresh(comment2Reply)
      ensures old(isOwnComment) || |value| >= |old(AutoInputText())| ==>
        && State() == old(State()).(inputValue := value)
        && comment2Reply == old(comment2Reply)
      ensures paints == old(paints) && errors == old(errors)
    {
      inputValue := value;
      if !isOwnComment && |inputValue| < |AutoInputText()| {
        inputValue := "";
        isOwnComment := true;
        comment2Reply := new ReplyTarget();
      }
    }

    /** The send button: the user's text is posted unless it is empty or whitespace only. */
    method SendClick()
      requires Valid() && Rendered() && canAddComment
      modifies this
      ensures Valid()
      ensures var c := SendContent(old(inputValue), old(isOwnComment), old(AutoInputText()));
        State() == old(State()).(postRequests := old(postRequests) +
          if c.None? then [] else [PostPayload(subjectId, subjectType, c.value, isOwnComment, comment2Reply.Fields())])
      ensures paints == old(paints) && errors == old(errors)
      ensures comment2Reply == old(comment2Reply)
    {
      var content := SendContent(inputValue, isOwnComment, AutoInputText());
      if content.None? {
        return;
      }
      AddComment(content.value);
    }

    /**
     * A key press in the text area: Ctrl with code 10 or Shift with code 13
     * triggers a click on the send button, which bubbles to the wrapper like
     * a real one.
     */
    method KeyPress(charCode: int, keyCode: int, ctrlKey: bool, shiftKey: bool)
      requires Valid() && Rendered() && canAddComment
      modifies this
      ensures Valid()
      ensures !TriggersSend(charCode, keyCode, ctrlKey, shiftKey) ==> unchanged(this)
      ensures var c := SendContent(old(inputValue), old(isOwnComment), old(AutoInputText()));
              var collapse := old(textAreaRowsAdded) && UserContent(old(inputValue), old(isOwnComment), old(AutoInputText())) == [];
        TriggersSend(charCode, keyCode, ctrlKey, shiftKey) ==>
        State() == old(State()).(postRequests := old(postRequests) +
                                   (if c.None? then [] else [PostPayload(subjectId, subjectType, c.value, isOwnComment, comment2Reply.Fields())]),
                                 textAreaRowsAdded := old(textAreaRowsAdded) && !collapse,
                                 inputRows := if collapse then 1 else old(inputRows))
      ensures paints == old(paints) && errors == old(errors)
      ensures comment2Reply == old(comment2Reply)
    {
      if TriggersSend(charCode, keyCode, ctrlKey, shiftKey) {
        ClickSendButton();
      }
    }

    /** A click in the text area: the first one enlarges it to three rows, later ones do nothing. */
    method TextAreaClick()
      requires Valid() && Rendered() && canAddComment
      modifies this
      ensures Valid()
      ensures old(textAreaRowsAdded) ==> unchanged(this)
      ensures !old(textAreaRowsAdded) ==> State() == old(State()).(textAreaRowsAdded := true, inputRows := 3)
      ensures paints == old(paints) && errors == old(errors)
      ensures comment2Reply == old(comment2Reply)
    {
      if !textAreaRowsAdded {
        textAreaRowsAdded := true;
        inputRows := 3;
      }
    }

    /**
     * A click that reaches the wrapper: an enlarged text area whose own text
     * (after cutting the reply prefix) is empty goes back to one row. There is
     * no trim here, so a text of spaces keeps the rows.
     */
    method WrapperClick()
      requires Valid() && Rendered()
      modifies this
      ensures Valid()
      ensures old(textAreaRowsAdded) && UserContent(old(inputValue), old(isOwnComment), old(AutoInputText())) == [] ==>
        State() == old(State()).(textAreaRowsAdded := false, inputRows := 1)
      ensures !old(textAreaRowsAdded) || UserContent(old(inputValue), old(isOwnComment), old(AutoInputText())) != [] ==>
        unchanged(this)
      ensures paints == old(paints) && errors == old(errors)
      ensures comment2Reply == old(comment2Reply)
    {
      if textAreaRowsAdded {
        var content := inputValue;
        if !isOwnComment {
          content := SliceFrom(content, |AutoInputText()|);
        }
        if content == [] {
          textAreaRowsAdded := false;
          inputRows := 1;
        }
      }
    }

    /**
     * The wrapper's click handler while the skeleton is shown: `val()` of the
     * missing text area is undefined. Composing an own comment, an enlarged
     * area is marked as not enlarged (setting the rows of a missing element
     * does nothing). While replying, `undefined.slice` throws a TypeError,
     * which ends the handler before it changes anything.
     */
    method WrapperClickOnSkeleton()
      requires Valid() && Loading()
      modifies this
      ensures Valid()
      ensures old(textAreaRowsAdded) && old(isOwnComment) ==> State() == old(State()).(textAreaRowsAdded := false)
      ensures !old(textAreaRowsAdded) || !old(isOwnComment) ==> unchanged(this)
      ensures paints == old(paints) && errors == old(errors)
      ensures comment2Reply == old(comment2Reply)
    {
      if textAreaRowsAdded && isOwnComment {
        textAreaRowsAdded := false;
      }
    }

    /**
     * A click in the comment list as the browser delivers it: the list's
     * handler, then the wrapper's, since the click is not stopped on the way.
     * A click on a row therefore also returns an enlarged text area to one
     * row: the input then holds nothing but the reply prefix.
     */
    method ClickCommentList(hit: Option<Target>)
      requires Valid() && Rendered()
      modifies this, comment2Reply
      ensures Valid()
      ensures comment2Reply == old(comment2Reply)
      ensures canAddComment && hit.Some? ==>
        State() == old(State()).(isOwnComment := false, target := FieldsOf(hit.value),
                                 inputValue := ReplyPrefix(false, Some(hit.value.userName)),
                                 textAreaRowsAdded := false,
                                 inputRows := if old(textAreaRowsAdded) then 1 else old(inputRows))
      ensures (!canAddComment || hit.None?) && old(textAreaRowsAdded)
              && UserContent(old(inputValue), old(isOwnComment), old(AutoInputText())) == [] ==>
        State() == old(State()).(textAreaRowsAdded := false, inputRows := 1)
      ensures (!canAddComment || hit.None?)
              && (!old(textAreaRowsAdded) || UserContent(old(inputValue), old(isOwnComment), old(AutoInputText())) != []) ==>
        unchanged(this, comment2Reply)
      ensures paints == old(paints) && errors == old(errors)
    {
      CommentRowClick(hit);
      WrapperClick();
    }

    /**
     * A click on the send button as the browser delivers it: the button's
     * handler, then the wrapper's. The input is cleared only when the server
     * accepts the comment, so the wrapper returns an enlarged area to one row
     * only when the user's own text is empty, and then nothing was posted.
     */
    method ClickSendButton()
      requires Valid() && Rendered() && canAddComment
      modifies this
      ensures Valid()
      ensures var c := SendContent(old(inputValue), old(isOwnComment), old(AutoInputText()));
              var collapse := old(textAreaRowsAdded) && UserContent(old(inputValue), old(isOwnComment), old(AutoInputText())) == [];
        State() == old(State()).(postRequests := old(postRequests) +
                                   (if c.None? then [] else [PostPayload(subjectId, subjectType, c.value, isOwnComment, comment2Reply.Fields())]),
                                 textAreaRowsAdded := old(textAreaRowsAdded) && !collapse,
                                 inputRows := if collapse then 1 else old(inputRows))
      ensures paints == old(paints) && errors == old(errors)
      ensures comment2Reply == old(comment2Reply)
    {
      SendClick();
      WrapperClick();
    }

    /**
     * A click on "load more" as the browser delivers it: the link's handler,
     * then the wrapper's. With more data the skeleton is painted first, so the
     * wrapper's handler finds no text area.
     */
    method ClickLoadMore()
      requires Valid() && Rendered()
      modifies this
      ensures Valid()
      ensures old(IsThereMoreData()) ==>
        && State() == old(State()).(listRequests := old(listRequests) + [ListRequest(old(startIndex), PAGE_SIZE, Append)],
                                    textAreaRowsAdded := old(textAreaRowsAdded) && !old(isOwnComment))
        && paints == old(paints) + [Skeleton]
      ensures !old(IsThereMoreData()) && old(textAreaRowsAdded)
              && UserContent(old(inputValue), old(isOwnComment), old(AutoInputText())) == [] ==>
        State() == old(State()).(textAreaRowsAdded := false, inputRows := 1)
      ensures !old(IsThereMoreData())
              && (!old(textAreaRowsAdded) || UserContent(old(inputValue), old(isOwnComment), old(AutoInputText())) != []) ==>
        unchanged(this)
      ensures !old(IsThereMoreData()) ==> paints == old(paints)
      ensures errors == old(errors)
      ensures comment2Reply == old(comment2Reply)
    {
      var more := IsThereMoreData();
      GetNextPageCommentList();
      if more {
        WrapperClickOnSkeleton();
      } else {
        WrapperClick();
      }
    }

    /** getCommentListTemplate: one row per comment of the current list, in order. */
    method CommentListView() returns (rows: seq<RowView>)
      ensures |rows| == |currentList|
      ensures forall i :: 0 <= i < |rows| ==> rows[i] == RowOf(currentList[i], i, canAddComment)
    {
      var list := currentList;
      rows := [];
      var i := 0;
      while i < |list|
        invariant 0 <= i <= |list|
        invariant |rows| == i
        invariant forall j :: 0 <= j < i ==> rows[j] == RowOf(list[j], j, canAddComment)
      {
        rows := rows + [RowOf(list[i], i, canAddComment)];
        i := i + 1;
      }
    }
  }
}
