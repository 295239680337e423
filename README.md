# CrmComment: the comment widget of the CRM task pages, in Dafny

This project models the comment widget `CrmComment`
(`es6-crm-comment.js`, with `crm-comment.js` as its ES5 form) and the helpers it
uses from `task-manage-utils.js`. The widget shows a paged list of comments on
one subject. It loads the comments from the server one page at a time. Below the
list is a text area: the user writes a comment of their own there, or clicks a
comment of the list and replies to it.

The project has four files:

- `js.dfy` (module `Js`) holds the JavaScript values that the code compares
  loosely: `undefined`, `null`, numbers and strings. It also holds truthiness,
  records as maps from key to value, and `a || b` on numbers.
- `task_manage_utils.dfy` (module `TaskManageUtils`) holds the helpers:
  - the sanitisers `replaceLineCharacter`, `transformHtmlCharactor`,
    `transformHtml` and `replaceOperationGroup`, built on a model of
    `String.prototype.trim`, `split`/`join` and global `replace`;
  - `getUrlFileName`, with the page address as a parameter;
  - the response guard of `commonFetchData`;
  - `mapKeys`, written as the loop of the source.

  `trim` and `\s` use the whitespace table of ECMAScript: the WhiteSpace and
  LineTerminator code points.
- `crm_comment.dfy` (module `CrmCommentWidget`) holds the widget:
  - pure functions for the decisions the widget makes: renaming server
    records, the reply prefix "回复 name:", the content a send click posts, the
    request body, the key combination that sends, and what the templates show
    or hide;
  - a class `CrmComment` whose fields are the widget's state, plus a class
    `ReplyTarget` for `comment2Reply`, which a row click fills in place.

  Each handler and callback of the source is a method. Each method's
  postcondition states the whole new state as an update of `State()`. Painting
  and error reporting are recorded in the ghost logs `paints` and `errors`.
- `scenarios.dfy` (module `CrmCommentScenarios`) walks the widget through whole
  interactions, each checked by the verifier from the methods' contracts. The
  interactions are: paging through seven comments, the last page ending the
  paging, a failed load, replying to a comment, giving up a reply, blank input
  never posting, and the 500-character cut.

Requests to the server are modelled as two queues of requests in flight,
`listRequests` and `postRequests`. `ReceiveList(k, reply)` and
`ReceivePost(k, errMsg)` deliver the server's answer to the k-th pending
request, in any order. This is how the widget can be shown to behave when
answers overtake one another. For example, the start index advances from its
value when the answer arrives, not from the value it had when the request was
sent.

Some behaviour of the source that the model keeps as written:

- `render` recreates an empty one-row text area. It does not reset
  `textAreaRowsAdded`, `isOwnComment` or `comment2Reply`. So after a reload
  while replying, the input is empty but the widget is still replying, and
  the first edit (shorter than the prefix) gives up the reply.
- The reply prefix is cut from the input by length, not by content
  (`UserContentCutsByLength`).
- The wrapper click has no `trim`, so a text area holding only spaces keeps
  its three rows. The send button does trim.
- `commonFetchData` tests `ERRMSG == "" || ERRMSG == null` with loose
  equality. The success path therefore also runs for `undefined` and for the
  number `0`, not only for `""` and `null`.
- A click in the list also reaches the wrapper. So a click on a row while
  the text area is enlarged sets up the reply and then shrinks the area back
  to one row (`ClickCommentList`).
- With the skeleton shown, the wrapper's handler reads `undefined` from the
  missing text area. Composing an own comment, it marks an enlarged area as
  not enlarged. While replying, `undefined.slice` throws a TypeError, and
  nothing changes (`WrapperClickOnSkeleton`).
- The ES5 constructor does not initialise `textAreaRowsAdded`. It starts as
  `undefined`, which behaves as `false`, and the model starts it at `false`.

## Model

| member | source | states |
|---|---|---|
| TaskManageUtils.TrimStart | task-manage-utils.js:21 | what `trim` drops at the front is whitespace, and the rest is empty or starts with a non-whitespace character |
| TaskManageUtils.TrimEnd | task-manage-utils.js:21 | what `trim` drops at the back is whitespace, and the rest is empty or ends with a non-whitespace character |
| TaskManageUtils.TrimStartIsSuffix | task-manage-utils.js:21 | the front-trimmed string is a suffix of the input |
| TaskManageUtils.TrimEndIsPrefix | task-manage-utils.js:21 | the back-trimmed string is a prefix of the input |
| TaskManageUtils.Trim | task-manage-utils.js:21 | `str.trim()` is empty exactly when the string is all whitespace; otherwise it starts and ends with non-whitespace |
| TaskManageUtils.TrimIsSlice | task-manage-utils.js:21 | `trim` returns a contiguous slice of the input, with only whitespace before and after it |
| TaskManageUtils.TrimSlices | task-manage-utils.js:21 | trimming the front and then the back cuts whitespace only, at the position the front trim leaves |
| TaskManageUtils.TrimKeepsAbsence | task-manage-utils.js:21-22 | trimming never introduces a character that the input lacks |
| TaskManageUtils.ReplaceAll | task-manage-utils.js:38 | a global replace by a non-empty text empties nothing but the empty string |
| TaskManageUtils.Split | task-manage-utils.js:11 | `split` always yields at least one piece |
| TaskManageUtils.JoinLength | task-manage-utils.js:11 | `join` puts one glue text between neighbouring pieces: the length is the pieces' total plus one glue fewer than there are pieces |
| TaskManageUtils.SplitJoinIsReplaceAll | task-manage-utils.js:11 | `split(sep).join(glue)` is the global replacement of `sep` by `glue` |
| TaskManageUtils.ReplaceAllBySelf | task-manage-utils.js:11 | replacing a pattern by itself changes nothing |
| TaskManageUtils.SplitJoinRoundTrip | task-manage-utils.js:11 | `split(sep).join(sep)` gives back the input |
| TaskManageUtils.ReplaceAllAbsent | task-manage-utils.js:11 | a string without the pattern comes back unchanged |
| TaskManageUtils.ReplaceAllKeepsPrefix | task-manage-utils.js:11 | a prefix free of the replacement character that the output starts with was already in the input |
| TaskManageUtils.ReplaceAllRemovesPattern | task-manage-utils.js:11 | after replacing the pattern by a character that is not in it, the pattern no longer occurs |
| TaskManageUtils.ReplaceAllAppend | task-manage-utils.js:38 | a global replace distributes over a concatenation when no match starts in the first part |
| TaskManageUtils.ReplaceChar | task-manage-utils.js:22 | replacing one character by a non-empty text keeps the string empty exactly when it was empty |
| TaskManageUtils.ReplaceCharAbsent | task-manage-utils.js:22 | a string without the character is unchanged |
| TaskManageUtils.ReplaceCharOrigin | task-manage-utils.js:22 | each output character is an input character other than the replaced one, or comes from the replacement |
| TaskManageUtils.ReplaceCharAppend | task-manage-utils.js:22 | replacement distributes over concatenation |
| TaskManageUtils.ReplaceWhitespace | task-manage-utils.js:40 | replacing `\s` by non-empty text empties nothing but the empty string |
| TaskManageUtils.ReplaceWhitespaceClean | task-manage-utils.js:40 | with a whitespace-free replacement, no whitespace is left |
| TaskManageUtils.ReplaceWhitespaceIdentity | task-manage-utils.js:40 | a string without whitespace is unchanged |
| TaskManageUtils.ReplaceWhitespaceAppend | task-manage-utils.js:40 | whitespace replacement distributes over concatenation |
| TaskManageUtils.ReplaceLineCharacter | task-manage-utils.js:10-12 | every `$#B$R#$` becomes a space, none is left, and a string without one is unchanged |
| TaskManageUtils.MarkersBecomeSpaces | task-manage-utils.js:10-12 | n markers in a row become n spaces |
| TaskManageUtils.EscapeAngles | task-manage-utils.js:22 | no `<` or `>` remains; the string is unchanged exactly when it had none; it is empty exactly when the input was |
| TaskManageUtils.EscapeAnglesAppend | task-manage-utils.js:22 | escaping distributes over concatenation |
| TaskManageUtils.EscapeAnglesEntities | task-manage-utils.js:22 | `<` becomes `&lt;` and `>` becomes `&gt;` |
| TaskManageUtils.TransformHtmlCharactor | task-manage-utils.js:20-27 | "" exactly for absent or all-whitespace input; never a `<` or `>`; input without brackets comes back trimmed |
| TaskManageUtils.NewlinesToBrClean | task-manage-utils.js:37 | no LF remains; text without LF is unchanged; empty exactly when the input is |
| TaskManageUtils.NewlinesToBrAppend | task-manage-utils.js:37 | the line-break replace distributes over concatenation when the cut does not split a CR LF pair |
| TaskManageUtils.LineFeedBecomesBr | task-manage-utils.js:37 | a line feed not preceded by CR becomes one `<br/>`, the text around it converted independently |
| TaskManageUtils.CrLfBecomesBr | task-manage-utils.js:37 | a CR LF pair becomes one `<br/>`, not two |
| TaskManageUtils.LineMarkerBecomesBr | task-manage-utils.js:38 | a `$#B$R#$` marker that no earlier match overlaps becomes one `<br/>`, the text around it converted independently |
| TaskManageUtils.NewlinesToBrBreaks | task-manage-utils.js:37 | after the line-break step every `<` or `>` of escaped text belongs to an inserted `<br/>` |
| TaskManageUtils.MarkerStepBreaks | task-manage-utils.js:38 | the marker step keeps every angle bracket inside a `<br/>` |
| TaskManageUtils.SpaceEntities | task-manage-utils.js:39-40 | no whitespace remains; whitespace-free text is unchanged; empty exactly when the input is |
| TaskManageUtils.SpaceEntitiesAppend | task-manage-utils.js:39-40 | the two replacements distribute over concatenation |
| TaskManageUtils.SpaceEntitiesBreaks | task-manage-utils.js:39-40 | the entity steps keep every angle bracket inside a `<br/>`: they neither split a break nor bring in a bracket |
| TaskManageUtils.EntitiesHaveNoWhitespace | task-manage-utils.js:37-40 | `&emsp;`, `&nbsp;` and `<br/>` contain no whitespace, so the later replaces cannot touch them |
| TaskManageUtils.TabBecomesEmsp | task-manage-utils.js:39-40 | a tab becomes `&emsp;`, not `&nbsp;`: the tab replace runs before `\s` |
| TaskManageUtils.OtherWhitespaceBecomesNbsp | task-manage-utils.js:40 | every other whitespace character becomes `&nbsp;` |
| TaskManageUtils.TransformHtml | task-manage-utils.js:32-44 | "" exactly for absent or all-whitespace input; the output never contains whitespace |
| TaskManageUtils.TransformHtmlEscapes | task-manage-utils.js:32-44 | the user's `<` and `>` never reach the HTML: every `<` of the result opens a `<br/>` and every `>` closes one |
| TaskManageUtils.SanitisersAgree | task-manage-utils.js:20-44 | for text without inner whitespace and without `$`, `transformHtml` and `transformHtmlCharactor` agree |
| TaskManageUtils.EscapedStaysClean | task-manage-utils.js:22 | escaping brings in no whitespace, no `$` and no LF |
| TaskManageUtils.ReplaceOperationGroup | task-manage-utils.js:51-53 | never a `<` or `>`; "" exactly when the text is whitespace once its markers are spaces |
| TaskManageUtils.MarkersOnlyYieldEmpty | task-manage-utils.js:51-53 | a text made only of markers sanitises to "" |
| TaskManageUtils.FirstPiece | task-manage-utils.js:65 | the first piece of `split(".")` is the longest prefix without `.` |
| TaskManageUtils.LastPiece | task-manage-utils.js:64 | the last piece of `split("/")` is the suffix after the last `/` |
| TaskManageUtils.GetUrlFileName | task-manage-utils.js:62-66 | the name has no `/` and no `.`; it starts right after the last `/` and ends at a `.` or at the end |
| TaskManageUtils.FileNameAtUnique | task-manage-utils.js:62-66 | only one text meets that description, so the result is determined by it |
| TaskManageUtils.GetUrlFileNameIs | task-manage-utils.js:62-66 | conversely, a name without `.` that starts right after the last `/` and ends at a `.` or at the end is the result |
| TaskManageUtils.GetUrlFileNameOfParts | task-manage-utils.js:62-66 | a directory ending in `/`, then a name without `/` or `.`, then an extension starting with `.` gives that name |
| TaskManageUtils.ProposedTaskPageName | task-manage-utils.js:57-58 | the documented example: "http://localhost:5565/proposed-task/proposed-task.html" gives "proposed-task" |
| TaskManageUtils.NoErrorMessage | task-manage-utils.js:260 | `ERRMSG == "" \|\| ERRMSG == null` holds exactly for a falsy message: undefined, null, "" or 0 |
| TaskManageUtils.CommonFetchData | task-manage-utils.js:258-266 | the success callback gets the body exactly when the loose test of `NoErrorMessage` passes; otherwise the message, then truthy, is reported |
| TaskManageUtils.MappedPrefix | task-manage-utils.js:297-299 | after n steps the object has exactly the first n destination keys |
| TaskManageUtils.MappedPrefixAt | task-manage-utils.js:297-299 | a destination key not written again later holds the value of its source key |
| TaskManageUtils.MappedObject | task-manage-utils.js:291-301 | `{}` for null or undefined; otherwise the keys are exactly the destination keys of the rounds run |
| TaskManageUtils.MapKeys | task-manage-utils.js:291-301 | `{}` for a missing object; otherwise exactly the destination keys, each holding the source value at the same position (the last write wins on repeated keys) |
| CrmCommentWidget.NonEmptyRecords | es6-crm-comment.js:86 | the filter never lengthens the list |
| CrmCommentWidget.NonEmptyRecordsKeeps | es6-crm-comment.js:86 | a record is kept exactly when it is in the list and has a key; a list without empty records is kept whole |
| CrmCommentWidget.NonEmptyRecordsAppend | es6-crm-comment.js:86 | filtering two lists joined is filtering each and joining, so the kept records stay in their order |
| CrmCommentWidget.MapRecordRenames | es6-crm-comment.js:64-89 | `MapRecord`, the `mapKeys` call of each record, gives exactly the eight semantic keys, each holding the raw key's value at the same position |
| CrmCommentWidget.MapListKeys | es6-crm-comment.js:84-90 | one comment per non-empty record |
| CrmCommentWidget.MapListKeysAt | es6-crm-comment.js:84-90 | the i-th comment is the renaming of the i-th non-empty record |
| CrmCommentWidget.MapListKeysAppend | es6-crm-comment.js:84-90 | mapping two pages separately and joining them equals mapping them joined |
| CrmCommentWidget.MapListKeysCount | es6-crm-comment.js:84-90 | without empty records, the page keeps its length |
| CrmCommentWidget.ReplyPrefix | es6-crm-comment.js:120-126 | non-empty exactly while replying to a non-empty user name, and then "回复 " + name + ":" |
| CrmCommentWidget.SliceFrom | es6-crm-comment.js:471 | `slice(n)` keeps what follows the first n characters, or "" past the end |
| CrmCommentWidget.UserContent | es6-crm-comment.js:618-620 | the whole input for an own comment; while replying, the input minus its first prefix-length characters |
| CrmCommentWidget.UserContentAfterPrefix | es6-crm-comment.js:618-620 | text typed after the prefix comes back exactly |
| CrmCommentWidget.UserContentCutsByLength | es6-crm-comment.js:618-620 | an edited prefix of the same length is cut just the same |
| CrmCommentWidget.SendContent | es6-crm-comment.js:615-630 | nothing is posted exactly when the user's own text is empty or whitespace; otherwise that text is posted |
| CrmCommentWidget.ReplyPostsTypedText | es6-crm-comment.js:615-630 | while replying, the typed text is posted as typed unless it is blank |
| CrmCommentWidget.PostPayload | es6-crm-comment.js:210-222 | subject fields kept; the content is cut to its first 500 characters; `cmtId` "" for an own comment, else the target's id and user id |
| CrmCommentWidget.PayloadIgnoresParent | es6-crm-comment.js:217-221 | the target's parent id is never sent |
| CrmCommentWidget.PayloadCapped | es6-crm-comment.js:213 | at most 500 characters are posted, and content that fits is posted whole |
| CrmCommentWidget.TriggersSend | es6-crm-comment.js:572-582 | sends exactly for `charCode \|\| keyCode` 10 with Ctrl or 13 with Shift |
| CrmCommentWidget.LayoutOf | es6-crm-comment.js:339-415 | padding unless read-only with no comments; list hidden exactly at total 0; "load more" exactly while more data exists |
| CrmCommentWidget.EmptyReadOnlyCollapses | es6-crm-comment.js:339-364 | read-only with no comments shows nothing |
| CrmCommentWidget.HiddenListHasNoLoadMore | es6-crm-comment.js:353-415 | a hidden list never has a "load more" link |
| CrmCommentWidget.RowOf | es6-crm-comment.js:371-399 | bubble only on the first row; the "reply to" part exactly when a target user id or name is truthy; pointer exactly when comments can be added |
| CrmCommentWidget.RowContentSanitised | es6-crm-comment.js:392 | a row's text has no whitespace and is empty exactly for absent or blank content |
| CrmCommentWidget.MergeListsKeeps | es6-crm-comment.js:133-159 | the merged list ends with the new page; appending keeps the old list before it, replacing keeps nothing else |
| CrmCommentWidget.ReplyTarget.constructor | es6-crm-comment.js:27 | `comment2Reply` starts with no fields |
| CrmCommentWidget.CrmComment.IsThereMoreData | es6-crm-comment.js:274-279 | more data exactly while the start index is below the total, matching the "load more" link |
| CrmCommentWidget.CrmComment.AutoInputText | es6-crm-comment.js:120-126 | the input's prefix is the reply prefix of the current target |
| CrmCommentWidget.CrmComment.constructor | es6-crm-comment.js:21-31 | page size `pageSize \|\| 3`; empty list; own-comment mode with an empty target; one request for the first page; skeleton painted |
| CrmCommentWidget.CrmComment.GetListHelper | es6-crm-comment.js:170-187 | paints the skeleton and queues the request; nothing else changes |
| CrmCommentWidget.CrmComment.InitCommentList | es6-crm-comment.js:133-136 | start index 0 and a first page that replaces the list |
| CrmCommentWidget.CrmComment.GetNextPageCommentList | es6-crm-comment.js:142-147 | without more data nothing changes; else a page from the start index is queued, to be appended |
| CrmCommentWidget.CrmComment.RefreshCommentList | es6-crm-comment.js:155-159 | start index 0 and a request for `tempPageSize \|\| PAGE_SIZE` comments that replaces the list |
| CrmCommentWidget.CrmComment.ReceiveList | es6-crm-comment.js:188-194 | success: the renamed page is merged, the start index advances by its length, the server's total is taken, and the widget is re-rendered; error: only the message is reported |
| CrmCommentWidget.CrmComment.ApplyPage | es6-crm-comment.js:189-193 | the list handler's merge, total, new start index and render, and nothing else |
| CrmCommentWidget.CrmComment.AddComment | es6-crm-comment.js:209-224 | queues exactly the request body of `PostPayload` for the current mode; keeps `Valid()` |
| CrmCommentWidget.CrmComment.CommentAdded | es6-crm-comment.js:225-231 | own mode with a new empty target, rows not enlarged, empty input, and a refresh for one more comment than were loaded |
| CrmCommentWidget.CrmComment.ReceivePost | es6-crm-comment.js:224-238 | success: as `CommentAdded`; error: only the message is reported |
| CrmCommentWidget.CrmComment.CommentRowClick | es6-crm-comment.js:497-524 | read-only or outside a row: nothing changes; else the target is filled in place, reply mode starts, and the input holds the prefix |
| CrmCommentWidget.CrmComment.InputEdit | es6-crm-comment.js:551-565 | while replying, a value shorter than the prefix blanks the input and switches to own mode with a new empty target; else only the value changes |
| CrmCommentWidget.CrmComment.SendClick | es6-crm-comment.js:615-630 | posts the user's own text with the current mode's body, unless it is blank; nothing else changes |
| CrmCommentWidget.CrmComment.KeyPress | es6-crm-comment.js:572-582 | the send combination acts as a click on the send button, bubbling included; any other key changes nothing |
| CrmCommentWidget.CrmComment.TextAreaClick | es6-crm-comment.js:589-599 | the first click enlarges the area to three rows; later clicks do nothing |
| CrmCommentWidget.CrmComment.WrapperClick | es6-crm-comment.js:464-480 | an enlarged area whose own text is empty goes back to one row; otherwise nothing changes |
| CrmCommentWidget.CrmComment.WrapperClickOnSkeleton | es6-crm-comment.js:464-480 | with the skeleton shown: an enlarged own-comment area is marked not enlarged; while replying `undefined.slice` throws and nothing changes |
| CrmCommentWidget.CrmComment.ClickCommentList | es6-crm-comment.js:497-524 | a click in the list runs the row handler and then the wrapper's: a row click also returns an enlarged area to one row |
| CrmCommentWidget.CrmComment.ClickSendButton | es6-crm-comment.js:615-630 | a send click posts as `SendClick`, then the wrapper returns an enlarged area to one row only when nothing was typed |
| CrmCommentWidget.CrmComment.ClickLoadMore | es6-crm-comment.js:606-608 | with more data the next page is requested and the wrapper's handler then runs on the skeleton; otherwise only the wrapper's handler runs and nothing is painted |
| CrmCommentWidget.CrmComment.CommentListView | es6-crm-comment.js:353-364 | one row view per comment, in order, each as `RowOf` decides |

## Left out

- The DOM, the HTML strings and jQuery. The templates are reduced to the
  decisions they make (`Layout`, `RowView`). The text area is reduced to its
  value and its `rows` attribute. The handlers run only after a render, which
  is the `Rendered()` precondition.
- The `maxlength="500"` attribute of the text area. The browser enforces it
  outside the code; `PostPayload` cuts to 500 characters anyway.
- The network. `ccrmUtil.dataPost`, the process codes and the path are left
  out. A request is an entry in `listRequests` or `postRequests`, and
  `ReceiveList` or `ReceivePost` delivers its answer. Which answers arrive,
  and in what order, is left to the caller.
- `ccrmUtil.errorMessage` is not modelled beyond appending the message to the
  ghost `errors` log.
- `moment` formatting of the date is not part of this model.
- `getCommentCountById` is not part of this model, being a separate server
  query the widget never uses.
- The callbacks `cbAfterDisplayList` and `cbAfterAddComment` are left out.
  They are caller code that the model cannot see.
- `getUrlFileName` reads `window.location.href`; the model takes `href` as a
  parameter.
- CrmComment.CommentRowClick: the row's values arrive already read from the
  DOM. The model does not include the unary `+` on the hidden ids (`NaN` for
  non-numeric text) or the `.html()` read-back of the user name.
- CrmCommentWidget.RowOf: a non-string `content` (which would make `trim`
  throw) is treated as absent and shows "".
- CrmComment.WrapperClick: requires `Rendered()`. The wrapper's handler with
  the skeleton shown is `WrapperClickOnSkeleton`, and it is reached through
  `ClickLoadMore`, the one click that paints the skeleton before the event
  reaches the wrapper. A click on the skeleton itself, before an answer or
  after a failed load, reaches the wrapper's handler alone, which is
  `WrapperClickOnSkeleton` called directly.
- Event bubbling is modelled for the clicks the source lets through: a click
  in the list, on the send button, on "load more" and the click that a key
  press triggers on the send button each run their own handler and then the
  wrapper's (`ClickCommentList`, `ClickSendButton`, `ClickLoadMore`,
  `KeyPress`). The text area and the wrapper stop the event. `CommentRowClick`,
  `SendClick` and `GetNextPageCommentList` are the element handlers alone.
  What the page outside the wrapper does with a click is not modelled.
- Every render binds the handlers again. The elements inside the wrapper are
  new each time, but the wrapper is not, so its click handler is bound once
  more per render. The model runs it once; it is idempotent, so running it
  several times has the same effect.
- Loose equality in `commonFetchData` is modelled for `undefined`, `null`,
  strings and numbers. Booleans and arrays are not part of `Value`.
- TaskManageUtils.MapKeys: the model requires that there are at least as many
  destination keys as source keys. With fewer, the source would write to the
  key "undefined".
- Strings: a Dafny `string` holds Unicode scalar values, while JavaScript's
  `length` and `slice` count UTF-16 code units. The two agree only for text
  in the Basic Multilingual Plane. A character outside it, such as an emoji,
  is one character here and two code units in the browser. The model does
  not include that difference, and no Unicode normalisation is modelled.
- CrmCommentWidget.UserContent: cuts the reply prefix by characters. For a
  user name outside the Basic Multilingual Plane the source cuts by code
  units, so the two can cut at different places.
- CrmCommentWidget.PostPayload: keeps the first 500 characters. The source
  keeps 500 UTF-16 code units, which is fewer characters when the text holds
  characters outside the Basic Multilingual Plane, and can split a surrogate
  pair.
- CrmCommentWidget.CrmComment.InputEdit: compares the input's length with the
  prefix's in characters, where the source compares code units. The results
  agree for text in the Basic Multilingual Plane.
