# Bookmark pagination, numerical quiz grading and the group-set selector of Canvas LMS

This project models three pieces of Canvas LMS and proves properties of them in Dafny.

**Bookmark pagination** (`BookmarkedCollection`). A proxy pages through a scope ordered by id. A
caller asks for `per_page` items after the bookmark in its `page` token. The fetch callback fills a
pager with `replace` and flags with `has_more!` that more items follow; the pager then carries a
`next_bookmark`, whose `next_page` token the client sends back for the following page. Two wrappers
change what a page holds:
- `filter` keeps only the items a block accepts. By default it refills the page from further inner
  fetches. With `sync: true` it returns the survivors of a single inner page.
- `transform` maps every item.

The model is layered:
- `OrderedSource` is the source: an ascending sequence of distinct integer ids, which are also the
  bookmarks.
- `PageToken` covers the token text.
- `Pages` gives each mode's page as a function.
- `Proxies` holds the pager and the collections as classes whose methods are proved against those
  functions.
- `ProxyScenarios` replays the documented examples over the three-record scope.

**Numerical quiz questions** (`Quizzes::QuizQuestion::NumericalQuestion`). A student's text is read
as an exact decimal in the user's locale; unreadable text counts as zero. The question's answers are
tried in weight order, unweighted first. The first answer that matches decides the grade and records
its id on the student's answer. An answer matches in one of three ways:
- an exact value with a margin, both ends inclusive;
- an approximate value compared on sign, leading significant digits and exponent;
- a range whose ends may be given in either order.

`Decimals` models `BigDecimal` values as sign, coefficient and power of ten, exactly, with their
parsing, their scientific text and `split`. `NumericalQuestion` models grading, and
`NumericalScenarios` works through concrete cases.

**Group-set selector** (`GroupCategorySelector`) of the assignment form:
- which group set `render` hands to the student-group store;
- the flags `toJSON` renders the template with;
- how `filterFormData` cleans the submitted form in place;
- which error `_validateGroupCategoryID` records, and under which key;
- the override lookup `hasGroupOverrides`.

JavaScript values, their truthiness and the values of `&&` are modelled explicitly.

## Model

| member | source | states |
|---|---|---|
| PageToken.PageToBookmark | gems/bookmarked_collection/spec/bookmarked_collection/proxy_spec.rb:50-58 | only a `bookmark:`-prefixed text token can denote a bookmark, and then it is the decoding of the payload after the prefix |
| PageToken.DecodeEncode | gems/bookmarked_collection/spec/bookmarked_collection/proxy_spec.rb:54 | decoding the encoding of any bookmark gives that bookmark back |
| PageToken.EncodeDecode | gems/bookmarked_collection/spec/bookmarked_collection/proxy_spec.rb:54 | every payload that decodes (other than "-0") is the encoding of what it decodes to |
| PageToken.PageRoundTrip | gems/bookmarked_collection/spec/bookmarked_collection/proxy_spec.rb:57 | the token `bookmark_to_page` builds for a bookmark takes the next request to exactly that bookmark |
| PageToken.NumberIsNoBookmark | gems/bookmarked_collection/spec/bookmarked_collection/proxy_spec.rb:55 | a bare integer page gives no current bookmark |
| PageToken.MalformedPayloadIsNoBookmark | gems/bookmarked_collection/spec/bookmarked_collection/proxy_spec.rb:53-56 | `bookmark:W1td`, whose payload does not parse, gives no current bookmark |
| OrderedSource.AfterMembers | gems/bookmarked_collection/spec/bookmarked_collection/proxy_spec.rb:30 | the items a fetch may return after bookmark `b` are exactly the source items greater than `b` |
| OrderedSource.KeepMembers | gems/bookmarked_collection/spec/bookmarked_collection/proxy_spec.rb:82-84 | the filter's survivors are exactly the source items the block accepts |
| OrderedSource.KeepConcat | gems/bookmarked_collection/spec/bookmarked_collection/proxy_spec.rb:82-84 | filtering distributes over concatenation, so pages filtered one by one give the filtered whole |
| OrderedSource.MapConcat | gems/bookmarked_collection/spec/bookmarked_collection/proxy_spec.rb:178 | mapping distributes over concatenation |
| OrderedSource.KeepAscending | gems/bookmarked_collection/spec/bookmarked_collection/proxy_spec.rb:30 | the survivors of an ascending source are ascending |
| OrderedSource.AfterAt | gems/bookmarked_collection/spec/bookmarked_collection/proxy_spec.rb:69-70 | resuming from the k-th item after a bookmark yields exactly the items behind it |
| OrderedSource.KeepAfterAt | gems/bookmarked_collection/spec/bookmarked_collection/proxy_spec.rb:93-100 | resuming from the k-th survivor yields exactly the survivors behind it |
| OrderedSource.AfterShrinks | gems/bookmarked_collection/spec/bookmarked_collection/proxy_spec.rb:93-100 | resuming from an item of the current range strictly shrinks the range, so paging terminates |
| Pages.BasePage | gems/bookmarked_collection/spec/bookmarked_collection/proxy_spec.rb:34-39 | one execution; the page is a prefix of the items after the bookmark: all of them when at most `per_page` remain, otherwise exactly `per_page` with `has_more` set and the last item's bookmark as next bookmark; a next bookmark iff `has_more` |
| Pages.AsyncLoop | gems/bookmarked_collection/spec/bookmarked_collection/proxy_spec.rb:93-100 | the default filter executes the scope at least once and has a next bookmark iff it reports more |
| Pages.SyncLoop | gems/bookmarked_collection/spec/bookmarked_collection/proxy_spec.rb:146-153 | the sync filter executes the scope at least once and has a next bookmark iff it reports more |
| Pages.NextInRange | gems/bookmarked_collection/spec/bookmarked_collection/proxy_spec.rb:69-75 | in every mode, a page's next bookmark is an item of the range the page was taken from |
| Pages.BaseStep | gems/bookmarked_collection/spec/bookmarked_collection/proxy_spec.rb:64-75 | a base page without a next bookmark is all that remains; with one, the page followed by what lies after its bookmark is all that remained |
| Pages.AsyncStep | gems/bookmarked_collection/spec/bookmarked_collection/proxy_spec.rb:87-106 | the default filter's page holds at most `per_page` survivors: all of them when there is no next bookmark, otherwise `per_page` of them followed through the bookmark by exactly the rest |
| Pages.SyncStep | gems/bookmarked_collection/spec/bookmarked_collection/proxy_spec.rb:155-162 | the sync filter's page followed through its bookmark by the later survivors is all survivors, and without a bookmark it is all of them |
| Pages.TransformStep | gems/bookmarked_collection/spec/bookmarked_collection/proxy_spec.rb:187-199 | a transformed page followed through its bookmark by the mapped rest is the mapped range |
| Pages.PageStep | gems/bookmarked_collection/spec/bookmarked_collection/proxy_spec.rb:93-100 | for every mode, a page followed through its next bookmark by the rest of the collection is the whole remaining collection |
| Pages.WalkVisitsRest | gems/bookmarked_collection/spec/bookmarked_collection/proxy_spec.rb:187-199 | following `next_page` from any token until no next bookmark visits every item after that token's bookmark exactly once, in order, filtered or mapped as the mode says |
| Pages.WalkVisitsAll | gems/bookmarked_collection/spec/bookmarked_collection/proxy_spec.rb:93-100 | starting without a token, a client sees the whole collection once, in ascending order unless transformed |
| Pages.AsyncPagesFull | gems/bookmarked_collection/spec/bookmarked_collection/proxy_spec.rb:102-106 | a default-filter page never exceeds `per_page`, and every page with a next bookmark is full |
| Proxies.Pager.constructor | gems/bookmarked_collection/spec/bookmarked_collection/proxy_spec.rb:34-35 | a new pager has its `per_page` and current bookmark, no items, no more, no next bookmark, no total |
| Proxies.Pager.Replace | gems/bookmarked_collection/spec/bookmarked_collection/proxy_spec.rb:36 | `replace` sets the items and leaves the flags and bookmark alone |
| Proxies.Pager.HasMore | gems/bookmarked_collection/spec/bookmarked_collection/proxy_spec.rb:37 | `has_more!` sets more and records the last item's bookmark as the next bookmark; the items stay |
| Proxies.Pager.MapItems | gems/bookmarked_collection/spec/bookmarked_collection/proxy_spec.rb:178-185 | every item is replaced in place by its image, in order; flags and bookmark untouched |
| Proxies.Pager.NextPage | gems/bookmarked_collection/spec/bookmarked_collection/proxy_spec.rb:192 | the next-page token is absent iff there is no next bookmark, and it decodes to the next bookmark |
| Proxies.NewPager | gems/bookmarked_collection/spec/bookmarked_collection/proxy_spec.rb:42-48 | fails iff `per_page` is missing or not positive; otherwise a fresh pager with no total whose current bookmark is the decoded page token |
| Proxies.BaseCollection.ExecutePager | gems/bookmarked_collection/spec/bookmarked_collection/proxy_spec.rb:34-39 | the fetch callback leaves the pager holding exactly the base page |
| Proxies.BaseCollection.Paginate | gems/bookmarked_collection/spec/bookmarked_collection/proxy_spec.rb:42-75 | an argument error without `per_page`; otherwise the base page for the decoded bookmark, with no total entries |
| Proxies.FilterCollection.ExecutePager | gems/bookmarked_collection/spec/bookmarked_collection/proxy_spec.rb:82-84 | the pager holds the filtered page of the chosen mode, and the count of scope executions is returned |
| Proxies.FilterCollection.SubPager | gems/bookmarked_collection/spec/bookmarked_collection/proxy_spec.rb:125 | each sub-pager is one execution of the wrapped scope holding its base page |
| Proxies.FilterCollection.ExecuteAsync | gems/bookmarked_collection/spec/bookmarked_collection/proxy_spec.rb:87-128 | the loop of doubling sub-pagers leaves exactly the default filter's page and executes the scope the number of times that page takes |
| Proxies.FilterCollection.ExecuteSync | gems/bookmarked_collection/spec/bookmarked_collection/proxy_spec.rb:140-171 | the loop of sub-pagers leaves exactly the sync filter's page, carrying the inner page's bookmark |
| Proxies.FilterCollection.Paginate | gems/bookmarked_collection/spec/bookmarked_collection/proxy_spec.rb:118-128 | an argument error without `per_page` and no execution; otherwise the filtered page and its execution count |
| Proxies.TransformCollection.ExecutePager | gems/bookmarked_collection/spec/bookmarked_collection/proxy_spec.rb:178 | the pager holds the base page with every item mapped and the base page's bookmarks |
| Proxies.TransformCollection.Paginate | gems/bookmarked_collection/spec/bookmarked_collection/proxy_spec.rb:181-199 | an argument error without `per_page`; otherwise the transformed page for the decoded bookmark |
| ProxyScenarios.BasePages | gems/bookmarked_collection/spec/bookmarked_collection/proxy_spec.rb:64-75 | `per_page: 1` gives the first record with a next bookmark; `per_page: 3` gives all three and none |
| ProxyScenarios.FilterExcludesMiddle | gems/bookmarked_collection/spec/bookmarked_collection/proxy_spec.rb:87-91 | filtering with `per_page: 6` gives the first and last record and no next bookmark |
| ProxyScenarios.FilterRepeatsSubpager | gems/bookmarked_collection/spec/bookmarked_collection/proxy_spec.rb:93-100 | `per_page: 1` gives the first record with a bookmark, and from its token the last record, after two executions, with none |
| ProxyScenarios.FilterBoundary | gems/bookmarked_collection/spec/bookmarked_collection/proxy_spec.rb:102-106 | `per_page: 2` gives the first and last record and no next bookmark |
| ProxyScenarios.FilterEmptyLastPage | gems/bookmarked_collection/spec/bookmarked_collection/proxy_spec.rb:108-115 | after a forced `has_more!` the bookmark is the last record, and the page from it is empty and final, in both filter modes |
| ProxyScenarios.FilterRejectsAll | gems/bookmarked_collection/spec/bookmarked_collection/proxy_spec.rb:118-128 | rejecting everything yields an empty final page after exactly two executions |
| ProxyScenarios.SyncExcludesMiddle | gems/bookmarked_collection/spec/bookmarked_collection/proxy_spec.rb:140-144 | the sync filter with `per_page: 6` gives the first and last record and no next bookmark |
| ProxyScenarios.SyncRepeatsSubpager | gems/bookmarked_collection/spec/bookmarked_collection/proxy_spec.rb:146-153 | the sync filter with `per_page: 1` gives the first record, then skips the empty inner page to the last record |
| ProxyScenarios.SyncFilteredSubset | gems/bookmarked_collection/spec/bookmarked_collection/proxy_spec.rb:155-162 | the sync filter with `per_page: 2` gives the first record with a bookmark, then the last record with none |
| ProxyScenarios.TransformPages | gems/bookmarked_collection/spec/bookmarked_collection/proxy_spec.rb:181-199 | three mapped records in one final page, or one per page over three pages with bookmarks 1, 2 and none |
| ProxyScenarios.FilterWalk | gems/bookmarked_collection/spec/bookmarked_collection/proxy_spec.rb:93-100 | paging the default filter one record at a time sees the first and last record |
| ProxyScenarios.SyncFilterWalk | gems/bookmarked_collection/spec/bookmarked_collection/proxy_spec.rb:146-153 | paging the sync filter one record at a time sees the first and last record |
| ProxyScenarios.PaginateWithoutPerPage | gems/bookmarked_collection/spec/bookmarked_collection/proxy_spec.rb:42-44 | `paginate` without `per_page` fails |
| ProxyScenarios.PaginateIgnoresTotalEntries | gems/bookmarked_collection/spec/bookmarked_collection/proxy_spec.rb:46-48 | a caller's `total_entries: 10` leaves the page's total nil |
| ProxyScenarios.PaginateCurrentBookmarks | gems/bookmarked_collection/spec/bookmarked_collection/proxy_spec.rb:50-58 | a numeric page and a malformed token give no current bookmark; an encoded bookmark gives exactly it |
| ProxyScenarios.PaginateRejectingAll | gems/bookmarked_collection/spec/bookmarked_collection/proxy_spec.rb:118-128 | through the classes, rejecting everything gives an empty page after exactly two executions |
| ProxyScenarios.PaginateFilteredTwice | gems/bookmarked_collection/spec/bookmarked_collection/proxy_spec.rb:93-100 | through the classes, the first page holds the first record, and the page its `next_page` token leads to holds the last record, with no next bookmark |
| Digits.DigitsRoundTrip | gems/bookmarked_collection/spec/bookmarked_collection/proxy_spec.rb:54 | reading the digits of a natural number gives the number back |
| Digits.IntTextRoundTrip | gems/bookmarked_collection/spec/bookmarked_collection/proxy_spec.rb:54 | reading the text of an integer gives the integer back |
| Decimals.CompareInAnyUnit | app/models/quizzes/quiz_question/numerical_question.rb:77 | comparing two decimals gives the same answer in every common unit, so comparison is exact |
| Decimals.ShiftValue | app/models/quizzes/quiz_question/numerical_question.rb:44-45 | moving trailing zeros from the coefficient to the exponent keeps the value |
| Decimals.ParseFormat | app/models/quizzes/quiz_question/numerical_question.rb:47 | every decimal reads back exactly from its scientific text, sign included |
| Decimals.PointNumber | app/models/quizzes/quiz_question/numerical_question.rb:47 | `whole.frac`, with at least one digit on each side, reads as the digits of both parts scaled by the number of fraction digits |
| Decimals.SignedPointNumber | app/models/quizzes/quiz_question/numerical_question.rb:47 | the same for a number with a leading minus, which makes it negative |
| Decimals.TrailingPoint | app/models/quizzes/quiz_question/numerical_question.rb:44-50 | digits followed by a point with nothing after it do not parse, as `BigDecimal` raises on them |
| Decimals.StripZeros | app/models/quizzes/quiz_question/numerical_question.rb:79 | a positive coefficient factors into a part that does not end in zero times a power of ten |
| Decimals.SplitValue | app/models/quizzes/quiz_question/numerical_question.rb:79-80 | `split` gives the decimal's sign and its significant digits: a non-zero first digit, no trailing zero (one "0" for zero), and as many digits as their number has; `0.digits * 10^exponent` has the decimal's value |
| Decimals.SplitMagnitude | app/models/quizzes/quiz_question/numerical_question.rb:79-80 | the exponent `split` returns is the decimal exponent: a non-zero decimal's magnitude lies in `[10^(exponent-1), 10^exponent)` |
| Decimals.PowerFactors | app/models/quizzes/quiz_question/numerical_question.rb:79 | a power of ten times a number that does not end in zero determines both factors |
| Decimals.SplitCanonical | app/models/quizzes/quiz_question/numerical_question.rb:79-80 | two decimals of the same sign and value split alike, whatever their representation |
| NumericalQuestion.FromUnits | app/models/quizzes/quiz_question/numerical_question.rb:75-76 | the decimal of n units of `10^e` counts n in that unit |
| NumericalQuestion.Add | app/models/quizzes/quiz_question/numerical_question.rb:76 | `val + margin` is exact, in the finer unit of the two |
| NumericalQuestion.Sub | app/models/quizzes/quiz_question/numerical_question.rb:75 | `val - margin` is exact, in the finer unit of the two |
| NumericalQuestion.AddInUnit | app/models/quizzes/quiz_question/numerical_question.rb:76 | the sum is exact in every unit finer than both operands |
| NumericalQuestion.SubInUnit | app/models/quizzes/quiz_question/numerical_question.rb:75 | the difference is exact in every unit finer than both operands |
| NumericalQuestion.NewFlexRange | app/models/quizzes/quiz_question/numerical_question.rb:23-26 | the range's ends are the two given numbers, with the smaller first |
| NumericalQuestion.FlexRangeCovers | app/models/quizzes/quiz_question/numerical_question.rb:22-29 | a range covers x iff min(a, b) ≤ x ≤ max(a, b) |
| NumericalQuestion.FlexRangeSymmetric | app/models/quizzes/quiz_question/numerical_question.rb:24 | swapping the ends does not change what is covered |
| NumericalQuestion.ReplaceOneChar | app/models/quizzes/quiz_question/numerical_question.rb:36 | `gsub` of a one-character pattern replaces each occurrence of that character |
| NumericalQuestion.ReplaceEachRemoves | app/models/quizzes/quiz_question/numerical_question.rb:36 | after replacing a character by text without it, the character no longer occurs |
| NumericalQuestion.NormalizeOneChar | app/models/quizzes/quiz_question/numerical_question.rb:36 | with one-character marks, normalizing drops every delimiter and turns every separator into a point |
| NumericalQuestion.PlainText | app/models/quizzes/quiz_question/numerical_question.rb:36 | in the "." and "," locale, text without commas is left as it is |
| NumericalQuestion.I18nDecimalFormat | app/models/quizzes/quiz_question/numerical_question.rb:31-51 | in the "." and "," locale, the scientific text of any decimal reads back as that decimal |
| NumericalQuestion.LocaleNumber | app/models/quizzes/quiz_question/numerical_question.rb:31-51 | digits written with the locale's separator and at least one digit after it read as those digits scaled by the digits after the separator |
| NumericalQuestion.TrailingSeparator | app/models/quizzes/quiz_question/numerical_question.rb:44-50 | digits ending in the locale's separator do not parse and read as zero ("0.0") |
| NumericalQuestion.DelimiterIgnored | app/models/quizzes/quiz_question/numerical_question.rb:36 | a grouping delimiter anywhere in the text does not change the number read |
| NumericalQuestion.ExactMatchDistance | app/models/quizzes/quiz_question/numerical_question.rb:66-77 | an exact answer matches iff the distance from the exact value is at most the margin, both ends included |
| NumericalQuestion.PrecisionNegative | app/models/quizzes/quiz_question/numerical_question.rb:81-86 | with a negative precision the digit comparison is nil against nil, so only sign and exponent count |
| NumericalQuestion.PrecisionFull | app/models/quizzes/quiz_question/numerical_question.rb:78-89 | when the precision covers every significant digit, a precision answer matches iff the number has the approximate value's sign and value |
| NumericalQuestion.PrecisionSameValue | app/models/quizzes/quiz_question/numerical_question.rb:78-89 | at any precision, a number of the approximate value's sign and value matches |
| NumericalQuestion.MatcherMeaning | app/models/quizzes/quiz_question/numerical_question.rb:64-91 | `find`'s block accepts an exact answer iff the number is within the margin of the exact value; a range answer iff the number lies between the smaller and the larger end; an approximate answer iff the splits agree in sign and exponent and, for a non-negative precision, in their first `precision` significant digits; so always when the values are equal with the same sign |
| NumericalQuestion.Insert | app/models/quizzes/quiz_question/numerical_question.rb:54 | inserting an answer adds exactly that answer |
| NumericalQuestion.InsertSorted | app/models/quizzes/quiz_question/numerical_question.rb:54 | inserting into a weight-sorted list keeps it sorted |
| NumericalQuestion.SortByWeight | app/models/quizzes/quiz_question/numerical_question.rb:53-55 | the answers sorted by weight, missing weights first, and a permutation of the original answers |
| NumericalQuestion.FirstWhere | app/models/quizzes/quiz_question/numerical_question.rb:64 | `find`: the position found satisfies the block and none before it does; there is none iff no element does |
| NumericalQuestion.Find | app/models/quizzes/quiz_question/numerical_question.rb:64 | the scan from the front returns exactly the first position that satisfies the block |
| NumericalQuestion.FirstWhereAt | app/models/quizzes/quiz_question/numerical_question.rb:64 | an element that satisfies the block, with none before it that does, is the one found |
| NumericalQuestion.UserAnswer.constructor | app/models/quizzes/quiz_question/numerical_question.rb:58 | a user answer holds its text and no answer id |
| NumericalQuestion.UserAnswer.CorrectAnswerParts | app/models/quizzes/quiz_question/numerical_question.rb:57-99 | no text gives nil and blank text gives false, both leaving the id alone; otherwise the result is whether some answer, tried in weight order, matches the number read, and the id becomes that of the first match, or is left alone when nothing matches |
| NumericalScenarios.ParseExample | app/models/quizzes/quiz_question/numerical_question.rb:44-47 | "-11.72" reads as exactly -1172 hundredths |
| NumericalScenarios.ToleranceBoundary | app/models/quizzes/quiz_question/numerical_question.rb:44-45 | -11.72 matches -11.7 with margin 0.02 (the inclusive edge), and -11.721 does not |
| NumericalScenarios.PrecisionDigits | app/models/quizzes/quiz_question/numerical_question.rb:78-89 | 3.14159 matches 3.14 at precision 3 but not 4, and 31.4 does not match 3.14 |
| NumericalScenarios.BackwardsRange | app/models/quizzes/quiz_question/numerical_question.rb:22-29 | a range given as 5 to 1 covers 3 and 1.0, and not 5.1 |
| NumericalScenarios.NotANumber | app/models/quizzes/quiz_question/numerical_question.rb:46-50 | "abc" reads as zero |
| NumericalScenarios.ReadFour | app/models/quizzes/quiz_question/numerical_question.rb:47 | "4" reads as four |
| NumericalScenarios.LightFirst | app/models/quizzes/quiz_question/numerical_question.rb:54 | an unweighted answer sorts before one of weight 50, and it accepts four |
| NumericalScenarios.LightFound | app/models/quizzes/quiz_question/numerical_question.rb:64 | the search stops at the first answer in weight order, the unweighted one with id 2 |
| NumericalScenarios.FourFindsLight | app/models/quizzes/quiz_question/numerical_question.rb:62-64 | the text "4" is first matched by the answer with id 2 although both answers accept it |
| NumericalScenarios.GradeMissingAndBlank | app/models/quizzes/quiz_question/numerical_question.rb:57-60 | through the class, no text grades as nil and blank text as false |
| NumericalScenarios.GradeByWeight | app/models/quizzes/quiz_question/numerical_question.rb:95-99 | through the class, "4" grades as correct and records id 2 |
| GroupCategorySelector.IdText | ui/shared/groups/backbone/views/GroupCategorySelector.js:106 | `toString` of a string is the string, and of a number is text that reads back as the number |
| GroupCategorySelector.CannotManageOnlyWhenDenied | ui/shared/groups/backbone/views/GroupCategorySelector.js:194-201 | without permissions or without the key the result is `true`, and management is denied iff the key is present with a falsy value |
| GroupCategorySelector.IdsOf | ui/shared/groups/backbone/views/GroupCategorySelector.js:249-250 | the list of ids has one id per group set, in order |
| GroupCategorySelector.FindCategory | ui/shared/groups/backbone/views/GroupCategorySelector.js:105-107 | `find` returns the first group set with that id, and none iff no group set has it |
| GroupCategorySelector.FindAgreesWithIds | ui/shared/groups/backbone/views/GroupCategorySelector.js:105-107 | `find` by id succeeds iff the id is in the mapped id list that `toJSON` consults |
| GroupCategorySelector.RenderSelection | ui/shared/groups/backbone/views/GroupCategorySelector.js:99-112 | a group set is selected iff the list is non-empty, the id is not null or undefined, and some group set has the id's text; it is then the id itself |
| GroupCategorySelector.HasGroupOverrides | ui/shared/groups/backbone/views/GroupCategorySelector.js:321-326 | undefined for a falsy id or missing overrides; otherwise an override of that group set, undefined iff none belongs to it |
| GroupCategorySelector.FirstOverride | ui/shared/groups/backbone/views/GroupCategorySelector.js:323-325 | the position of the first override of the group set, none iff no override belongs to it |
| GroupCategorySelector.HasGroupOverridesFirst | ui/shared/groups/backbone/views/GroupCategorySelector.js:323-325 | the override found is preceded by no other override of the same group set |
| GroupCategorySelector.JsAnd | ui/shared/groups/backbone/views/GroupCategorySelector.js:256 | the value of `a && b` is truthy iff both operands are |
| GroupCategorySelector.IsGroupAssignment | ui/shared/groups/backbone/views/GroupCategorySelector.js:239-242 | truthy iff the id is truthy and neither 'blank' nor 'new' |
| GroupCategorySelector.ToJson | ui/shared/groups/backbone/views/GroupCategorySelector.js:230-269 | isGroupAssignment is truthy iff the id is a real group set id; the id, group sets, labels, `hideGradeIndividually`, `nested` and `inClosedGradingPeriod` are passed through unchanged; gradeIndividuallyDisabled holds iff `group_category_id` is frozen, groupCategoryLocked iff the model cannot group, and both other disabled flags iff either; hidden grading gives a falsy individual-grading flag, otherwise the model's value; cannotManageGroups negates the permission; prefix is set iff nested |
| GroupCategorySelector.UnselectedFlag | ui/shared/groups/backbone/views/GroupCategorySelector.js:245-253 | groupCategoryUnselected holds iff isGroupAssignment is falsy, or the list is non-empty and no group set has the id |
| GroupCategorySelector.SelectionAgrees | ui/shared/groups/backbone/views/GroupCategorySelector.js:99-112 | a real id that `render` selects is not flagged unselected, and on a non-empty list an id not flagged unselected is the one `render` selects |
| GroupCategorySelector.FilteredFormDataKeys | ui/shared/groups/backbone/views/GroupCategorySelector.js:271-279 | `has_group_category` is always removed; when it was '0' the group set becomes null and individual grading false; no other key changes, and otherwise nothing but the removal happens |
| GroupCategorySelector.FilteredFormDataIdempotent | ui/shared/groups/backbone/views/GroupCategorySelector.js:271-279 | filtering the form data twice is the same as filtering it once |
| GroupCategorySelector.FormData.constructor | ui/shared/groups/backbone/views/GroupCategorySelector.js:271 | the form data holds the given fields |
| GroupCategorySelector.FormData.FilterFormData | ui/shared/groups/backbone/views/GroupCategorySelector.js:271-279 | the form's fields are changed in place into their filtered form |
| GroupCategorySelector.ErrorOnlyForPlaceholders | ui/shared/groups/backbone/views/GroupCategorySelector.js:293-295 | an error is recorded iff the group set id is 'blank' or 'new' |
| GroupCategorySelector.ErrorKey | ui/shared/groups/backbone/views/GroupCategorySelector.js:296-316 | the error goes under `newGroupCategory` iff there are no group sets and `showNewErrors` is off, and under `assignment_group_category_id` otherwise |
| GroupCategorySelector.ErrorMessage | ui/shared/groups/backbone/views/GroupCategorySelector.js:296-316 | "select a group set" iff there are group sets; otherwise "create a group set" iff groups can be managed, and the permission message iff not |
| GroupCategorySelector.Errors.constructor | ui/shared/groups/backbone/views/GroupCategorySelector.js:288 | the errors hold the given entries |
| GroupCategorySelector.Errors.ValidateGroupCategoryId | ui/shared/groups/backbone/views/GroupCategorySelector.js:293-319 | the group set id is taken from the nested assignment or the form; its error, if any, replaces the entry under its key, and no other entry changes |
| GroupCategorySelector.Errors.ValidateBeforeSave | ui/shared/groups/backbone/views/GroupCategorySelector.js:288-291 | validation before saving records exactly the group set error |

## Left out

- The `BookmarkedCollection` library itself (the proxy, the bookmarkers and the filter and transform wrappers) is not part of this model. Its behaviour is taken from the documented examples of `paginate`, and where they leave a choice the model makes one:
  - `has_more!` records the last item's bookmark;
  - the default filter asks the wrapped scope for `per_page` items and doubles the request each further round;
  - surplus survivors are cut off at `per_page`, which leaves more to come;
  - the sync filter carries the inner page's bookmark.
- The examples' fetch callback asks for `page: 1` and ignores the pager's bookmark. The model's fetch returns the items after the current bookmark, which is what a scope wrapped with `BookmarkedCollection.wrap` and a `SimpleBookmarker` on `id` does.
- The database scope, `will_paginate` and ActiveRecord records become an ascending sequence of distinct integer ids that serve as their own bookmarks. `SimpleBookmarker`'s validation is not modelled.
- The token payload is the JSON text of an integer. The base64 layer of `JSONToken` and JSON values other than integers are not modelled; "W1td" is rejected because it is not an integer.
- `per_page` that is present but not positive also fails, an assumption beyond the documented missing-`per_page` case.
- Items are integers and the transform maps integers to integers. The example's "transformed" strings are modelled by a constant map.
- The collection type check (a `BookmarkedCollection::Collection`) is not modelled. The model has one pager class.
- NumericalQuestion.CorrectAnswerParts: the percentage-margin branch is not modelled, and the margin is taken as an absolute decimal. That branch rewrites `answer[:margin]` in place through floating point.
- `stats` and its I18n formatting are not modelled.
- Answer fields reach the model already parsed. A missing or blank `exact`, `margin` or `approximate` is `None` and counts as zero. `BigDecimal` raising on an unparseable field, and FlexRange on a blank end, are not modelled; a range's ends are decimals.
- NumericalQuestion.I18nDecimal: only the String branch is modelled; the branch for a value that is already a number is not. The locale's separator and delimiter are a parameter rather than an I18n lookup.
- Decimals.ParseDecimal reads a subset of `BigDecimal()`'s grammar: a sign, digits with at most one point, a digit after any point, at least one digit, and an `e`/`E` exponent. Surrounding white space, underscores, `d`/`D` exponents, `Infinity` and `NaN` are not modelled.
- NumericalQuestion.IsBlank counts only ASCII white space as blank. Rails' `blank?` also accepts Unicode space.
- NumericalQuestion.SortByWeight is a stable insertion sort. Ruby's `sort_by` is not stable, so among answers of equal weight the source's order is unspecified.
- Weights are integers, and `precision` is an integer that has already gone through `to_i`.
- `split`'s base (always 10) is not modelled. The sign of zero is kept, as `BigDecimal("-0")` keeps it.
- The DOM, jQuery, event and dialog code of the group-set selector is not modelled: `handleSelectOption`, `groupCategorySelected`, `showGroupCategoryCreateDialog`, `toggleGroupCategoryOptions`, `clickGroupCategoryOptions` and the rendering itself. `render` is modelled only as the group set it hands to `StudentGroupStore`.
- JavaScript numbers are modelled as integers, without NaN or fractions; ids are integers or strings. Group set ids in the menu are strings, as `toJSON` compares them with `toString()`. Undefined `groupCategories` and `frozenAttributes` returning a non-array are not modelled.
- The remaining files of the repository are not part of this model. They are controllers, API, view, Selenium and Jest tests, the QTI generator, stream and notification services, folder serialisation and UI glue.
