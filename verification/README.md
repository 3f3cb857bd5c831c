# local_extension decision logic in Dafny

A model of the decision logic of the Moodle plugin `local_extension`. The
plugin lets a learner ask for more time on a course activity and routes the
request through approval rules. Four pieces of it are modelled, one Dafny
module each, on top of a small module `Php` for the PHP runtime behaviour
they rely on: `null`, `empty()` on strings, `strtok()` with a space
delimiter, and `implode()`.

- `Messaging` (mailer.dfy) is the extension mailer and its digest queue
  table, as the mailer's unit tests fix them. `Mailer` is a class whose
  queue is a sequence of rows. With the digest preference, `Send` stores a
  `queued` row stamped with the mailer's single time instead of delivering.
  `DigestSend` walks the table in place: it delivers each `queued` row and
  flips it to `sent`. It is proved against the functions `DigestMails` and
  `AfterDigest`.
- `Lib` (lib.dfy) covers `local_extension_find_request` and the attachment
  guard of `local_extension_pluginfile`.
  - Course mode is nested loops with a `break`. They build the map
    `CourseIndex`.
  - Module mode returns the first matching (request, course module) pair.
  - The file-serving path shifts off the item id, pops the file name and
    joins the rest into a path. Splitting that path gives the directories
    back.
- `StatePage` (state.dfy) is the state change page.
  - The access gate is a pure decision.
  - A submit changes a `Request` object and the request cache in a fixed
    order: notify the subscribers, stamp `lastmod`, then delete the cache
    entry. Each of the three calls appends its effect to a shared effect
    log, so the order is that of the calls.
- `Renderer` (renderer.dfy) holds the data decisions of the renderer:
  - the look-ahead week options;
  - the pre-order walk of the trigger-rule tree;
  - the CSS class list of a comment;
  - the two-token short form of a time;
  - the rule that decides when the attachment list is returned.

  The HTML is not modelled.

Capabilities, configuration values, the clock, the request cache, rule
access and the file storage are parameters.

## Model

| member | source | states |
|---|---|---|
| Messaging.StatusCode | tests/phpunit/message/mailer_test.php:96-111 | every status is stored as a non-empty code of at most 10 characters, the width of the status field; the invalid status, and only it, is stored as "invalid" |
| Messaging.ParseStatus | tests/phpunit/message/mailer_test.php:96-106 | a status read back from the field is one whose code is exactly that text |
| Messaging.StatusCodeRoundTrip | tests/phpunit/message/mailer_test.php:96-111 | every status survives being written to and read back from the status field |
| Messaging.IsEnabled | tests/phpunit/message/mailer_test.php:190-211 | mail is enabled when emaildisable is unset, false or "0", and disabled when it is true or "1" |
| Messaging.Mailer.constructor | tests/phpunit/message/mailer_test.php:43-50 | a new mailer starts over an empty queue table with its time fixed once |
| Messaging.Mailer.GetTime | tests/phpunit/message/mailer_test.php:113-115 | the mailer reports the single time it stamps rows with |
| Messaging.Mailer.SetTime | tests/phpunit/message/mailer_test.php:77-82 | after set_time the mailer's time is the given one |
| Messaging.Mailer.InsertRecord | tests/phpunit/message/mailer_test.php:52-67 | inserting a row appends exactly that row with a null sentid; its id is fresh and larger than every earlier id; a row inserted without a status gets the table default, stored as "invalid" |
| Messaging.Mailer.Enqueue | tests/phpunit/message/mailer_test.php:134-155 | a stored message becomes one new `queued` row with the mailer's time as `added`, a null sentid, and the recipient, headers, subject and body of the message |
| Messaging.Mailer.Send | tests/phpunit/message/mailer_test.php:117-155 | without the digest preference, exactly one mail with the given subject and body is delivered and the table is unchanged; with it, nothing is delivered and exactly one `queued` row is appended |
| Messaging.DigestMails | tests/phpunit/message/mailer_test.php:157-180 | a digest run delivers no more mails than the table has rows |
| Messaging.AfterDigest | tests/phpunit/message/mailer_test.php:157-171 | after a digest run the table has the same rows in the same order; a `queued` row is now `sent` and any other row is untouched |
| Messaging.Mailer.DigestSend | tests/phpunit/message/mailer_test.php:157-180 | email_digest_send delivers exactly DigestMails of the old table and leaves the table as AfterDigest of it, keeping ids fresh and increasing |
| Messaging.DigestMailsExactlyQueued | tests/phpunit/message/mailer_test.php:157-180 | every `queued` row is delivered with its subject and contents, and every delivered mail comes from a `queued` row |
| Messaging.NothingQueuedNothingDelivered | tests/phpunit/message/mailer_test.php:173-180 | a table with no `queued` row (only `invalid` or `sent` rows) delivers nothing |
| Messaging.DigestNotRepeated | tests/phpunit/message/mailer_test.php:157-180 | a second digest run right after a first one delivers nothing: no row is delivered twice |
| Messaging.DigestKeepsIds | tests/phpunit/message/mailer_test.php:157-171 | a digest run keeps row ids fresh and increasing |
| Lib.FirstInCourse | lib.php:179-183 | the inner loop stops at the first course module of the course: no earlier one is in the course, and the one found is |
| Lib.CourseIndexContents | lib.php:175-186 | a key is in the course lookup exactly when some request has a course module in the course whose request field is that key; its value is the last such request |
| Lib.CourseIndexSize | lib.php:178-184 | because of the break, each request adds at most one entry to the course lookup |
| Lib.CourseIndexOfWellFormed | lib.php:175-186 | when course modules point back at their requests and request ids are distinct, a request is in the lookup under its id exactly when one of its course modules is in the course |
| Lib.FindRequestsInCourse | lib.php:176-186 | the nested loops with the break build exactly CourseIndex |
| Lib.FindRequestInModule | lib.php:188-197 | null exactly when no course module matches both the course and the module; otherwise the first match in iteration order, with its request |
| Lib.FindRequest | lib.php:169-198 | an empty module id (0) selects the course lookup, exactly CourseIndex; any other selects the module lookup, which returns the first matching (request, course module) pair in iteration order, or null exactly when none matches |
| Lib.PathOf | lib.php:147-151 | a file path always starts and ends with "/" |
| Lib.DirectoriesOfPath | lib.php:145-151 | splitting the path built from directory names without "/" gives those directories back |
| Lib.ImplodedPath | lib.php:150 | "/" . implode("/", dirs) . "/" is the path of dirs when there is at least one directory |
| Lib.SplitFileArgs | lib.php:145-151 | the item id is the first argument and the file name the last (null when missing); the file path is "/" when no middle argument remains and otherwise the middle arguments joined and wrapped in "/" |
| Lib.PluginFile | lib.php:129-160 | refused outside the user context level or outside the attachments area; otherwise served exactly when the looked-up file exists and is not a directory |
| StatePage.MayChangeState | state.php:48-63 | the view-all capability always passes; without it a user outside the request's users is turned away, and a member passes exactly with approve or force-approve access |
| StatePage.SubscriberIsTurnedAway | state.php:50-57 | without the capability, subscribe access or no access never passes |
| StatePage.DropNulls | state.php:126-128 | filtering out nulls keeps exactly the present notices and never adds any |
| StatePage.DropNullsConcat | state.php:126-128 | filtering a concatenation filters each part |
| StatePage.NotifyContent | state.php:118-128 | the notices are the state update's, when not null, followed by the comment's, only when the comment is not empty and the result not null |
| StatePage.Request.constructor | state.php:41 | a loaded request with its users and last-modified stamp and no notifications sent |
| StatePage.Request.NotifySubscribers | state.php:130 | notifying appends exactly one notification with the notices and the acting user, and logs that effect |
| StatePage.Request.UpdateLastmod | state.php:133 | the request was last modified now, by the acting user, and that effect is logged |
| StatePage.RequestCache.constructor | state.php:136 | the cache holds the given entries |
| StatePage.RequestCache.Delete | state.php:136 | the request's cache entry is gone, every other entry stays, and the deletion is logged |
| StatePage.EffectLog.Record | state.php:130-136 | recording an effect appends exactly that effect to the log |
| StatePage.Submit | state.php:114-137 | the effect log grows by exactly three effects, in this order: subscribers notified with NotifyContent, lastmod stamped, the request's cache entry deleted; the request holds the new notification and stamp, its users are unchanged, and only its own cache entry is gone |
| StatePage.HandleStatePage | state.php:48-156 | a user who fails the gate gets invalid access and nothing changes; cancel redirects to the status page and nothing changes; a submit logs the three effects of Submit in order, appends the notification, stamps lastmod, deletes only the request's cache entry, and then redirects to the status page, to the list, or shows the form again; otherwise the form is shown and nothing changes |
| Renderer.ForwardOptionsIncreasing | renderer.php:470-489 | the offered look-ahead values strictly increase and none is beyond maxweeks weeks |
| Renderer.ForwardOptionsWellLabelled | renderer.php:470-489 | every offered value is a whole number of weeks from one to maxweeks and not shorter than the default look-ahead; the label is the singular week string exactly for one week |
| Renderer.ForwardOptionsComplete | renderer.php:470-477 | every week from one to maxweeks that is not shorter than the default look-ahead is offered |
| Renderer.RenderRequestSearchControls | renderer.php:449-489 | a look-ahead beyond maxweeks weeks gets only the out-of-range message; otherwise the option list is exactly ForwardOptions |
| Renderer.PreOrderConcat | renderer.php:369-384 | siblings are listed in their given order, one run after another |
| Renderer.PreOrderLength | renderer.php:369-384 | the listing has exactly one line per rule of the tree |
| Renderer.PreOrderListsSubtree | renderer.php:369-384 | every rule is listed, and its line is immediately followed by the listing of its own children: a rule comes before its subtree |
| Renderer.RenderDeleteRules | renderer.php:364-387 | the walk appends to the given output exactly the pre-order listing of the branch |
| Renderer.CommentClassList | renderer.php:83-93 | read as a class list, the class is content, then fileattachment exactly when there is a file, then statechange exactly when there is a state change |
| Php.Tokens | renderer.php:168-169 | every token strtok returns is non-empty and free of the delimiter |
| Php.TokensAfterWord | renderer.php:168-169 | a word followed by nothing or by the delimiter is returned whole, and tokenising continues after it |
| Php.TokensAfterSpace | renderer.php:168-169 | strtok skips a leading delimiter |
| Renderer.FirstTwoTokensKept | renderer.php:167-170 | the short form of a duration reads as exactly the first two tokens of the full form, or as all of them when there are fewer |
| Renderer.RenderTime | renderer.php:161-181 | with showdate, the full date with no title; otherwise the text reads as exactly the first two tokens of the formatted age (all of them when fewer), titled with the full date |
| Renderer.ListedExactly | renderer.php:198-229 | a file gets a list item exactly when it is among the file records, found in storage, and not a directory |
| Renderer.RenderExtensionAttachments | renderer.php:189-238 | the list is returned exactly when there is more than one file record, and then it lists exactly the files that ListedExactly selects, in order |

## Left out

- HTML output (`html_writer`, `single_select`, `html_table`, pictures and links) is not modelled. The model stops at the data that feeds it: options, rule lines, class strings, the abbr text and title, and the listed files.
- The navigation hook in lib.php:31-115 is left out. It only builds menu nodes.
- `require_login`, the file storage calls and `send_stored_file` are foreign calls. The storage is a map from lookup coordinates to stored files, and `Served` stands for sending the file.
- Capabilities, `get_config` values, `cache_get_requests`, `get_user_access`, `update_cm_state` and `add_comment` are inputs. Their results are parameters.
- The clock (`time()`), `format_time` and `userdate` are inputs too. `RenderTime` takes the current time and the two formatting functions as parameters.
- classes/form/rule.php, classes/table/index.php, the language files and the test fixture are not part of this model.
- The rule evaluator, the state transition table and rule-tree loading are not part of this model. None of them is implemented in the modelled files.
- Messaging.Mailer.Send: which user's digest preference is read is not shown, so the preference is a parameter.
- Messaging.Mailer.DigestSend: the tests assert only the contents of a digest mail. Carrying the row's subject into the mail is a modelling choice.
- Messaging.Mailer.DigestSend: the digest is not grouped per recipient, bodies are not joined, and no batch `sentid` is set. The plugin's design intends per-recipient grouping and a shared batch id. But the tests for those features are skipped, and the remaining tests expect one mail per queued row with that row's contents as its body. The model follows the tests.
- Messaging.Mailer.DigestSend: transport failures are not modelled. The transport is taken to always deliver.
- The mailer features whose tests are skipped are not modelled: the sending summary, deleting old rows, and checking the recipient's preference instead of the sender's.
- Messaging.IsEnabled: `is_enabled` is not tied to `send`. Nothing shown says what a disabled mailer does.
- The mailer's real implementation is not part of this model. `Messaging` follows only the behaviour the tests assert.
- StatePage.Request.NotifySubscribers: the body of `notify_subscribers` is not shown. It is modelled as a record of the call, with its notices and the acting user; who receives what is not modelled.
- StatePage.Request.UpdateLastmod: the body of `update_lastmod` is not shown. It is modelled as recording the acting user and the injected current time.
- StatePage.HandleStatePage: PHP's `redirect` ends the script. A redirect outcome therefore stands for "stop here", and the page is not rendered after it.
- Renderer.RenderDeleteRules: each rule's HTML is reduced to its id, its name and the parent string from `render_trigger_rule_text`'s arguments.
- Lib.FindRequest: only the integer 0 stands for an empty module id. Other PHP values that `empty()` accepts (null, "0") are not modelled.
- Integer widths are unbounded, so `maxweeks * 7` and `7 * i` do not overflow. The PHP comparison `$i < $searchforwarddefault / 7` uses float division; it is modelled as `7 * i < searchforwarddefault`, which agrees for all integers.
