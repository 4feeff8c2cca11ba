# Attachment-menu send commands of mutt (`recvcmd.c`), modelled in Dafny

mutt's attachment menu shows a message's MIME tree flattened into a list of
lines. Each line has a depth (`level`), and a part's children are the
contiguous run of deeper lines that follows it. From this menu the user can
bounce, forward or reply to the focused part or to every tagged part. This
project models how those commands resolve their scope:

- the selection predicates (`check_all_msg`, `check_can_decode`,
  `count_tagged`, `count_tagged_children`);
- the search for the embedded message (`message/rfc822`) that encloses the
  selection (`is_parent`, `find_parent`, `find_common_parent`);
- the choice of quoting prefix (`include_header`);
- the collection of undecodable tagged parts as literal MIME attachments
  (`copy_problematic_attachments`);
- the decisions of the bounce, forward and reply commands.

The menu is an immutable `seq<Entry>`. An entry holds the line's level and
four facts about its part: it is an embedded message, it is tagged, it can be
rendered as text, and (for messages) it has a From: header. Every scan is a
pure recursive function that follows the C loop it models. Each one is proved
against declarative definitions in `AttachIndex`:

- `InRun(idx, i, j)`: `j` lies in `i`'s descendant run.
- `TaggedAmong` and `TaggedDescendants`: tagged positions, counted as set
  cardinalities.
- `Targets(idx, cur)`: the effective target set, meaning the focused part if
  there is one, else every tagged part.
- `Positions(idx, filter, 0)`: the positions a `for (i = 0; i < idxlen; i++)`
  loop acts on, in index order. `PositionsSpec` states what it contains.

Every answer the user gives is a parameter. A quadoption prompt yields
`Answer` (`Yes`, `No` or `Abort`, the C `-1`). The bounce recipient prompt
yields `AddressAnswer`. Results of external code are parameters too: whether
copying a part fails, whether bouncing a message fails, whether the reply
envelope could be built, and whether sending succeeded.

Modelling conventions:

- `cur`, a `BODY *` in C, is the position of the focused line: `Option<nat>`
  with `ValidFocus`. The menu only ever passes the body of one of its own
  lines. The C pointer test `content == cur` becomes position equality.
- The displayed message's header `hdr` is always present. So a reply quotes
  inside a parent exactly when the all-messages check fails.
- Only embedded-message parts carry a header (`cur->hdr`, `content->hdr`).
- The fixed buffers are mutt's `SHORT_STRING` (128 bytes) and `STRING` (256
  bytes). Copying into a `char buf[n]` keeps at most `n - 1` characters
  (`Fit`). The forward path expands its body prefix into a `STRING` buffer.
  `include_header` copies it into its own `SHORT_STRING` buffer, so a long
  prefix is shorter on the quoted header than on the bodies.
- A copy of a part into the draft either attaches the part or fails and
  attaches nothing. Forwarding abandons the draft when such a copy fails.
  Replying abandons it only for the copies made by
  `copy_problematic_attachments`. It ignores a failed copy of the focused part
  (recvcmd.c:975) and sends without it.

Two behaviours of the code worth noting:

- Forwarding with nothing focused and nothing tagged is not an error in the
  code. `check_all_msg` passes vacuously, so `AttachForward` takes the message
  path. A reply in the same situation fails with `ReplyNoTaggedMessages`.
- "Forward as attachments?" is asked whenever nothing is focused or the
  focused part is decodable (recvcmd.c:478-481). It is asked even when no
  tagged part is decodable.

## Model

| member | source | states |
|---|---|---|
| Queries.TaggedAreMessagesFrom | recvcmd.c:59-66 | The loop from position `i` passes iff every tagged entry in `[i, len)` is an embedded message. |
| Queries.CheckAllMsg | recvcmd.c:50-69 | Passes iff every part of the target set is an embedded message. With a focused part that is its own type. With nothing focused and nothing tagged it passes vacuously. |
| Queries.CheckCanDecode | recvcmd.c:74-86 | With a focused part, equals that part's decodability. Otherwise holds iff every tagged part is decodable, vacuously when none is tagged. |
| Queries.TaggedAreDecodableFrom | recvcmd.c:81-83 | The loop from position `i` passes iff every tagged entry in `[i, len)` is decodable. |
| Queries.CountTaggedFrom | recvcmd.c:93-95 | The loop from position `i` counts exactly the tagged positions in `[i, len)`. |
| Queries.CountTagged | recvcmd.c:88-98 | Equals the number of tagged entries in the menu, the cardinality of the tagged-position set. |
| Queries.CountRun | recvcmd.c:109-111 | The `while` loop counts the tagged entries of the maximal run of entries deeper than `level` that starts at `k`. |
| Queries.CountTaggedChildren | recvcmd.c:104-114 | Equals the number of tagged entries in `i`'s strict descendant run, so `i` itself never counts. Never exceeds `count_tagged`. |
| Parent.ScanRunFor | recvcmd.c:315-319 | The loop finds `c` iff `c` lies inside the run of deeper entries starting at `k`. |
| Parent.IsParent | recvcmd.c:311-322 | Holds iff the focused position lies in `i`'s strict descendant run. |
| Parent.FindParentScan | recvcmd.c:331-338 | If the scan starts with the last enclosing message below `i`, it ends with the last enclosing message of the whole menu. The body stops at the focused line. The result is the same as a full scan, because no later entry can enclose the focused one. |
| Parent.FindParentFocused | recvcmd.c:329-339 | The result, if any, is an embedded message whose run contains the focused part and that lies strictly before it. No later message encloses the focused part, and every earlier enclosing message encloses the result: it is the innermost one. `None` means no message encloses the focused part. |
| Parent.FirstTagged | recvcmd.c:286-288 | The first tagged position, or the menu length when nothing is tagged. |
| Parent.ScanBack | recvcmd.c:290-300 | The backward loop returns the highest message below `i` whose tagged-descendant count equals `nattach`. `None` means no message below `i` has that count. |
| Parent.FindCommonParent | recvcmd.c:281-301 | The result lies strictly before the first tagged entry and is an embedded message with exactly `nattach` tagged descendants. No later candidate before the first tagged entry has that count. `None` means none does. |
| Parent.FindParent | recvcmd.c:324-344 | A focused part uses focused mode. Otherwise the common parent is searched for, and only when `nattach != 0`. Any result is an embedded message. |
| Parent.EnclosingRunsNest | recvcmd.c:311-322 | Two runs that both contain the same entry are nested. |
| Parent.CommonParentEnclosesAllTagged | recvcmd.c:281-301 | With the real tagged count, the common parent's run contains every tagged entry. |
| Parent.CommonParentIsInnermost | recvcmd.c:281-301 | If some embedded message encloses every tagged entry, a common parent is found, and that message is the common parent or encloses it. |
| Parent.NoCommonParentMeansNoEnclosingMessage | recvcmd.c:281-301 | When no common parent is found, every embedded message leaves out some tagged entry. |
| Assembly.Fit | recvcmd.c:359 | What a `char buf[size]` holds of a string: a prefix of it, at most `size - 1` characters long. The string is unchanged when it fits, and cut to exactly `size - 1` characters otherwise. |
| Assembly.FitTwice | recvcmd.c:359 | Fitting into a buffer and then into a smaller one gives the same result as fitting into the smaller one directly. |
| Assembly.BodyPrefix | recvcmd.c:457-464 | The body quoting prefix is ">" in text-flowed mode. Otherwise it is the expanded indent template, cut to the buffer it is written into. |
| Assembly.HeaderPrefix | recvcmd.c:346-370 | The header is quoted iff `quote` is set. An explicit prefix wins, cut to `SHORT_STRING`. Otherwise the templated prefix, cut the same way, is used unless text-flowed is on, in which case ">" is used. |
| Assembly.HeaderDefaultMatchesBodyPrefix | recvcmd.c:356-364 | With no explicit prefix, `include_header` picks the prefix that a `SHORT_STRING` body-prefix buffer holds. Neither caller in recvcmd.c (466-467, 964) takes this branch: both pass a prefix array, never NULL. |
| Assembly.HeaderPrefixOfBodyPrefix | recvcmd.c:351-359 | A body prefix from a buffer of at least `SHORT_STRING` bytes, handed to `include_header`, comes out as the `SHORT_STRING` body prefix. On the reply path that is the body prefix itself. |
| Assembly.ForwardHeaderPrefixIsCut | recvcmd.c:415-466 | On the forward path, the quoted header's prefix differs from the body prefix iff text-flowed is off and the expansion has at least 128 characters. |
| Assembly.CopyFrom | recvcmd.c:381-391 | The loop copies every selected part from `i` on iff none of their copies fails. The copied list is the selected positions in order. |
| Assembly.CopyFromFailure | recvcmd.c:383-388 | On failure, the loop stops at a selected part whose copy failed, and each part appended before it was copied. |
| Assembly.CopyFromFailurePrefix | recvcmd.c:381-391 | On failure, the parts appended are exactly the selected parts ahead of the failing one. The rest of the selection follows the failing part. |
| Assembly.CopyProblematicAttachments | recvcmd.c:375-392 | Appends, in index order, exactly the tagged parts with `force` or not decodable. The result is NULL (`CopyFailed`) iff one of their copies fails, and then only the selected parts before the failed one were appended. |
| Assembly.ForcedCopyTakesAllTagged | recvcmd.c:383-384 | With `force`, the appended parts are exactly all the tagged parts. |
| Assembly.UnforcedCopyTakesUndecodable | recvcmd.c:383-384 | Without `force`, a part is appended iff it is tagged and not decodable. |
| AttachIndex.PositionsSpec | recvcmd.c:229-234 | The positions a tagged-entry loop visits are exactly the kept entries, in strictly increasing index order. |
| BounceCmd.TaggedLacksFromFrom | recvcmd.c:154-166 | The warning fires iff some tagged message lacks a From: header. |
| BounceCmd.BounceTaggedFrom | recvcmd.c:229-234 | The failure flag is set iff bouncing some tagged message fails. The loop does not stop at a failure. |
| BounceCmd.AttachBounce | recvcmd.c:124-243 | Refused iff some target is not a message, and a refusal gives no From: warning. The wording is singular iff a part is focused or exactly one entry is tagged. Otherwise the From: warning fires iff some target lacks From:. Messages are bounced iff the address is usable and the confirmation is yes. Otherwise the status says why: an empty or cancelled prompt returns silently, an unparsable address is a parse error, a bad IDN is an IDN error, and a declined confirmation is "not bounced". The bounced list is the focused part, or the tagged parts in order. Failure is reported iff some bounce failed. |
| BounceCmd.BouncedTargetsAreTheSelection | recvcmd.c:225-235 | Every message of the target set is bounced exactly once, and nothing else is bounced. |
| ForwardCmd.ForwardModes | recvcmd.c:478-498 | Everything is attached iff the first prompt is asked and answered yes. The remainder is dropped iff nothing is focused, more than one entry is tagged, some tagged part is undecodable, everything was not attached, and the answer is no. Either prompt aborts on `-1`. |
| ForwardCmd.ForwardBodies | recvcmd.c:399-573 | Uses `find_parent`'s result. The body prefix is cut to `STRING`, and the header prefix is the same expansion cut to `SHORT_STRING`. With everything attached, nothing is inlined and every tagged part is attached. Otherwise the decodable tagged parts are inlined, and the undecodable ones are attached only if the remainder is allowed. A focused part is inlined or attached alone. The draft is abandoned iff a part it attaches fails to copy. |
| ForwardCmd.AttachForward | recvcmd.c:702-715 | Takes the message path iff every target is an embedded message. Otherwise takes the body path with the menu-wide tagged count. |
| ForwardCmd.ForwardKeepsEveryTaggedPart | recvcmd.c:533-551 | With the remainder allowed, each tagged part is either inlined or attached, never both. |
| ForwardCmd.DeclinedRemainderIsDropped | recvcmd.c:490-498 | When the remainder is declined, a tagged part is missing from the draft iff it is undecodable. |
| ReplyCmd.MimeReplyAny | recvcmd.c:905-914 | True when exactly one entry is tagged. With more than one tagged and some undecodable target, it is the user's answer, and `-1` aborts. False otherwise. |
| ReplyCmd.AttachReply | recvcmd.c:870-1015 | Quotes whole messages iff the all-messages check passes. Then no remainder is attached, no prefix is built, and each message is included in order. Otherwise parts are quoted under `find_parent`'s result for the tagged count, with one `SHORT_STRING` prefix for the header and the bodies. The decodable parts are inlined, and undecodable ones are attached under `mime_reply_any`. A focused undecodable part whose copy fails is left out without error. Nothing selected is an error. The envelope and copy failures happen exactly in their cases. The message is marked replied iff sending succeeded. |
| ReplyCmd.ReplyWholeMessages | recvcmd.c:917-941 | When every target is a message, each selected message is quoted whole: the focused one, or every tagged one in order. The envelope comes from that message's header, or from every tagged message. It fails with "no tagged messages" iff nothing is focused or tagged. |
| ReplyCmd.ReplyInParent | recvcmd.c:889-1000 | When some target is not a message, the reply aborts iff the remainder prompt is asked and aborted. Otherwise the parts are quoted under `find_parent`'s result for the menu-wide tagged count, and its header supplies the envelope. One `SHORT_STRING` prefix serves the header and the bodies, and the header is quoted iff the header option is set. The reply fails to copy iff nothing is focused, the remainder is attached, and one of its copies fails. |
| ReplyCmd.QuoteUnder | recvcmd.c:917-1000 | For a given parent and `mime_reply_any`: the envelope fails iff recipient fetching or the list-reply check fails. The envelope comes from the parent's header, or the root's when there is none. The prefix is the `SHORT_STRING` body prefix, and the parts are placed as `QuoteParts` states. |
| ReplyCmd.QuoteParts | recvcmd.c:966-996 | A focused part is rendered inline iff decodable. Otherwise it is attached, unless its copy fails, in which case it is left out and the reply goes on. With nothing focused, the decodable tagged parts are rendered inline. Under `mime_reply_any` the undecodable ones are attached. The reply fails iff that copy is attempted and one copy fails. |
| ReplyCmd.SingleTaggedPartIsKept | recvcmd.c:913-914 | A reply to a single tagged part inside a parent keeps that part, inlined or attached. |
| Scenarios.TaggedMessageIsForwardedWhole | recvcmd.c:708-709 | A tagged message with three children goes down the message-forward path. |
| Scenarios.FailedCopyOfFocusedPart | recvcmd.c:526-527 | A focused undecodable part whose copy fails: forwarding abandons the draft. Replying sends the reply without the part (recvcmd.c:975). |
| Scenarios.TaggedPartsAreForwardedUnderTheirMessage | recvcmd.c:428-551 | A tagged text part and a tagged binary part inside one message: the message is found as parent, the text is inlined and the binary is attached. |

## Left out

- The functions declared in `send.h`, and every other external routine, are not part of this model. This covers building subjects, intros, trailers, attributions and reply envelopes, fetching recipients, bouncing, copying or rendering bodies, and sending. Their outcomes enter as parameters.
- Address parsing, alias expansion and IDN encoding (recvcmd.c:179-193) are reduced to the four outcomes of `AddressAnswer`.
- Prompt text building and width truncation (recvcmd.c:198-213) are terminal geometry and are not modelled. Only the singular/plural choice is.
- Error and status messages, `mutt_sleep`, and the `err` argument of `check_msg` only affect what is printed. The model keeps the outcome and the singular flag that select the message.
- Temporary-file creation, closing and unlinking, and the `bail`/`cleanup` ownership paths (recvcmd.c:445-451, 564-573, 1007-1014) are resource plumbing. The model has no failure for opening the temporary file.
- The flag words handed to the copiers (`chflags`, `cmflags`, `st.flags`) are not modelled. They are configuration passed through unchanged.
- `mutt_attach_resend`, `mutt_attach_mail_sender` and the inside of `attach_forward_msgs` lie outside the modelled core. Only the dispatch to the message path is modelled.
- `attach_reply_envelope_defaults` and `attach_include_reply` are modelled only by which header the envelope comes from, and by the "Can't find any tagged messages" case. Their outcome is a parameter: recipient fetching, and the list-reply check that fails with "No mailing lists found!" (recvcmd.c:821-825).
- `mutt.h` and `sendlib.c` are not part of this model. The buffer sizes 128 and 256 are mutt's `SHORT_STRING` and `STRING`. A failed `mutt_copy_body` is taken to attach nothing.
- Fit: counts characters where C counts bytes, and cuts the indent expansion at the buffer boundary. The expander's handling of multibyte characters near the boundary is not modelled.
- The C loop counters and counts are `short`. The model uses unbounded integers, which matches the C only for menus of fewer than 32768 lines.
- In the multi-tag parent search, a message whose tagged-descendant count equals the total is taken as the common parent. `CommonParentEnclosesAllTagged` shows that this is exact when the total is the real tagged count. No other count is ever passed.
