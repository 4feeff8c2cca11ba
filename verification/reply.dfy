/** The reply command of the attachment menu (`mutt_attach_reply`): the choice
    between quoting whole messages and quoting parts inside their parent, the
    policy for undecodable remainders, and the parts that end up in the draft. */
module ReplyCmd {
  import opened Nullable
  import opened Prompt
  import opened AttachIndex
  import opened Queries
  import opened Parent
  import opened Assembly

  /** `mime_reply_any`: attach the undecodable remainder. A single tagged part
      is always kept; with several, when not all are decodable, the user is
      asked (an aborted prompt gives `None`); otherwise nothing is attached. */
  function MimeReplyAny(idx: Index, cur: Option<nat>, nattach: nat, askRest: Answer): (any: Option<bool>)
    requires ValidFocus(idx, cur)
    ensures any.None? <==> nattach > 1 && (exists j :: j in Targets(idx, cur) && !idx[j].decodable) && askRest.Abort?
    ensures any.Some? ==>
              (any.value <==> nattach == 1 || (nattach > 1 && (exists j :: j in Targets(idx, cur) && !idx[j].decodable) && askRest.Yes?))
  {
    if nattach > 1 && !CheckCanDecode(idx, cur) then
      if askRest.Abort? then None else Some(askRest.Yes?)
    else Some(nattach == 1)
  }

  /** Whose header a reply takes its context from: the displayed root message
      or one embedded message of the menu. */
  datatype HeaderRef = RootHeader | EntryHeader(i: nat)

  /** Where the reply envelope comes from: one header, or (no header given)
      every tagged message in turn. */
  datatype EnvelopeSource = FromHeader(h: HeaderRef) | FromEachTagged

  /** How the body is quoted: each selected message whole, or the selected
      parts under the header of their parent (the root message when `None`). */
  datatype ReplyContext = EachMessage | WithinParent(parent: Option<nat>)

  datatype ReplyPlan = ReplyPlan(
    context: ReplyContext,
    mimeReplyAny: bool,
    envelope: EnvelopeSource,
    included: seq<nat>,           // messages quoted whole, with attribution each
    bodyPrefix: Option<string>,   // prefix for parts quoted inside the parent
    headerPrefix: Option<string>, // prefix of the parent's quoted header, if included
    inlined: seq<nat>,
    attached: seq<nat>,
    markReplied: bool)

  datatype ReplyOutcome =
    | ReplyAborted            // the remainder prompt was aborted
    | ReplyNoTaggedMessages   // "Can't find any tagged messages."
    | ReplyEnvelopeFailed     // recipient fetching or the list-reply check failed
    | ReplyCopyFailed         // attaching an undecodable part failed
    | ReplySent(plan: ReplyPlan)

  /** Whether `mime_reply_any` ends up set for the menu-wide tagged count:
      a single tagged entry, or several with some undecodable target and the
      remainder prompt answered yes. */
  ghost predicate RemainderAttached(idx: Index, cur: Option<nat>, askRest: Answer)
    requires ValidFocus(idx, cur)
  {
    var n := |TaggedAmong(idx, 0, |idx|)|;
    n == 1 || (n > 1 && (exists j :: j in Targets(idx, cur) && !idx[j].decodable) && askRest.Yes?)
  }

  /** The parts branch of `mutt_attach_reply`: the focused part is rendered
      inline when decodable and attached otherwise, where a failed copy
      (whose result the code ignores) attaches nothing; with nothing focused
      the decodable tagged parts are rendered inline and, under
      `mime_reply_any`, the undecodable ones are attached, and a failed copy
      abandons the reply. */
  function QuoteParts(idx: Index, cur: Option<nat>, context: ReplyContext, any: bool, envelope: EnvelopeSource,
                      bodyPrefix: Option<string>, headerPrefix: Option<string>,
                      copyFails: nat -> bool, sendOk: bool): (r: ReplyOutcome)
    requires ValidFocus(idx, cur)
    ensures r.ReplySent? || r.ReplyCopyFailed?
    ensures r.ReplySent? ==>
              r.plan == ReplyPlan(context, any, envelope, [], bodyPrefix, headerPrefix, r.plan.inlined, r.plan.attached, sendOk)
    // the focused part's copy is not checked: a failed copy attaches nothing
    ensures cur.Some? ==>
              && r.ReplySent?
              && if idx[cur.value].decodable
                 then r.plan.inlined == [cur.value] && r.plan.attached == []
                 else r.plan.inlined == [] && r.plan.attached == (if copyFails(cur.value) then [] else [cur.value])
    ensures r.ReplySent? && cur.None? ==>
              && r.plan.inlined == Positions(idx, DecodableTagged, 0)
              && r.plan.attached == (if any then Positions(idx, ProblematicTagged(false), 0) else [])
    ensures r.ReplyCopyFailed? <==>
              cur.None? && any && exists j :: 0 <= j < |idx| && idx[j].tagged && !idx[j].decodable && copyFails(j)
  {
    match cur
    case Some(c) =>
      var inlined := if idx[c].decodable then [c] else [];
      var attached := if idx[c].decodable || copyFails(c) then [] else [c];
      ReplySent(ReplyPlan(context, any, envelope, [], bodyPrefix, headerPrefix, inlined, attached, sendOk))
    case None =>
      var inlined := Positions(idx, DecodableTagged, 0);
      if !any then
        ReplySent(ReplyPlan(context, any, envelope, [], bodyPrefix, headerPrefix, inlined, [], sendOk))
      else
        match CopyProblematicAttachments(idx, false, copyFails)
        case CopyFailed(_, _) => ReplyCopyFailed
        case Copied(parts) =>
          ReplySent(ReplyPlan(context, any, envelope, [], bodyPrefix, headerPrefix, inlined, parts, sendOk))
  }

  /** The whole-message branch of `mutt_attach_reply` (every target is an
      embedded message): each selected message is quoted whole. With nothing
      focused the envelope is built from every tagged message, which fails when
      none is tagged. */
  function ReplyWholeMessages(idx: Index, cur: Option<nat>, envelopeOk: bool, sendOk: bool): (r: ReplyOutcome)
    requires ValidFocus(idx, cur)
    ensures r.ReplyNoTaggedMessages? <==> cur.None? && TaggedAmong(idx, 0, |idx|) == {}
    ensures r.ReplyEnvelopeFailed? <==> !r.ReplyNoTaggedMessages? && !envelopeOk
    ensures r.ReplySent? <==> !r.ReplyNoTaggedMessages? && envelopeOk
    ensures r.ReplySent? ==>
              r.plan == ReplyPlan(EachMessage, false,
                                  if cur.Some? then FromHeader(EntryHeader(cur.value)) else FromEachTagged,
                                  if cur.Some? then [cur.value] else Positions(idx, AllTagged, 0),
                                  None, None, [], [], sendOk)
  {
    var envelope := if cur.Some? then FromHeader(EntryHeader(cur.value)) else FromEachTagged;
    assert cur.None? && FirstTagged(idx, 0) < |idx| ==> FirstTagged(idx, 0) in TaggedAmong(idx, 0, |idx|);
    if envelope.FromEachTagged? && FirstTagged(idx, 0) == |idx| then ReplyNoTaggedMessages
    else if !envelopeOk then ReplyEnvelopeFailed
    else
      var included := if cur.Some? then [cur.value] else Positions(idx, AllTagged, 0);
      ReplySent(ReplyPlan(EachMessage, false, envelope, included, None, None, [], [], sendOk))
  }

  /** The parent branch of `mutt_attach_reply` once `parent` and
      `mime_reply_any` are settled: the envelope comes from the parent's
      header (the root message's when none), and the parts are quoted with
      one `SHORT_STRING` prefix for the parent header and the bodies. */
  function QuoteUnder(idx: Index, cur: Option<nat>, parent: Option<nat>, any: bool,
                      includeHeader: bool, textFlowed: bool, templated: string,
                      envelopeOk: bool, copyFails: nat -> bool, sendOk: bool): (r: ReplyOutcome)
    requires ValidFocus(idx, cur)
    ensures r.ReplyEnvelopeFailed? <==> !envelopeOk
    ensures r.ReplySent? || r.ReplyEnvelopeFailed? || r.ReplyCopyFailed?
    ensures r.ReplySent? ==>
              && r.plan.context == WithinParent(parent)
              && r.plan.mimeReplyAny == any
              && r.plan.envelope == FromHeader(if parent.Some? then EntryHeader(parent.value) else RootHeader)
              && r.plan.included == []
              && r.plan.bodyPrefix == Some(BodyPrefix(textFlowed, templated, ShortStringSize))
              && r.plan.headerPrefix == (if includeHeader then r.plan.bodyPrefix else None)
              && r.plan.markReplied == sendOk
    ensures r.ReplySent? && cur.Some? ==>
              if idx[cur.value].decodable
              then r.plan.inlined == [cur.value] && r.plan.attached == []
              else r.plan.inlined == [] && r.plan.attached == (if copyFails(cur.value) then [] else [cur.value])
    ensures r.ReplySent? && cur.None? ==>
              && r.plan.inlined == Positions(idx, DecodableTagged, 0)
              && r.plan.attached == (if any then Positions(idx, ProblematicTagged(false), 0) else [])
    ensures r.ReplyCopyFailed? <==>
              && cur.None? && envelopeOk && any
              && exists j :: 0 <= j < |idx| && idx[j].tagged && !idx[j].decodable && copyFails(j)
  {
    var envelope := FromHeader(if parent.Some? then EntryHeader(parent.value) else RootHeader);
    if !envelopeOk then ReplyEnvelopeFailed
    else
      var bodyPrefix := Some(BodyPrefix(textFlowed, templated, ShortStringSize));
      var headerPrefix := if includeHeader then HeaderPrefix(true, bodyPrefix, textFlowed, templated) else None;
      HeaderPrefixOfBodyPrefix(textFlowed, templated, ShortStringSize);
      QuoteParts(idx, cur, WithinParent(parent), any, envelope, bodyPrefix, headerPrefix, copyFails, sendOk)
  }

  /** The parent branch of `mutt_attach_reply` (some target is not a message):
      the parts are quoted under the parent `find_parent` gives for the tagged
      count (the root message when none), whose header also supplies the
      envelope, with one prefix for the parent header and the bodies. */
  function ReplyInParent(idx: Index, cur: Option<nat>, includeHeader: bool, textFlowed: bool, templated: string,
                         askRest: Answer, envelopeOk: bool, copyFails: nat -> bool, sendOk: bool): (r: ReplyOutcome)
    requires ValidFocus(idx, cur)
    ensures r.ReplyAborted? <==>
              && |TaggedAmong(idx, 0, |idx|)| > 1
              && (exists j :: j in Targets(idx, cur) && !idx[j].decodable)
              && askRest.Abort?
    ensures !r.ReplyNoTaggedMessages?
    ensures r.ReplyEnvelopeFailed? <==> !r.ReplyAborted? && !envelopeOk
    ensures r.ReplySent? ==>
              && envelopeOk
              && r.plan.context == WithinParent(FindParent(idx, cur, |TaggedAmong(idx, 0, |idx|)|))
              && r.plan.envelope == FromHeader(if r.plan.context.parent.Some? then EntryHeader(r.plan.context.parent.value) else RootHeader)
              && r.plan.included == []
              && r.plan.bodyPrefix == Some(BodyPrefix(textFlowed, templated, ShortStringSize))
              && r.plan.headerPrefix == (if includeHeader then r.plan.bodyPrefix else None)
              && r.plan.markReplied == sendOk
    ensures r.ReplySent? ==> (r.plan.mimeReplyAny <==> RemainderAttached(idx, cur, askRest))
    ensures r.ReplySent? && cur.Some? ==>
              if idx[cur.value].decodable
              then r.plan.inlined == [cur.value] && r.plan.attached == []
              else r.plan.inlined == [] && r.plan.attached == (if copyFails(cur.value) then [] else [cur.value])
    ensures r.ReplySent? && cur.None? ==>
              && r.plan.inlined == Positions(idx, DecodableTagged, 0)
              && r.plan.attached == (if r.plan.mimeReplyAny then Positions(idx, ProblematicTagged(false), 0) else [])
    ensures r.ReplyCopyFailed? <==>
              && cur.None? && envelopeOk && RemainderAttached(idx, cur, askRest)
              && exists j :: 0 <= j < |idx| && idx[j].tagged && !idx[j].decodable && copyFails(j)
  {
    var nattach := CountTagged(idx);
    var parent := FindParent(idx, cur, nattach);
    match MimeReplyAny(idx, cur, nattach, askRest)
    case None => ReplyAborted
    case Some(any) =>
      QuoteUnder(idx, cur, parent, any, includeHeader, textFlowed, templated, envelopeOk, copyFails, sendOk)
  }

  /** `mutt_attach_reply`. `includeHeader` and `textFlowed` are the options
      consulted, `templated` the indent-string expansion for the parent header,
      `envelopeOk` whether `attach_reply_envelope_defaults` succeeds
      (recipient fetching, and for a list reply finding a list address),
      `copyFails(j)` whether attaching part `j` fails, and `sendOk` whether the
      send pipeline reports success (which marks the message as replied to). */
  function AttachReply(idx: Index, cur: Option<nat>, includeHeader: bool, textFlowed: bool, templated: string,
                       askRest: Answer, envelopeOk: bool, copyFails: nat -> bool, sendOk: bool): (r: ReplyOutcome)
    requires ValidFocus(idx, cur)
    ensures r.ReplyAborted? <==>
              && (exists j :: j in Targets(idx, cur) && !idx[j].isMessage)
              && |TaggedAmong(idx, 0, |idx|)| > 1
              && (exists j :: j in Targets(idx, cur) && !idx[j].decodable)
              && askRest.Abort?
    ensures r.ReplyNoTaggedMessages? <==> cur.None? && TaggedAmong(idx, 0, |idx|) == {}
    ensures r.ReplyEnvelopeFailed? <==> !envelopeOk && !r.ReplyAborted? && !r.ReplyNoTaggedMessages?
    ensures r.ReplySent? ==> envelopeOk && (r.plan.markReplied <==> sendOk)
    ensures r.ReplySent? ==>
              (r.plan.context.EachMessage? <==> forall j :: j in Targets(idx, cur) ==> idx[j].isMessage)
    // whole messages: no parent, no remainder, each message quoted in index order
    ensures r.ReplySent? && r.plan.context.EachMessage? ==>
              && !r.plan.mimeReplyAny
              && r.plan.envelope == (if cur.Some? then FromHeader(EntryHeader(cur.value)) else FromEachTagged)
              && r.plan.included == (if cur.Some? then [cur.value] else Positions(idx, AllTagged, 0))
              && r.plan.bodyPrefix == None && r.plan.headerPrefix == None
              && r.plan.inlined == [] && r.plan.attached == []
    // parts: quoted under the parent found for the tagged count
    ensures r.ReplySent? && r.plan.context.WithinParent? ==>
              && r.plan.context.parent == FindParent(idx, cur, |TaggedAmong(idx, 0, |idx|)|)
              && r.plan.envelope == FromHeader(if r.plan.context.parent.Some? then EntryHeader(r.plan.context.parent.value) else RootHeader)
              && r.plan.included == []
              && r.plan.bodyPrefix == Some(BodyPrefix(textFlowed, templated, ShortStringSize))
              && r.plan.headerPrefix == (if includeHeader then r.plan.bodyPrefix else None)
    ensures r.ReplySent? && r.plan.context.WithinParent? ==>
              (r.plan.mimeReplyAny <==> RemainderAttached(idx, cur, askRest))
    ensures r.ReplySent? && r.plan.context.WithinParent? && cur.Some? ==>
              if idx[cur.value].decodable
              then r.plan.inlined == [cur.value] && r.plan.attached == []
              else r.plan.inlined == [] && r.plan.attached == (if copyFails(cur.value) then [] else [cur.value])
    ensures r.ReplySent? && r.plan.context.WithinParent? && cur.None? ==>
              && r.plan.inlined == Positions(idx, DecodableTagged, 0)
              && r.plan.attached == (if r.plan.mimeReplyAny then Positions(idx, ProblematicTagged(false), 0) else [])
    ensures r.ReplyCopyFailed? <==>
              && (exists j :: j in Targets(idx, cur) && !idx[j].isMessage)
              && cur.None? && envelopeOk && RemainderAttached(idx, cur, askRest)
              && exists j :: 0 <= j < |idx| && idx[j].tagged && !idx[j].decodable && copyFails(j)
  {
    if CheckAllMsg(idx, cur) then ReplyWholeMessages(idx, cur, envelopeOk, sendOk)
    else ReplyInParent(idx, cur, includeHeader, textFlowed, templated, askRest, envelopeOk, copyFails, sendOk)
  }

  /** A reply to a single tagged part (inside a parent) never loses it: the
      part is either quoted inline or attached. */
  lemma SingleTaggedPartIsKept(idx: Index, includeHeader: bool, textFlowed: bool, templated: string,
                               askRest: Answer, envelopeOk: bool, copyFails: nat -> bool, sendOk: bool, j: nat)
    requires j < |idx| && idx[j].tagged && !idx[j].isMessage
    requires TaggedAmong(idx, 0, |idx|) == {j}
    requires AttachReply(idx, None, includeHeader, textFlowed, templated, askRest, envelopeOk, copyFails, sendOk).ReplySent?
    ensures var p := AttachReply(idx, None, includeHeader, textFlowed, templated, askRest, envelopeOk, copyFails, sendOk).plan;
            p.mimeReplyAny && (j in p.inlined || j in p.attached)
  {
    assert j in Targets(idx, None);
    PositionsSpec(idx, DecodableTagged, 0);
    PositionsSpec(idx, ProblematicTagged(false), 0);
  }
}
