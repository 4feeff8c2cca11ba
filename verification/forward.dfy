/** The forward command of the attachment menu: the dispatch of
    `mutt_attach_forward` and the decisions of `attach_forward_bodies` about
    which selected parts are rendered inline and which are attached. */
module ForwardCmd {
  import opened Nullable
  import opened Prompt
  import opened AttachIndex
  import opened Queries
  import opened Parent
  import opened Assembly

  /** The two flags of `attach_forward_bodies`: attach everything as MIME parts
      (`mime_fwd_all`), and attach the undecodable remainder (`mime_fwd_any`). */
  datatype FwdModes = FwdModes(mimeFwdAll: bool, mimeFwdAny: bool)

  /** The prompt logic of `attach_forward_bodies`. "Forward as attachments?" is
      asked unless the focused part is undecodable; "MIME-forward the others?"
      is asked when nothing is focused, more than one entry is tagged, not every
      tagged part is decodable and everything-as-attachments was not chosen.
      An aborted prompt gives `None`. */
  function ForwardModes(idx: Index, cur: Option<nat>, nattach: nat, askAll: Answer, askRest: Answer): (m: Option<FwdModes>)
    requires ValidFocus(idx, cur)
    ensures var asksAll := cur.None? || idx[cur.value].decodable;
            var asksRest := !(asksAll && askAll.Yes?) && cur.None? && nattach > 1
                            && exists j :: j in Targets(idx, cur) && !idx[j].decodable;
            m.None? <==> (asksAll && askAll.Abort?) || (!(asksAll && askAll.Abort?) && asksRest && askRest.Abort?)
    ensures m.Some? ==> (m.value.mimeFwdAll <==> (cur.None? || idx[cur.value].decodable) && askAll.Yes?)
    ensures m.Some? ==> (!m.value.mimeFwdAny <==>
              && !m.value.mimeFwdAll && cur.None? && nattach > 1
              && (exists j :: 0 <= j < |idx| && idx[j].tagged && !idx[j].decodable)
              && askRest.No?)
  {
    var asksAll := cur.None? || idx[cur.value].decodable;
    if asksAll && askAll.Abort? then None
    else
      var all := asksAll && askAll.Yes?;
      var asksRest := !all && cur.None? && nattach > 1 && !CheckCanDecode(idx, cur);
      if asksRest && askRest.Abort? then None
      else Some(FwdModes(all, !(asksRest && askRest.No?)))
  }

  /** What the forwarded draft is built from: the parent whose header is
      included (the root message when `None`), the quoting prefix of header
      and bodies, the parts rendered inline and the parts attached, in order. */
  datatype BodiesPlan = BodiesPlan(
    parent: Option<nat>,
    modes: FwdModes,
    bodyPrefix: Option<string>,
    headerPrefix: Option<string>,
    inlined: seq<nat>,
    attached: seq<nat>)

  datatype BodiesOutcome = BodiesAborted | BodiesCopyFailed | BodiesSent(plan: BodiesPlan)

  /** `attach_forward_bodies`. `forwQuote` and `textFlowed` are the quoting
      options, `templated` the indent-string expansion for the parent header,
      and `copyFails(j)` whether attaching part `j` fails. The body prefix
      lives in a `STRING` buffer; `include_header` copies it into its own
      `SHORT_STRING` one, so a long expansion is cut shorter in the header. */
  function ForwardBodies(idx: Index, cur: Option<nat>, nattach: nat,
                         forwQuote: bool, textFlowed: bool, templated: string,
                         askAll: Answer, askRest: Answer, copyFails: nat -> bool): (r: BodiesOutcome)
    requires ValidFocus(idx, cur)
    ensures r.BodiesAborted? <==> ForwardModes(idx, cur, nattach, askAll, askRest).None?
    ensures r.BodiesSent? ==> r.plan.parent == FindParent(idx, cur, nattach)
    ensures r.BodiesSent? ==> Some(r.plan.modes) == ForwardModes(idx, cur, nattach, askAll, askRest)
    // body prefix in a STRING buffer, header prefix cut to include_header's SHORT_STRING
    ensures r.BodiesSent? ==> (r.plan.bodyPrefix.Some? <==> forwQuote)
    ensures r.BodiesSent? && forwQuote ==> r.plan.bodyPrefix == Some(BodyPrefix(textFlowed, templated, StringSize))
    ensures r.BodiesSent? ==>
              r.plan.headerPrefix == if forwQuote then Some(BodyPrefix(textFlowed, templated, ShortStringSize)) else None
    // one focused part: inline it when it is decodable and not everything is attached
    ensures r.BodiesSent? && cur.Some? ==>
              if !r.plan.modes.mimeFwdAll && idx[cur.value].decodable
              then r.plan.inlined == [cur.value] && r.plan.attached == []
              else r.plan.inlined == [] && r.plan.attached == [cur.value]
    // tagged parts, everything attached
    ensures r.BodiesSent? && cur.None? && r.plan.modes.mimeFwdAll ==>
              r.plan.inlined == [] && r.plan.attached == Positions(idx, AllTagged, 0)
    // tagged parts, decodable ones inline, the rest attached only if allowed
    ensures r.BodiesSent? && cur.None? && !r.plan.modes.mimeFwdAll ==>
              && r.plan.inlined == Positions(idx, DecodableTagged, 0)
              && r.plan.attached == (if r.plan.modes.mimeFwdAny then Positions(idx, ProblematicTagged(false), 0) else [])
    // the draft is abandoned exactly when a part it attaches fails to copy
    ensures r.BodiesCopyFailed? <==>
              var m := ForwardModes(idx, cur, nattach, askAll, askRest);
              && m.Some?
              && if cur.Some?
                 then (m.value.mimeFwdAll || !idx[cur.value].decodable) && copyFails(cur.value)
                 else m.value.mimeFwdAny
                      && exists j :: 0 <= j < |idx| && Keeps(ProblematicTagged(m.value.mimeFwdAll), idx[j]) && copyFails(j)
  {
    var parent := FindParent(idx, cur, nattach);
    var bodyPrefix := if forwQuote then Some(BodyPrefix(textFlowed, templated, StringSize)) else None;
    var headerPrefix := HeaderPrefix(forwQuote, bodyPrefix, textFlowed, templated);
    HeaderPrefixOfBodyPrefix(textFlowed, templated, StringSize);
    match ForwardModes(idx, cur, nattach, askAll, askRest)
    case None => BodiesAborted
    case Some(modes) =>
      match cur
      case Some(c) =>
        if !modes.mimeFwdAll && idx[c].decodable then
          BodiesSent(BodiesPlan(parent, modes, bodyPrefix, headerPrefix, [c], []))
        else if copyFails(c) then BodiesCopyFailed
        else BodiesSent(BodiesPlan(parent, modes, bodyPrefix, headerPrefix, [], [c]))
      case None =>
        var inlined := if !modes.mimeFwdAll then Positions(idx, DecodableTagged, 0) else [];
        if !modes.mimeFwdAny then
          BodiesSent(BodiesPlan(parent, modes, bodyPrefix, headerPrefix, inlined, []))
        else
          match CopyProblematicAttachments(idx, modes.mimeFwdAll, copyFails)
          case CopyFailed(_, _) => BodiesCopyFailed
          case Copied(parts) =>
            ForcedCopyTakesAllTagged(idx, copyFails);
            BodiesSent(BodiesPlan(parent, modes, bodyPrefix, headerPrefix, inlined, parts))
  }

  /** Where `mutt_attach_forward` sends the command: the message-forward path
      when the selection is entirely embedded messages, else the body path with
      the menu-wide tagged count. */
  datatype ForwardRoute = ViaMessages | ViaBodies(outcome: BodiesOutcome)

  function AttachForward(idx: Index, cur: Option<nat>,
                         forwQuote: bool, textFlowed: bool, templated: string,
                         askAll: Answer, askRest: Answer, copyFails: nat -> bool): (r: ForwardRoute)
    requires ValidFocus(idx, cur)
    ensures r.ViaMessages? <==> forall j :: j in Targets(idx, cur) ==> idx[j].isMessage
    ensures r.ViaBodies? ==>
              r.outcome == ForwardBodies(idx, cur, |TaggedAmong(idx, 0, |idx|)|, forwQuote, textFlowed, templated,
                                         askAll, askRest, copyFails)
  {
    if CheckAllMsg(idx, cur) then ViaMessages
    else ViaBodies(ForwardBodies(idx, cur, CountTagged(idx), forwQuote, textFlowed, templated,
                                 askAll, askRest, copyFails))
  }

  /** With the remainder allowed, forwarding tagged parts drops none of them:
      each tagged part is either rendered inline or attached, never both. */
  lemma ForwardKeepsEveryTaggedPart(idx: Index, nattach: nat, forwQuote: bool, textFlowed: bool, templated: string,
                                    askAll: Answer, askRest: Answer, copyFails: nat -> bool, j: nat)
    requires j < |idx| && idx[j].tagged
    requires var r := ForwardBodies(idx, None, nattach, forwQuote, textFlowed, templated, askAll, askRest, copyFails);
             r.BodiesSent? && r.plan.modes.mimeFwdAny
    ensures var p := ForwardBodies(idx, None, nattach, forwQuote, textFlowed, templated, askAll, askRest, copyFails).plan;
            (j in p.inlined) != (j in p.attached)
  {
    PositionsSpec(idx, AllTagged, 0);
    PositionsSpec(idx, DecodableTagged, 0);
    PositionsSpec(idx, ProblematicTagged(false), 0);
  }

  /** When the user declines to MIME-forward the remainder, exactly the tagged
      undecodable parts are left out of the draft. */
  lemma DeclinedRemainderIsDropped(idx: Index, nattach: nat, forwQuote: bool, textFlowed: bool, templated: string,
                                   askAll: Answer, askRest: Answer, copyFails: nat -> bool, j: nat)
    requires j < |idx| && idx[j].tagged
    requires var r := ForwardBodies(idx, None, nattach, forwQuote, textFlowed, templated, askAll, askRest, copyFails);
             r.BodiesSent? && !r.plan.modes.mimeFwdAny
    ensures var p := ForwardBodies(idx, None, nattach, forwQuote, textFlowed, templated, askAll, askRest, copyFails).plan;
            (j !in p.inlined && j !in p.attached) <==> !idx[j].decodable
  {
    PositionsSpec(idx, DecodableTagged, 0);
  }
}
