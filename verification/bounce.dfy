/** The bounce command of the attachment menu (`mutt_attach_bounce`): which
    messages are re-sent, whether the wording is singular or plural, and how
    the per-message results are folded into one report. */
module BounceCmd {
  import opened Nullable
  import opened Prompt
  import opened AttachIndex
  import opened Queries

  /** How the recipient prompt ends: cancelled or left empty, an address line
      that does not parse, one whose domain cannot be encoded (bad IDN), or a
      usable recipient list. Parsing and alias expansion are external. */
  datatype AddressAnswer = NoAddress | Unparsable | BadIdn | Recipients

  datatype BounceStatus =
    | NotAllMessages                              // "You may only bounce message/rfc822 parts."
    | NoRecipient                                 // prompt cancelled or empty: silent return
    | AddressError                                // "Error parsing address!"
    | IdnError                                    // "Bad IDN: ..."
    | NotBounced                                  // confirmation not answered yes
    | Bounced(targets: seq<nat>, anyFailed: bool) // re-sent, in this order

  /** `singular` picks "message" over "messages" in every prompt and report;
      `warnedNoFrom` is the one-off warning about a message without From:. */
  datatype BounceReport = BounceReport(singular: bool, warnedNoFrom: bool, status: BounceStatus)

  /** The warning loop: some tagged message from `i` on lacks a From: (the loop
      breaks after warning once). */
  function TaggedLacksFromFrom(idx: Index, i: nat): (b: bool)
    requires i <= |idx|
    ensures b <==> exists j :: i <= j < |idx| && idx[j].tagged && !idx[j].hasFrom
    decreases |idx| - i
  {
    if i == |idx| then false
    else if idx[i].tagged && !idx[i].hasFrom then true
    else TaggedLacksFromFrom(idx, i + 1)
  }

  /** The bounce loop from `i` on: every tagged message is re-sent, and the
      result is the failure flag `ret`, set when any one of them fails;
      `bounceFails(j)` is whether re-sending message `j` fails. */
  function BounceTaggedFrom(idx: Index, bounceFails: nat -> bool, i: nat): (failed: bool)
    requires i <= |idx|
    ensures failed <==> exists j :: i <= j < |idx| && idx[j].tagged && bounceFails(j)
    decreases |idx| - i
  {
    if i == |idx| then false
    else
      var rest := BounceTaggedFrom(idx, bounceFails, i + 1);
      (idx[i].tagged && bounceFails(i)) || rest
  }

  /** `mutt_attach_bounce`. The selection must be entirely embedded messages.
      The wording is singular exactly when a part is focused or exactly one entry
      is tagged. The messages re-sent are the focused one or every tagged one in
      index order, and failure is reported exactly when one of them failed. */
  function AttachBounce(idx: Index, cur: Option<nat>, address: AddressAnswer, confirm: Answer,
                        bounceFails: nat -> bool): (r: BounceReport)
    requires ValidFocus(idx, cur)
    ensures r.status.NotAllMessages? <==> exists j :: j in Targets(idx, cur) && !idx[j].isMessage
    ensures !r.status.NotAllMessages? ==>
              (r.singular <==> cur.Some? || |TaggedAmong(idx, 0, |idx|)| == 1)
    ensures r.status.NotAllMessages? ==> !r.warnedNoFrom
    ensures !r.status.NotAllMessages? ==>
              (r.warnedNoFrom <==> exists j :: j in Targets(idx, cur) && !idx[j].hasFrom)
    ensures r.status.Bounced? <==>
              (forall j :: j in Targets(idx, cur) ==> idx[j].isMessage) && address.Recipients? && confirm.Yes?
    // each way of not bouncing: silent return, parse error, bad IDN, declined
    ensures !r.status.NotAllMessages? ==>
              && (r.status.NoRecipient? <==> address.NoAddress?)
              && (r.status.AddressError? <==> address.Unparsable?)
              && (r.status.IdnError? <==> address.BadIdn?)
              && (r.status.NotBounced? <==> address.Recipients? && !confirm.Yes?)
    ensures r.status.Bounced? ==>
              r.status.targets == (if cur.Some? then [cur.value] else Positions(idx, AllTagged, 0))
    ensures r.status.Bounced? ==>
              (r.status.anyFailed <==> exists j :: j in Targets(idx, cur) && bounceFails(j))
  {
    if !CheckAllMsg(idx, cur) then BounceReport(false, false, NotAllMessages)
    else
      var singular := cur.Some? || CountTagged(idx) == 1;
      var warned := match cur
        case Some(c) => !idx[c].hasFrom
        case None => TaggedLacksFromFrom(idx, 0);
      var status :=
        if address.NoAddress? then NoRecipient
        else if address.Unparsable? then AddressError
        else if address.BadIdn? then IdnError
        else if !confirm.Yes? then NotBounced
        else match cur
          case Some(c) => Bounced([c], bounceFails(c))
          case None => Bounced(Positions(idx, AllTagged, 0), BounceTaggedFrom(idx, bounceFails, 0));
      BounceReport(singular, warned, status)
  }

  /** Each message in scope is bounced exactly once: the re-sent list has no
      repeats and holds exactly the target set. */
  lemma BouncedTargetsAreTheSelection(idx: Index, cur: Option<nat>, confirm: Answer, bounceFails: nat -> bool)
    requires ValidFocus(idx, cur)
    requires AttachBounce(idx, cur, Recipients, confirm, bounceFails).status.Bounced?
    ensures var t := AttachBounce(idx, cur, Recipients, confirm, bounceFails).status.targets;
            (forall j :: j in t <==> j in Targets(idx, cur))
            && forall m, n :: 0 <= m < n < |t| ==> t[m] != t[n]
  {
    PositionsSpec(idx, AllTagged, 0);
  }
}
