/** Worked examples of the commands on small attachment menus. */
module Scenarios {
  import opened Nullable
  import opened Prompt
  import opened AttachIndex
  import opened ForwardCmd
  import opened ReplyCmd

  function NeverFails(j: nat): bool { false }

  function AlwaysFails(j: nat): bool { true }

  /** A tagged message with three children: forwarding takes the message path. */
  lemma TaggedMessageIsForwardedWhole()
    ensures var idx := [Entry(0, true, true, true, true), Entry(1, false, false, true, false),
                        Entry(1, false, false, true, false), Entry(1, false, false, false, false)];
            AttachForward(idx, None, true, false, "> ", Yes, Yes, NeverFails).ViaMessages?
  {
  }

  /** A text part and a binary part tagged inside one message: the body path
      finds the message as parent, inlines the text and attaches the binary. */
  lemma TaggedPartsAreForwardedUnderTheirMessage()
    ensures var idx := [Entry(0, true, false, true, true), Entry(1, false, true, true, false),
                        Entry(1, false, true, false, false)];
            AttachForward(idx, None, false, false, "> ", No, Yes, NeverFails)
            == ViaBodies(BodiesSent(BodiesPlan(Some(0), FwdModes(false, true), None, None, [1], [2])))
  {
  }

  /** A focused undecodable part whose copy fails: forwarding abandons the
      draft, while replying ignores the failure and sends without the part. */
  lemma FailedCopyOfFocusedPart()
    ensures var idx := [Entry(0, true, false, true, true), Entry(1, false, false, false, false)];
            && AttachForward(idx, Some(1), false, false, "> ", Yes, Yes, AlwaysFails) == ViaBodies(BodiesCopyFailed)
            && AttachReply(idx, Some(1), false, false, "> ", No, true, AlwaysFails, true)
               == ReplySent(ReplyPlan(WithinParent(Some(0)), false, FromHeader(EntryHeader(0)), [],
                                      Some("> "), None, [], [], true))
  {
  }
}
