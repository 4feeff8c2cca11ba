/** The content-assembly helpers shared by forwarding and replying: the choice
    of quoting prefix, and the collection of tagged parts that are attached as
    literal MIME parts instead of being rendered inline. */
module Assembly {
  import opened Nullable
  import opened AttachIndex

  /** mutt's fixed buffer sizes: `SHORT_STRING` and `STRING`. */
  const ShortStringSize: nat := 128
  const StringSize: nat := 256

  /** What fits into a `char buf[size]`: `strfcpy` and the format expander
      keep at most `size - 1` characters before the terminating NUL. */
  function Fit(s: string, size: nat): (t: string)
    requires size > 0
    ensures |t| <= size - 1
    ensures t <= s
    ensures |s| < size ==> t == s
    ensures |s| >= size ==> |t| == size - 1
  {
    if |s| < size then s else s[..size - 1]
  }

  /** Fitting into a buffer and then into a smaller one is fitting into the
      smaller one directly. */
  lemma FitTwice(s: string, big: nat, small: nat)
    requires 0 < small <= big
    ensures Fit(Fit(s, big), small) == Fit(s, small)
  {
  }

  /** The prefix the forward-bodies and reply paths compute for quoting into
      a `char prefix[size]`: a plain ">" in text-flowed mode, else the
      expansion of the indent-string template for the parent header
      (`templated`, produced outside this model), cut to the buffer. */
  function BodyPrefix(textFlowed: bool, templated: string, size: nat): (p: string)
    requires size > 1
    ensures textFlowed ==> p == ">"
    ensures !textFlowed ==> p == Fit(templated, size)
  {
    if textFlowed then ">" else Fit(templated, size)
  }

  /** The prefix `include_header` hands to the header copier from its own
      `char prefix[SHORT_STRING]`: none when not quoting; when quoting, the
      caller's prefix if it passed one, else the indent-string expansion
      unless text-flowed is on, else ">", each cut to the buffer. */
  function HeaderPrefix(quote: bool, explicit: Option<string>, textFlowed: bool, templated: string): (p: Option<string>)
    ensures p.None? <==> !quote
    ensures quote && explicit.Some? ==> p == Some(Fit(explicit.value, ShortStringSize))
    ensures quote && explicit.None? && !textFlowed ==> p == Some(Fit(templated, ShortStringSize))
    ensures quote && explicit.None? && textFlowed ==> p == Some(">")
  {
    if !quote then None
    else if explicit.Some? then Some(Fit(explicit.value, ShortStringSize))
    else if !textFlowed then Some(Fit(templated, ShortStringSize))
    else Some(">")
  }

  /** Left to itself, `include_header` picks the prefix a `SHORT_STRING`
      body-prefix buffer (the reply path's) holds. Both callers in
      `recvcmd.c` pass their own prefix array, never NULL, so neither path
      takes this default branch. */
  lemma HeaderDefaultMatchesBodyPrefix(textFlowed: bool, templated: string)
    ensures HeaderPrefix(true, None, textFlowed, templated) == Some(BodyPrefix(textFlowed, templated, ShortStringSize))
  {
  }

  /** A body prefix handed to `include_header` comes out as the prefix a
      `SHORT_STRING` buffer holds: unchanged for the reply path, whose buffer
      has that size, and cut down for the forward path, whose `STRING`
      buffer is larger. */
  lemma HeaderPrefixOfBodyPrefix(textFlowed: bool, templated: string, size: nat)
    requires size >= ShortStringSize
    ensures HeaderPrefix(true, Some(BodyPrefix(textFlowed, templated, size)), textFlowed, templated)
            == Some(BodyPrefix(textFlowed, templated, ShortStringSize))
  {
    if !textFlowed {
      FitTwice(templated, size, ShortStringSize);
    }
  }

  /** On the forward path the quoted header's prefix differs from the body
      prefix exactly when the expansion does not fit into `SHORT_STRING`. */
  lemma ForwardHeaderPrefixIsCut(textFlowed: bool, templated: string)
    ensures var body := BodyPrefix(textFlowed, templated, StringSize);
            HeaderPrefix(true, Some(body), textFlowed, templated) != Some(body)
            <==> !textFlowed && |templated| >= ShortStringSize
  {
  }

  /** What `copy_problematic_attachments` leaves behind: every selected part was
      appended, or the copy of part `at` failed after `appended` were appended. */
  datatype CopyOutcome = Copied(parts: seq<nat>) | CopyFailed(at: nat, appended: seq<nat>)

  /** The loop of `copy_problematic_attachments` from position `i` on;
      `copyFails(j)` is whether copying part `j` into the draft fails. What it
      leaves behind on a failure is stated by `CopyFromFailure`. */
  function CopyFrom(idx: Index, force: bool, copyFails: nat -> bool, i: nat): (r: CopyOutcome)
    requires i <= |idx|
    ensures r.Copied? <==> forall j :: i <= j < |idx| && Keeps(ProblematicTagged(force), idx[j]) ==> !copyFails(j)
    ensures r.Copied? ==> r.parts == Positions(idx, ProblematicTagged(force), i)
    decreases |idx| - i
  {
    if i == |idx| then Copied([])
    else if !Keeps(ProblematicTagged(force), idx[i]) then CopyFrom(idx, force, copyFails, i + 1)
    else if copyFails(i) then CopyFailed(i, [])
    else
      match CopyFrom(idx, force, copyFails, i + 1)
      case Copied(parts) => Copied([i] + parts)
      case CopyFailed(at, appended) => CopyFailed(at, [i] + appended)
  }

  /** A failed copy stops at a selected part whose copy failed, and each part
      appended before it was copied. */
  lemma {:induction false} CopyFromFailure(idx: Index, force: bool, copyFails: nat -> bool, i: nat)
    requires i <= |idx|
    ensures var r := CopyFrom(idx, force, copyFails, i);
            r.CopyFailed? ==>
              && i <= r.at < |idx| && Keeps(ProblematicTagged(force), idx[r.at]) && copyFails(r.at)
              && forall m :: 0 <= m < |r.appended| ==> !copyFails(r.appended[m])
    decreases |idx| - i
  {
    if i < |idx| && !(Keeps(ProblematicTagged(force), idx[i]) && copyFails(i)) {
      CopyFromFailure(idx, force, copyFails, i + 1);
      var rest := CopyFrom(idx, force, copyFails, i + 1);
      if Keeps(ProblematicTagged(force), idx[i]) && rest.CopyFailed? {
        assert CopyFrom(idx, force, copyFails, i).appended == [i] + rest.appended;
      }
    }
  }

  /** The parts appended before a failed copy are exactly the selected parts
      ahead of the failing one. */
  lemma {:induction false} CopyFromFailurePrefix(idx: Index, force: bool, copyFails: nat -> bool, i: nat)
    requires i <= |idx|
    ensures var r := CopyFrom(idx, force, copyFails, i);
            r.CopyFailed? ==>
              && r.at < |idx|
              && Positions(idx, ProblematicTagged(force), i)
                 == r.appended + [r.at] + Positions(idx, ProblematicTagged(force), r.at + 1)
    decreases |idx| - i
  {
    if i < |idx| {
      var f := ProblematicTagged(force);
      var tail := Positions(idx, f, i + 1);
      if !Keeps(f, idx[i]) {
        CopyFromFailurePrefix(idx, force, copyFails, i + 1);
      } else if copyFails(i) {
        assert Positions(idx, f, i) == [] + [i] + tail;
      } else {
        CopyFromFailurePrefix(idx, force, copyFails, i + 1);
        var rest := CopyFrom(idx, force, copyFails, i + 1);
        if rest.CopyFailed? {
          var after := Positions(idx, f, rest.at + 1);
          assert CopyFrom(idx, force, copyFails, i) == CopyFailed(rest.at, [i] + rest.appended);
          assert [i] + (rest.appended + [rest.at] + after) == ([i] + rest.appended) + [rest.at] + after;
        }
      }
    }
  }

  /** `copy_problematic_attachments`: appends, in index order, exactly the
      tagged parts with `force || !decodable`, and gives up (NULL) at the first
      copy that fails, having appended just the selected parts before it. */
  function CopyProblematicAttachments(idx: Index, force: bool, copyFails: nat -> bool): (r: CopyOutcome)
    ensures r.Copied? <==> forall j :: 0 <= j < |idx| && idx[j].tagged && (force || !idx[j].decodable) ==> !copyFails(j)
    ensures r.Copied? ==> r.parts == Positions(idx, ProblematicTagged(force), 0)
    ensures r.CopyFailed? ==> r.at < |idx| && idx[r.at].tagged && (force || !idx[r.at].decodable) && copyFails(r.at)
    ensures r.CopyFailed? ==> Positions(idx, ProblematicTagged(force), 0)
                              == r.appended + [r.at] + Positions(idx, ProblematicTagged(force), r.at + 1)
    ensures r.CopyFailed? ==> forall m :: 0 <= m < |r.appended| ==> !copyFails(r.appended[m])
  {
    CopyFromFailure(idx, force, copyFails, 0);
    CopyFromFailurePrefix(idx, force, copyFails, 0);
    CopyFrom(idx, force, copyFails, 0)
  }

  /** With `force` set, the parts copied are exactly all the tagged parts. */
  lemma ForcedCopyTakesAllTagged(idx: Index, copyFails: nat -> bool)
    ensures var r := CopyProblematicAttachments(idx, true, copyFails);
            r.Copied? ==> r.parts == Positions(idx, AllTagged, 0)
  {
    PositionsAgree(idx, ProblematicTagged(true), AllTagged, 0);
  }

  /** Without `force`, a part is copied exactly when it is tagged and undecodable. */
  lemma UnforcedCopyTakesUndecodable(idx: Index, copyFails: nat -> bool, j: nat)
    requires CopyProblematicAttachments(idx, false, copyFails).Copied?
    ensures j in CopyProblematicAttachments(idx, false, copyFails).parts
            <==> j < |idx| && idx[j].tagged && !idx[j].decodable
  {
    PositionsSpec(idx, ProblematicTagged(false), 0);
  }
}
