/** The selection predicates of the receive-side commands: is the effective
    target set entirely embedded messages, is it entirely decodable, and how
    many entries are tagged, over the whole menu or inside one descendant run. */
module Queries {
  import opened Nullable
  import opened AttachIndex

  /** The tagged-entry loop of `check_all_msg`, from position `i` on: it gives up
      at the first tagged entry that is not an embedded message. */
  function TaggedAreMessagesFrom(idx: Index, i: nat): (ok: bool)
    requires i <= |idx|
    ensures ok <==> forall j :: i <= j < |idx| && idx[j].tagged ==> idx[j].isMessage
    decreases |idx| - i
  {
    if i == |idx| then true
    else if idx[i].tagged && !idx[i].isMessage then false
    else TaggedAreMessagesFrom(idx, i + 1)
  }

  /** `check_all_msg` returning 0: the focused part, or else every tagged part,
      is an embedded message. With nothing focused and nothing tagged it holds. */
  function CheckAllMsg(idx: Index, cur: Option<nat>): (ok: bool)
    requires ValidFocus(idx, cur)
    ensures ok <==> forall j :: j in Targets(idx, cur) ==> idx[j].isMessage
    ensures cur.Some? ==> (ok <==> idx[cur.value].isMessage)
  {
    match cur
    case Some(c) => idx[c].isMessage
    case None => TaggedAreMessagesFrom(idx, 0)
  }

  /** The tagged-entry loop of `check_can_decode`, from position `i` on. */
  function TaggedAreDecodableFrom(idx: Index, i: nat): (ok: bool)
    requires i <= |idx|
    ensures ok <==> forall j :: i <= j < |idx| && idx[j].tagged ==> idx[j].decodable
    decreases |idx| - i
  {
    if i == |idx| then true
    else if idx[i].tagged && !idx[i].decodable then false
    else TaggedAreDecodableFrom(idx, i + 1)
  }

  /** `check_can_decode`: the focused part's decodability, or else whether every
      tagged part is decodable. With nothing focused and nothing tagged it holds. */
  function CheckCanDecode(idx: Index, cur: Option<nat>): (ok: bool)
    requires ValidFocus(idx, cur)
    ensures ok <==> forall j :: j in Targets(idx, cur) ==> idx[j].decodable
    ensures cur.Some? ==> ok == idx[cur.value].decodable
  {
    match cur
    case Some(c) => idx[c].decodable
    case None => TaggedAreDecodableFrom(idx, 0)
  }

  /** The loop of `count_tagged`, from position `i` on. */
  function CountTaggedFrom(idx: Index, i: nat): (n: nat)
    requires i <= |idx|
    ensures n == |TaggedAmong(idx, i, |idx|)|
    decreases |idx| - i
  {
    if i == |idx| then
      TaggedAmongEmpty(idx, i, |idx|);
      0
    else
      TaggedAmongSplit(idx, i, |idx|);
      (if idx[i].tagged then 1 else 0) + CountTaggedFrom(idx, i + 1)
  }

  /** `count_tagged`: the number of tagged entries in the whole menu. */
  function CountTagged(idx: Index): (n: nat)
    ensures n == |TaggedAmong(idx, 0, |idx|)|
  {
    CountTaggedFrom(idx, 0)
  }

  /** The `while` loop of `count_tagged_children`: walk on from `k` while entries
      are deeper than `level`, counting the tagged ones. */
  function CountRun(idx: Index, level: int, k: nat): (n: nat)
    requires k <= |idx|
    ensures n == |TaggedAmong(idx, k, RunEnd(idx, level, k))|
    decreases |idx| - k
  {
    if k < |idx| && level < idx[k].level then
      TaggedAmongSplit(idx, k, RunEnd(idx, level, k));
      (if idx[k].tagged then 1 else 0) + CountRun(idx, level, k + 1)
    else
      TaggedAmongEmpty(idx, k, RunEnd(idx, level, k));
      0
  }

  /** `count_tagged_children`: the number of tagged entries in `i`'s descendant
      run. Entry `i` itself is never counted, and the count never exceeds the
      menu-wide tagged count. */
  function CountTaggedChildren(idx: Index, i: nat): (n: nat)
    requires i < |idx|
    ensures n == |TaggedDescendants(idx, i)|
    ensures n <= CountTagged(idx)
  {
    TaggedDescendantsAsRange(idx, i);
    TaggedDescendantsBounded(idx, i);
    CountRun(idx, idx[i].level, i + 1)
  }

  lemma TaggedDescendantsBounded(idx: Index, i: nat)
    requires i < |idx|
    ensures TaggedDescendants(idx, i) <= TaggedAmong(idx, 0, |idx|)
    ensures |TaggedDescendants(idx, i)| <= |TaggedAmong(idx, 0, |idx|)|
  {
    var d := TaggedDescendants(idx, i);
    var all := TaggedAmong(idx, 0, |idx|);
    assert d <= all;
    assert all == d + (all - d);
  }
}
