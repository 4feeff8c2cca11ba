/** Parent resolution: the nearest enclosing embedded message of the target
    set, found with linear scans and level comparisons only. */
module Parent {
  import opened Nullable
  import opened AttachIndex
  import opened Queries

  /** The loop of `is_parent`: walk on from `k` while entries are deeper than
      `level`, looking for position `c`. */
  function ScanRunFor(idx: Index, level: int, k: nat, c: nat): (found: bool)
    requires k <= |idx|
    ensures found <==> k <= c < RunEnd(idx, level, k)
    decreases |idx| - k
  {
    if k < |idx| && idx[k].level > level then k == c || ScanRunFor(idx, level, k + 1, c)
    else false
  }

  /** `is_parent(i, cur)`: the focused position `c` lies in `i`'s descendant run. */
  function IsParent(idx: Index, i: nat, c: nat): (b: bool)
    requires i < |idx|
    ensures b <==> InRun(idx, i, c)
  {
    RunIsRange(idx, i);
    ScanRunFor(idx, idx[i].level, i + 1, c)
  }

  /** `p` is the last embedded message among positions below `lim` whose
      descendant run contains `c`, or `None` when there is no such message. */
  ghost predicate LastMessageAncestor(idx: Index, c: nat, lim: nat, p: Option<nat>)
    requires lim <= |idx|
  {
    match p
    case None =>
      forall j :: 0 <= j < lim && idx[j].isMessage ==> !InRun(idx, j, c)
    case Some(q) =>
      && q < lim && idx[q].isMessage && InRun(idx, q, c)
      && forall j :: q < j < lim && idx[j].isMessage ==> !InRun(idx, j, c)
  }

  /** The focused-mode loop of `find_parent`, from position `i` on, with the
      best ancestor found so far in `parent`; it stops once it reaches `c`. */
  function FindParentScan(idx: Index, c: nat, i: nat, parent: Option<nat>): (r: Option<nat>)
    requires i <= |idx|
    requires LastMessageAncestor(idx, c, i, parent)
    ensures LastMessageAncestor(idx, c, |idx|, r)
    decreases |idx| - i
  {
    if i == |idx| then parent
    else
      var parent' := if idx[i].isMessage && IsParent(idx, i, c) then Some(i) else parent;
      if i == c then parent' else FindParentScan(idx, c, i + 1, parent')
  }

  /** `find_parent` with a focused part: the innermost embedded message that
      strictly encloses `c`. It is never `c` itself, every other enclosing
      message encloses it in turn, and there is none when it is `None`. */
  function FindParentFocused(idx: Index, c: nat): (r: Option<nat>)
    ensures r.Some? ==> InRun(idx, r.value, c) && r.value < c && idx[r.value].isMessage
    ensures r.Some? ==> forall j :: r.value < j < |idx| && idx[j].isMessage ==> !InRun(idx, j, c)
    ensures r.Some? ==> forall j :: 0 <= j < r.value && idx[j].isMessage && InRun(idx, j, c) ==> InRun(idx, j, r.value)
    ensures r.None? ==> forall j :: 0 <= j < |idx| && idx[j].isMessage ==> !InRun(idx, j, c)
  {
    FindParentScan(idx, c, 0, None)
  }

  /** The first tagged position at or after `k`, or `|idx|` when there is none. */
  function FirstTagged(idx: Index, k: nat): (f: nat)
    requires k <= |idx|
    ensures k <= f <= |idx|
    ensures forall j :: k <= j < f ==> !idx[j].tagged
    ensures f < |idx| ==> idx[f].tagged
    decreases |idx| - k
  {
    if k == |idx| || idx[k].tagged then k else FirstTagged(idx, k + 1)
  }

  /** The backward loop of `find_common_parent`, over positions below `i`: the
      highest embedded message there whose tagged-descendant count is `nattach`. */
  function ScanBack(idx: Index, nattach: nat, i: nat): (r: Option<nat>)
    requires i <= |idx|
    ensures r.Some? ==> r.value < i && idx[r.value].isMessage && |TaggedDescendants(idx, r.value)| == nattach
    ensures r.Some? ==> forall j :: r.value < j < i && idx[j].isMessage ==> |TaggedDescendants(idx, j)| != nattach
    ensures r.None? ==> forall j :: 0 <= j < i && idx[j].isMessage ==> |TaggedDescendants(idx, j)| != nattach
    decreases i
  {
    if i == 0 then None
    else if idx[i - 1].isMessage && CountTaggedChildren(idx, i - 1) == nattach then Some(i - 1)
    else ScanBack(idx, nattach, i - 1)
  }

  /** `find_common_parent`: the highest-placed embedded message before the first
      tagged entry whose descendant run holds exactly `nattach` tagged entries. */
  function FindCommonParent(idx: Index, nattach: nat): (r: Option<nat>)
    ensures r.Some? ==> r.value < FirstTagged(idx, 0) && idx[r.value].isMessage
    ensures r.Some? ==> |TaggedDescendants(idx, r.value)| == nattach
    ensures r.Some? ==> forall j :: r.value < j < FirstTagged(idx, 0) && idx[j].isMessage ==> |TaggedDescendants(idx, j)| != nattach
    ensures r.None? ==> forall j :: 0 <= j < FirstTagged(idx, 0) && idx[j].isMessage ==> |TaggedDescendants(idx, j)| != nattach
  {
    ScanBack(idx, nattach, FirstTagged(idx, 0))
  }

  /** `find_parent`: focused mode with a focused part, the common parent of the
      tagged entries otherwise, and no parent at all when `nattach` is zero. */
  function FindParent(idx: Index, cur: Option<nat>, nattach: nat): (r: Option<nat>)
    ensures r.Some? ==> r.value < |idx| && idx[r.value].isMessage
    ensures cur.Some? ==> r == FindParentFocused(idx, cur.value)
    ensures cur.None? && nattach == 0 ==> r.None?
    ensures cur.None? && nattach != 0 ==> r == FindCommonParent(idx, nattach)
  {
    match cur
    case Some(c) => FindParentFocused(idx, c)
    case None => if nattach != 0 then FindCommonParent(idx, nattach) else None
  }

  /** Two embedded messages enclosing the same entry are nested. */
  lemma EnclosingRunsNest(idx: Index, a: nat, b: nat, c: nat)
    requires InRun(idx, a, c) && InRun(idx, b, c) && a < b
    ensures InRun(idx, a, b)
  {
  }

  /** With the real tagged count, the common parent encloses every tagged entry. */
  lemma CommonParentEnclosesAllTagged(idx: Index, p: nat)
    requires FindParent(idx, None, CountTagged(idx)) == Some(p)
    ensures forall t :: 0 <= t < |idx| && idx[t].tagged ==> InRun(idx, p, t)
  {
    var all := TaggedAmong(idx, 0, |idx|);
    TaggedDescendantsBounded(idx, p);
    SubsetSameSize(TaggedDescendants(idx, p), all);
    forall t | 0 <= t < |idx| && idx[t].tagged
      ensures InRun(idx, p, t)
    {
      assert t in all;
    }
  }

  /** Any embedded message that encloses every tagged entry makes the common
      parent exist, and that message encloses the common parent (or is it):
      the common parent is the innermost enclosing message. */
  lemma CommonParentIsInnermost(idx: Index, j: nat)
    requires j < |idx| && idx[j].isMessage
    requires CountTagged(idx) > 0
    requires forall t :: 0 <= t < |idx| && idx[t].tagged ==> InRun(idx, j, t)
    ensures FindParent(idx, None, CountTagged(idx)).Some?
    ensures var p := FindParent(idx, None, CountTagged(idx)).value; p == j || InRun(idx, j, p)
  {
    var n := CountTagged(idx);
    var all := TaggedAmong(idx, 0, |idx|);
    var f := FirstTagged(idx, 0);
    var t :| t in all;
    assert f <= t;
    assert f < |idx| && idx[f].tagged;
    assert InRun(idx, j, f);
    assert TaggedDescendants(idx, j) == all;
    var r := FindCommonParent(idx, n);
    assert r.Some?;
    var p := r.value;
    assert j <= p;
    if j < p {
      CommonParentEnclosesAllTagged(idx, p);
      EnclosingRunsNest(idx, j, p, f);
    }
  }

  /** No common parent means no embedded message encloses every tagged entry. */
  lemma NoCommonParentMeansNoEnclosingMessage(idx: Index)
    requires CountTagged(idx) > 0
    requires FindParent(idx, None, CountTagged(idx)).None?
    ensures forall j :: 0 <= j < |idx| && idx[j].isMessage ==> exists t :: 0 <= t < |idx| && idx[t].tagged && !InRun(idx, j, t)
  {
    forall j | 0 <= j < |idx| && idx[j].isMessage
      ensures exists t :: 0 <= t < |idx| && idx[t].tagged && !InRun(idx, j, t)
    {
      if forall t :: 0 <= t < |idx| && idx[t].tagged ==> InRun(idx, j, t) {
        CommonParentIsInnermost(idx, j);
        assert false;
      }
    }
  }
}
