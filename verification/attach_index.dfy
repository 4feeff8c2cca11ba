/** The attachment menu's flattened MIME tree and the declarative vocabulary
    the scans of the receive-side commands are proved against. */
module AttachIndex {
  import opened Nullable

  /** One line of the attachment menu, reduced to what the commands consult:
      its depth in the MIME tree, whether its part is an embedded message
      (message/rfc822), the user's tag, whether the part can be rendered as
      text, and, for embedded messages, whether the envelope has a From:. */
  datatype Entry = Entry(
    level: int,
    isMessage: bool,
    tagged: bool,
    decodable: bool,
    hasFrom: bool)

  type Index = seq<Entry>

  /** The focused part, when there is one, is one of the menu's own lines. */
  predicate ValidFocus(idx: Index, cur: Option<nat>) {
    cur.None? || cur.value < |idx|
  }

  /** Entry `j` lies in the strict descendant run of entry `i`: it comes after
      `i`, and every entry from just after `i` up to `j` is deeper than `i`. */
  ghost predicate InRun(idx: Index, i: nat, j: nat) {
    i < j < |idx| && forall k :: i < k <= j ==> idx[k].level > idx[i].level
  }

  /** The tagged positions in `[lo, hi)`. */
  ghost function TaggedAmong(idx: Index, lo: nat, hi: nat): set<nat>
    requires hi <= |idx|
  {
    set j: nat | lo <= j < hi && idx[j].tagged
  }

  /** The tagged entries of `i`'s descendant run. */
  ghost function TaggedDescendants(idx: Index, i: nat): set<nat>
    requires i < |idx|
  {
    set j: nat | i < j < |idx| && InRun(idx, i, j) && idx[j].tagged
  }

  /** The effective target set: the focused part, or else every tagged part. */
  ghost function Targets(idx: Index, cur: Option<nat>): (t: set<nat>)
    requires ValidFocus(idx, cur)
    ensures forall j :: j in t ==> j < |idx|
  {
    match cur
    case Some(c) => {c}
    case None => TaggedAmong(idx, 0, |idx|)
  }

  /** The end of the maximal run of entries deeper than `level` that starts at `k`. */
  ghost function RunEnd(idx: Index, level: int, k: nat): (e: nat)
    requires k <= |idx|
    ensures k <= e <= |idx|
    ensures forall m :: k <= m < e ==> idx[m].level > level
    ensures e < |idx| ==> idx[e].level <= level
    decreases |idx| - k
  {
    if k < |idx| && level < idx[k].level then RunEnd(idx, level, k + 1) else k
  }

  /** The descendant run of `i` is exactly the range that `RunEnd` delimits. */
  lemma RunIsRange(idx: Index, i: nat)
    requires i < |idx|
    ensures forall j: nat :: InRun(idx, i, j) <==> i < j < RunEnd(idx, idx[i].level, i + 1)
  {
  }

  lemma TaggedDescendantsAsRange(idx: Index, i: nat)
    requires i < |idx|
    ensures TaggedDescendants(idx, i) == TaggedAmong(idx, i + 1, RunEnd(idx, idx[i].level, i + 1))
  {
    RunIsRange(idx, i);
  }

  /** Peeling the first position off a range of tagged positions. */
  lemma TaggedAmongSplit(idx: Index, lo: nat, hi: nat)
    requires lo < hi <= |idx|
    ensures |TaggedAmong(idx, lo, hi)| == (if idx[lo].tagged then 1 else 0) + |TaggedAmong(idx, lo + 1, hi)|
  {
    var rest := TaggedAmong(idx, lo + 1, hi);
    if idx[lo].tagged {
      assert TaggedAmong(idx, lo, hi) == {lo} + rest;
    } else {
      assert TaggedAmong(idx, lo, hi) == rest;
    }
  }

  lemma TaggedAmongEmpty(idx: Index, lo: nat, hi: nat)
    requires hi <= lo && hi <= |idx|
    ensures TaggedAmong(idx, lo, hi) == {}
  {
  }

  /** A subset with as many elements as its superset is the whole superset. */
  lemma SubsetSameSize<T>(a: set<T>, b: set<T>)
    requires a <= b && |a| == |b|
    ensures a == b
  {
    assert b == a + (b - a);
    assert |b - a| == 0;
  }

  /** Which tagged entries a loop over the menu acts on. */
  datatype Filter = AllTagged | DecodableTagged | ProblematicTagged(force: bool)

  predicate Keeps(f: Filter, e: Entry) {
    match f
    case AllTagged => e.tagged
    case DecodableTagged => e.tagged && e.decodable
    case ProblematicTagged(force) => e.tagged && (force || !e.decodable)
  }

  /** The positions from `k` on that a filter keeps, in index order: the order in
      which the commands' `for (i = 0; i < idxlen; i++)` loops visit them.
      `PositionsSpec` states what it holds. */
  function Positions(idx: Index, f: Filter, k: nat): seq<nat>
    requires k <= |idx|
    decreases |idx| - k
  {
    if k == |idx| then []
    else if Keeps(f, idx[k]) then [k] + Positions(idx, f, k + 1)
    else Positions(idx, f, k + 1)
  }

  /** `Positions` holds exactly the kept positions from `k` on, strictly increasing. */
  lemma {:induction false} PositionsSpec(idx: Index, f: Filter, k: nat)
    requires k <= |idx|
    ensures forall m :: 0 <= m < |Positions(idx, f, k)| ==>
              k <= Positions(idx, f, k)[m] < |idx| && Keeps(f, idx[Positions(idx, f, k)[m]])
    ensures forall j :: k <= j < |idx| && Keeps(f, idx[j]) ==> j in Positions(idx, f, k)
    ensures forall m, n :: 0 <= m < n < |Positions(idx, f, k)| ==> Positions(idx, f, k)[m] < Positions(idx, f, k)[n]
    decreases |idx| - k
  {
    if k < |idx| {
      PositionsSpec(idx, f, k + 1);
    }
  }

  /** Two filters that agree on every entry from `k` on pick the same positions. */
  lemma {:induction false} PositionsAgree(idx: Index, f: Filter, g: Filter, k: nat)
    requires k <= |idx|
    requires forall j :: k <= j < |idx| ==> Keeps(f, idx[j]) == Keeps(g, idx[j])
    ensures Positions(idx, f, k) == Positions(idx, g, k)
    decreases |idx| - k
  {
    if k < |idx| {
      PositionsAgree(idx, f, g, k + 1);
    }
  }
}
