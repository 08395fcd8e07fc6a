/** The arithmetic of the multipart scan, apart from the octets: a buffer is reduced to what the
    scanner sees at each position, and a parse is a walk over those events. */
module Segmentation {

  /** What the scanner sees at one position. */
  datatype Event = Nothing | TooShort | Opening | Closing | BadContent

  /** A body part as offsets into the buffer, or the null pointer that ends the parse. */
  datatype Segment = NoSegment | Segment(start: nat, end: nat)

  /** `w` is the width of a delimiter, `skip` the octets of the end of line behind it. Two more
      octets follow every delimiter that opens or closes something. */
  ghost predicate Scannable(e: seq<Event>, w: nat, skip: nat) {
    && w >= 2 && 1 <= skip <= 2
    && forall i :: 0 <= i < |e| && (e[i].Opening? || e[i].Closing?) ==> i + w + 2 <= |e|
  }

  /** The first position at or after `from` where something happens, or where the scan runs out:
      two hyphens never start at the last octet. */
  function NextEvent(e: seq<Event>, from: nat): (i: nat)
    ensures from <= i
    ensures i + 1 < |e| ==> e[i] != Nothing
    ensures i + 1 >= |e| ==> i == from || i + 1 == |e|
    ensures forall j :: from <= j < i && j < |e| ==> e[j] == Nothing
    decreases |e| - from
  {
    if from + 1 >= |e| || e[from] != Nothing then from else NextEvent(e, from + 1)
  }

  lemma NextEventStep(e: seq<Event>, i: nat)
    requires i + 1 < |e|
    ensures NextEvent(e, i) == if e[i] != Nothing then i else NextEvent(e, i + 1)
  {
  }

  function SeenAt(e: seq<Event>, i: nat): Event { if i + 1 < |e| then e[i] else Nothing }

  /** Open a part at the first event, end it at the next event past the octets that are skipped
      after the delimiter; a part that is never closed ends one short of where the scan stopped. */
  function NextSegment(e: seq<Event>, w: nat, skip: nat, from: nat): (r: Segment)
    requires Scannable(e, w, skip)
    ensures r.Segment? ==>
              && from + w <= r.start && r.start + skip <= r.end <= |e|
              && e[r.start - w] == Opening
  {
    var i := NextEvent(e, from);
    if SeenAt(e, i) != Opening then NoSegment
    else
      var start := i + w;
      var j := NextEvent(e, start + skip + 1);
      match SeenAt(e, j)
      case BadContent => NoSegment
      case Nothing => Segment(start, j - 1)
      case _ => Segment(start, j)
  }

  lemma NextSegmentStep(e: seq<Event>, w: nat, skip: nat, from: nat)
    requires Scannable(e, w, skip)
    ensures var i := NextEvent(e, from);
            var j := NextEvent(e, i + w + skip + 1);
            && (SeenAt(e, i) != Opening || SeenAt(e, j) == BadContent ==> NextSegment(e, w, skip, from) == NoSegment)
            && (SeenAt(e, i) == Opening && SeenAt(e, j) != BadContent ==>
                  && j > 0
                  && NextSegment(e, w, skip, from) == Segment(i + w, if SeenAt(e, j) == Nothing then j - 1 else j))
  {
  }

  /** Every part the loop of ParseL hands out, in order. The start position grows by each part's
      length, which leaves it a whole delimiter, or more, short of that part's end. */
  function Segments(e: seq<Event>, w: nat, skip: nat, from: nat): (r: seq<Segment>)
    requires Scannable(e, w, skip)
    decreases |e| - from
  {
    var p := NextSegment(e, w, skip, from);
    if p.NoSegment? then [] else [p] + Segments(e, w, skip, from + (p.end - p.start))
  }

  lemma SegmentsStep(e: seq<Event>, w: nat, skip: nat, from: nat)
    requires Scannable(e, w, skip)
    ensures var p := NextSegment(e, w, skip, from);
            Segments(e, w, skip, from) ==
            if p.NoSegment? then [] else [p] + Segments(e, w, skip, from + (p.end - p.start))
  {
  }

  /** In bounds, non-empty, right after a delimiter that opens a part, and past its first skip + 1
      octets free of events. */
  ghost predicate IsSlice(e: seq<Event>, w: nat, skip: nat, p: Segment) {
    && p.Segment? && w <= p.start < p.end <= |e|
    && e[p.start - w] == Opening
    && forall i :: p.start + skip < i < p.end ==> e[i] == Nothing
  }

  lemma NextIsSlice(e: seq<Event>, w: nat, skip: nat, from: nat)
    requires Scannable(e, w, skip) && NextSegment(e, w, skip, from).Segment?
    ensures IsSlice(e, w, skip, NextSegment(e, w, skip, from))
  {
  }

  /** On any octets at all, every part the loop hands out is such a slice, and the loop stops by
      itself: there is at most one part per octet left in the buffer. */
  lemma {:induction false} SegmentsAreSlices(e: seq<Event>, w: nat, skip: nat, from: nat)
    requires Scannable(e, w, skip)
    ensures forall p :: p in Segments(e, w, skip, from) ==> IsSlice(e, w, skip, p)
    ensures from <= |e| ==> |Segments(e, w, skip, from)| <= |e| - from
    decreases |e| - from
  {
    hide NextSegment, NextEvent, IsSlice;
    var p := NextSegment(e, w, skip, from);
    if p.Segment? {
      NextIsSlice(e, w, skip, from);
      SegmentsAreSlices(e, w, skip, from + (p.end - p.start));
    }
  }

  /** The scanner opens a part at `d` and meets nothing more up to the end of the buffer. */
  ghost predicate Unclosed(e: seq<Event>, w: nat, skip: nat, from: nat, d: nat) {
    && from <= d && d + 1 < |e| && e[d] == Opening
    && (forall i :: from <= i < d ==> e[i] == Nothing)
    && (forall i :: d + w + skip < i < |e| - 1 ==> e[i] == Nothing)
  }

  lemma {:induction false} QuietUntil(e: seq<Event>, from: nat, d: nat)
    requires from <= d < |e| && forall i :: from <= i < d ==> e[i] == Nothing
    ensures NextEvent(e, from) == NextEvent(e, d)
    decreases d - from
  {
    if from < d {
      QuietUntil(e, from + 1, d);
    }
  }

  /** A missing close delimiter: the part ends two octets short of the buffer, unless less than an
      octet stands behind what is skipped after its delimiter. It reaches the end of the buffer only
      when the skipped octets do. */
  lemma MissingClose(e: seq<Event>, w: nat, skip: nat, from: nat, d: nat)
    requires Scannable(e, w, skip) && Unclosed(e, w, skip, from, d)
    ensures var r := NextSegment(e, w, skip, from);
            && r == Segment(d + w, if d + w + skip + 1 < |e| then |e| - 2 else d + w + skip)
            && (r.end == |e| <==> d + w + skip == |e|)
  {
    hide NextEvent;
    QuietUntil(e, from, d);
    NextEventStep(e, d);
    var resume := d + w + skip + 1;
    if resume < |e| {
      QuietUntil(e, resume, |e| - 1);
    }
    ScanEnds(e, if resume < |e| then |e| - 1 else resume);
  }

  lemma ScanEnds(e: seq<Event>, i: nat)
    requires i + 1 >= |e|
    ensures NextEvent(e, i) == i
  {
  }

  // ----- documents whose delimiters are known

  /** `d` lists every delimiter up to the closing one: all but the last open a part. */
  ghost predicate Delimited(e: seq<Event>, d: seq<nat>) {
    && |d| > 0
    && (forall k, m :: 0 <= k < m < |d| ==> d[k] < d[m])
    && d[|d| - 1] + 1 < |e|
    && (forall i :: 0 <= i <= d[|d| - 1] ==> (e[i] != Nothing <==> i in d))
    && (forall k :: 0 <= k < |d| - 1 ==> e[d[k]] == Opening)
    && e[d[|d| - 1]] == Closing
  }

  /** The k-th part of the grammar: from just after delimiter k up to delimiter k + 1. */
  function PartAt(d: seq<nat>, w: nat, k: nat): Segment
    requires k + 1 < |d|
  {
    Segment(d[k] + w, d[k + 1])
  }

  function PartsFrom(d: seq<nat>, w: nat, k: nat): (r: seq<Segment>)
    requires k < |d|
    ensures |r| == |d| - 1 - k
    ensures forall m :: 0 <= m < |r| ==> r[m] == PartAt(d, w, k + m)
    decreases |d| - k
  {
    if k + 1 == |d| then [] else [PartAt(d, w, k)] + PartsFrom(d, w, k + 1)
  }

  function Length(d: seq<nat>, w: nat, k: nat): int
    requires k + 1 < |d|
  {
    d[k + 1] - d[k] - w
  }

  /** How far the start position has fallen behind delimiter k: the preamble and k delimiters. */
  function Behind(preamble: nat, w: nat, k: nat): nat {
    if k == 0 then preamble else Behind(preamble, w, k - 1) + w
  }

  lemma {:induction false} BehindIs(preamble: nat, w: nat, k: nat)
    ensures Behind(preamble, w, k) == preamble + k * w
  {
    if k > 0 {
      BehindIs(preamble, w, k - 1);
    }
  }

  /** The scan from `from` finds delimiter k when `from` lies between delimiters k - 1 and k. */
  lemma NextEventIs(e: seq<Event>, d: seq<nat>, from: nat, k: nat)
    requires Delimited(e, d) && k < |d| && from <= d[k]
    requires k == 0 || d[k - 1] < from
    ensures NextEvent(e, from) == d[k] && d[k] + 1 < |e|
  {
    var i := NextEvent(e, from);
    assert k + 1 < |d| ==> d[k] < d[|d| - 1];
    assert d[k] in d && e[d[k]] != Nothing;
    forall m | 0 <= m < k ensures d[m] < from {
      if m < k - 1 { assert d[m] < d[k - 1]; }
    }
    assert i <= d[k] && i in d;
  }

  /** From between delimiters k - 1 and k the scanner returns part k exactly when part k is longer
      than what is skipped after its delimiter. */
  lemma NextSegmentIs(e: seq<Event>, w: nat, skip: nat, d: seq<nat>, from: nat, k: nat)
    requires Scannable(e, w, skip) && Delimited(e, d) && k + 1 < |d| && from <= d[k]
    requires k == 0 || d[k - 1] < from
    ensures NextSegment(e, w, skip, from) == PartAt(d, w, k) <==> Length(d, w, k) > skip
  {
    NextEventIs(e, d, from, k);
    var resume := d[k] + w + skip + 1;
    assert k + 1 < |d| - 1 ==> d[k + 1] < d[|d| - 1];
    if resume <= d[k + 1] {
      NextEventIs(e, d, resume, k + 1);
      assert d[k + 1] in d;
    } else if k + 1 < |d| - 1 {
      assert d[k + 1] + w + 2 <= |e|;
    }
  }

  /** A start position that has fallen back to delimiter k or before makes the scanner return an
      earlier part again. */
  lemma {:induction false} EarlierPartAgain(e: seq<Event>, w: nat, skip: nat, d: seq<nat>, from: nat, k: nat)
    returns (m: nat)
    requires Scannable(e, w, skip) && Delimited(e, d) && k + 1 < |d| && from <= d[k]
    requires forall m :: 0 <= m <= k ==> Length(d, w, m) > skip
    ensures m <= k && NextSegment(e, w, skip, from) == PartAt(d, w, m)
  {
    if k > 0 && from <= d[k - 1] {
      m := EarlierPartAgain(e, w, skip, d, from, k - 1);
    } else {
      m := k;
      NextSegmentIs(e, w, skip, d, from, k);
    }
  }

  lemma SameHead(p: Segment, a: seq<Segment>, b: seq<Segment>)
    ensures [p] + a == [p] + b <==> a == b
  {
    assert ([p] + a)[1..] == a && ([p] + b)[1..] == b;
  }

  /** From between the last two delimiters the scanner sees the closing one first and stops; the
      epilogue is never looked at. */
  lemma NothingAfterClosing(e: seq<Event>, w: nat, skip: nat, d: seq<nat>, from: nat)
    requires Scannable(e, w, skip) && Delimited(e, d) && from <= d[|d| - 1]
    requires |d| == 1 || d[|d| - 2] < from
    ensures Segments(e, w, skip, from) == []
  {
    NextEventIs(e, d, from, |d| - 1);
  }

  lemma PartsStep(d: seq<nat>, w: nat, k: nat)
    requires k + 1 < |d|
    ensures PartsFrom(d, w, k) == [PartAt(d, w, k)] + PartsFrom(d, w, k + 1)
  {
  }

  /** The first m of the segments, or all of them if there are fewer. */
  function Take(segments: seq<Segment>, m: nat): seq<Segment> {
    if |segments| <= m then segments else segments[..m]
  }

  lemma TakeStep(p: Segment, rest: seq<Segment>, m: nat)
    requires m > 0
    ensures Take([p] + rest, m) == [p] + Take(rest, m - 1)
  {
  }

  lemma TakeNone(segments: seq<Segment>)
    ensures Take(segments, 0) == []
  {
  }

  /** What the first m parts from part k on need: each more octets than are skipped after a
      delimiter, and each but the m-th more than the start position has fallen behind. */
  ghost predicate EnoughFor(d: seq<nat>, w: nat, skip: nat, k: nat, m: nat)
    requires k < |d|
    decreases |d| - k
  {
    || m == 0 || k + 1 == |d|
    || (&& Length(d, w, k) > skip && (m > 1 ==> Length(d, w, k) > Behind(d[0], w, k))
        && EnoughFor(d, w, skip, k + 1, m - 1))
  }

  /** One part taken off both sides. */
  lemma TakeOverPart(e: seq<Event>, w: nat, skip: nat, d: seq<nat>, k: nat, from: nat, m: nat)
    requires Scannable(e, w, skip) && Delimited(e, d) && k + 1 < |d| && m > 0
    requires NextSegment(e, w, skip, from) == PartAt(d, w, k) && Length(d, w, k) > 0
    ensures Take(Segments(e, w, skip, from), m) == Take(PartsFrom(d, w, k), m)
            <==> Take(Segments(e, w, skip, from + Length(d, w, k)), m - 1) == Take(PartsFrom(d, w, k + 1), m - 1)
  {
    hide NextSegment, NextEvent, Delimited, Segments, PartsFrom, Take;
    var head, tail := PartAt(d, w, k), Segments(e, w, skip, from + Length(d, w, k));
    SegmentsStep(e, w, skip, from);
    PartsStep(d, w, k);
    TakeStep(head, tail, m);
    TakeStep(head, PartsFrom(d, w, k + 1), m);
    SameHead(head, Take(tail, m - 1), Take(PartsFrom(d, w, k + 1), m - 1));
  }

  lemma FirstDecides(a: seq<Segment>, b: seq<Segment>, m: nat)
    requires m > 0 && ((a == [] <==> b != []) || (a != [] && b != [] && a[0] != b[0]))
    ensures Take(a, m) != Take(b, m)
  {
    if a != [] && b != [] {
      assert Take(a, m)[0] == a[0] && Take(b, m)[0] == b[0];
    }
  }

  lemma WrongFirst(e: seq<Event>, w: nat, skip: nat, d: seq<nat>, k: nat, from: nat, m: nat)
    requires Scannable(e, w, skip) && Delimited(e, d) && k < |d| && m > 0
    requires NextSegment(e, w, skip, from) != if k + 1 < |d| then PartAt(d, w, k) else NoSegment
    ensures Take(Segments(e, w, skip, from), m) != Take(PartsFrom(d, w, k), m)
  {
    hide NextSegment, Delimited, Scannable, PartsFrom, Segments, Take;
    SegmentsStep(e, w, skip, from);
    if k + 1 < |d| {
      PartsStep(d, w, k);
    } else {
      NoMoreParts(d, w, k);
    }
    FirstDecides(Segments(e, w, skip, from), PartsFrom(d, w, k), m);
  }

  /** A start position that has fallen back to delimiter k does not see part k + 1 next. */
  lemma NotTheNextPart(e: seq<Event>, w: nat, skip: nat, d: seq<nat>, k: nat, next: nat)
    requires Scannable(e, w, skip) && Delimited(e, d) && k + 1 < |d| && next <= d[k]
    requires forall m :: 0 <= m <= k ==> Length(d, w, m) > skip
    ensures NextSegment(e, w, skip, next) != if k + 2 < |d| then PartAt(d, w, k + 1) else NoSegment
  {
    hide NextSegment;
    var m := EarlierPartAgain(e, w, skip, d, next, k);
    assert d[m] < d[k + 1];
  }

  /** While every earlier part was long enough, the first m segments from here on are the first m
      parts exactly when these have what they need. */
  lemma {:induction false} FirstSegmentsFrom(e: seq<Event>, w: nat, skip: nat, d: seq<nat>, k: nat, from: nat, m: nat)
    requires Scannable(e, w, skip) && Delimited(e, d) && k < |d|
    requires from == d[k] - Behind(d[0], w, k)
    requires k == 0 || d[k - 1] < from
    requires forall j :: 0 <= j < k ==> Length(d, w, j) > skip
    ensures Take(Segments(e, w, skip, from), m) == Take(PartsFrom(d, w, k), m) <==> EnoughFor(d, w, skip, k, m)
    decreases m
  {
    hide Segments, PartsFrom, Delimited, Scannable, Take, NextSegment;
    if m == 0 {
      TakeNone(Segments(e, w, skip, from));
      TakeNone(PartsFrom(d, w, k));
    } else if k + 1 == |d| {
      NothingAfterClosing(e, w, skip, d, from);
      assert PartsFrom(d, w, k) == [] by { NoMoreParts(d, w, k); }
    } else {
      NextSegmentIs(e, w, skip, d, from, k);
      var next := from + Length(d, w, k);
      if Length(d, w, k) <= skip {
        WrongFirst(e, w, skip, d, k, from, m);
      } else {
        TakeOverPart(e, w, skip, d, k, from, m);
        if next > d[k] {
          FirstSegmentsFrom(e, w, skip, d, k + 1, next, m - 1);
        } else if m > 1 {
          NotTheNextPart(e, w, skip, d, k, next);
          WrongFirst(e, w, skip, d, k + 1, next, m - 1);
        } else {
          TakeNone(Segments(e, w, skip, next));
          TakeNone(PartsFrom(d, w, k + 1));
        }
      }
    }
  }

  lemma NoMoreParts(d: seq<nat>, w: nat, k: nat)
    requires k + 1 == |d|
    ensures PartsFrom(d, w, k) == []
  {
  }

  lemma {:induction false} EnoughForMeans(d: seq<nat>, w: nat, skip: nat, k: nat, m: nat)
    requires k < |d|
    ensures EnoughFor(d, w, skip, k, m)
            <==> forall j :: k <= j < |d| - 1 && j < k + m ==>
                   Length(d, w, j) > skip && (j < k + m - 1 ==> Length(d, w, j) > Behind(d[0], w, j))
    decreases |d| - k
  {
    hide Length, Behind;
    if m > 0 && k + 1 < |d| {
      EnoughForMeans(d, w, skip, k + 1, m - 1);
    }
  }

  /** The first m segments are the first m parts, or all parts if there are fewer, if and only if each
      of them is longer than its end of line and each but the m-th is longer than the preamble plus
      one delimiter for each part before it: the length of the m-th only moves the start of a scan
      that is never made. */
  lemma FirstSegments(e: seq<Event>, w: nat, skip: nat, d: seq<nat>, m: nat)
    requires Scannable(e, w, skip) && Delimited(e, d)
    ensures Take(Segments(e, w, skip, 0), m) == Take(PartsFrom(d, w, 0), m)
            <==> forall k :: 0 <= k < |d| - 1 && k < m ==>
                   Length(d, w, k) > skip && (k < m - 1 ==> Length(d, w, k) > d[0] + k * w)
  {
    hide Segments, PartsFrom, Scannable, Length, Take;
    FirstSegmentsFrom(e, w, skip, d, 0, 0, m);
    EnoughForMeans(d, w, skip, 0, m);
    forall k | 0 <= k < |d| - 1 ensures Behind(d[0], w, k) == d[0] + k * w {
      BehindIs(d[0], w, k);
    }
  }

  /** Exact segmentation: the relative advance of the start position loses, repeats or damages no
      part if and only if every part is longer than its end of line and longer than the preamble
      plus one delimiter for each part before it. */
  lemma ExactSegmentation(e: seq<Event>, w: nat, skip: nat, d: seq<nat>)
    requires Scannable(e, w, skip) && Delimited(e, d)
    ensures Segments(e, w, skip, 0) == PartsFrom(d, w, 0)
            <==> forall k :: 0 <= k < |d| - 1 ==>
                   Length(d, w, k) > skip && Length(d, w, k) > d[0] + k * w
  {
    hide Segments, Scannable, Length;
    FirstSegments(e, w, skip, d, |Segments(e, w, skip, 0)| + |d|);
  }
}
