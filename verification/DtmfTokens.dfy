/** The two tokenisers of a DTMF string, one for what is sent and one for what the dialog shows. */
module DtmfTokens {

  predicate IsWait(c: char) { c == '/' || c == 'w' || c == 'p' || c == ',' }

  /** Wait characters that ask the user; a further wait character right behind one replaces it. */
  predicate IsPrompt(c: char) { c == 'w' || c == '/' }

  /** A token: the mark it starts at and the position it was cut at. */
  datatype Span = Span(start: nat, end: nat)

  ghost predicate InRange(s: string, spans: seq<Span>) {
    forall k :: 0 <= k < |spans| ==> spans[k].start <= spans[k].end <= |s|
  }

  /** The cuts both tokenisers make from `pos` on, with the mark at `mark`. */
  function Spans(s: string, pos: nat, mark: nat): (r: seq<Span>)
    requires mark <= pos <= |s|
    ensures |r| > 0 && InRange(s, r)
    decreases |s| - pos
  {
    if pos == |s| then [Span(mark, |s|)]
    else if pos > 0 && IsWait(s[pos]) then
      if IsPrompt(s[pos - 1]) then Spans(s, pos + 1, pos)
      else [Span(mark, pos)] + Spans(s, pos + 1, pos)
    else Spans(s, pos + 1, mark)
  }

  /** The tokens to send: from their mark to their cut. */
  function Cut(s: string, spans: seq<Span>): (r: seq<string>)
    requires InRange(s, spans)
    ensures |r| == |spans| && forall k :: 0 <= k < |r| ==> r[k] == s[spans[k].start..spans[k].end]
  {
    if spans == [] then [] else [s[spans[0].start..spans[0].end]] + Cut(s, spans[1..])
  }

  /** The tokens to show: from their mark to the end of the string. */
  function Rest(s: string, spans: seq<Span>): (r: seq<string>)
    requires InRange(s, spans)
    ensures |r| == |spans| && forall k :: 0 <= k < |r| ==> r[k] == s[spans[k].start..]
  {
    if spans == [] then [] else [s[spans[0].start..]] + Rest(s, spans[1..])
  }

  function Sendable(s: string): seq<string> { Cut(s, Spans(s, 0, 0)) }

  function ForDialog(s: string): seq<string> { Rest(s, Spans(s, 0, 0)) }

  lemma {:induction false} CutAppend(s: string, a: seq<Span>, x: Span)
    requires InRange(s, a)
    requires x.start <= x.end <= |s|
    ensures InRange(s, a + [x])
    ensures Cut(s, a + [x]) == Cut(s, a) + [s[x.start..x.end]]
    ensures Rest(s, a + [x]) == Rest(s, a) + [s[x.start..]]
  {
    if a == [] {
      assert a + [x] == [x];
    } else {
      CutAppend(s, a[1..], x);
      assert (a + [x])[1..] == a[1..] + [x];
    }
  }

  lemma NoSpans(s: string)
    ensures InRange(s, [])
  {
  }

  lemma SpansStep(s: string, pos: nat, mark: nat)
    requires mark <= pos <= |s|
    ensures pos == |s| ==> Spans(s, pos, mark) == [Span(mark, |s|)]
    ensures pos < |s| && !(pos > 0 && IsWait(s[pos])) ==> Spans(s, pos, mark) == Spans(s, pos + 1, mark)
    ensures 0 < pos < |s| && IsWait(s[pos]) && IsPrompt(s[pos - 1]) ==>
              Spans(s, pos, mark) == Spans(s, pos + 1, pos)
    ensures 0 < pos < |s| && IsWait(s[pos]) && !IsPrompt(s[pos - 1]) ==>
              Spans(s, pos, mark) == [Span(mark, pos)] + Spans(s, pos + 1, pos)
  {
  }

  lemma Regroup(a: seq<Span>, b: seq<Span>, c: seq<Span>)
    ensures a + (b + c) == (a + b) + c
  {
  }

  method ParseDTMFSequencesL(s: string) returns (r: seq<string>)
    ensures r == Sendable(s)
  {
    hide Cut, Rest, Spans, InRange;
    assert InRange(s, []) by { NoSpans(s); }
    r := [];
    ghost var done: seq<Span> := [];
    var next, mark := 0, 0;
    var previousChar := if |s| > 0 then s[0] else '\0';
    while next < |s|
      invariant mark <= next <= |s|
      invariant next > 0 ==> previousChar == s[next - 1]
      invariant next == 0 && |s| > 0 ==> previousChar == s[0]
      invariant InRange(s, done)
      invariant r == Cut(s, done)
      invariant Spans(s, 0, 0) == done + Spans(s, next, mark)
    {
      SpansStep(s, next, mark);
      Regroup(done, [Span(mark, next)], Spans(s, next + 1, next));
      if next > 0 {
        var nextChar := s[next];
        if nextChar == '/' || nextChar == 'w' || nextChar == 'p' || nextChar == ',' {
          if previousChar == 'w' || previousChar == '/' {
            mark := next;
          } else {
            CutAppend(s, done, Span(mark, next));
            r := r + [s[mark..next]];
            done := done + [Span(mark, next)];
            mark := next;
          }
        }
        previousChar := nextChar;
      }
      next := next + 1;
    }
    SpansStep(s, next, mark);
    CutAppend(s, done, Span(mark, |s|));
    assert s[mark..|s|] == s[mark..];
    r := r + [s[mark..]];
  }

  method ParseDTMFSequencesForDlgL(s: string) returns (r: seq<string>)
    ensures r == ForDialog(s)
  {
    hide Cut, Rest, Spans, InRange;
    assert InRange(s, []) by { NoSpans(s); }
    r := [];
    ghost var done: seq<Span> := [];
    var next, mark := 0, 0;
    var previousChar := if |s| > 0 then s[0] else '\0';
    while next < |s|
      invariant mark <= next <= |s|
      invariant next > 0 ==> previousChar == s[next - 1]
      invariant next == 0 && |s| > 0 ==> previousChar == s[0]
      invariant InRange(s, done)
      invariant r == Rest(s, done)
      invariant Spans(s, 0, 0) == done + Spans(s, next, mark)
    {
      SpansStep(s, next, mark);
      Regroup(done, [Span(mark, next)], Spans(s, next + 1, next));
      if next > 0 {
        var nextChar := s[next];
        if nextChar == '/' || nextChar == 'w' || nextChar == 'p' || nextChar == ',' {
          if previousChar == 'w' || previousChar == '/' {
            mark := next;
          } else {
            CutAppend(s, done, Span(mark, next));
            r := r + [s[mark..]];
            done := done + [Span(mark, next)];
            mark := next;
          }
        }
        previousChar := nextChar;
      }
      next := next + 1;
    }
    SpansStep(s, next, mark);
    CutAppend(s, done, Span(mark, |s|));
    r := r + [s[mark..]];
  }

  // ----- what the tokens are

  function Concat(ss: seq<string>): string {
    if ss == [] then "" else ss[0] + Concat(ss[1..])
  }

  /** The input without every prompt character that another wait character follows. */
  function Squeeze(s: string): string {
    if s == "" then ""
    else if |s| > 1 && IsPrompt(s[0]) && IsWait(s[1]) then Squeeze(s[1..])
    else [s[0]] + Squeeze(s[1..])
  }

  /** No wait character strictly between the mark and the position. */
  ghost predicate Quiet(s: string, mark: nat, pos: nat) {
    mark <= pos <= |s| && forall i :: mark < i < pos ==> !IsWait(s[i])
  }

  /** Squeezing drops nothing between the mark and a cut. */
  lemma {:induction false} SqueezeKeeps(s: string, mark: nat, pos: nat)
    requires Quiet(s, mark, pos)
    requires mark < pos < |s| ==> !IsPrompt(s[pos - 1]) || !IsWait(s[pos])
    ensures Squeeze(s[mark..]) == s[mark..pos] + Squeeze(s[pos..])
    decreases pos - mark
  {
    if mark < pos {
      SqueezeKeeps(s, mark + 1, pos);
      assert s[mark..][1..] == s[mark + 1..];
      assert s[mark..pos] == [s[mark]] + s[mark + 1..pos];
    } else {
      assert s[mark..pos] == "";
    }
  }

  lemma SqueezeDrops(s: string, mark: nat)
    requires mark + 1 < |s| && IsPrompt(s[mark]) && IsWait(s[mark + 1])
    ensures Squeeze(s[mark..]) == Squeeze(s[mark + 1..])
  {
    assert s[mark..][1..] == s[mark + 1..];
  }

  lemma ConcatFirst(s: string, x: Span, rest: seq<Span>)
    requires x.start <= x.end <= |s| && InRange(s, rest)
    ensures Concat(Cut(s, [x] + rest)) == s[x.start..x.end] + Concat(Cut(s, rest))
  {
    assert ([x] + rest)[1..] == rest;
    assert Cut(s, [x] + rest)[1..] == Cut(s, rest);
  }

  /** The tokens still to be cut concatenate to the squeezed rest of the string. */
  lemma {:induction false} TokensConcat(s: string, pos: nat, mark: nat)
    requires Quiet(s, mark, pos) && (pos == 0 || mark < pos)
    ensures Concat(Cut(s, Spans(s, pos, mark))) == Squeeze(s[mark..])
    decreases |s| - pos
  {
    hide Cut, Concat, Squeeze;
    if pos == |s| {
      SqueezeKeeps(s, mark, |s|);
      ConcatFirst(s, Span(mark, |s|), []);
      assert Spans(s, pos, mark) == [Span(mark, |s|)] + [];
      NothingLeft(s);
    } else if pos > 0 && IsWait(s[pos]) {
      TokensConcat(s, pos + 1, pos);
      if IsPrompt(s[pos - 1]) {
        assert IsWait(s[pos - 1]) && mark == pos - 1;
        SqueezeDrops(s, mark);
      } else {
        SqueezeKeeps(s, mark, pos);
        ConcatFirst(s, Span(mark, pos), Spans(s, pos + 1, pos));
      }
    } else {
      TokensConcat(s, pos + 1, mark);
    }
  }

  lemma NothingLeft(s: string)
    ensures Squeeze(s[|s|..]) == "" && Concat(Cut(s, [])) == ""
  {
  }

  /** The first span starts at the mark, or at a wait character behind it, and is not empty. */
  lemma {:induction false} FirstSpan(s: string, pos: nat, mark: nat)
    requires mark < pos <= |s|
    ensures var x := Spans(s, pos, mark)[0]; x.start < x.end && (x.start == mark || IsWait(s[x.start]))
    decreases |s| - pos
  {
    if pos < |s| {
      if !IsWait(s[pos]) {
        FirstSpan(s, pos + 1, mark);
      } else if IsPrompt(s[pos - 1]) {
        FirstSpan(s, pos + 1, pos);
      }
    }
  }

  /** Every span is quiet, begins where the string or a wait character begins, and all but the last
      stop before the end. */
  lemma {:induction false} SpansAreQuiet(s: string, pos: nat, mark: nat, k: nat)
    requires Quiet(s, mark, pos) && (pos == 0 || mark < pos) && k < |Spans(s, pos, mark)|
    ensures var r := Spans(s, pos, mark);
            && Quiet(s, r[k].start, r[k].end)
            && (k + 1 < |r| ==> r[k].start + 1 < |s|)
            && (k > 0 ==> r[k].start < r[k].end && IsWait(s[r[k].start]))
    decreases |s| - pos
  {
    if pos == |s| {
    } else if pos > 0 && IsWait(s[pos]) {
      if IsPrompt(s[pos - 1]) {
        SpansAreQuiet(s, pos + 1, pos, k);
      } else if k > 0 {
        SpansAreQuiet(s, pos + 1, pos, k - 1);
        FirstSpan(s, pos + 1, pos);
      }
    } else {
      SpansAreQuiet(s, pos + 1, mark, k);
    }
  }

  /** Lockstep: the two queues always have the same length; each token sent is a prefix of the one
      shown, which is a suffix of the input; each but the first starts with a wait character and none
      has one behind its first position; and together the tokens sent are the input without the prompt
      characters that another wait character follows. */
  lemma Lockstep(s: string)
    ensures var send, dlg := Sendable(s), ForDialog(s);
            && |send| == |dlg| > 0
            && (forall k :: 0 <= k < |send| ==>
                  send[k] <= dlg[k] && |dlg[k]| <= |s| && dlg[k] == s[|s| - |dlg[k]|..])
            && (forall k, i :: 0 <= k < |send| && 1 <= i < |send[k]| ==> send[k][i] !in "w/p,")
            && (forall k :: 1 <= k < |send| ==> send[k] != "" && send[k][0] in "w/p,")
            && (forall k :: 0 <= k < |send| - 1 ==> |dlg[k]| >= 2)
            && Concat(send) == Squeeze(s)
  {
    hide Spans, Squeeze, Concat, Cut, Rest;
    var spans := Spans(s, 0, 0);
    TokensConcat(s, 0, 0);
    assert s[0..] == s;
    forall k | 0 <= k < |spans|
      ensures Quiet(s, spans[k].start, spans[k].end) && (k + 1 < |spans| ==> spans[k].start + 1 < |s|)
      ensures k > 0 ==> spans[k].start < spans[k].end && IsWait(s[spans[k].start])
    {
      SpansAreQuiet(s, 0, 0, k);
    }
    forall k | 0 <= k < |spans| ensures s[spans[k].start..spans[k].end] <= s[spans[k].start..] {
      assert s[spans[k].start..][..spans[k].end - spans[k].start] == s[spans[k].start..spans[k].end];
    }
  }
}
