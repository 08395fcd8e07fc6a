/** Whole runs of the DTMF sender. */
module DtmfRuns {
  import opened DtmfTokens
  import opened DtmfSender

  /** What token k becomes when it is sent. */
  function Clean(token: string): string { ValidOnly(Ripped(token)) }

  function CleanAll(tokens: seq<string>): (r: seq<string>)
    ensures |r| == |tokens| && forall k :: 0 <= k < |r| ==> r[k] == Clean(tokens[k])
  {
    if tokens == [] then [] else [Clean(tokens[0])] + CleanAll(tokens[1..])
  }

  function Expected(number: string): (r: seq<string>)
    ensures |r| == |Sendable(number)|
  {
    CleanAll(Sendable(number))
  }

  // ----- filters

  lemma {:induction false} KeepAppends(a: string, b: string, ok: char -> bool)
    ensures Keep(a + b, ok) == Keep(a, ok) + Keep(b, ok)
  {
    if a == "" {
      assert a + b == b;
    } else {
      hide Keep;
      assert (a + b)[1..] == a[1..] + b;
      KeepAppends(a[1..], b, ok);
      KeepFirst(a + b, ok);
      KeepFirst(a, ok);
    }
  }

  lemma KeepFirst(s: string, ok: char -> bool)
    requires s != ""
    ensures Keep(s, ok) == (if ok(s[0]) then [s[0]] else "") + Keep(s[1..], ok)
  {
  }

  lemma {:induction false} KeepAgrees(a: string, f: char -> bool, g: char -> bool)
    requires forall c :: c in a ==> f(c) == g(c)
    ensures Keep(a, f) == Keep(a, g)
  {
    if a != "" {
      KeepAgrees(a[1..], f, g);
    }
  }

  lemma TonesFirst(c: char, s: string)
    ensures Tones([c] + s) == (if IsTone(c) then [c] else "") + Tones(s)
  {
    assert ([c] + s)[1..] == s;
  }

  /** Only wait characters are squeezed out. */
  lemma {:induction false} TonesOfSqueezed(s: string)
    ensures Tones(Squeeze(s)) == Tones(s)
  {
    if s != "" {
      TonesOfSqueezed(s[1..]);
      TonesFirst(s[0], s[1..]);
      TonesFirst(s[0], Squeeze(s[1..]));
      assert s == [s[0]] + s[1..];
    }
  }

  /** A token loses its leading wait character and its invalid characters: its tones are left. */
  lemma CleanIsTones(token: string)
    requires forall i :: 1 <= i < |token| ==> !IsWait(token[i])
    ensures Clean(token) == Tones(token)
  {
    var r := Ripped(token);
    forall c | c in r ensures IsValid(c) == IsTone(c) {
      var i :| 0 <= i < |r| && r[i] == c;
    }
    KeepAgrees(r, c => IsValid(c), c => IsTone(c));
    if r != token {
      TonesFirst(token[0], r);
      assert token == [token[0]] + r;
    }
  }

  lemma {:induction false} ConcatOfClean(tokens: seq<string>)
    requires forall k, i :: 0 <= k < |tokens| && 1 <= i < |tokens[k]| ==> !IsWait(tokens[k][i])
    ensures Concat(CleanAll(tokens)) == Tones(Concat(tokens))
  {
    if tokens != [] {
      CleanIsTones(tokens[0]);
      ConcatOfClean(tokens[1..]);
      KeepAppends(tokens[0], Concat(tokens[1..]), c => IsTone(c));
      assert CleanAll(tokens)[1..] == CleanAll(tokens[1..]);
    }
  }

  /** The cleaned tokens together are the tones of the input. */
  lemma ExpectedIsTones(number: string)
    ensures Concat(Expected(number)) == Tones(number)
  {
    Lockstep(number);
    ConcatOfClean(Sendable(number));
    TonesOfSqueezed(number);
  }

  lemma {:induction false} ConcatAppends(a: seq<string>, b: seq<string>)
    ensures Concat(a + b) == Concat(a) + Concat(b)
  {
    if a == [] {
      assert a + b == b;
    } else {
      assert (a + b)[1..] == a[1..] + b;
      ConcatAppends(a[1..], b);
    }
  }

  // ----- runs

  /** After c tokens of `number`: behind what was sent before, exactly the first c were sent, and while
      a request is under way both queues hold the rest. */
  ghost predicate Follows(number: string, before: seq<string>, s: Sender, c: nat) {
    && c <= |Sendable(number)| == |ForDialog(number)|
    && s.sent == before + Expected(number)[..c] && s.state != Dialing
    && (s.state == DialingDTMF ==> s.sendable == Sendable(number)[c..] && s.dlg == ForDialog(number)[c..])
  }

  /** One step of HandleInternalSendDTMFL on queues that hold the tokens from c on. */
  lemma HandleFollows(number: string, before: seq<string>, s: Sender, c: nat, m: Moment)
    requires c <= |Sendable(number)| == |ForDialog(number)| && s.sent == before + Expected(number)[..c]
    requires s.sendable == Sendable(number)[c..] && s.dlg == ForDialog(number)[c..] && s.state != Dialing
    ensures var (t, o) := Handle(s, m);
            && |t.sendable| == |t.dlg|
            && (o == Sent ==> t.state == DialingDTMF && Follows(number, before, t, c + 1))
            && (o != Sent ==> t.sent == s.sent && (t.state == s.state || t.state == Idle))
            && (o.Left? ==> !m.callActive && t.state == Idle)
  {
    hide Sendable, ForDialog, ValidOnly, Ripped, Displays, CleanAll;
    if c < |Sendable(number)| {
      ExpectedAt(number, c);
      OneMoreSent(before, Expected(number), c);
      assert s.sendable[1..] == Sendable(number)[c + 1..];
      assert s.dlg[1..] == ForDialog(number)[c + 1..];
    }
  }

  lemma OneMoreSent(before: seq<string>, e: seq<string>, c: nat)
    requires c < |e|
    ensures before + e[..c] + [e[c]] == before + e[..c + 1]
  {
  }

  lemma ExpectedAt(number: string, c: nat)
    requires c < |Sendable(number)|
    ensures Expected(number)[c] == ValidOnly(Ripped(Sendable(number)[c]))
  {
  }

  /** Any completion of a request, with any answer and any state of the call. */
  datatype Event = Event(completion: Completion, moment: Moment)

  function Run(s: Sender, events: seq<Event>): Sender
    decreases |events|
  {
    if events == [] then s else Run(Completed(s, events[0].completion, events[0].moment), events[1..])
  }

  /** The whole of one SendDTMFL call and what completes after it. */
  ghost function SendRun(s: Sender, number: string, always: bool, active: bool, m: Moment, events: seq<Event>): Sender {
    Run(Start(s, number, always, active, m).0, events)
  }

  lemma StepFollows(number: string, before: seq<string>, s: Sender, c: nat, done: Completion, m: Moment)
    returns (d: nat)
    requires Follows(number, before, s, c)
    ensures Follows(number, before, Completed(s, done, m), d)
  {
    hide Handle, Expected, Sendable, ForDialog;
    d := c;
    if s.state == DialingDTMF && done.ok {
      HandleFollows(number, before, s, c, m);
      if Handle(s, m).1 == Sent {
        d := c + 1;
      }
    }
  }

  lemma {:induction false} RunFollows(number: string, before: seq<string>, s: Sender, c: nat, events: seq<Event>)
    returns (d: nat)
    requires Follows(number, before, s, c)
    ensures Follows(number, before, Run(s, events), d)
    decreases |events|
  {
    hide Follows, Completed;
    if events == [] {
      d := c;
    } else {
      var t := Completed(s, events[0].completion, events[0].moment);
      var c' := StepFollows(number, before, s, c, events[0].completion, events[0].moment);
      d := RunFollows(number, before, t, c', events[1..]);
    }
  }

  /** The two queues are consumed together. */
  lemma StepInLockstep(s: Sender, done: Completion, m: Moment)
    requires |s.sendable| == |s.dlg|
    ensures var t := Completed(s, done, m); |t.sendable| == |t.dlg|
  {
    hide Ripped, ValidOnly, Displays;
  }

  lemma {:induction false} RunInLockstep(s: Sender, events: seq<Event>)
    requires |s.sendable| == |s.dlg|
    ensures var t := Run(s, events); |t.sendable| == |t.dlg|
    decreases |events|
  {
    hide Completed;
    if events != [] {
      StepInLockstep(s, events[0].completion, events[0].moment);
      RunInLockstep(Completed(s, events[0].completion, events[0].moment), events[1..]);
    }
  }

  /** Safety over every run of a service in any state, also one that has sent before or is still
      sending: whatever the user answers, whichever requests fail and whenever the call ends, what
      is sent from here on is a prefix of the tones of the input, token by token, nothing twice and
      nothing out of order; and queues of equal length stay so. */
  lemma NothingElseIsSent(s: Sender, number: string, always: bool, active: bool, m: Moment, events: seq<Event>)
    ensures var t := SendRun(s, number, always, active, m, events);
            && s.sent <= t.sent
            && t.sent[|s.sent|..] <= Expected(number) && Concat(t.sent[|s.sent|..]) <= Tones(number)
            && (|s.sendable| == |s.dlg| ==> |t.sendable| == |t.dlg|)
  {
    hide Run, Start, Expected, Tones, Sendable, ForDialog, Concat;
    var c := StartFollows(s, number, always, active, m);
    var t := Start(s, number, always, active, m).0;
    c := RunFollows(number, s.sent, t, c, events);
    PrefixOfTones(number, c);
    SentSince(s.sent, Expected(number)[..c]);
    if |s.sendable| == |s.dlg| {
      RunInLockstep(t, events);
    }
  }

  lemma SentSince(before: seq<string>, since: seq<string>)
    ensures before <= before + since && (before + since)[|before|..] == since
  {
  }

  /** SendDTMFL sends the first token or nothing. */
  lemma StartFollows(s: Sender, number: string, always: bool, active: bool, m: Moment) returns (c: nat)
    ensures var t := Start(s, number, always, active, m).0;
            Follows(number, s.sent, t, c) && (|s.sendable| == |s.dlg| ==> |t.sendable| == |t.dlg|)
  {
    hide Handle, Expected, Sendable, ForDialog, Acceptable;
    Lockstep(number);
    c := 0;
    assert s.sent + Expected(number)[..0] == s.sent;
    if active && Acceptable(number) {
      var u := s.(alwaysConfirm := always, state := Connected, sendable := Sendable(number), dlg := ForDialog(number));
      HandleFollows(number, s.sent, u, 0, m);
      c := if Handle(u, m).1 == Sent then 1 else 0;
    }
  }

  /** The first c cleaned tokens together are a prefix of the tones. */
  lemma PrefixOfTones(number: string, c: nat)
    requires c <= |Expected(number)|
    ensures Concat(Expected(number)[..c]) <= Tones(number)
  {
    hide Expected, Tones, Concat;
    var e := Expected(number);
    ExpectedIsTones(number);
    ConcatAppends(e[..c], e[c..]);
    assert e == e[..c] + e[c..];
  }

  /** Requests that all succeed, prompts that are all accepted, a call that stays on: the run until
      nothing is being dialled any more. */
  function RunToEnd(s: Sender): Sender
    decreases |s.sendable|, s.state == DialingDTMF
  {
    if s.state != DialingDTMF then s else RunToEnd(Completed(s, Completion(true, true, false), Moment(true, true)))
  }

  /** A token whose shown rest is empty is the last one and has no tones. */
  lemma OnlyLastIsEmpty(number: string, c: nat)
    requires c < |Sendable(number)| == |ForDialog(number)| && Ripped(ForDialog(number)[c]) == ""
    ensures c + 1 == |Sendable(number)| && Expected(number)[c] == ""
  {
    Lockstep(number);
    var send, dlg := Sendable(number)[c], ForDialog(number)[c];
    assert send <= dlg && |dlg| <= 1;
  }

  lemma {:induction false} RunToEndSendsAll(number: string, before: seq<string>, s: Sender, c: nat)
    requires s.state == DialingDTMF && Follows(number, before, s, c)
    ensures var t := RunToEnd(s);
            && t.state == Connected && t.sendable == [] && t.dlg == []
            && before <= t.sent && Concat(t.sent[|before|..]) == Tones(number)
    decreases |Sendable(number)| - c
  {
    hide Expected, Ripped, Handle, Concat, Tones;
    var m := Moment(true, true);
    HandleFollows(number, before, s, c, m);
    AcceptedStep(number, before, s, c);
    var (t, o) := Handle(s, m);
    if o == Sent {
      RunToEndSendsAll(number, before, t, c + 1);
    } else {
      AllSent(number, c);
      SentSince(before, Expected(number)[..c]);
    }
  }

  /** An accepted step sends the next token, or finds nothing left worth sending. */
  lemma AcceptedStep(number: string, before: seq<string>, s: Sender, c: nat)
    requires c <= |Sendable(number)| == |ForDialog(number)| && s.sent == before + Expected(number)[..c]
    requires s.sendable == Sendable(number)[c..] && s.dlg == ForDialog(number)[c..]
    ensures var (t, o) := Handle(s, Moment(true, true));
            o == Sent || (o == NothingSent && t.state == s.state && t.sendable == [] && t.dlg == []
                          && (c == |Sendable(number)|
                              || (c + 1 == |Sendable(number)| && Ripped(ForDialog(number)[c]) == "")))
  {
    hide Sendable, ForDialog, Displays, Expected, ValidOnly;
    if c < |Sendable(number)| && Ripped(ForDialog(number)[c]) == "" {
      OnlyLastIsEmpty(number, c);
      assert s.sendable[1..] == [] && s.dlg[1..] == [];
    }
  }

  /** When only an empty token is left, everything worth sending was sent. */
  lemma AllSent(number: string, c: nat)
    requires c <= |Sendable(number)| == |ForDialog(number)|
    requires c == |Sendable(number)| || (c + 1 == |Sendable(number)| && Ripped(ForDialog(number)[c]) == "")
    ensures Concat(Expected(number)[..c]) == Tones(number)
  {
    hide Expected, Sendable, ForDialog, Tones, Ripped;
    var e := Expected(number);
    ExpectedIsTones(number);
    if c < |e| {
      OnlyLastIsEmpty(number, c);
      ConcatAppends(e[..c], [e[c]]);
      assert e == e[..c] + [e[c]];
      assert Concat([""]) == "";
    } else {
      assert e[..c] == e;
    }
  }

  /** Tone conservation: for a number CheckDTMFNumberL accepts, when the user accepts every prompt
      and every request succeeds, the run ends connected with empty queues, and what was sent in it is
      the number without its wait characters. */
  lemma TonesAreConserved(s: Sender, number: string, always: bool)
    requires Acceptable(number)
    ensures var (t, o) := Start(s, number, always, true, Moment(true, true));
            var end := RunToEnd(t);
            && !o.Left?
            && end.state == Connected && end.sendable == [] && end.dlg == []
            && s.sent <= end.sent && Concat(end.sent[|s.sent|..]) == WithoutWaits(number)
  {
    hide Handle, Expected, Tones, RunToEnd, Sendable, ForDialog, Ripped, Concat;
    Lockstep(number);
    var u := s.(alwaysConfirm := always, state := Connected, sendable := Sendable(number), dlg := ForDialog(number));
    var m := Moment(true, true);
    assert s.sent + Expected(number)[..0] == s.sent;
    HandleFollows(number, s.sent, u, 0, m);
    AcceptedStep(number, s.sent, u, 0);
    var (t, o) := Handle(u, m);
    if o == Sent {
      RunToEndSendsAll(number, s.sent, t, 1);
    } else {
      EndOfRun(t);
      AllSent(number, 0);
      SentSince(s.sent, Expected(number)[..0]);
    }
    AcceptedHasTonesAndWaits(number);
  }

  lemma EndOfRun(t: Sender)
    requires t.state != DialingDTMF
    ensures RunToEnd(t) == t
  {
  }

  lemma AcceptedHasTonesAndWaits(number: string)
    requires Acceptable(number)
    ensures Tones(number) == WithoutWaits(number)
  {
    KeepAgrees(number, c => IsTone(c), c => c != 'w' && c != '/' && c != 'p' && c != ',');
  }

  // ----- when nothing is sent

  lemma {:induction false} RunSplits(s: Sender, a: seq<Event>, b: seq<Event>)
    ensures Run(s, a + b) == Run(Run(s, a), b)
    decreases |a|
  {
    hide Completed;
    if a == [] {
      assert a + b == b;
    } else {
      assert (a + b)[0] == a[0] && (a + b)[1..] == a[1..] + b;
      RunSplits(Completed(s, a[0].completion, a[0].moment), a[1..], b);
    }
  }

  /** A service that is connected or idle sends nothing, whatever completes after that. */
  lemma {:induction false} NotDialingSendsNothing(s: Sender, events: seq<Event>)
    requires s.state == Connected || s.state == Idle
    ensures var t := Run(s, events);
            t.sent == s.sent && t.sendable == s.sendable && t.dlg == s.dlg && (t.state == Connected || t.state == Idle)
    decreases |events|
  {
    if events != [] {
      hide Handle;
      NotDialingSendsNothing(Completed(s, events[0].completion, events[0].moment), events[1..]);
    }
  }

  lemma {:induction false} AlwaysConfirmStays(s: Sender, events: seq<Event>)
    ensures Run(s, events).alwaysConfirm == s.alwaysConfirm
    decreases |events|
  {
    if events != [] {
      hide Ripped, ValidOnly, Displays;
      AlwaysConfirmStays(Completed(s, events[0].completion, events[0].moment), events[1..]);
    }
  }

  /** Refusal over whole runs, with the user always asked: when c tokens of `number` have been sent,
      token c shows more than a wait character and does not start with 'p' or ',', and the user refuses
      it, then those c tokens are all that is ever sent. */
  lemma RefusalEndsTheRun(s: Sender, number: string, active: bool, m: Moment, before: seq<Event>, refused: Event,
                          after: seq<Event>)
    requires var t := SendRun(s, number, true, active, m, before);
             var c := |t.sent| - |s.sent|;
             && t.state == DialingDTMF && refused.completion.ok && !refused.moment.answer
             && 0 <= c < |ForDialog(number)| && |ForDialog(number)[c]| > 1
             && ForDialog(number)[c][0] != 'p' && ForDialog(number)[c][0] != ','
    ensures SendRun(s, number, true, active, m, before + [refused] + after).sent
            == SendRun(s, number, true, active, m, before).sent
  {
    hide Run, Completed, Expected, Sendable, ForDialog, Start, Handle;
    var first := Start(s, number, true, active, m).0;
    var t := Run(first, before);
    var d := StartFollows(s, number, true, active, m);
    d := RunFollows(number, s.sent, first, d, before);
    AlwaysConfirmStays(first, before);
    StartConfirms(s, number, true, active, m);
    var u := Completed(t, refused.completion, refused.moment);
    StepIsRight(t, refused.moment);
    CompletedOfDtmf(t, refused.completion, refused.moment);
    RunSplits(first, before + [refused], after);
    RunSplits(first, before, [refused]);
    RunOne(t, refused);
    NotDialingSendsNothing(u, after);
  }

  lemma RunOne(s: Sender, e: Event)
    ensures Run(s, [e]) == Completed(s, e.completion, e.moment)
  {
    hide Completed;
    assert [e][1..] == [];
    assert Run(Completed(s, e.completion, e.moment), []) == Completed(s, e.completion, e.moment);
  }

  lemma StartConfirms(s: Sender, number: string, always: bool, active: bool, m: Moment)
    ensures Start(s, number, always, active, m).0.alwaysConfirm == always
  {
    hide Acceptable, Sendable, ForDialog, Ripped, ValidOnly, Displays;
  }

  lemma CompletedOfDtmf(s: Sender, c: Completion, m: Moment)
    requires s.state == DialingDTMF && c.ok && Handle(s, m).1 == NothingSent
    ensures Completed(s, c, m) == Handle(s, m).0.(state := Connected)
  {
    hide Handle;
  }

  /** A refusal at the very start: nothing is ever sent. */
  lemma RefusedAtOnce(s: Sender, number: string, always: bool, active: bool, m: Moment, events: seq<Event>)
    requires !m.answer && (always || !s.confirmedOnce)
    requires |ForDialog(number)| > 0 && |ForDialog(number)[0]| > 1
    requires ForDialog(number)[0][0] != 'p' && ForDialog(number)[0][0] != ','
    ensures SendRun(s, number, always, active, m, events).sent == s.sent
  {
    hide Run, Sendable, ForDialog, Handle, Acceptable;
    Lockstep(number);
    StepIsRight(s.(alwaysConfirm := always, state := Connected, sendable := Sendable(number), dlg := ForDialog(number)),
                m);
    NotDialingSendsNothing(Start(s, number, always, active, m).0, events);
  }
}
