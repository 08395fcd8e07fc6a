/** Sending a DTMF string: two token queues consumed from the head, one step per completed request,
    with the user's answers and the state of the call as inputs. */
module DtmfSender {
  import opened DtmfTokens

  datatype CallState = Idle | Dialing | Connected | DialingDTMF

  datatype Outcome = Sent | NothingSent | Left(error: Error)
  datatype Error = Cancelled | NoCallActive | InvalidArgument

  /** What one step is told from outside: the user's answer if it asks, and whether a call is on. */
  datatype Moment = Moment(answer: bool, callActive: bool)

  /** What a completed request comes with: its status, whether a call being set up is now connected,
      and whether the connected call has been hung up. */
  datatype Completion = Completion(ok: bool, connected: bool, hungUp: bool)

  /** The fields of the service that sending works on; `sent` lists what SendDTMFTones was given. */
  datatype Sender = Sender(state: CallState, synch: bool, sendable: seq<string>, dlg: seq<string>,
                           alwaysConfirm: bool, confirmedOnce: bool, sent: seq<string>)

  predicate IsValid(c: char) { c in "w/p*#0123456789ABCDabcd," }

  predicate IsTone(c: char) { IsValid(c) && !IsWait(c) }

  function Keep(s: string, ok: char -> bool): string {
    if s == "" then "" else (if ok(s[0]) then [s[0]] else "") + Keep(s[1..], ok)
  }

  /** The tones of a DTMF string: its valid characters that are not wait characters. */
  function Tones(s: string): string { Keep(s, c => IsTone(c)) }

  function ValidOnly(s: string): string { Keep(s, c => IsValid(c)) }

  function WithoutWaits(s: string): string { Keep(s, c => c != 'w' && c != '/' && c != 'p' && c != ',') }

  function Ripped(s: string): string { if |s| > 0 && IsWait(s[0]) then s[1..] else s }

  /** DisplaySendDTMFDialog's answer before the emptiness of the ripped number is looked at. */
  function Displays(s: string, alwaysConfirm: bool, confirmedOnce: bool): bool {
    |s| > 0 && (IsPrompt(s[0]) || (!IsWait(s[0]) && (alwaysConfirm || !confirmedOnce)))
  }

  /** HandleInternalSendDTMFL: a token whose shown rest is empty, or that the user refuses, is
      dropped and ends the run; otherwise it is sent without wait and invalid characters. */
  function Handle(given: Sender, m: Moment): (Sender, Outcome) {
    var s := given.(synch := false);
    if s.sendable == [] || s.dlg == [] then (s, NothingSent)
    else
      var shown := Ripped(s.dlg[0]);
      var asked := shown != "" && (s.alwaysConfirm || !s.confirmedOnce)
                   && Displays(s.dlg[0], s.alwaysConfirm, s.confirmedOnce);
      var t := s.(confirmedOnce := s.confirmedOnce || (asked && !s.alwaysConfirm));
      var popped := t.(sendable := s.sendable[1..], dlg := s.dlg[1..]);
      var tones := ValidOnly(Ripped(s.sendable[0]));
      if shown == "" || (asked && !m.answer) then (popped, NothingSent)
      else if !m.callActive then
        (t.(state := Idle, sendable := s.sendable[0 := tones], dlg := s.dlg[0 := shown]), Left(Cancelled))
      else (popped.(state := DialingDTMF, sent := s.sent + [tones]), Sent)
  }

  /** RunL: a failed request ends DTMF dialling and is cancelled otherwise; a call that gets through
      sends its DTMF string unless a synchronous caller waits for it; sent tones are followed by the
      next ones; a call that was hung up is over. */
  function Completed(s: Sender, c: Completion, m: Moment): Sender {
    if !c.ok then if s.state == DialingDTMF then s.(state := Connected) else s
    else
      match s.state
      case DialingDTMF =>
        var (t, o) := Handle(s, m);
        if o == NothingSent then t.(state := Connected) else t
      case Dialing =>
        if !c.connected then s
        else if s.synch then s.(state := Connected)
        else Handle(s.(state := Connected), m).0
      case Connected => if c.hungUp then s.(state := Idle) else s
      case Idle => s
  }

  ghost predicate Acceptable(number: string) {
    && (forall c :: c in number ==> IsValid(c))
    && (forall i, j :: 0 <= i < j < |number| && number[i] == number[j] ==> number[i] != 'w' && number[i] != '/')
  }

  /** SendDTMFL; `active` is the call's state when it starts. */
  ghost function Start(s: Sender, number: string, alwaysConfirm: bool, active: bool, m: Moment): (Sender, Outcome) {
    var t := s.(alwaysConfirm := alwaysConfirm);
    if !active then (t.(state := Idle), Left(NoCallActive))
    else if !Acceptable(number) then (t.(state := Connected), Left(InvalidArgument))
    else Handle(t.(state := Connected, sendable := Sendable(number), dlg := ForDialog(number)), m)
  }

  /** The characters by name. */
  lemma CharactersOfDtmf(c: char)
    ensures IsTone(c) <==> '0' <= c <= '9' || 'A' <= c <= 'D' || 'a' <= c <= 'd' || c == '*' || c == '#'
    ensures IsValid(c) <==> IsTone(c) || c == 'w' || c == '/' || c == 'p' || c == ','
    ensures IsWait(c) <==> c == 'w' || c == '/' || c == 'p' || c == ','
    ensures IsPrompt(c) <==> c == 'w' || c == '/'
  {
  }

  // ----- what a step does, token by token

  predicate WaitsFirst(head: string) { |head| > 0 && head[0] in "w/p," }

  /** Nothing is left to show of a token but its wait character. */
  predicate ShowsNothing(head: string) { |head| == 0 || (|head| == 1 && WaitsFirst(head)) }

  /** A token is asked about when something is shown, it starts with neither 'p' nor ',', and the user
      is always asked or has not been asked yet. */
  predicate Asks(head: string, always: bool, once: bool) {
    !ShowsNothing(head) && head[0] != 'p' && head[0] != ',' && (always || !once)
  }

  /** A step on two queues that are not empty. A token that shows nothing or is refused is dropped and
      not sent; without a call the step leaves; otherwise one string more is sent. */
  ghost predicate Stepped(s: Sender, m: Moment, t: Sender, o: Outcome)
    requires s.sendable != [] && s.dlg != []
  {
    var asks := Asks(s.dlg[0], s.alwaysConfirm, s.confirmedOnce);
    var dropped := ShowsNothing(s.dlg[0]) || (asks && !m.answer);
    && (dropped ==> o == NothingSent && t.sent == s.sent && t.state == s.state)
    && (!dropped && !m.callActive ==> o == Left(Cancelled) && t.sent == s.sent && t.state == Idle)
    && (!dropped && m.callActive ==>
          o == Sent && s.sent < t.sent && |t.sent| == |s.sent| + 1 && t.state == DialingDTMF)
    && (!o.Left? ==> t.sendable == s.sendable[1..] && t.dlg == s.dlg[1..])
    && (o.Left? ==> |t.sendable| == |s.sendable| && |t.dlg| == |s.dlg|
                    && t.sendable[1..] == s.sendable[1..] && t.dlg[1..] == s.dlg[1..])
    && t.confirmedOnce == (s.confirmedOnce || (asks && !s.alwaysConfirm))
    && t.alwaysConfirm == s.alwaysConfirm && !t.synch
  }

  lemma HandleSteps(s: Sender, m: Moment)
    ensures var (t, o) := Handle(s, m);
            if s.sendable == [] || s.dlg == [] then t == s.(synch := false) && o == NothingSent
            else Stepped(s, m, t, o)
  {
    hide ValidOnly;
  }

  /** A refused token, spelled out. */
  lemma StepIsRight(s: Sender, m: Moment)
    ensures var (t, o) := Handle(s, m);
            && (s.sendable == [] || s.dlg == [] ==> t == s.(synch := false) && o == NothingSent)
            && (s.sendable != [] && s.dlg != [] ==>
                  && Stepped(s, m, t, o)
                  && (|s.dlg[0]| > 1 && s.dlg[0][0] != 'p' && s.dlg[0][0] != ','
                      && (s.alwaysConfirm || !s.confirmedOnce) && !m.answer ==>
                        && o == NothingSent && t.sent == s.sent && t.state == s.state
                        && t.sendable == s.sendable[1..] && t.dlg == s.dlg[1..]))
  {
    hide Handle;
    HandleSteps(s, m);
  }

  /** Every completed request, by its case. */
  lemma CompletedIs(s: Sender, c: Completion, m: Moment)
    ensures var t := Completed(s, c, m);
            var steps := c.ok && (s.state == DialingDTMF || (s.state == Dialing && c.connected && !s.synch));
            && (!steps ==> t == s.(state := t.state))
            && (!c.ok ==> t.state == if s.state == DialingDTMF then Connected else s.state)
            && (c.ok && s.state == Connected ==> t.state == if c.hungUp then Idle else Connected)
            && (c.ok && s.state == Idle ==> t.state == Idle)
            && (c.ok && s.state == Dialing && !c.connected ==> t.state == Dialing)
            && (c.ok && s.state == Dialing && c.connected && s.synch ==> t.state == Connected)
            && (steps && (s.sendable == [] || s.dlg == []) ==> t == s.(synch := false, state := Connected))
            && (steps && s.sendable != [] && s.dlg != [] ==>
                  exists o :: Stepped(s.(state := Connected), m, t, o))
  {
    hide Handle;
    var from := if s.state == DialingDTMF then s else s.(state := Connected);
    HandleSteps(from, m);
    var (u, o) := Handle(from, m);
    var steps := c.ok && (s.state == DialingDTMF || (s.state == Dialing && c.connected && !s.synch));
    if steps && s.sendable != [] && s.dlg != [] {
      var t := if o == NothingSent then u.(state := Connected) else u;
      assert Stepped(s.(state := Connected), m, t, o);
      assert Completed(s, c, m) == t;
    }
  }

  lemma HandleResetsSynch(s: Sender, m: Moment)
    ensures Handle(s, m) == Handle(s.(synch := false), m) == Handle(s.(synch := true), m)
  {
    hide Ripped, ValidOnly, Displays;
  }

  lemma EmptyIsAcceptable()
    ensures Acceptable("")
  {
  }

  lemma {:induction false} AtMostOnce(s: string, c: char)
    ensures multiset(s)[c] <= 1 <==> forall i, j :: 0 <= i < j < |s| && s[i] == s[j] ==> s[i] != c
  {
    if s != "" {
      var rest := s[1..];
      AtMostOnce(rest, c);
      assert s == [s[0]] + rest;
      if s[0] == c && c in rest {
        var j :| 0 <= j < |rest| && rest[j] == c;
        assert s[j + 1] == s[0];
      } else if multiset(rest)[c] > 1 {
        var i, j :| 0 <= i < j < |rest| && rest[i] == rest[j] == c;
        assert s[i + 1] == s[j + 1] == c;
      } else {
        forall i, j | 0 <= i < j < |s| && s[i] == s[j] ensures s[i] != c {
          assert rest[j - 1] == s[j] && (i > 0 ==> rest[i - 1] == s[i]);
          assert i == 0 ==> s[j] in rest;
        }
      }
    }
  }

  /** Acceptable numbers by their characters: tones and wait characters, at most one 'w' and at most
      one '/'. */
  lemma AcceptableIs(number: string)
    ensures Acceptable(number) <==>
              && (forall c :: c in number ==> c in "0123456789ABCDabcd*#" || c in "w/p,")
              && multiset(number)['w'] <= 1 && multiset(number)['/'] <= 1
  {
    AtMostOnce(number, 'w');
    AtMostOnce(number, '/');
  }

  /** A number is acceptable up to its i-th character when it is in front of it, the character is
      valid, and it does not repeat a 'w' or '/'. */
  lemma OneMoreAcceptable(number: string, i: nat)
    requires i < |number| && Acceptable(number[..i])
    ensures var c := number[i];
            var ok := IsValid(c) && (c == 'w' || c == '/' ==> c !in number[..i]);
            (ok ==> Acceptable(number[..i + 1])) && (!ok ==> !Acceptable(number))
  {
    hide IsValid;
    var c, front := number[i], number[..i];
    assert c in number;
    assert number[..i + 1] == front + [c];
    if c in front {
      var k :| 0 <= k < i && front[k] == c;
      assert number[k] == c;
    }
  }

  class TelService {
    var state: CallState
    var synch: bool
    var sendable: seq<string>
    var dlg: seq<string>
    var alwaysConfirm: bool
    var confirmedOnce: bool
    var sent: seq<string>

    function View(): Sender reads this { Sender(state, synch, sendable, dlg, alwaysConfirm, confirmedOnce, sent) }

    /** RipWaitChar: the wait character a number starts with, and the number without it. */
    static method RipWaitChar(number: string) returns (waitChar: char, rest: string)
      ensures rest == Ripped(number)
      ensures waitChar == if |number| > 0 && IsWait(number[0]) then number[0] else '\0'
    {
      waitChar, rest := '\0', number;
      if |number| > 0 {
        var first := number[0];
        if first == 'w' || first == '/' || first == 'p' || first == ',' {
          waitChar, rest := first, number[1..];
        }
      }
    }

    /** ValidateDTMFNumberL: delete invalid characters in place. */
    static method ValidateDTMFNumber(number: string) returns (r: string)
      ensures r == ValidOnly(number)
    {
      r := number;
      var i := 0;
      ghost var rest := number;
      while i < |r|
        invariant i <= |r| && r[i..] == rest
        invariant ValidOnly(number) == r[..i] + ValidOnly(rest)
        decreases |r| - i
      {
        assert rest[0] == r[i];
        if !IsValid(r[i]) {
          r := r[..i] + r[i + 1..];
        } else {
          i := i + 1;
        }
        rest := rest[1..];
      }
    }

    method DisplaySendDTMFDialog(number: string) returns (show: bool, rest: string)
      ensures rest == Ripped(number) && show == Displays(number, alwaysConfirm, confirmedOnce)
    {
      show, rest := false, number;
      if |number| > 0 {
        var waitChar;
        waitChar, rest := RipWaitChar(number);
        if waitChar == '/' || waitChar == 'w' {
          show := true;
        } else if waitChar == 'p' || waitChar == ',' {
          show := false;
        } else {
          show := alwaysConfirm || !confirmedOnce;
        }
      }
    }

    /** Hand a number to the phone if a call is still on. */
    method DoSendDTMF(number: string, callActive: bool) returns (ok: bool)
      modifies this`state, this`sent
      ensures ok == callActive && state == (if callActive then DialingDTMF else Idle)
      ensures sent == if callActive then old(sent) + [number] else old(sent)
    {
      state := if callActive then Connected else Idle;
      ok := state == Connected;
      if ok {
        state := DialingDTMF;
        sent := sent + [number];
      }
    }

    /** The user's part of a step: whether the token at the head is to be sent, and what was shown. */
    method AskAbout(shown: string, answer: bool) returns (sendDTMF: bool, dlgNumber: string)
      modifies this`confirmedOnce
      ensures dlgNumber == Ripped(shown)
      ensures var asked := dlgNumber != "" && (alwaysConfirm || !old(confirmedOnce))
                           && Displays(shown, alwaysConfirm, old(confirmedOnce));
              && sendDTMF == (dlgNumber != "" && (asked ==> answer))
              && confirmedOnce == (old(confirmedOnce) || (asked && !alwaysConfirm))
    {
      hide Ripped, Displays;
      sendDTMF := true;
      var show;
      show, dlgNumber := DisplaySendDTMFDialog(shown);
      if show {
        if |dlgNumber| > 0 {
          if alwaysConfirm {
            sendDTMF := answer;
          } else if !confirmedOnce {
            sendDTMF := answer;
            confirmedOnce := true;
          }
        } else {
          sendDTMF := false;
        }
      } else if |dlgNumber| == 0 {
        sendDTMF := false;
      }
    }

    /** One step. A token the user is asked about and refuses is not sent, nor is one that shows
        nothing; of 'p' and ',' the user is not asked. */
    method HandleInternalSendDTMF(m: Moment) returns (o: Outcome)
      modifies this
      ensures (View(), o) == Handle(old(View()), m)
      ensures old(sendable) == [] || old(dlg) == [] ==>
                o == NothingSent && View() == old(View()).(synch := false)
      ensures old(sendable) != [] && old(dlg) != [] ==> Stepped(old(View()), m, View(), o)
      ensures old(sendable) != [] && old(dlg) != [] && !m.answer && (alwaysConfirm || !old(confirmedOnce)) ==>
                var head := old(dlg)[0];
                |head| > 1 && head[0] != 'p' && head[0] != ',' ==>
                  && o == NothingSent && sent == old(sent) && state == old(state)
                  && sendable == old(sendable)[1..] && dlg == old(dlg)[1..]
    {
      hide ValidOnly, Ripped, Displays, Stepped, Asks, ShowsNothing;
      StepIsRight(View(), m);
      synch := false;
      o := NothingSent;
      if |sendable| > 0 && |dlg| > 0 {
        var sendDTMF, dlgNumber := AskAbout(dlg[0], m.answer);
        if sendDTMF {
          var _, number := RipWaitChar(sendable[0]);
          number := ValidateDTMFNumber(number);
          sendable, dlg := sendable[0 := number], dlg[0 := dlgNumber];
          var ok := DoSendDTMF(number, m.callActive);
          if !ok {
            o := Left(Cancelled);
            return;
          }
          o := Sent;
        }
        sendable := sendable[1..];
        dlg := dlg[1..];
      }
    }

    method RunL(c: Completion, m: Moment)
      modifies this
      ensures View() == Completed(old(View()), c, m)
      ensures var steps := c.ok && (old(state) == DialingDTMF || (old(state) == Dialing && c.connected && !old(synch)));
              && (!steps ==> View() == old(View()).(state := state))
              && (!c.ok ==> state == if old(state) == DialingDTMF then Connected else old(state))
              && (c.ok && old(state) == Connected ==> state == if c.hungUp then Idle else Connected)
              && (c.ok && old(state) == Idle ==> state == Idle)
              && (c.ok && old(state) == Dialing && !c.connected ==> state == Dialing)
              && (c.ok && old(state) == Dialing && c.connected && old(synch) ==> state == Connected)
              && (steps && (old(sendable) == [] || old(dlg) == []) ==>
                    View() == old(View()).(synch := false, state := Connected))
              && (steps && old(sendable) != [] && old(dlg) != [] ==>
                    exists o :: Stepped(old(View()).(state := Connected), m, View(), o))
    {
      hide Handle, Stepped;
      CompletedIs(View(), c, m);
      if !c.ok {
        HandleError();
        return;
      }
      match state
      case Dialing =>
        if c.connected {
          state := Connected;
          if !synch {
            var o := HandleInternalSendDTMF(m);
          }
        }
      case DialingDTMF =>
        var o := HandleInternalSendDTMF(m);
        if o == NothingSent {
          state := Connected;
        }
      case Connected =>
        if c.hungUp {
          state := Idle;
        }
      case Idle =>
    }

    method HandleError()
      modifies this`state
      ensures state == if old(state) == DialingDTMF then Connected else old(state)
    {
      if state == DialingDTMF {
        state := Connected;
      }
    }

    /** CheckDTMFNumberL. */
    static method CheckDTMFNumber(number: string) returns (ok: bool)
      ensures ok == Acceptable(number)
    {
      hide Acceptable;
      var multiw, multikeno := false, false;
      EmptyIsAcceptable();
      for i := 0 to |number|
        invariant multiw == ('w' in number[..i]) && multikeno == ('/' in number[..i])
        invariant Acceptable(number[..i])
      {
        OneMoreAcceptable(number, i);
        if !IsValid(number[i]) {
          return false;
        } else if number[i] == 'w' {
          if multiw {
            return false;
          }
          multiw := true;
        } else if number[i] == '/' {
          if multikeno {
            return false;
          }
          multikeno := true;
        }
        assert number[..i + 1] == number[..i] + [number[i]];
      }
      assert number[..|number|] == number;
      ok := true;
    }

    method SendDTMF(number: string, always: bool, active: bool, m: Moment) returns (o: Outcome)
      modifies this
      ensures (View(), o) == Start(old(View()), number, always, active, m)
      ensures var clean := (forall c :: c in number ==> c in "0123456789ABCDabcd*#" || c in "w/p,")
                           && multiset(number)['w'] <= 1 && multiset(number)['/'] <= 1;
              && (!active ==> o == Left(NoCallActive) && state == Idle && sent == old(sent))
              && (active && !clean ==> o == Left(InvalidArgument) && state == Connected && sent == old(sent))
              && (active && clean ==>
                    Stepped(Sender(Connected, true, Sendable(number), ForDialog(number), always, old(confirmedOnce),
                                   old(sent)), m, View(), o))
    {
      hide Handle, Acceptable, Sendable, ForDialog, Stepped;
      AcceptableIs(number);
      alwaysConfirm := always;
      state := if active then Connected else Idle;
      if state != Connected {
        return Left(NoCallActive);
      }
      var ok := CheckDTMFNumber(number);
      if !ok {
        return Left(InvalidArgument);
      }
      synch := true;
      sendable := ParseDTMFSequencesL(number);
      dlg := ParseDTMFSequencesForDlgL(number);
      HandleResetsSynch(View(), m);
      Lockstep(number);
      o := HandleInternalSendDTMF(m);
    }
  }
}
