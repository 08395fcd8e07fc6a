/** From the number of a call request to the string that is dialled. */
module DialString {
  import opened Octets

  /** The character tests of the platform; `upper` is its upper-casing. */
  datatype Chars = Chars(isSpace: char -> bool, isDigit: char -> bool, upper: char -> char)

  datatype Verdict = Keep | Drop | Reject

  /** What number validation does with a character; '+' may only come first, DTMF and wait
      characters may not. */
  function Judge(u: Chars, c: char, first: bool): Verdict {
    if u.isSpace(c) then Drop
    else if u.isDigit(c) then Keep
    else if c == '+' then if first then Keep else Reject
    else if u.upper(c) in "*#ABCDPW,/" then if first then Reject else Keep
    else if u.upper(c) in ".-()" then Drop
    else Reject
  }

  predicate Dropped(u: Chars, c: char) { Judge(u, c, false) == Drop }

  function WithoutDropped(u: Chars, s: string): string {
    if s == "" then ""
    else (if Dropped(u, s[0]) then "" else [s[0]]) + WithoutDropped(u, s[1..])
  }

  /** Every character may stand where it stands. */
  ghost predicate Dialable(u: Chars, s: string) {
    forall i :: 0 <= i < |s| ==> Judge(u, s[i], i == 0) == Keep
  }

  /** Where each character may stand, and which are deleted: digits anywhere, a '+' in front only, the
      DTMF and pause characters in either case behind the first place; spaces and ".-()" go. */
  lemma DialableIs(u: Chars, s: string)
    ensures Dialable(u, s) <==>
              forall i :: 0 <= i < |s| ==>
                && !u.isSpace(s[i])
                && (u.isDigit(s[i]) || (s[i] == '+' && i == 0)
                    || (s[i] != '+' && i > 0 && u.upper(s[i]) in ['*', '#', 'A', 'B', 'C', 'D', 'P', 'W', ',', '/']))
    ensures forall c :: Dropped(u, c) <==>
              u.isSpace(c) || (!u.isDigit(c) && c != '+' && u.upper(c) in ['.', '-', '(', ')'])
  {
  }

  lemma WithoutDroppedStep(u: Chars, s: string, i: nat)
    requires i < |s|
    ensures Dropped(u, s[i]) ==> WithoutDropped(u, s[i..]) == WithoutDropped(u, s[i + 1..])
    ensures !Dropped(u, s[i]) ==> WithoutDropped(u, s[i..]) == [s[i]] + WithoutDropped(u, s[i + 1..])
  {
    assert s[i..][1..] == s[i + 1..];
  }

  lemma OneMore(u: Chars, s: string, i: nat, tail: string)
    requires i < |s| && Dialable(u, s[..i])
    ensures s[..i] + ([s[i]] + tail) == s[..i + 1] + tail
    ensures Judge(u, s[i], i == 0) == Keep ==> Dialable(u, s[..i + 1])
    ensures Judge(u, s[i], i == 0) == Reject ==> !Dialable(u, s[..i + 1] + tail)
  {
    assert (s[..i + 1] + tail)[i] == s[i];
  }

  lemma OneLess(s: string, i: nat)
    requires i < |s|
    ensures var t := s[..i] + s[i + 1..]; |t| == |s| - 1 && t[..i] == s[..i] && t[i..] == s[i + 1..]
  {
  }

  /** ValidateNumberL: delete and check in one pass over the shrinking buffer. The outcome is the
      number without the dropped characters if all of that is dialable, and an error otherwise. */
  method ValidateNumber(u: Chars, number: string) returns (r: Option<string>)
    ensures var kept := WithoutDropped(u, number);
            r == if Dialable(u, kept) then Some(kept) else None
    ensures r.Some? ==> forall i :: 0 <= i < |r.value| ==>
              && !u.isSpace(r.value[i]) && (r.value[i] == '+' && !u.isDigit('+') ==> i == 0)
              && (u.isDigit(r.value[i]) || r.value[i] == '+' || u.upper(r.value[i]) in "*#ABCDPW,/")
  {
    hide WithoutDropped, Dialable;
    var ptr := number;
    var i := 0;
    EmptyIsDialable(u);
    assert number[0..] == number;
    while i < |ptr|
      invariant i <= |ptr|
      invariant WithoutDropped(u, number) == ptr[..i] + WithoutDropped(u, ptr[i..])
      invariant Dialable(u, ptr[..i])
      decreases |ptr| - i
    {
      var c := ptr[i];
      WithoutDroppedStep(u, ptr, i);
      OneMore(u, ptr, i, WithoutDropped(u, ptr[i + 1..]));
      OneLess(ptr, i);
      if u.isSpace(c) {
        ptr := ptr[..i] + ptr[i + 1..];
      } else if u.isDigit(c) {
        i := i + 1;
      } else if c == '+' {
        if i != 0 {
          return None;
        }
        i := i + 1;
      } else if u.upper(c) in "*#ABCDPW,/" {
        if i == 0 {
          return None;
        }
        i := i + 1;
      } else if u.upper(c) in ".-()" {
        ptr := ptr[..i] + ptr[i + 1..];
      } else {
        return None;
      }
    }
    EmptyIsDialable(u);
    assert ptr[i..] == "" && ptr[..i] == ptr && ptr + "" == ptr;
    DialableIs(u, ptr);
    r := Some(ptr);
  }

  lemma EmptyIsDialable(u: Chars)
    ensures Dialable(u, "") && WithoutDropped(u, "") == ""
  {
  }

  /** Validation is idempotent, and every front part of a valid number is valid again. */
  lemma {:induction false} DialableStays(u: Chars, s: string, n: nat)
    requires Dialable(u, s) && n <= |s|
    ensures Dialable(u, s[..n]) && WithoutDropped(u, s[..n]) == s[..n]
  {
    NothingToDrop(u, s[..n]);
  }

  lemma {:induction false} NothingToDrop(u: Chars, s: string)
    requires forall i :: 0 <= i < |s| ==> !Dropped(u, s[i])
    ensures WithoutDropped(u, s) == s
  {
    if s != "" {
      NothingToDrop(u, s[1..]);
    }
  }

  // ----- splitting

  /** The first place of `t` at or after `from`. */
  function Find(s: string, t: string, from: nat): (r: Option<nat>)
    ensures r.Some? ==> from <= r.value <= |s| && MatchAt(s, r.value, t)
    ensures forall i :: from <= i < (if r.Some? then r.value else |s| + 1) ==> !MatchAt(s, i, t)
    decreases |s| - from
  {
    if from > |s| then None
    else if MatchAt(s, from, t) then Some(from)
    else Find(s, t, from + 1)
  }

  const POSTD: string := ";postd="

  lemma {:induction false} FindIs(s: string, t: string, from: nat, i: nat)
    requires from <= i && MatchAt(s, i, t) && forall k :: from <= k < i ==> !MatchAt(s, k, t)
    ensures Find(s, t, from) == Some(i)
    decreases i - from
  {
    if from < i {
      FindIs(s, t, from + 1, i);
    }
  }

  lemma {:induction false} FindNone(s: string, t: string, from: nat)
    requires forall k :: from <= k <= |s| ==> !MatchAt(s, k, t)
    ensures Find(s, t, from) == None
    decreases |s| - from
  {
    if from <= |s| {
      FindNone(s, t, from + 1);
    }
  }

  /** FindPostdParmL: number, separator and post-dial string put together are what was given, and no
      separator starts in front of that one; without one nothing is cut off. */
  method FindPostdParm(number: string) returns (r: string, postd: Option<string>)
    ensures postd.Some? ==>
              number == r + POSTD + postd.value && forall i :: 0 <= i < |r| ==> !MatchAt(number, i, POSTD)
    ensures postd.None? ==> r == number && forall i :: 0 <= i <= |number| ==> !MatchAt(number, i, POSTD)
  {
    match Find(number, POSTD, 0)
    case None => r, postd := number, None;
    case Some(i) =>
      r, postd := number[..i], Some(number[i + |POSTD|..]);
      assert number[i..i + |POSTD|] == POSTD;
      assert number == number[..i] + number[i..i + |POSTD|] + number[i + |POSTD|..];
  }

  /** There is only one such way to take a number apart. */
  lemma PostdIsUnique(number: string, r: string, postd: Option<string>)
    requires postd.Some? ==>
               number == r + POSTD + postd.value && forall i :: 0 <= i < |r| ==> !MatchAt(number, i, POSTD)
    requires postd.None? ==> r == number && forall i :: 0 <= i <= |number| ==> !MatchAt(number, i, POSTD)
    ensures r == Core(number, false) && postd.GetOr("") == Postd(number)
  {
    hide Find;
    if postd.Some? {
      assert number[|r|..|r| + |POSTD|] == POSTD;
      FindIs(number, POSTD, 0, |r|);
      assert number[..|r|] == r && number[|r| + |POSTD|..] == postd.value;
    } else {
      FindNone(number, POSTD, 0);
    }
  }

  /** Where a separator cuts: at its first place, unless that is the very front. */
  function CutAt(s: string, separator: string): (i: nat)
    ensures i <= |s|
  {
    match Find(s, separator, 0)
    case None => |s|
    case Some(i) => if i > 0 then i else |s|
  }

  lemma MatchOfOne(s: string, i: nat, t: string)
    requires |t| == 1
    ensures MatchAt(s, i, t) <==> i < |s| && s[i] == t[0]
  {
    if i < |s| {
      assert s[i..i + 1] == [s[i]] && t == [t[0]];
    }
  }

  /** A text cut at the first place of a separator, unless that is the very front. */
  ghost predicate IsCut(s: string, separator: char, front: string, tail: string) {
    && front + tail == s
    && (tail != "" ==> front != "" && tail[0] == separator && separator !in front)
    && (tail == "" ==> separator !in front || (front != "" && front[0] == separator))
  }

  lemma CutAtIs(s: string, separator: string)
    requires |separator| == 1
    ensures IsCut(s, separator[0], s[..CutAt(s, separator)], s[CutAt(s, separator)..])
  {
    forall i: nat ensures MatchAt(s, i, separator) <==> i < |s| && s[i] == separator[0] {
      MatchOfOne(s, i, separator);
    }
  }

  /** FindAndRipURIParametersL, and FindAndRipVoipParametersL with '@'. */
  method RipParameters(number: string, separator: char) returns (r: string, parameters: string)
    ensures r == number[..CutAt(number, [separator])] && parameters == number[CutAt(number, [separator])..]
    ensures IsCut(number, separator, r, parameters)
  {
    CutAtIs(number, [separator]);
    r, parameters := number, "";
    var offset := Find(number, [separator], 0);
    if offset.Some? && offset.value > 0 {
      r, parameters := number[..offset.value], number[offset.value..];
    }
  }

  predicate IsDtmfStart(c: char) { c in "/wp,*#" }

  function FirstDtmf(s: string): (i: nat)
    ensures i <= |s| && (i < |s| ==> IsDtmfStart(s[i]))
    ensures forall k :: 0 <= k < i ==> !IsDtmfStart(s[k])
  {
    if s == "" || IsDtmfStart(s[0]) then 0 else 1 + FirstDtmf(s[1..])
  }

  /** '/' and ',' become the pause the call interface knows. */
  function Paused(c: char): char { if c == '/' || c == ',' then 'p' else c }

  function WithPauses(s: string): (r: string)
    ensures |r| == |s| && forall i :: 0 <= i < |s| ==> r[i] == Paused(s[i])
  {
    seq(|s|, i requires 0 <= i < |s| => Paused(s[i]))
  }

  /** FindAndRipDTMFSequenceL: cut at the first DTMF character, replace in place behind it. */
  method RipDtmf(number: string) returns (r: string, dtmf: Option<string>)
    ensures r == number[..FirstDtmf(number)]
    ensures dtmf == if FirstDtmf(number) == |number| then None else Some(WithPauses(number[FirstDtmf(number)..]))
    ensures forall c :: c in r ==> c !in "/wp,*#"
    ensures match dtmf
            case None => r == number
            case Some(t) =>
              && r <= number && |r| + |t| == |number| && t != "" && number[|r|] in "/wp,*#"
              && forall i :: 0 <= i < |t| ==>
                   t[i] == if number[|r| + i] == '/' || number[|r| + i] == ',' then 'p' else number[|r| + i]
  {
    for i := 0 to |number|
      invariant forall k :: 0 <= k < i ==> !IsDtmfStart(number[k])
    {
      if IsDtmfStart(number[i]) {
        assert i == FirstDtmf(number);
        var buf := number[i..];
        for j := 0 to |buf|
          invariant |buf| == |number| - i
          invariant forall k :: 0 <= k < j ==> buf[k] == Paused(number[i + k])
          invariant forall k :: j <= k < |buf| ==> buf[k] == number[i + k]
        {
          if buf[j] == '/' || buf[j] == ',' {
            buf := buf[j := 'p'];
          }
        }
        assert buf == WithPauses(number[i..]);
        return number[..i], Some(buf);
      }
    }
    assert FirstDtmf(number) == |number| && number[..|number|] == number;
    return number, None;
  }

  // ----- the call

  datatype Error = InvocationError | NumberTooLong | Cancelled
  type Service = string -> Option<string>

  datatype Call = Ignored | Left(error: Error) | Dialled(number: string)

  /** The number a request comes down to before validation: without ";postd=" and what follows,
      for a VoIP call without '@' and what follows, and without URI parameters. */
  function Core(number: string, voip: bool): string {
    var a := match Find(number, POSTD, 0) case None => number case Some(i) => number[..i];
    if voip then a[..CutAt(a, "@")] else a
  }

  function Parameters(number: string, voip: bool): string {
    Core(number, voip)[CutAt(Core(number, voip), ";")..]
  }

  function Base(number: string, voip: bool): string {
    Core(number, voip)[..CutAt(Core(number, voip), ";")]
  }

  class Dialer {
    var idle: bool
    var alwaysConfirm: bool
    var confirmedOnce: bool

    /** SendDMFConfQueryL. Once the user has been asked without `alwaysConfirm`, later DTMF strings
        are neither shown nor dialled. */
    method ConfirmDtmf(dtmf: string, answer: bool) returns (send: bool)
      modifies this`confirmedOnce
      ensures send == (dtmf != "" && answer && (alwaysConfirm || !old(confirmedOnce)))
      ensures confirmedOnce == (old(confirmedOnce) || (dtmf != "" && !alwaysConfirm))
    {
      send := false;
      if |dtmf| == 0 {
        return;
      }
      if alwaysConfirm {
        send := answer;
      } else if !confirmedOnce {
        send := answer;
        confirmedOnce := true;
      }
    }

    /** MakeCallL. `maxLength` is the platform's limit, `prefixed` its number prefix service (it changes
        nothing where that feature is missing, and is None when the number gets too long), `confirmCall`
        and `confirmDtmf` the user's answers. The confirmation dialog validates the base once more; that
        never fails. */
    method MakeCall(u: Chars, given: string, always: bool, voip: bool, maxLength: nat, prefixed: Service,
                    confirmCall: bool, confirmDtmf: bool)
      returns (call: Call)
      modifies this
      ensures idle == old(idle) && alwaysConfirm == always
      ensures !idle ==> call == Ignored && confirmedOnce == old(confirmedOnce)
      ensures idle && given == "" ==> call == Left(InvocationError)
      ensures idle && given != "" && (|given| > maxLength || prefixed(given).None?) ==> call == Left(NumberTooLong)
      ensures idle && 0 < |given| <= maxLength && prefixed(given).Some? ==>
                var number := prefixed(given).value;
                && call == PlannedCall(u, number, voip, confirmCall, confirmDtmf && (always || !old(confirmedOnce)))
                && confirmedOnce == (old(confirmedOnce) || (call.Dialled? && !always && HasDtmf(u, number, voip)))
      ensures !confirmCall ==> !call.Dialled?
      ensures idle && 0 < |given| <= maxLength && prefixed(given).Some? ==>
                var number := prefixed(given).value;
                var valid := WithoutDropped(u, Base(number, voip));
                var tones := confirmDtmf && (always || !old(confirmedOnce));
                && (!Dialable(u, valid) ==> call == Left(InvocationError))
                && (Dialable(u, valid) && !confirmCall ==> call == Left(Cancelled))
                && (Dialable(u, valid) && confirmCall ==>
                      DialsRightly(valid, Postd(number), Parameters(number, voip), tones, call))
      ensures idle && 0 < |given| <= maxLength && prefixed(given).Some? && !voip && confirmCall ==>
                var number := prefixed(given).value;
                var cut := CutAt(number, ";");
                var valid := WithoutDropped(u, number[..cut]);
                Find(number, POSTD, 0) == None && Dialable(u, valid) ==>
                  (call == Dialled(WithPauses(valid) + number[cut..])
                   <==> FirstDtmf(valid) == |valid| || (confirmDtmf && (always || !old(confirmedOnce))))
    {
      hide WithoutDropped, FirstDtmf, Find, Dialable, WithPauses, CutAt, Base, Parameters, Postd, PlannedCall, HasDtmf,
           DialsRightly;
      alwaysConfirm := always;
      if !idle {
        return Ignored;
      }
      if |given| == 0 {
        return Left(InvocationError);
      }
      if |given| > maxLength || prefixed(given).None? {
        return Left(NumberTooLong);
      }
      var number := prefixed(given).value;
      call := Dial(u, number, voip, confirmCall, confirmDtmf);
      if !voip && confirmCall && Find(number, POSTD, 0) == None
         && Dialable(u, WithoutDropped(u, number[..CutAt(number, ";")])) {
        DialStringIsConserved(u, number, confirmDtmf && (always || !old(confirmedOnce)));
      }
    }

    /** MakeCallL from the splitting of the number on. */
    method Dial(u: Chars, number: string, voip: bool, confirmCall: bool, confirmDtmf: bool) returns (call: Call)
      modifies this`confirmedOnce
      ensures var valid := WithoutDropped(u, Base(number, voip));
              var tones := confirmDtmf && (alwaysConfirm || !old(confirmedOnce));
              && (!Dialable(u, valid) ==> call == Left(InvocationError))
              && (Dialable(u, valid) && !confirmCall ==> call == Left(Cancelled))
              && (Dialable(u, valid) && confirmCall ==>
                    DialsRightly(valid, Postd(number), Parameters(number, voip), tones, call))
      ensures call == PlannedCall(u, number, voip, confirmCall, confirmDtmf && (alwaysConfirm || !old(confirmedOnce)))
      ensures confirmedOnce == (old(confirmedOnce) || (call.Dialled? && !alwaysConfirm && HasDtmf(u, number, voip)))
    {
      hide WithoutDropped, FirstDtmf, Find, Dialable, WithPauses, CutAt, Base, Parameters, Postd, DialsRightly;
      PlanIs(u, number, voip, confirmCall, confirmDtmf && (alwaysConfirm || !confirmedOnce));
      var base, parameters, postd, _ := SplitNumber(number, voip);
      var valid := ValidateNumber(u, base);
      if valid.None? {
        return Left(InvocationError);
      }
      var plain, dtmf := RipDtmf(valid.value);
      var isPostd := dtmf.None? && postd.Some?;
      if isPostd {
        dtmf := postd;
      }
      DialableStays(u, valid.value, |plain|);
      var shown := ValidateNumber(u, plain);
      assert shown == Some(plain);
      if !confirmCall {
        return Left(Cancelled);
      }
      var dial := plain;
      if dtmf.Some? {
        var send := ConfirmDtmf(dtmf.value, confirmDtmf);
        if send {
          dial := plain + (if isPostd then "p" else "") + dtmf.value;
          NoPrefix(plain, dtmf.value);
        }
      }
      NoPrefix(plain, parameters);
      return Dialled(dial + parameters);
    }
  }

  /** What is dialled for a valid number. Without DTMF characters in it, the number, "p" and the
      post-dial string if there is one and its tones are confirmed, and the parameters. With DTMF
      characters, the whole number with its pauses if the tones are confirmed and otherwise what stands
      in front of them; a post-dial string is then left out. */
  ghost predicate DialsRightly(valid: string, postd: string, parameters: string, tones: bool, call: Call) {
    if forall i :: 0 <= i < |valid| ==> !IsDtmfStart(valid[i]) then
      call == Dialled(valid + (if tones && postd != "" then "p" + postd else "") + parameters)
    else if tones then
      && call.Dialled? && |call.number| == |valid| + |parameters| && call.number[|valid|..] == parameters
      && forall i :: 0 <= i < |valid| ==>
           call.number[i] == if valid[i] == '/' || valid[i] == ',' then 'p' else valid[i]
    else
      exists f :: 0 <= f < |valid| && IsDtmfStart(valid[f]) && (forall i :: 0 <= i < f ==> !IsDtmfStart(valid[i]))
        && call == Dialled(valid[..f] + parameters)
  }

  lemma PausesStand(valid: string, parameters: string)
    ensures var number := valid[..FirstDtmf(valid)] + WithPauses(valid[FirstDtmf(valid)..]) + parameters;
            && |number| == |valid| + |parameters| && number[|valid|..] == parameters
            && forall i :: 0 <= i < |valid| ==>
                 number[i] == if valid[i] == '/' || valid[i] == ',' then 'p' else valid[i]
  {
    hide FirstDtmf, WithPauses;
    PausesBehind(valid);
    var number := valid[..FirstDtmf(valid)] + WithPauses(valid[FirstDtmf(valid)..]) + parameters;
    assert number == WithPauses(valid) + parameters;
    forall i | 0 <= i < |valid| ensures number[i] == Paused(valid[i]) {
      assert number[i] == WithPauses(valid)[i];
    }
  }

  lemma QuietDialsRightly(valid: string, postd: string, parameters: string, tones: bool)
    requires FirstDtmf(valid) == |valid|
    ensures DialsRightly(valid, postd, parameters, tones,
                         Dialled(valid + (if tones && postd != "" then "p" + postd else "") + parameters))
  {
    hide FirstDtmf, IsDtmfStart;
  }

  lemma PausedDialsRightly(valid: string, postd: string, parameters: string)
    requires FirstDtmf(valid) < |valid|
    ensures var f := FirstDtmf(valid);
            DialsRightly(valid, postd, parameters, true, Dialled(valid[..f] + WithPauses(valid[f..]) + parameters))
  {
    hide FirstDtmf, IsDtmfStart, WithPauses;
    PausesStand(valid, parameters);
  }

  lemma CutDialsRightly(valid: string, postd: string, parameters: string)
    requires FirstDtmf(valid) < |valid|
    ensures DialsRightly(valid, postd, parameters, false, Dialled(valid[..FirstDtmf(valid)] + parameters))
  {
    hide FirstDtmf, IsDtmfStart;
  }

  lemma PlanDialsRightly(valid: string, postd: string, parameters: string, tones: bool)
    ensures var f := FirstDtmf(valid);
            var behind := if !tones then ""
                          else if f < |valid| then WithPauses(valid[f..])
                          else if postd != "" then "p" + postd
                          else "";
            DialsRightly(valid, postd, parameters, tones, Dialled(valid[..f] + behind + parameters))
  {
    hide FirstDtmf, WithPauses, DialsRightly;
    var f := FirstDtmf(valid);
    assert valid[..f] + "" == valid[..f];
    if f == |valid| {
      assert valid[..f] == valid;
      QuietDialsRightly(valid, postd, parameters, tones);
    } else if tones {
      PausedDialsRightly(valid, postd, parameters);
    } else {
      CutDialsRightly(valid, postd, parameters);
    }
  }

  lemma PlanIs(u: Chars, number: string, voip: bool, confirmCall: bool, tones: bool)
    ensures var valid := WithoutDropped(u, Base(number, voip));
            var call := PlannedCall(u, number, voip, confirmCall, tones);
            && (!Dialable(u, valid) ==> call == Left(InvocationError))
            && (Dialable(u, valid) && !confirmCall ==> call == Left(Cancelled))
            && (Dialable(u, valid) && confirmCall ==>
                  DialsRightly(valid, Postd(number), Parameters(number, voip), tones, call))
  {
    hide WithoutDropped, FirstDtmf, Dialable, WithPauses, Base, Parameters, Postd, DialsRightly;
    PlanDialsRightly(WithoutDropped(u, Base(number, voip)), Postd(number), Parameters(number, voip), tones);
  }

  lemma NoPrefix(a: string, b: string)
    ensures a + "" + b == a + b && a + ("p" + b) == a + "p" + b
  {
  }

  /** The number taken apart before validation: base, URI parameters, the host of a VoIP call, and
      ";postd=" with what follows it, in this order and with nothing lost. */
  method SplitNumber(number: string, voip: bool)
    returns (base: string, parameters: string, postd: Option<string>, ghost host: string)
    ensures base == Base(number, voip) && parameters == Parameters(number, voip)
    ensures postd.GetOr("") == Postd(number)
    ensures base + parameters + host + (if postd.Some? then ";postd=" + postd.value else "") == number
    ensures forall i :: 0 <= i < |number| && MatchAt(number, i, ";postd=") ==>
              postd.Some? && i >= |base + parameters + host|
    ensures IsCut(base + parameters, ';', base, parameters)
    ensures if voip then IsCut(base + parameters + host, '@', base + parameters, host) else host == ""
  {
    hide Find, IsCut, CutAt;
    assert "@" == ['@'] && ";" == [';'];
    var core, ripped;
    core, postd := FindPostdParm(number);
    PostdIsUnique(number, core, postd);
    host := "";
    if voip {
      core, ripped := RipParameters(core, '@');
      host := ripped;
    }
    base, parameters := RipParameters(core, ';');
    assert base + parameters == core;
    assert parameters == (base + parameters)[|base|..];
  }

  function Postd(number: string): string {
    match Find(number, POSTD, 0) case None => "" case Some(i) => number[i + |POSTD|..]
  }

  /** There is a DTMF string to ask about: in the number itself, or behind ";postd=". */
  predicate HasDtmf(u: Chars, number: string, voip: bool) {
    var valid := WithoutDropped(u, Base(number, voip));
    FirstDtmf(valid) < |valid| || Postd(number) != ""
  }

  /** The string a request dials; `tones` says that a DTMF string, if there is one, is confirmed. */
  ghost function PlannedCall(u: Chars, number: string, voip: bool, confirmCall: bool, tones: bool): Call {
    var valid := WithoutDropped(u, Base(number, voip));
    var cut := FirstDtmf(valid);
    var behind :=
      if !tones then ""
      else if cut < |valid| then WithPauses(valid[cut..])
      else if Postd(number) != "" then "p" + Postd(number)
      else "";
    if !Dialable(u, valid) then Left(InvocationError)
    else if !confirmCall then Left(Cancelled)
    else Dialled(valid[..cut] + behind + Parameters(number, voip))
  }

  /** Conservation of the dial string: without ";postd=" and not over VoIP, a confirmed call dials
      the validated number with '/' and ',' as pauses, followed by the unchanged URI parameters,
      exactly when it has no DTMF characters or its tones go with it. */
  lemma DialStringIsConserved(u: Chars, number: string, tones: bool)
    requires Find(number, POSTD, 0) == None
    requires var valid := WithoutDropped(u, number[..CutAt(number, ";")]); Dialable(u, valid)
    ensures var cut := CutAt(number, ";");
            var valid := WithoutDropped(u, number[..cut]);
            PlannedCall(u, number, false, true, tones) == Dialled(WithPauses(valid) + number[cut..])
            <==> tones || FirstDtmf(valid) == |valid|
  {
    hide Find, WithoutDropped, Dialable, FirstDtmf, WithPauses;
    var cut := CutAt(number, ";");
    var valid := WithoutDropped(u, number[..cut]);
    var f := FirstDtmf(valid);
    PausesBehind(valid);
    assert Postd(number) == "" && Base(number, false) == number[..cut] && Parameters(number, false) == number[cut..];
    if tones && f < |valid| {
      assert valid[..f] + WithPauses(valid[f..]) == WithPauses(valid);
    } else {
      assert valid[..f] + "" == valid[..f];
      SuffixDecides(valid[..f], WithPauses(valid), number[cut..]);
    }
  }

  lemma SuffixDecides(a: string, b: string, c: string)
    ensures a + c == b + c <==> a == b
  {
    if a + c == b + c {
      assert |a| == |b| && (a + c)[..|a|] == a && (b + c)[..|b|] == b;
    }
  }

  lemma PausesBehind(valid: string)
    ensures var f := FirstDtmf(valid);
            && WithPauses(valid) == valid[..f] + WithPauses(valid[f..])
            && (f == |valid| ==> WithPauses(valid) == valid == valid[..f])
            && (f < |valid| ==> |WithPauses(valid)| > |valid[..f]|)
  {
    hide WithPauses;
    var f := FirstDtmf(valid);
    PausesSplit(valid, f);
    NoPauses(valid[..f]);
    assert valid[..|valid|] == valid && valid[|valid|..] == "";
  }

  lemma PausesSplit(s: string, f: nat)
    requires f <= |s|
    ensures WithPauses(s) == WithPauses(s[..f]) + WithPauses(s[f..])
  {
    hide WithPauses, Paused;
  }

  lemma NoPauses(s: string)
    requires forall k :: 0 <= k < |s| ==> !IsDtmfStart(s[k])
    ensures WithPauses(s) == s
  {
    hide WithPauses;
    forall k | 0 <= k < |s| ensures WithPauses(s)[k] == s[k] {
      NoPauseInFront(s[k]);
    }
  }

  lemma NoPauseInFront(c: char)
    requires !IsDtmfStart(c)
    ensures Paused(c) == c
  {
  }

  /** A post-dial string: its tones are dialled behind a pause, in front of the URI parameters that
      stood in front of it. */
  lemma PostDialIsDialled(u: Chars, base: string, parameters: string, postd: string)
    requires Dialable(u, base) && base != "" && postd != ""
    requires forall i :: 0 <= i < |base| ==> base[i] != ';' && base[i] !in "/wp,*#"
    requires parameters == "" || parameters[0] == ';'
    requires var number := base + parameters + ";postd=" + postd;
             forall i :: 0 <= i < |base + parameters| ==> !MatchAt(number, i, ";postd=")
    ensures PlannedCall(u, base + parameters + ";postd=" + postd, false, true, true)
            == Dialled(base + "p" + postd + parameters)
  {
    hide WithoutDropped, Dialable, FirstDtmf, Find, CutAt;
    var number := base + parameters + ";postd=" + postd;
    PostdIsUnique(number, base + parameters, Some(postd));
    CutIsUnique(base + parameters, ";", base, parameters);
    DialableStays(u, base, |base|);
    assert base[..|base|] == base;
    assert FirstDtmf(base) == |base|;
    assert Base(number, false) == base && Parameters(number, false) == parameters;
    NoPrefix(base, postd);
  }

  lemma CutIsUnique(s: string, separator: string, front: string, tail: string)
    requires |separator| == 1 && IsCut(s, separator[0], front, tail)
    ensures s[..CutAt(s, separator)] == front && s[CutAt(s, separator)..] == tail
  {
    hide Find;
    forall i: nat ensures MatchAt(s, i, separator) <==> i < |s| && s[i] == separator[0] {
      MatchOfOne(s, i, separator);
    }
    if tail != "" {
      assert s[|front|] == separator[0];
      FindIs(s, separator, 0, |front|);
    } else {
      assert s == front;
    }
  }

  const PLAIN: Chars :=
    Chars(c => c == ' ', c => '0' <= c <= '9', c => if 'a' <= c <= 'z' then (c as int - 32) as char else c)

  /** "1p2": the first confirmed call dials it; once the user has been asked and need not always be,
      a later one dials "1" only, whatever the user would answer. */
  lemma LaterTonesAreDropped(answer: bool)
    ensures PlannedCall(PLAIN, "1p2", false, true, true && (false || !false)) == Dialled("1p2")
    ensures PlannedCall(PLAIN, "1p2", false, true, answer && (false || !true)) == Dialled("1")
  {
    hide Find, CutAt, Dialable, WithoutDropped, FirstDtmf, WithPauses;
    var n := "1p2";
    FindNone(n, POSTD, 0);
    NoSeparator(n);
    ValidatesTo(n);
    assert n[..3] == n && n[3..] == "" && n[..1] == "1" && n[1..] == "p2";
    assert "1" + "p2" + "" == "1p2" && "1" + "" + "" == "1";
  }

  lemma ValidatesTo(n: string)
    requires n == "1p2"
    ensures WithoutDropped(PLAIN, n) == n && Dialable(PLAIN, n) && FirstDtmf(n) == 1 && WithPauses("p2") == "p2"
  {
    hide WithoutDropped, WithPauses;
    NothingToDrop(PLAIN, n);
    FirstIsSecond(n);
    assert WithPauses("p2") == "p2";
  }

  lemma FirstIsSecond(n: string)
    requires |n| > 1 && !IsDtmfStart(n[0]) && IsDtmfStart(n[1])
    ensures FirstDtmf(n) == 1
  {
    assert n[1..][0] == n[1];
  }

  lemma NoSeparator(n: string)
    requires n == "1p2"
    ensures CutAt(n, ";") == |n|
  {
    forall k | 0 <= k <= |n| ensures !MatchAt(n, k, ";") {
      assert k < |n| ==> n[k..k + 1][0] == n[k] != ';';
    }
    FindNone(n, ";", 0);
  }
}
