/**
 * The retry prompts of the booking and editing workflows. The user's answers
 * are given as a script, read one answer per pass of the loop.
 */
module Prompts {

  import opened Records

  /** One answer at a numeric prompt: the cancel token 'C' (either case),
      text that `int()` refuses, or a number. */
  datatype Entry = Cancel | Malformed | Number(n: int)

  /** How a prompt loop ended: with the answer it took (and the pass it came
      in), with the cancel token, with an answer whose query raised and ended
      the program, or with the script exhausted while the loop would still be
      asking. */
  datatype Pick<T> = Picked(value: T, at: nat) | Cancelled(at: nat) | Crashed(at: nat) | Unfinished

  /** The number of answers the loop read before it stopped. */
  function Consumed<T>(p: Pick<T>, total: nat): nat
  {
    match p
    case Picked(_, k) => k
    case Cancelled(k) => k
    case Crashed(k) => k
    case Unfinished => total
  }

  /** An answer the numeric prompt turns down and asks again after. Where the
      prompt has no cancel token, 'C' is just text `int()` refuses. Where the
      prompt binds the number to a query before looking it up (`bound`), a
      number SQLite cannot hold is not refused: the query raises. */
  predicate Refused(e: Entry, accepted: seq<int>, cancellable: bool, bound: bool)
  {
    match e
    case Cancel => !cancellable
    case Malformed => true
    case Number(n) => n !in accepted && (bound ==> SqlInteger(n))
  }

  /**
   * The answer a numeric prompt loop (client key at lines 135-151, room key at
   * 158-166, folio at 254-267) settles on, reading the script from pass
   * `from`: the first answer that is one of `accepted`, or the cancel token
   * where the prompt has one. The client prompt binds the typed key to its
   * lookup query (line 146, `bound`), so a key outside SQLite's INTEGER range
   * raises there and ends the program.
   */
  function FirstNumberFrom(accepted: seq<int>, answers: seq<Entry>, cancellable: bool, bound: bool, from: nat)
    : (p: Pick<int>)
    requires from <= |answers|
    ensures from <= Consumed(p, |answers|) <= |answers|
    ensures p.Picked? ==> p.at < |answers| && answers[p.at] == Number(p.value) && p.value in accepted
    ensures p.Picked? && bound ==> SqlInteger(p.value)
    ensures p.Cancelled? ==> cancellable && p.at < |answers| && answers[p.at] == Cancel
    ensures p.Crashed? ==> bound && p.at < |answers| && answers[p.at].Number? && !SqlInteger(answers[p.at].n)
    ensures forall j :: from <= j < Consumed(p, |answers|) ==> Refused(answers[j], accepted, cancellable, bound)
    decreases |answers| - from
  {
    if from == |answers| then Unfinished
    else
      match answers[from]
      case Cancel =>
        if cancellable then Cancelled(from) else FirstNumberFrom(accepted, answers, cancellable, bound, from + 1)
      case Malformed => FirstNumberFrom(accepted, answers, cancellable, bound, from + 1)
      case Number(n) =>
        if bound && !SqlInteger(n) then Crashed(from)
        else if n in accepted then Picked(n, from)
        else FirstNumberFrom(accepted, answers, cancellable, bound, from + 1)
  }

  /** The answer a numeric prompt settles on, reading the whole script. */
  function FirstNumber(accepted: seq<int>, answers: seq<Entry>, cancellable: bool, bound: bool): Pick<int>
  {
    FirstNumberFrom(accepted, answers, cancellable, bound, 0)
  }

  /** The numeric prompt loop, reading one answer per pass. */
  method SelectNumber(accepted: seq<int>, answers: seq<Entry>, cancellable: bool, bound: bool) returns (p: Pick<int>)
    ensures p == FirstNumber(accepted, answers, cancellable, bound)
  {
    var k := 0;
    while k < |answers|
      invariant k <= |answers|
      invariant FirstNumberFrom(accepted, answers, cancellable, bound, k) == FirstNumber(accepted, answers, cancellable, bound)
    {
      match answers[k] {
        case Cancel =>
          if cancellable {
            return Cancelled(k);
          }
        case Malformed =>
        case Number(n) =>
          if bound && !SqlInteger(n) {
            return Crashed(k);
          }
          if n in accepted {
            return Picked(n, k);
          }
      }
      k := k + 1;
    }
    return Unfinished;
  }

  /** At the client prompt a key of 2^63 ends the program before a later
      valid key is read; at the folio prompt, which compares in Python, the
      same answer is only refused. */
  lemma OversizedKeyExample()
    ensures FirstNumber([1], [Number(0x8000_0000_0000_0000), Number(1)], true, true) == Crashed(0)
    ensures FirstNumber([1], [Number(0x8000_0000_0000_0000), Number(1)], true, false) == Picked(1, 1)
  {
  }

  /**
   * The answer the shift prompt loop (lines 171-176) settles on, reading the
   * script from pass `from`: the first (already normalised) answer that is one
   * of the offered shifts. The prompt has no cancel token.
   */
  function FirstShiftFrom(offered: seq<string>, answers: seq<string>, from: nat): (p: Pick<string>)
    requires from <= |answers|
    ensures !p.Cancelled? && !p.Crashed?
    ensures from <= Consumed(p, |answers|) <= |answers|
    ensures p.Picked? ==> p.at < |answers| && answers[p.at] == p.value && p.value in offered
    ensures forall j :: from <= j < Consumed(p, |answers|) ==> answers[j] !in offered
    decreases |answers| - from
  {
    if from == |answers| then Unfinished
    else if answers[from] in offered then Picked(answers[from], from)
    else FirstShiftFrom(offered, answers, from + 1)
  }

  /** The shift the shift prompt settles on, reading the whole script. */
  function FirstShift(offered: seq<string>, answers: seq<string>): Pick<string>
  {
    FirstShiftFrom(offered, answers, 0)
  }

  /** The shift prompt loop, reading one answer per pass. */
  method SelectShift(offered: seq<string>, answers: seq<string>) returns (p: Pick<string>)
    ensures p == FirstShift(offered, answers)
  {
    var k := 0;
    while k < |answers|
      invariant k <= |answers|
      invariant FirstShiftFrom(offered, answers, k) == FirstShift(offered, answers)
    {
      if answers[k] in offered {
        return Picked(answers[k], k);
      }
      k := k + 1;
    }
    return Unfinished;
  }
}
