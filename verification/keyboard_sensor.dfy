/** `KeyboardPanicSensor`: a latch set by the key `p`. The character waiting
    on standard input, if any, is the argument `pending`: `is_data()` is
    `pending.Some?` and `sys.stdin.read(1)` consumes it. */
module KeyboardSensor {
  import opened Common

  const Name: seq<char> := "Keyboard Panic"
  const Weight: real := 10.0
  const PanicKey: char := 'p'

  /** One `check_threat`: the score, the latch afterwards, and whether the
      pending character was read. */
  datatype Step = Step(score: real, triggered: bool, consumed: bool)

  function CheckThreat(triggered: bool, pending: Option<char>): (r: Step)
    ensures r.score == 1.0 <==> r.triggered
    ensures r.score == 0.0 <==> !r.triggered
    ensures triggered ==> r == Step(1.0, true, false)
    ensures r.consumed <==> !triggered && pending.Some?
    ensures !triggered ==> (r.triggered <==> pending == Some(PanicKey))
  {
    if triggered then Step(1.0, true, false)
    else match pending
      case None => Step(0.0, false, false)
      case Some(c) => if c == PanicKey then Step(1.0, true, true) else Step(0.0, false, true)
  }

  function Reset(): (triggered: bool)
    ensures !triggered
  {
    false
  }

  /** Successive checks over the characters offered at each poll. */
  function Run(triggered: bool, inputs: seq<Option<char>>): (scores: seq<real>)
    ensures |scores| == |inputs|
    decreases |inputs|
  {
    if |inputs| == 0 then []
    else
      var s := CheckThreat(triggered, inputs[0]);
      [s.score] + Run(s.triggered, inputs[1..])
  }

  /** The latch: from the poll that reads `p` on, every check scores 1.0,
      whatever is typed afterwards. */
  lemma {:induction false} PanicLatches(triggered: bool, inputs: seq<Option<char>>, i: nat)
    requires i < |inputs| && inputs[i] == Some(PanicKey)
    ensures forall j :: i <= j < |inputs| ==> Run(triggered, inputs)[j] == 1.0
    decreases |inputs|
  {
    var s := CheckThreat(triggered, inputs[0]);
    if i == 0 {
      assert s.triggered;
      StaysTriggered(inputs[1..]);
    } else {
      PanicLatches(s.triggered, inputs[1..], i - 1);
    }
  }

  lemma {:induction false} StaysTriggered(inputs: seq<Option<char>>)
    ensures forall j :: 0 <= j < |inputs| ==> Run(true, inputs)[j] == 1.0
    decreases |inputs|
  {
    if |inputs| > 0 {
      StaysTriggered(inputs[1..]);
    }
  }

  /** Without a `p` and without a prior trigger every check scores 0.0. */
  lemma {:induction false} QuietWithoutPanic(inputs: seq<Option<char>>)
    requires forall j :: 0 <= j < |inputs| ==> inputs[j] != Some(PanicKey)
    ensures forall j :: 0 <= j < |inputs| ==> Run(false, inputs)[j] == 0.0
    decreases |inputs|
  {
    if |inputs| > 0 {
      QuietWithoutPanic(inputs[1..]);
    }
  }
}
