/** The interactive prompts `get_line_length` and
    `get_sentences_per_paragraph`: a `while True` loop that reads a line,
    strips it, returns the default on a blank line, and otherwise returns the
    first number `int()` accepts that is positive, asking again after
    anything else. Standard input is a finite sequence of lines; `parseInt`
    stands for `int()` as in `Cli`. */
module Prompt {
  import opened Wrappers
  import opened Text

  /** What one response decides: `Some` ends the loop with that value,
      `None` makes it ask again. */
  function Interpret(response: string, default: int, parseInt: string -> Option<int>): (r: Option<int>)
    ensures r.Some? <==> Strip(response) == [] || (parseInt(Strip(response)).Some? && parseInt(Strip(response)).value > 0)
    ensures r.Some? && Strip(response) == [] ==> r.value == default
    ensures r.Some? && Strip(response) != [] ==> r.value == parseInt(Strip(response)).value > 0
  {
    var input := Strip(response);
    if input == [] then Some(default)
    else match parseInt(input)
      case None => None
      case Some(n) => if n <= 0 then None else Some(n)
  }

  /** What a prompt reads: the answer and how many lines it took. */
  datatype Reply = Reply(answer: Option<int>, used: nat)

  /** The reply of the prompt loop over `responses`: the value of the first
      response that ends the loop, after every earlier one was refused, and
      how many lines were read; `None` when the lines run out first (the
      program would go on waiting for input). */
  function Ask(responses: seq<string>, default: int, parseInt: string -> Option<int>): (r: Reply)
    ensures r.used <= |responses|
    ensures r.answer.Some? ==> 0 < r.used && r.answer == Interpret(responses[r.used - 1], default, parseInt)
    ensures r.answer.None? ==> r.used == |responses|
    ensures forall j :: 0 <= j < |responses| && (r.answer.None? || j < r.used - 1) ==>
      Interpret(responses[j], default, parseInt).None?
    decreases |responses|
  {
    if responses == [] then Reply(None, 0)
    else
      var first := Interpret(responses[0], default, parseInt);
      if first.Some? then Reply(first, 1)
      else
        var rest := Ask(responses[1..], default, parseInt);
        assert forall j :: 1 <= j < |responses| ==> responses[j] == responses[1..][j - 1];
        Reply(rest.answer, rest.used + 1)
  }

  /** The first response that ends the loop decides the reply. */
  lemma {:induction false} AskIsFirst(responses: seq<string>, default: int, parseInt: string -> Option<int>, i: nat)
    requires i < |responses| && Interpret(responses[i], default, parseInt).Some?
    requires forall j :: 0 <= j < i ==> Interpret(responses[j], default, parseInt).None?
    ensures Ask(responses, default, parseInt) == Reply(Interpret(responses[i], default, parseInt), i + 1)
    decreases i
  {
    if i > 0 {
      var rest := responses[1..];
      assert Interpret(responses[0], default, parseInt).None?;
      forall j | 0 <= j < i - 1 ensures Interpret(rest[j], default, parseInt).None? {
        assert rest[j] == responses[j + 1];
      }
      assert rest[i - 1] == responses[i];
      AskIsFirst(rest, default, parseInt, i - 1);
    }
  }

  /** A blank line after refused ones gives the default. */
  lemma BlankGivesDefault(responses: seq<string>, default: int, parseInt: string -> Option<int>, i: nat)
    requires i < |responses| && Strip(responses[i]) == []
    requires forall j :: 0 <= j < i ==> Interpret(responses[j], default, parseInt).None?
    ensures Ask(responses, default, parseInt) == Reply(Some(default), i + 1)
  {
    AskIsFirst(responses, default, parseInt, i);
  }

  /** The prompt loop itself: it reads exactly as `Ask` says. */
  method AskPositive(responses: seq<string>, default: int, parseInt: string -> Option<int>)
    returns (answer: Option<int>, used: nat)
    ensures Reply(answer, used) == Ask(responses, default, parseInt)
    ensures default > 0 && answer.Some? ==> answer.value > 0
  {
    answer, used := None, 0;
    while used < |responses|
      invariant used <= |responses|
      invariant forall j :: 0 <= j < used ==> Interpret(responses[j], default, parseInt).None?
    {
      var input := Strip(responses[used]);
      used := used + 1;
      if input == [] {
        answer := Some(default);
        AskIsFirst(responses, default, parseInt, used - 1);
        return;
      }
      var parsed := parseInt(input);
      if parsed.Some? && parsed.value > 0 {
        answer := parsed;
        AskIsFirst(responses, default, parseInt, used - 1);
        return;
      }
    }
  }
}
