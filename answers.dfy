/** `get_line` and `get_yes_no`: reading answers from the console's line iterator.
    The iterator is modelled by the lines it has still to hand out; an operation that
    advances it returns the lines that remain. */
module Answers {
  import opened Wrappers
  import opened Text

  /** What one step of the line iterator gives: a line (without its line terminator),
      or a read error (an I/O error or bytes that are not UTF-8). */
  datatype LineRead = Line(text: string) | Unreadable

  datatype InputError =
    | UnableToGetLine  // the input has ended: "Unable to get line."
    | ReadFailed       // the iterator handed out an error instead of a line

  /** `get_line`: takes the next line from the iterator. It fails with UnableToGetLine
      when the input has ended and with ReadFailed when the next item is a read error;
      it consumes exactly one item when there is one. */
  function GetLine(lines: seq<LineRead>): (out: (Result<string, InputError>, seq<LineRead>))
    ensures out.1 == if lines == [] then [] else lines[1..]
    ensures out.0.Success? <==> lines != [] && lines[0].Line?
    ensures out.0.Success? ==> out.0.value == lines[0].text
    ensures lines == [] ==> out.0 == Failure(UnableToGetLine)
    ensures lines != [] && lines[0].Unreadable? ==> out.0 == Failure(ReadFailed)
  {
    if lines == [] then (Failure(UnableToGetLine), [])
    else match lines[0]
      case Line(text) => (Success(text), lines[1..])
      case Unreadable => (Failure(ReadFailed), lines[1..])
  }

  /** The prompt printed before each read: the question, then the choice in brackets
      with the default's letter in capitals. Only here does the default play a part. */
  function Prompt(question: string, default: bool): (p: string)
    ensures |p| == |question| + 6 && p[..|question|] == question
    ensures p[|question| + 2] == (if default then 'Y' else 'y')
    ensures p[|question| + 3] == (if default then 'n' else 'N')
  {
    question + (if default then " [Yn] " else " [yN] ")
  }

  predicate IsYes(answer: string) { answer == "y" || answer == "Y" }
  predicate IsNo(answer: string) { answer == "n" || answer == "N" }

  /** A line that makes `get_yes_no` ask again: readable, and not y, Y, n or N once
      trimmed. An empty line is one of them. */
  predicate Skipped(item: LineRead) {
    item.Line? && !IsYes(Trim(item.text)) && !IsNo(Trim(item.text))
  }

  /** Item `j` is the first that ends the questioning. */
  predicate FirstStop(lines: seq<LineRead>, j: int) {
    0 <= j < |lines| && !Skipped(lines[j]) && forall i :: 0 <= i < j ==> Skipped(lines[i])
  }

  /** The whole exchange: the answer (or error) returned, the lines left in the iterator,
      and the prompts printed, in order. */
  datatype Exchange = Exchange(answer: Result<bool, InputError>, rest: seq<LineRead>, prompts: seq<string>)

  /** `get_yes_no` as a recursive function over the remaining lines: the lines it leaves
      in the iterator are a suffix of those it was given. */
  function Ask(lines: seq<LineRead>, question: string, default: bool): (e: Exchange)
    ensures |e.rest| <= |lines| && e.rest == lines[|lines| - |e.rest|..]
    decreases |lines|
  {
    var shown := [Prompt(question, default)];
    if lines == [] then Exchange(Failure(UnableToGetLine), [], shown)
    else match lines[0]
      case Unreadable => Exchange(Failure(ReadFailed), lines[1..], shown)
      case Line(text) =>
        if IsYes(Trim(text)) then Exchange(Success(true), lines[1..], shown)
        else if IsNo(Trim(text)) then Exchange(Success(false), lines[1..], shown)
        else
          var e := Ask(lines[1..], question, default);
          Exchange(e.answer, e.rest, shown + e.prompts)
  }

  /** `get_yes_no`: prompts and reads until a line trims to y, Y, n or N. The empty-answer
      test in the Rust function has an empty body, so an empty line is asked again like any
      other unrecognised one. Returns the answer, the lines left and the prompts shown. */
  method GetYesNo(lines: seq<LineRead>, question: string, default: bool)
    returns (r: Result<bool, InputError>, rest: seq<LineRead>, prompts: seq<string>)
    ensures Exchange(r, rest, prompts) == Ask(lines, question, default)
  {
    rest, prompts := lines, [];
    while true
      invariant Ask(lines, question, default).answer == Ask(rest, question, default).answer
      invariant Ask(lines, question, default).rest == Ask(rest, question, default).rest
      invariant Ask(lines, question, default).prompts == prompts + Ask(rest, question, default).prompts
      decreases |rest|
    {
      ghost var before, shown := rest, prompts;
      prompts := prompts + [Prompt(question, default)];
      var (line, next) := GetLine(rest);
      rest := next;
      if line.Failure? {
        r := Failure(line.error);
        AskStop(before, question, default);
        return;
      }
      var answer := Trim(line.value);
      if answer == "" {
      }
      if IsYes(answer) {
        r := Success(true);
        AskStop(before, question, default);
        return;
      }
      if IsNo(answer) {
        r := Success(false);
        AskStop(before, question, default);
        return;
      }
      assert rest == before[1..];
      AskStep(before, question, default);
      AppendRegroups(shown, [Prompt(question, default)], Ask(rest, question, default).prompts);
    }
  }

  /** Concatenation regroups; kept apart so the loop proof need not find it. */
  lemma AppendRegroups<T>(a: seq<T>, b: seq<T>, c: seq<T>)
    ensures a + (b + c) == a + b + c
  {
  }

  /** The round that ends the exchange: a read error, or a line accepted as y, Y, n or N,
      is consumed after a single prompt and decides the answer. */
  lemma AskStop(lines: seq<LineRead>, question: string, default: bool)
    requires lines == [] || !Skipped(lines[0])
    ensures Ask(lines, question, default).answer
      == if lines == [] then Failure(UnableToGetLine)
         else if lines[0].Unreadable? then Failure(ReadFailed)
         else Success(IsYes(Trim(lines[0].text)))
    ensures Ask(lines, question, default).rest == if lines == [] then [] else lines[1..]
    ensures Ask(lines, question, default).prompts == [Prompt(question, default)]
  {
  }

  /** One round of the exchange: a skipped line costs one prompt and leaves the rest of
      the exchange to the following lines. */
  lemma AskStep(lines: seq<LineRead>, question: string, default: bool)
    requires lines != [] && Skipped(lines[0])
    ensures Ask(lines, question, default).answer == Ask(lines[1..], question, default).answer
    ensures Ask(lines, question, default).rest == Ask(lines[1..], question, default).rest
    ensures Ask(lines, question, default).prompts
      == [Prompt(question, default)] + Ask(lines[1..], question, default).prompts
  {
  }

  /** Every prompt shown is the same text, and one read follows each prompt: one prompt
      per item consumed, plus one more when the input has ended, which leaves nothing. */
  lemma {:induction false} AskPrompts(lines: seq<LineRead>, question: string, default: bool)
    ensures var e := Ask(lines, question, default);
      (forall k :: 0 <= k < |e.prompts| ==> e.prompts[k] == Prompt(question, default))
      && (e.answer == Failure(UnableToGetLine) ==> e.rest == [] && |e.prompts| == |lines| + 1)
      && (e.answer != Failure(UnableToGetLine) ==> |e.prompts| == |lines| - |e.rest|)
    decreases |lines|
  {
    if lines != [] && Skipped(lines[0]) {
      AskPrompts(lines[1..], question, default);
    }
  }

  /** Skipped lines change nothing but the number of prompts. */
  lemma {:induction false} AskSkips(lines: seq<LineRead>, question: string, default: bool, j: nat)
    requires j <= |lines|
    requires forall i :: 0 <= i < j ==> Skipped(lines[i])
    ensures Ask(lines, question, default).answer == Ask(lines[j..], question, default).answer
    ensures Ask(lines, question, default).rest == Ask(lines[j..], question, default).rest
    decreases j
  {
    if j > 0 {
      assert Skipped(lines[0]);
      AskSkips(lines[1..], question, default, j - 1);
      assert lines[1..][j - 1..] == lines[j..];
    }
  }

  /** The first line that is not skipped decides: y or Y gives true, n or N gives false,
      a read error gives ReadFailed; the iterator is left just after it. */
  lemma AskFirstStop(lines: seq<LineRead>, question: string, default: bool, j: nat)
    requires FirstStop(lines, j)
    ensures Ask(lines, question, default).answer ==
      if lines[j].Unreadable? then Failure(ReadFailed) else Success(IsYes(Trim(lines[j].text)))
    ensures Ask(lines, question, default).rest == lines[j + 1..]
  {
    AskSkips(lines, question, default, j);
    assert lines[j..][1..] == lines[j + 1..];
  }

  /** When every remaining line is skipped, the input runs out and the error propagates. */
  lemma AskRunsOut(lines: seq<LineRead>, question: string, default: bool)
    requires forall i :: 0 <= i < |lines| ==> Skipped(lines[i])
    ensures Ask(lines, question, default).answer == Failure(UnableToGetLine)
    ensures Ask(lines, question, default).rest == []
    ensures |Ask(lines, question, default).prompts| == |lines| + 1
  {
    AskSkips(lines, question, default, |lines|);
    assert lines[|lines|..] == [];
    AskPrompts(lines, question, default);
  }

  /** Either some line ends the questioning or every line is skipped. */
  lemma {:induction false} StopOrRunOut(lines: seq<LineRead>)
    ensures (exists j :: FirstStop(lines, j)) || forall i :: 0 <= i < |lines| ==> Skipped(lines[i])
  {
    if lines != [] {
      if Skipped(lines[0]) {
        StopOrRunOut(lines[1..]);
        if j :| FirstStop(lines[1..], j) {
          assert FirstStop(lines, j + 1) by {
            forall i | 0 <= i < j + 1 ensures Skipped(lines[i]) {
              if i > 0 { assert lines[i] == lines[1..][i - 1]; }
            }
          }
        } else {
          forall i | 0 <= i < |lines| ensures Skipped(lines[i]) {
            if i > 0 { assert lines[i] == lines[1..][i - 1]; }
          }
        }
      } else {
        assert FirstStop(lines, 0);
      }
    }
  }

  /** `get_yes_no` returns true exactly when the first line that is not skipped trims to
      y or Y, and false exactly when it trims to n or N. */
  lemma AskAnswerIff(lines: seq<LineRead>, question: string, default: bool)
    ensures Ask(lines, question, default).answer == Success(true) <==>
      exists j :: FirstStop(lines, j) && lines[j].Line? && IsYes(Trim(lines[j].text))
    ensures Ask(lines, question, default).answer == Success(false) <==>
      exists j :: FirstStop(lines, j) && lines[j].Line? && IsNo(Trim(lines[j].text))
  {
    StopOrRunOut(lines);
    if j :| FirstStop(lines, j) {
      AskFirstStop(lines, question, default, j);
      forall j' | FirstStop(lines, j') ensures j' == j {
      }
    } else {
      AskRunsOut(lines, question, default);
    }
  }

  /** The error cases: the input ending before an accepted answer gives UnableToGetLine,
      and a read error met before it gives ReadFailed. */
  lemma AskErrorIff(lines: seq<LineRead>, question: string, default: bool)
    ensures Ask(lines, question, default).answer == Failure(UnableToGetLine) <==>
      forall i :: 0 <= i < |lines| ==> Skipped(lines[i])
    ensures Ask(lines, question, default).answer == Failure(ReadFailed) <==>
      exists j :: FirstStop(lines, j) && lines[j].Unreadable?
  {
    StopOrRunOut(lines);
    if j :| FirstStop(lines, j) {
      AskFirstStop(lines, question, default, j);
      assert !Skipped(lines[j]);
      forall j' | FirstStop(lines, j') ensures j' == j {
      }
    } else {
      AskRunsOut(lines, question, default);
    }
  }

  /** The default selects the prompt text and nothing else: the answer, the lines
      consumed and the number of prompts are the same for both defaults. */
  lemma {:induction false} AskIgnoresDefault(lines: seq<LineRead>, question: string)
    ensures Ask(lines, question, true).answer == Ask(lines, question, false).answer
    ensures Ask(lines, question, true).rest == Ask(lines, question, false).rest
    ensures |Ask(lines, question, true).prompts| == |Ask(lines, question, false).prompts|
    decreases |lines|
  {
    if lines != [] && Skipped(lines[0]) {
      AskIgnoresDefault(lines[1..], question);
    }
  }

  /** An empty (or all-whitespace) answer does not pick the default: it is asked again. */
  lemma AskBlankLine(text: string, lines: seq<LineRead>, question: string, default: bool)
    requires Trim(text) == ""
    ensures Ask([Line(text)] + lines, question, default).answer == Ask(lines, question, default).answer
    ensures Ask([Line(text)] + lines, question, default).rest == Ask(lines, question, default).rest
  {
    var input := [Line(text)] + lines;
    assert Skipped(input[0]);
    AskSkips(input, question, default, 1);
    assert input[1..] == lines;
  }
}
