/**
 * The evaluation loop of `main`: rows before the start index get the
 * placeholder answer 0, every later row is turned into a two-message
 * conversation, the language model's reply is read with `extract_answer`
 * (0 when nothing is found), and the answers become the table's new
 * `answer` column.
 *
 * The language model is a parameter: `Oracle(i, conversation)` is the reply
 * the model gave to row `i` in the run being described. Indexing by the row
 * as well as by the conversation leaves room for sampling, which can answer
 * the same conversation differently on different rows.
 */
module Evaluation {
  import opened Wrappers
  import opened Text
  import opened OptionFormatting
  import opened AnswerExtraction
  import opened Prompts

  /** The columns of one input row that the loop reads. */
  datatype Row = Row(category: string, question: string, options: string)

  type Oracle = (nat, seq<Message>) -> string

  /** `START_IDX`: the first row sent to the model. */
  const StartIdx: nat := 0

  /** The messages sent for `row`: its options are formatted first. */
  function RowConversation(row: Row): (m: seq<Message>)
    ensures |m| == 2
    ensures m[0].role == System && CategoryOf(m[0].content) == Some(row.category)
    ensures m[1].role == User
    ensures |QuestionHeader| + |row.question| + |OptionsHeader| + |Footer| <= |m[1].content|
    ensures m[1].content[..|QuestionHeader|] == QuestionHeader
    ensures m[1].content[|QuestionHeader| + |row.question|..|QuestionHeader| + |row.question| + |OptionsHeader|] == OptionsHeader
    ensures m[1].content[|QuestionHeader|..|QuestionHeader| + |row.question|] == row.question
    ensures m[1].content[|QuestionHeader| + |row.question| + |OptionsHeader|..|m[1].content| - |Footer|]
         == FormatOptions(row.options)
    ensures m[1].content[|m[1].content| - |Footer|..] == Footer
  {
    Conversation(row.category, row.question, FormatOptions(row.options))
  }

  /** The answer recorded for one reply: the extracted number, or 0 when
      extraction fails. */
  function AnswerFor(reply: string): (n: nat)
    ensures ExtractAnswer(reply) == Some(n) || (ExtractAnswer(reply) == None && n == 0)
  {
    ExtractAnswer(reply).GetOr(0)
  }

  /** The recorded answer is the number at the leftmost match of the answer
      pattern, or 0 when the pattern occurs nowhere. */
  lemma AnswerForSpec(reply: string, n: nat)
    ensures AnswerFor(reply) == n <==> LeftmostAnswer(reply, n) || (n == 0 && NoMatch(reply))
  {
    ExtractAnswerSpec(reply, n);
    if ExtractAnswer(reply).Some? {
      ExtractAnswerSpec(reply, ExtractAnswer(reply).value);
    }
  }

  /** A reply that follows the requested format is recorded as the option
      number it names. */
  lemma AnswerForFilledDirective(n: nat, suffix: string)
    requires suffix == [] || !IsDigit(suffix[0])
    ensures AnswerFor(AnswerPrefix + NatToString(n) + suffix) == n
  {
    FilledDirectiveRoundTrip(n, suffix);
  }

  /** A reply without any digit is recorded as 0. */
  lemma AnswerForWithoutDigits(reply: string)
    requires forall i :: 0 <= i < |reply| ==> !IsDigit(reply[i])
    ensures AnswerFor(reply) == 0
  {
    NoDigitNoAnswer(reply);
  }

  /** The loop of `main` with the work done for one row abstracted:
      `answer(i, row)` is the answer recorded for row `i` (Evaluate supplies
      the model call and the extraction). The result is the `answer` column, or
      `None` when assigning it fails because the number of answers differs
      from the number of rows (a start past the last row of a non-empty
      table). A table without rows takes the length of the list assigned
      to it, so it ends up with `start` rows whose answer is 0. */
  method AnswerColumn(rows: seq<Row>, answer: (nat, Row) -> nat, start: nat) returns (column: Option<seq<nat>>)
    ensures column.Some? <==> start <= |rows| || |rows| == 0
    ensures column.Some? ==> |column.value| == (if |rows| == 0 then start else |rows|)
    ensures column.Some? ==> forall i :: 0 <= i < start ==> column.value[i] == 0
    ensures column.Some? ==> forall i :: start <= i < |rows| ==> column.value[i] == answer(i, rows[i])
  {
    var answers: seq<nat> := [];
    var k := 0;
    while k < start
      invariant k <= start && |answers| == k
      invariant forall i :: 0 <= i < k ==> answers[i] == 0
    {
      answers := answers + [0];
      k := k + 1;
    }
    var idx := start;
    while idx < |rows|
      invariant start <= idx && |answers| == idx
      invariant idx == start || idx <= |rows|
      invariant forall i :: 0 <= i < start ==> answers[i] == 0
      invariant forall i :: start <= i < idx && i < |rows| ==> answers[i] == answer(i, rows[i])
    {
      answers := answers + [answer(idx, rows[idx])];
      idx := idx + 1;
    }
    if |rows| != 0 && |answers| != |rows| {
      return None;
    }
    return Some(answers);
  }

  /** `main` with the configured start index: every row's answer is read
      from the model's reply to that row's conversation, and the
      assignment never fails. */
  method Evaluate(rows: seq<Row>, oracle: Oracle) returns (column: seq<nat>)
    ensures |column| == |rows|
    ensures forall i :: 0 <= i < |rows| ==> column[i] == AnswerFor(oracle(i, RowConversation(rows[i])))
  {
    var r := AnswerColumn(rows, (i: nat, row: Row) => AnswerFor(oracle(i, RowConversation(row))), StartIdx);
    column := r.value;
  }
}
