/**
 * The two prompt templates and the chat messages built from them.
 *
 * `SYSTEM_PROMPT_TEMPLATE.format(category=…)` and
 * `USER_PROMPT_TEMPLATE.format(question=…, options=…)` substitute each
 * field once and never re-read the inserted text, so filling a template is
 * plain concatenation of its fixed pieces with the field values.
 */
module Prompts {
  import opened Wrappers
  import opened Text
  import opened AnswerExtraction

  // ---------------------------------------------------------------------
  // System prompt.

  const SystemHead: string := "Ты — эксперт в области "
  const SystemTail: string := ". Твоя задача — выбрать один правильный вариант ответа."

  /** The category a system prompt was filled with, or `None` when the text
      is not an instance of the template. */
  function CategoryOf(prompt: string): Option<string>
  {
    if |SystemHead| + |SystemTail| <= |prompt|
       && prompt[..|SystemHead|] == SystemHead
       && prompt[|prompt| - |SystemTail|..] == SystemTail
    then Some(prompt[|SystemHead|..|prompt| - |SystemTail|])
    else None
  }

  /** `SYSTEM_PROMPT_TEMPLATE.format(category=category)`. */
  function SystemPrompt(category: string): (r: string)
    ensures CategoryOf(r) == Some(category)
  {
    var r := SystemHead + category + SystemTail;
    assert r[..|SystemHead|] == SystemHead;
    assert r[|r| - |SystemTail|..] == SystemTail;
    assert r[|SystemHead|..|r| - |SystemTail|] == category;
    r
  }

  /** Every text CategoryOf accepts is the system prompt of what it returns:
      together with SystemPrompt's contract, the two are inverse. */
  lemma CategoryOfIsInverse(prompt: string, category: string)
    requires CategoryOf(prompt) == Some(category)
    ensures SystemPrompt(category) == prompt
  {
    var h, t := |SystemHead|, |prompt| - |SystemTail|;
    assert prompt == prompt[..h] + prompt[h..t] + prompt[t..];
  }

  /** Different categories give different system prompts. */
  lemma SystemPromptInjective(c1: string, c2: string)
    requires SystemPrompt(c1) == SystemPrompt(c2)
    ensures c1 == c2
  {
    assert CategoryOf(SystemPrompt(c1)) == Some(c1);
    assert CategoryOf(SystemPrompt(c2)) == Some(c2);
  }

  // ---------------------------------------------------------------------
  // User prompt.

  const QuestionHeader: string := "\nВопрос:\n\n"
  const OptionsHeader: string := "\n\nВарианты ответа:\n"
  /** The line the model is told to answer with: the answer prefix followed
      by a placeholder for the option number. */
  const AnswerPrefix: string := "ответ: "
  const Placeholder: string := "<номер варианта>"
  const Directive: string := AnswerPrefix + Placeholder
  const FormatHeader: string := "\n\nФормат ответа (обязательно):\n"
  const Footer: string := FormatHeader + Directive + "\n\n"

  /** `USER_PROMPT_TEMPLATE.format(question=question, options=options)`:
      the question header, the question, the options header, the options and
      the answer-format footer, in that order and nothing else. */
  function UserPrompt(question: string, options: string): (r: string)
    ensures |r| == |QuestionHeader| + |question| + |OptionsHeader| + |options| + |Footer|
    ensures r[..|QuestionHeader|] == QuestionHeader
    ensures r[|QuestionHeader|..|QuestionHeader| + |question|] == question
    ensures r[|QuestionHeader| + |question|..|QuestionHeader| + |question| + |OptionsHeader|] == OptionsHeader
    ensures r[|QuestionHeader| + |question| + |OptionsHeader|..|r| - |Footer|] == options
    ensures r[|r| - |Footer|..] == Footer
  {
    var a := QuestionHeader + question;
    var b := a + OptionsHeader;
    var c := b + options;
    var r := c + Footer;
    assert r[..|QuestionHeader|] == QuestionHeader by {
      assert r[..|a|] == a;
    }
    assert r[|QuestionHeader|..|a|] == question by {
      assert r[..|a|] == a;
    }
    assert r[|a|..|b|] == OptionsHeader by {
      assert r[..|b|] == b;
    }
    assert r[|b|..|c|] == options by {
      assert r[..|c|] == c;
    }
    assert r[|c|..] == Footer;
    r
  }

  /** Given the length of the question, the user prompt determines both the
      question and the options. */
  lemma UserPromptInjective(q1: string, o1: string, q2: string, o2: string)
    requires |q1| == |q2|
    requires UserPrompt(q1, o1) == UserPrompt(q2, o2)
    ensures q1 == q2 && o1 == o2
  {
    var p := UserPrompt(q1, o1);
    assert q1 == p[|QuestionHeader|..|QuestionHeader| + |q1|];
    assert o1 == p[|QuestionHeader| + |q1| + |OptionsHeader|..|p| - |Footer|];
  }

  /** The answer-format line holds no digit, so a reply that only echoes it
      yields no answer. */
  lemma DirectiveHasNoAnswer()
    ensures ExtractAnswer(Directive) == None
  {
    assert forall i :: 0 <= i < |Directive| ==> !IsDigit(Directive[i]);
    NoDigitNoAnswer(Directive);
  }

  /** Filling the placeholder of the answer-format line with an option
      number gives a reply from which exactly that number is read back,
      whatever follows it, as long as it does not begin with a digit. */
  lemma FilledDirectiveRoundTrip(n: nat, suffix: string)
    requires suffix == [] || !IsDigit(suffix[0])
    ensures ExtractAnswer(AnswerPrefix + NatToString(n) + suffix) == Some(n)
  {
    var digits := NatToString(n);
    AnswerAfterKeyword(digits, suffix);
    PrefixIsKeyword(digits, suffix);
  }

  lemma PrefixIsKeyword(digits: string, suffix: string)
    ensures AnswerPrefix + digits + suffix == Keyword + ": " + digits + suffix
  {
    assert AnswerPrefix == Keyword + ": ";
  }

  // ---------------------------------------------------------------------
  // Chat messages.

  datatype Role = System | User

  datatype Message = Message(role: Role, content: string)

  /** The two messages sent for one question: the system prompt for its
      category, then the user prompt with its question and formatted
      options. */
  function Conversation(category: string, question: string, options: string): (m: seq<Message>)
    ensures |m| == 2
    ensures m[0].role == System && CategoryOf(m[0].content) == Some(category)
    ensures m[1].role == User
    ensures |m[1].content| == |QuestionHeader| + |question| + |OptionsHeader| + |options| + |Footer|
    ensures m[1].content[..|QuestionHeader|] == QuestionHeader
    ensures m[1].content[|QuestionHeader|..|QuestionHeader| + |question|] == question
    ensures m[1].content[|QuestionHeader| + |question|..|QuestionHeader| + |question| + |OptionsHeader|] == OptionsHeader
    ensures m[1].content[|QuestionHeader| + |question| + |OptionsHeader|..|m[1].content| - |Footer|] == options
    ensures m[1].content[|m[1].content| - |Footer|..] == Footer
  {
    [Message(System, SystemPrompt(category)), Message(User, UserPrompt(question, options))]
  }

  /** The answer-format footer holds the directive line, between the
      format header and the closing blank line. */
  lemma FooterHoldsDirective()
    ensures |FormatHeader| + |Directive| + 2 == |Footer|
    ensures Footer[|FormatHeader|..|FormatHeader| + |Directive|] == Directive
  {
    SliceOfConcat(FormatHeader, Directive, "\n\n");
  }

  lemma SliceOfConcat(a: string, b: string, c: string)
    ensures (a + b + c)[|a|..|a| + |b|] == b
  {
  }

  /** Every user message asks for the answer in the directive's format:
      the directive sits at a fixed distance from the end of the message. */
  lemma UserMessageAsksForDirective(category: string, question: string, options: string)
    ensures var u := Conversation(category, question, options)[1].content;
      && |Footer| <= |u|
      && u[|u| - |Footer| + |FormatHeader|..|u| - 2] == Directive
  {
    var u := Conversation(category, question, options)[1].content;
    var f := u[|u| - |Footer|..];
    FooterHoldsDirective();
    assert f == Footer;
    assert u[|u| - |Footer| + |FormatHeader|..|u| - 2] == f[|FormatHeader|..|FormatHeader| + |Directive|];
  }
}
