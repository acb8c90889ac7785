/** The `/enrollment` slash command of src/commands/enrollment.rs: decoding
    the submitted option values and formatting the confirmation message
    that the bot posts in reply. */
module EnrollmentCommand {
  import opened Wrappers
  import opened Text
  import opened Debug

  /** The resolved value of one command option, by kind. */
  datatype OptionValue =
    | String(text: string)
    | Integer(integer: int)
    | Boolean(flag: bool)
    | User(userId: nat)
    | Channel(channelId: nat)
    | Role(roleId: nat)
    | Number(number: real)
    | Attachment(attachmentId: nat)

  /** One option of the invocation; `resolved` is absent when the platform
      supplied no resolved value. */
  datatype DataOption = DataOption(name: string, resolved: Option<OptionValue>)

  /** Why `run` panics: the option at `index` is missing, has no resolved
      value, or has a kind that is neither text nor boolean. */
  datatype RunError =
    | MissingOption(index: nat)
    | MissingValue(index: nat)
    | UnsupportedValue(index: nat)

  const Header := "Enrolling new student:"

  /** `unwrap_data_option`: text stays as it is, a boolean becomes the marker
      `Yes` or `No`, anything else has no text form. */
  function UnwrapDataOption(v: OptionValue): (r: Option<string>)
    ensures r.Some? <==> v.String? || v.Boolean?
    ensures v.String? ==> r.value == v.text
    ensures v.Boolean? ==> (r.value == "Yes" || r.value == "No") && (r.value == "Yes" <==> v.flag)
  {
    match v
    case String(s) => Some(s)
    case Boolean(b) => if b then Some("Yes") else Some("No")
    case _ => None
  }

  /** The option at `index` was supplied, resolved and has a text form. */
  predicate Answered(options: seq<DataOption>, index: nat) {
    index < |options|
    && options[index].resolved.Some?
    && UnwrapDataOption(options[index].resolved.value).Some?
  }

  /** The text of the option at `index`, or the reason `run` panics on it. */
  function ReadOption(options: seq<DataOption>, index: nat): (r: Result<string, RunError>)
    ensures r.Success? <==> Answered(options, index)
    ensures r.Success? ==> r.value == Answer(options, index)
    ensures index >= |options| ==> r == Failure(MissingOption(index))
    ensures index < |options| && options[index].resolved.None? ==> r == Failure(MissingValue(index))
    ensures index < |options| && options[index].resolved.Some? && !Answered(options, index)
            ==> r == Failure(UnsupportedValue(index))
  {
    if index >= |options| then Failure(MissingOption(index))
    else match options[index].resolved
      case None => Failure(MissingValue(index))
      case Some(v) =>
        match UnwrapDataOption(v)
        case None => Failure(UnsupportedValue(index))
        case Some(s) => Success(s)
  }

  /** The text form of an answered option. */
  function Answer(options: seq<DataOption>, index: nat): string
    requires Answered(options, index)
  {
    UnwrapDataOption(options[index].resolved.value).value
  }

  /** The answers at positions `0 .. count - 1`, read in order; the first
      position that cannot be read aborts the reading. */
  function ReadAnswers(options: seq<DataOption>, count: nat): (r: Result<seq<string>, RunError>)
    ensures r.Success? <==> forall i :: 0 <= i < count ==> Answered(options, i)
    ensures r.Success? ==> |r.value| == count
    ensures r.Success? ==> forall i :: 0 <= i < count ==> Answered(options, i) && r.value[i] == Answer(options, i)
    ensures r.Failure? ==> r.error.index < count && !Answered(options, r.error.index)
    ensures r.Failure? ==> forall i :: 0 <= i < r.error.index ==> Answered(options, i)
  {
    if count == 0 then Success([])
    else
      var earlier :- ReadAnswers(options, count - 1);
      var answer :- ReadOption(options, count - 1);
      Success(earlier + [answer])
  }

  /** One answer line of the confirmation: `Label: {:?}`. */
  function AnswerLine(tag: string, answer: string): string {
    tag + ": " + Quote(answer)
  }

  function AnswerLines(tags: seq<string>, answers: seq<string>): (lines: seq<string>)
    requires |tags| == |answers|
    ensures |lines| == |tags|
    ensures forall i :: 0 <= i < |tags| ==> lines[i] == AnswerLine(tags[i], answers[i])
  {
    seq(|tags|, i requires 0 <= i < |tags| => AnswerLine(tags[i], answers[i]))
  }

  /** The header followed by one labelled line per answer, joined by line feeds. */
  function Form(tags: seq<string>, answers: seq<string>): (r: string)
    requires |tags| == |answers|
    ensures StartsWith(r, Header)
  {
    var lines := [Header] + AnswerLines(tags, answers);
    if |tags| == 0 then
      Header
    else
      assert lines[1..] == AnswerLines(tags, answers);
      assert (Header + "\n" + Join(lines[1..], "\n"))[..|Header|] == Header;
      Join(lines, "\n")
  }

  lemma SingleLineAnswer(tag: string, answer: string)
    requires '\n' !in tag
    ensures '\n' !in AnswerLine(tag, answer)
  {
    assert AnswerLine(tag, answer) == tag + (": " + Quote(answer));
  }

  /** A form has exactly one line per answer after the header, whatever the
      answers hold, because `{:?}` escapes line feeds. */
  lemma FormLines(tags: seq<string>, answers: seq<string>)
    requires |tags| == |answers|
    requires forall i :: 0 <= i < |tags| ==> '\n' !in tags[i]
    ensures Split(Form(tags, answers), "\n") == [Header] + AnswerLines(tags, answers)
  {
    var lines := [Header] + AnswerLines(tags, answers);
    if |tags| == 0 {
      SplitWithoutChar(Header, '\n');
      assert lines == [Header];
    } else {
      forall i | 0 <= i < |lines| ensures '\n' !in lines[i] {
        if i > 0 {
          SingleLineAnswer(tags[i - 1], answers[i - 1]);
        }
      }
      SplitOfJoin(lines, '\n');
    }
  }

  const ConfirmationTags := ["Name", "Email", "Interests", "Add to email distro"]

  lemma ConfirmationTagsSingleLine()
    ensures forall i :: 0 <= i < |ConfirmationTags| ==> '\n' !in ConfirmationTags[i] && ':' !in ConfirmationTags[i]
  {
  }

  /** The confirmation message of `run`: a header and four labelled lines. */
  function Confirmation(name: string, email: string, interests: string, distro: string): string {
    Form(ConfirmationTags, [name, email, interests, distro])
  }

  /** `run`: reads the options by position (name, email, interests,
      add_to_email_distro) and formats the confirmation; panics on the first
      position that is missing, unresolved or of another kind. */
  function Run(options: seq<DataOption>): (r: Result<string, RunError>)
    ensures r.Success? <==> forall i :: 0 <= i < 4 ==> Answered(options, i)
    ensures r.Success? ==> StartsWith(r.value, Header)
    ensures r.Failure? ==> r.error.index < 4 && !Answered(options, r.error.index)
    ensures r.Failure? ==> forall i :: 0 <= i < r.error.index ==> Answered(options, i)
  {
    var answers :- ReadAnswers(options, 4);
    Success(Confirmation(answers[0], answers[1], answers[2], answers[3]))
  }

  /** The confirmation is exactly five lines: header, Name, Email, Interests,
      Add to email distro. No answer can add a line. There is no University
      line. */
  lemma ConfirmationLines(name: string, email: string, interests: string, distro: string)
    ensures Split(Confirmation(name, email, interests, distro), "\n")
         == [Header, AnswerLine("Name", name), AnswerLine("Email", email),
             AnswerLine("Interests", interests), AnswerLine("Add to email distro", distro)]
  {
    ConfirmationTagsSingleLine();
    FormLines(ConfirmationTags, [name, email, interests, distro]);
  }

  /** A successful `run` posts the five-line confirmation of the first four
      options' answers, in that order. */
  lemma RunLines(options: seq<DataOption>)
    requires Run(options).Success?
    ensures forall i :: 0 <= i < 4 ==> Answered(options, i)
    ensures Split(Run(options).value, "\n")
         == [Header, AnswerLine("Name", Answer(options, 0)), AnswerLine("Email", Answer(options, 1)),
             AnswerLine("Interests", Answer(options, 2)),
             AnswerLine("Add to email distro", Answer(options, 3))]
  {
    ConfirmationLines(Answer(options, 0), Answer(options, 1), Answer(options, 2), Answer(options, 3));
  }

  // ---------------------------------------------------------------------
  // The six-line confirmation that the message handler parses

  const UniversityTags := ["Name", "Email", "Interests", "University", "Add to email distro"]

  lemma UniversityTagsSingleLine()
    ensures forall i :: 0 <= i < |UniversityTags| ==> '\n' !in UniversityTags[i] && ':' !in UniversityTags[i]
  {
  }

  /** The confirmation with the University line between Interests and Add to
      email distro, which is the layout the handler in src/main.rs reads. */
  function ConfirmationWithUniversity(name: string, email: string, interests: string,
                                      university: string, distro: string): string
  {
    Form(UniversityTags, [name, email, interests, university, distro])
  }

  /** `run` reading a university choice at position 3 and the distro flag at
      position 4, and formatting the six-line confirmation. */
  function RunWithUniversity(options: seq<DataOption>): (r: Result<string, RunError>)
    ensures r.Success? <==> forall i :: 0 <= i < 5 ==> Answered(options, i)
    ensures r.Success? ==> StartsWith(r.value, Header)
    ensures r.Failure? ==> r.error.index < 5 && !Answered(options, r.error.index)
    ensures r.Failure? ==> forall i :: 0 <= i < r.error.index ==> Answered(options, i)
  {
    var answers :- ReadAnswers(options, 5);
    Success(ConfirmationWithUniversity(answers[0], answers[1], answers[2], answers[3], answers[4]))
  }

}
