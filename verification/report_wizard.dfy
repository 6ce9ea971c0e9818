/** The `/new_report` dialogue: an eight-step questionnaire whose answers are
    kept in the chat's draft, then rendered as one HTML report and sent in
    pieces of at most 3500 characters. */
module ReportWizard {
  import opened Wrappers
  import opened Text
  import opened Ints
  import opened Formatting

  // ---------------------------------------------------------------------------
  // _split_lines
  // ---------------------------------------------------------------------------

  /** `_split_lines(text)`: the lines of the message text (none when there is
      no text), stripped, with the blank ones dropped. */
  function SplitLines(text: Option<string>): seq<string> {
    StrippedNonBlank(LinePieces(text.GetOr("")))
  }

  /** Every line `_split_lines` yields is non-empty, has no whitespace at
      either end and no line break inside. */
  lemma SplitLinesClean(text: Option<string>)
    ensures forall k :: 0 <= k < |SplitLines(text)| ==>
      && SplitLines(text)[k] != ""
      && IsStripped(SplitLines(text)[k])
      && NoLineBreak(SplitLines(text)[k])
  {
    StrippedNonBlankKeepsNoBreak(LinePieces(text.GetOr("")));
  }

  predicate NoLineBreak(s: string) {
    forall m :: 0 <= m < |s| ==> !IsLineBreak(s[m])
  }

  lemma NoLineBreakStrip(x: string)
    requires NoLineBreak(x)
    ensures NoLineBreak(Strip(x))
  {
    var i, j := StripMiddle(x);
    assert forall m :: 0 <= m < j - i ==> Strip(x)[m] == x[i + m];
  }

  lemma {:induction false} StrippedNonBlankKeepsNoBreak(xs: seq<string>)
    requires forall k :: 0 <= k < |xs| ==> NoLineBreak(xs[k])
    ensures forall k :: 0 <= k < |StrippedNonBlank(xs)| ==> NoLineBreak(StrippedNonBlank(xs)[k])
  {
    if xs != [] {
      var front := xs[..|xs| - 1];
      StrippedNonBlankKeepsNoBreak(front);
      var x := xs[|xs| - 1];
      NoLineBreakStrip(x);
      var ys := StrippedNonBlank(xs);
      var rest := StrippedNonBlank(front);
      assert ys == rest || ys == rest + [Strip(x)];
    }
  }

  /** Text joined at a line break yields the lines of each side, in order. */
  lemma SplitLinesConcat(a: string, c: char, b: string)
    requires IsLineBreak(c)
    ensures SplitLines(Some(a + [c] + b)) == SplitLines(Some(a)) + SplitLines(Some(b))
  {
    LinePiecesConcat(a, c, b);
    StrippedNonBlankAppend(LinePieces(a), LinePieces(b));
  }

  /** A text without line breaks is one line, stripped, or none when blank. */
  lemma SplitLinesSingle(s: string)
    requires NoLineBreak(s)
    ensures SplitLines(Some(s)) == if AllSpace(s) then [] else [Strip(s)]
  {
    LinePiecesSingle(s);
    StrippedNonBlankSingle(s);
  }

  /** Clean lines joined with `"\n"` split back into themselves. */
  lemma {:induction false} SplitLinesJoin(lines: seq<string>)
    requires forall k :: 0 <= k < |lines| ==> lines[k] != "" && IsStripped(lines[k]) && NoLineBreak(lines[k])
    ensures SplitLines(Some(Join(lines, "\n"))) == lines
  {
    if lines == [] {
      assert LinePieces("") == [""];
    } else {
      var x := lines[0];
      assert !AllSpace(x) by { assert !IsSpace(x[0]); }
      SplitLinesSingle(x);
      StripIdempotent(x);
      if |lines| == 1 {
        assert Join(lines, "\n") == x;
      } else {
        var rest := lines[1..];
        SplitLinesJoin(rest);
        JoinCons(x, rest, "\n");
        assert lines == [x] + rest;
        assert Join(lines, "\n") == x + ['\n'] + Join(rest, "\n");
        SplitLinesConcat(x, '\n', Join(rest, "\n"));
      }
    }
  }

  /** Splitting is idempotent: re-joining the lines and splitting again gives
      the same lines. */
  lemma SplitLinesIdempotent(text: Option<string>)
    ensures SplitLines(Some(Join(SplitLines(text), "\n"))) == SplitLines(text)
  {
    SplitLinesClean(text);
    SplitLinesJoin(SplitLines(text));
  }

  // ---------------------------------------------------------------------------
  // _parse_int
  // ---------------------------------------------------------------------------

  const NBSP: char := '\U{00A0}'

  /** The characters `[,_.]` the thousands-separator pattern removes. */
  predicate IsGroupSeparator(c: char) {
    c == ',' || c == '_' || c == '.'
  }

  /** Word characters for the regular expression `\b`: ASCII letters, digits and
      `_`, Latin-1 letters and the Cyrillic block. */
  predicate IsWordChar(c: char) {
    || IsDigit(c) || c == '_'
    || ('a' <= c <= 'z') || ('A' <= c <= 'Z')
    || ('\U{00C0}' <= c <= '\U{00FF}' && c != '\U{00D7}' && c != '\U{00F7}')
    || ('\U{0400}' <= c <= '\U{04FF}')
  }

  /** The lookahead `(?=\d{3}\b)`: `t` starts with exactly three digits before a
      word boundary. */
  predicate GroupFollows(t: string) {
    |t| >= 3 && IsDigit(t[0]) && IsDigit(t[1]) && IsDigit(t[2]) && (|t| == 3 || !IsWordChar(t[3]))
  }

  /** `re.sub(r"[,_\.](?=\d{3}\b)", "", s)`: every separator that stands before
      a group of three digits is removed. Each decision looks only at the
      original text to its right, so the scan can run over suffixes. The last
      character is never removed. */
  function DropGroupSeparators(s: string): (r: string)
    ensures |r| <= |s|
    ensures s != [] ==> r != []
    decreases |s|
  {
    if s == [] then []
    else
      var rest := DropGroupSeparators(s[1..]);
      if IsGroupSeparator(s[0]) && GroupFollows(s[1..]) then rest else [s[0]] + rest
  }

  /** The characters `[\d\-]` the final filter keeps. */
  predicate IsDigitOrMinus(c: char) {
    IsDigit(c) || c == '-'
  }

  /** `re.sub(r"[^\d\-]", "", s)`: the digits and minus signs of `s`, in order. */
  function KeepDigitsMinus(s: string): (r: string)
    ensures forall i :: 0 <= i < |r| ==> IsDigitOrMinus(r[i])
  {
    if s == [] then []
    else
      var rest := KeepDigitsMinus(s[..|s| - 1]);
      if IsDigitOrMinus(s[|s| - 1]) then rest + [s[|s| - 1]] else rest
  }

  /** `_parse_int(text)`, with `None` standing for the `ValueError` of `int()`. */
  function ParseWizardInt(text: Option<string>): Option<int> {
    var s := Cleaned(text.GetOr(""));
    ParseLiteral(KeepDigitsMinus(if s == "" then "0" else s))
  }

  /** The text `_parse_int` filters: stripped, without plain and no-break
      spaces and without thousands separators. */
  function Cleaned(t: string): string {
    DropGroupSeparators(RemoveChar(RemoveChar(Strip(t), ' '), NBSP))
  }

  lemma {:induction false} KeepDigitsMinusAppend(a: string, b: string)
    ensures KeepDigitsMinus(a + b) == KeepDigitsMinus(a) + KeepDigitsMinus(b)
    decreases |b|
  {
    if b == [] {
      assert a + b == a;
    } else {
      var b' := b[..|b| - 1];
      assert (a + b)[..|a + b| - 1] == a + b';
      KeepDigitsMinusAppend(a, b');
    }
  }

  /** A text made of digits and minus signs passes the filter unchanged. */
  lemma {:induction false} KeepDigitsMinusFixpoint(s: string)
    requires forall i :: 0 <= i < |s| ==> IsDigitOrMinus(s[i])
    ensures KeepDigitsMinus(s) == s
  {
    if s != [] {
      KeepDigitsMinusFixpoint(s[..|s| - 1]);
    }
  }

  /** Whitespace contributes nothing to the filter. */
  lemma {:induction false} KeepDigitsMinusOfSpace(s: string)
    requires AllSpace(s)
    ensures KeepDigitsMinus(s) == []
  {
    if s != [] {
      KeepDigitsMinusOfSpace(s[..|s| - 1]);
    }
  }

  lemma {:induction false} KeepDigitsMinusOfRemoveChar(s: string, c: char)
    requires !IsDigitOrMinus(c)
    ensures KeepDigitsMinus(RemoveChar(s, c)) == KeepDigitsMinus(s)
  {
    if s != [] {
      var s' := s[..|s| - 1];
      KeepDigitsMinusOfRemoveChar(s', c);
      if s[|s| - 1] != c {
        KeepDigitsMinusAppend(RemoveChar(s', c), [s[|s| - 1]]);
      }
    }
  }

  lemma {:induction false} KeepDigitsMinusOfDropGroupSeparators(s: string)
    ensures KeepDigitsMinus(DropGroupSeparators(s)) == KeepDigitsMinus(s)
    decreases |s|
  {
    if s != [] {
      KeepDigitsMinusOfDropGroupSeparators(s[1..]);
      assert s == [s[0]] + s[1..];
      KeepDigitsMinusAppend([s[0]], s[1..]);
      KeepDigitsMinusAppend([s[0]], DropGroupSeparators(s[1..]));
    }
  }

  lemma KeepDigitsMinusOfStrip(s: string)
    ensures KeepDigitsMinus(Strip(s)) == KeepDigitsMinus(s)
  {
    var i, j := StripMiddle(s);
    var pre, mid, post := s[..i], Strip(s), s[j..];
    KeepDigitsMinusAppend(pre + mid, post);
    KeepDigitsMinusAppend(pre, mid);
    KeepDigitsMinusOfSpace(pre);
    KeepDigitsMinusOfSpace(post);
  }

  /** Removing a character other than `c` from the front keeps a string
      non-empty. */
  lemma RemoveCharKeepsHead(s: string, c: char)
    requires s != [] && s[0] != c
    ensures RemoveChar(s, c) != [] && RemoveChar(s, c)[0] == s[0]
  {
    assert s == [s[0]] + s[1..];
    RemoveCharAppend([s[0]], s[1..], c);
    assert RemoveChar([s[0]], c) == [s[0]];
  }

  /** Cleaning keeps every digit and minus sign. */
  lemma KeepDigitsMinusOfCleaned(t: string)
    ensures KeepDigitsMinus(Cleaned(t)) == KeepDigitsMinus(t)
  {
    var s1 := Strip(t);
    var s2 := RemoveChar(s1, ' ');
    var s3 := RemoveChar(s2, NBSP);
    calc {
      KeepDigitsMinus(Cleaned(t));
      { KeepDigitsMinusOfDropGroupSeparators(s3); }
      KeepDigitsMinus(s3);
      { KeepDigitsMinusOfRemoveChar(s2, NBSP); }
      KeepDigitsMinus(s2);
      { KeepDigitsMinusOfRemoveChar(s1, ' '); }
      KeepDigitsMinus(s1);
      { KeepDigitsMinusOfStrip(t); }
      KeepDigitsMinus(t);
    }
  }

  /** Cleaning leaves nothing exactly when the text is blank. */
  lemma CleanedEmpty(t: string)
    ensures Cleaned(t) == [] <==> AllSpace(t)
  {
    var s1 := Strip(t);
    if !AllSpace(t) {
      assert !IsSpace(s1[0]);
      RemoveCharKeepsHead(s1, ' ');
      RemoveCharKeepsHead(RemoveChar(s1, ' '), NBSP);
    }
  }

  /** What `_parse_int` reads, stated without its intermediate steps: a blank
      or missing text is 0; otherwise `int()` of the text's digits and minus
      signs, every other character being dropped. */
  lemma ParseWizardIntReads(text: Option<string>)
    ensures ParseWizardInt(text) ==
      if AllSpace(text.GetOr("")) then Some(0) else ParseLiteral(KeepDigitsMinus(text.GetOr("")))
  {
    var t := text.GetOr("");
    CleanedEmpty(t);
    if AllSpace(t) {
      ParseDigits("0");
      KeepDigitsMinusFixpoint("0");
      assert Value("0") == 0;
    } else {
      KeepDigitsMinusOfCleaned(t);
    }
  }

  /** How a string of digits and minus signs reads as a number: a digit
      string is its value, a minus followed by a digit string its negation, and
      anything else (`""`, `"-"`, `"--1"`, `"12-3"`) no number at all. */
  function DigitsReading(d: string): Option<int>
  {
    if |d| >= 1 && AllDigits(d) then Some(Value(d) as int)
    else if |d| >= 2 && d[0] == '-' && AllDigits(d[1..]) then Some(-(Value(d[1..]) as int))
    else None
  }

  /** `int()` reads digit-and-minus strings as `DigitsReading` says. */
  lemma ReadingOf(d: string)
    requires forall i :: 0 <= i < |d| ==> IsDigitOrMinus(d[i])
    ensures ParseLiteral(d) == DigitsReading(d)
  {
    ParseDigitsAndMinus(d);
  }

  /** `_parse_int` reads 0 from a blank or missing text; otherwise it fails
      exactly when the text's digits and minus signs are neither a digit
      string nor a minus followed by one, and else reads the value they
      denote. */
  lemma ParseWizardIntCases(text: Option<string>)
    ensures ParseWizardInt(text) ==
        if AllSpace(text.GetOr("")) then Some(0) else DigitsReading(KeepDigitsMinus(text.GetOr("")))
  {
    var t := text.GetOr("");
    var d := KeepDigitsMinus(t);
    ParseWizardIntReads(text);
    ReadingOf(d);
  }

  /** Inserting any character other than a digit or a minus sign into a
      non-blank number text does not change what it reads as: "1 233 500",
      "1,233,500" and "1.233.500" all read as 1233500. */
  lemma ParseWizardIntIgnoresNoise(a: string, c: char, b: string)
    requires !IsDigitOrMinus(c)
    requires !AllSpace(a + b)
    ensures ParseWizardInt(Some(a + [c] + b)) == ParseWizardInt(Some(a + b))
  {
    var k :| 0 <= k < |a + b| && !IsSpace((a + b)[k]);
    var s := a + [c] + b;
    assert !IsSpace(s[if k < |a| then k else k + 1]);
    ParseWizardIntReads(Some(s));
    ParseWizardIntReads(Some(a + b));
    KeepDigitsMinusAppend(a + [c], b);
    KeepDigitsMinusAppend(a, [c]);
    KeepDigitsMinusAppend(a, b);
    assert KeepDigitsMinus([c]) == [];
  }

  /** `str(n)` is made of digits and at most a leading minus sign. */
  lemma IntToStringDigitsOrMinus(n: int)
    ensures forall i :: 0 <= i < |IntToString(n)| ==> IsDigitOrMinus(IntToString(n)[i])
  {
    var ds := Decimal(if n < 0 then -n else n);
    if n < 0 {
      assert forall i :: 1 <= i < |IntToString(n)| ==> IntToString(n)[i] == ds[i - 1];
    }
  }

  /** `fmt_int(n)` is never blank: its last character is a digit. */
  lemma FmtIntNotBlank(n: int)
    ensures !AllSpace(FmtInt(n))
  {
    var r := FmtInt(n);
    FmtIntShape(n);
    var body := if n < 0 then r[1..] else r;
    assert body[|body| - 1] == r[|r| - 1];
    assert (|body| - (|body| - 1)) % 4 != 0;
    assert IsDigit(r[|r| - 1]);
  }

  /** The wizard reads back the numbers the report prints: `_parse_int`
      inverts `fmt_int`. */
  lemma ParseWizardIntFmtInt(n: int)
    ensures ParseWizardInt(Some(FmtInt(n))) == Some(n)
  {
    FmtIntNotBlank(n);
    ParseWizardIntReads(Some(FmtInt(n)));
    KeepDigitsMinusOfRemoveChar(FmtInt(n), ' ');
    FmtIntRemoveSpaces(n);
    IntToStringDigitsOrMinus(n);
    KeepDigitsMinusFixpoint(IntToString(n));
    ParseIntToString(n);
  }

  // ---------------------------------------------------------------------------
  // The questionnaire
  // ---------------------------------------------------------------------------

  /** The questions, in the order they are asked; each answer is stored under
      the question's own key. */
  datatype Field = Title | Period | PostsLinks | Planned | Actual | Mediaplan | Screenshots | OrganicLinks

  /** `ReportFSM`: waiting for the answer to a question, or `done`, which no
      handler ever enters. */
  datatype WizardState = Asking(field: Field) | Done

  /** A value kept in the draft: a string, an int or Python's `None`. */
  datatype DraftValue = StrValue(str: string) | IntValue(num: int) | NoValue

  /** The chat's FSM context: its state (none when no dialogue runs) and its
      draft. */
  datatype Session = Session(state: Option<WizardState>, data: map<Field, DraftValue>)

  /** What the chat sends: one of the two commands, or any other message, whose
      text is absent for stickers, photos and the like. */
  datatype Event = NewReportCommand | CancelCommand | Message(text: Option<string>)

  /** What `_finish_and_send` reads from the draft; the two link texts are
      still unsplit. */
  datatype ReportData = ReportData(
    title: string,
    period: string,
    postsText: Option<string>,
    planned: int,
    actual: int,
    mediaplan: Option<string>,
    screenshots: Option<string>,
    organicText: Option<string>)

  /** What the bot does in reply: ask the next question, acknowledge the
      cancellation, re-ask a number, produce the report, leave the message to
      other handlers, or fail inside the handler (the message has no text). */
  datatype Reply =
    | Prompt(next: Field)
    | CancelAck
    | NotANumber(field: Field)
    | Finished(report: ReportData)
    | Unhandled
    | HandlerFailed

  datatype Outcome = Outcome(session: Session, reply: Reply)

  const Idle := Session(None, map[])

  /** The answers `step_mediaplan` and `step_screenshots` read as "none". */
  const NoneWords: set<string> := {"-", "\U{2014}", "\U{043D}\U{0435}\U{0442}", "\U{041D}\U{0435}\U{0442}"}

  function Position(f: Field): nat {
    match f
    case Title => 0
    case Period => 1
    case PostsLinks => 2
    case Planned => 3
    case Actual => 4
    case Mediaplan => 5
    case Screenshots => 6
    case OrganicLinks => 7
  }

  /** The question after `f`. */
  function Next(f: Field): (g: Field)
    requires f != OrganicLinks
    ensures Position(g) == Position(f) + 1
  {
    match f
    case Title => Period
    case Period => PostsLinks
    case PostsLinks => Planned
    case Planned => Actual
    case Actual => Mediaplan
    case Mediaplan => Screenshots
    case Screenshots => OrganicLinks
  }

  /** The questions whose handler calls `msg.text.strip()`. */
  predicate StripsText(f: Field) {
    f == Title || f == Period || f == Mediaplan || f == Screenshots
  }

  /** The questions answered through `_parse_int`. */
  predicate ReadsNumber(f: Field) {
    f == Planned || f == Actual
  }

  /** `msg.text` as stored verbatim. */
  function RawValue(text: Option<string>): DraftValue {
    if text.Some? then StrValue(text.value) else NoValue
  }

  /** `None if v in {...} else v` on the stripped answer. */
  function OptionalText(text: string): Option<string> {
    var v := Strip(text);
    if v in NoneWords then None else Some(v)
  }

  /** The optional answer as the draft stores it. */
  function OptionalAnswer(text: string): DraftValue {
    RawValue(OptionalText(text))
  }

  /** Store the answer to `f` and ask the next question. */
  function Advance(s: Session, f: Field, v: DraftValue): (o: Outcome)
    requires f != OrganicLinks
    ensures o.reply == Prompt(Next(f)) && o.session.state == Some(Asking(Next(f)))
    ensures o.session.data == s.data[f := v]
  {
    Outcome(Session(Some(Asking(Next(f))), s.data[f := v]), Prompt(Next(f)))
  }

  /** `step_title`, `step_period`, `step_mediaplan` and `step_screenshots`:
      strip the text and store it (the last two reading the "none" words as
      `None`); a message without text fails at the strip. */
  function AnswerText(s: Session, f: Field, text: Option<string>): (o: Outcome)
    requires StripsText(f)
    ensures text.None? ==> o == Outcome(s, HandlerFailed)
    ensures text.Some? ==> o.reply.Prompt?
  {
    if text.None? then Outcome(s, HandlerFailed)
    else if f == Title || f == Period then Advance(s, f, StrValue(Strip(text.value)))
    else Advance(s, f, OptionalAnswer(text.value))
  }

  /** `step_planned` and `step_actual`: store the number, or ask again. */
  function AnswerNumber(s: Session, f: Field, text: Option<string>): (o: Outcome)
    requires ReadsNumber(f)
    ensures ParseWizardInt(text).None? ==> o == Outcome(s, NotANumber(f))
    ensures ParseWizardInt(text).Some? ==> o.reply.Prompt?
  {
    var n := ParseWizardInt(text);
    if n.None? then Outcome(s, NotANumber(f)) else Advance(s, f, IntValue(n.value))
  }

  /** The handler for question `f` accepts a message with `text`: the
      stripping handlers need a text, the number handlers a readable number,
      and the two link questions take anything. */
  predicate Accepts(f: Field, text: Option<string>) {
    && (StripsText(f) ==> text.Some?)
    && (ReadsNumber(f) ==> ParseWizardInt(text).Some?)
  }

  /** The handler of question `f` on a message with `text`. It fails without a
      text where it strips, re-asks a number it cannot read, and otherwise
      stores the answer under `f`, keeping the rest of the draft, and asks the
      next question; the last answer produces the report and clears the chat.
      Titles and periods are stored stripped, the mediaplan and screenshots
      stripped or `None` for the "none" words, numbers as read by
      `_parse_int`, and link lists as sent. */
  function Answer(s: Session, f: Field, text: Option<string>): (o: Outcome)
    ensures o.reply.HandlerFailed? <==> StripsText(f) && text.None?
    ensures o.reply.NotANumber? <==> ReadsNumber(f) && ParseWizardInt(text).None?
    ensures o.reply.Finished? <==> f == OrganicLinks
    ensures o.reply.Prompt? <==> f != OrganicLinks && Accepts(f, text)
    ensures o.reply.HandlerFailed? || o.reply.NotANumber? ==> o.session == s
    ensures o.reply.Prompt? ==> o.reply == Prompt(Next(f)) && o.session.state == Some(Asking(Next(f)))
    ensures o.reply.Prompt? ==> f in o.session.data && o.session.data == s.data[f := o.session.data[f]]
    ensures (f == Title || f == Period) && text.Some? ==> o.session.data[f] == StrValue(Strip(text.value))
    ensures (f == Mediaplan || f == Screenshots) && text.Some? ==>
              && (o.session.data[f] == NoValue <==> Strip(text.value) in NoneWords)
              && (Strip(text.value) !in NoneWords ==> o.session.data[f] == StrValue(Strip(text.value)))
    ensures ReadsNumber(f) && ParseWizardInt(text).Some? ==> o.session.data[f] == IntValue(ParseWizardInt(text).value)
    ensures f == PostsLinks ==> o.session.data[f] == RawValue(text)
    ensures f == OrganicLinks ==> o == Outcome(Idle, Finished(FinishData(s.data[OrganicLinks := RawValue(text)])))
  {
    if StripsText(f) then AnswerText(s, f, text)
    else if ReadsNumber(f) then AnswerNumber(s, f, text)
    else if f == PostsLinks then Advance(s, PostsLinks, RawValue(text))
    else Outcome(Idle, Finished(FinishData(s.data[OrganicLinks := RawValue(text)])))
  }

  /** One event of the router: `/new_report` restarts the questionnaire from
      any state with an empty draft, `/cancel` forgets everything, and any
      other message is an answer to the current question, or is left to
      other handlers when no question is pending. */
  function Step(s: Session, e: Event): (o: Outcome)
    ensures e == NewReportCommand ==> o == Outcome(Session(Some(Asking(Title)), map[]), Prompt(Title))
    ensures e == CancelCommand ==> o == Outcome(Idle, CancelAck)
    ensures e.Message? && (s.state.None? || s.state == Some(Done)) ==> o == Outcome(s, Unhandled)
    ensures s.state != Some(Done) ==> o.session.state != Some(Done)
  {
    match e
    case NewReportCommand => Outcome(Session(Some(Asking(Title)), map[]), Prompt(Title))
    case CancelCommand => Outcome(Idle, CancelAck)
    case Message(text) =>
      if s.state.None? || s.state.value.Done? then Outcome(s, Unhandled)
      else Answer(s, s.state.value.field, text)
  }

  // ---------------------------------------------------------------------------
  // _finish_and_send
  // ---------------------------------------------------------------------------

  /** A draft value as a string, `None` when it is not one. */
  function AsText(v: DraftValue): Option<string> {
    if v.StrValue? then Some(v.str) else None
  }

  /** `data.get(f)` when it holds a string, `None` otherwise. */
  function StoredText(data: map<Field, DraftValue>, f: Field): Option<string> {
    if f in data then AsText(data[f]) else None
  }

  /** `int(data.get(f) or 0)`. */
  function StoredInt(data: map<Field, DraftValue>, f: Field): int {
    if f in data && data[f].IntValue? then data[f].num else 0
  }

  /** What `_finish_and_send` reads from the draft: strings default to `""`
      and numbers to 0. */
  function FinishData(data: map<Field, DraftValue>): ReportData {
    ReportData(
      StoredText(data, Title).GetOr(""),
      StoredText(data, Period).GetOr(""),
      StoredText(data, PostsLinks),
      StoredInt(data, Planned),
      StoredInt(data, Actual),
      StoredText(data, Mediaplan),
      StoredText(data, Screenshots),
      StoredText(data, OrganicLinks))
  }

  /** The growth percentage as the report prints it: Python's `0.0` when
      nothing was planned, otherwise the rendering of the rounded float. */
  function GrowthText(planned: int, actual: int, pctText: (int, int) -> string): string {
    if planned == 0 then "0.0" else pctText(planned, actual)
  }

  /** The arguments `_finish_and_send` passes to `format_report_html`: the
      post lines after `enrich`, the organic lines as split, no organic reach,
      the actual reach as the total, `""` for a missing mediaplan. */
  function ReportFieldsOf(rd: ReportData, enrich: seq<string> -> seq<string>, pctText: (int, int) -> string): ReportFields {
    ReportFields(rd.title, rd.period, enrich(SplitLines(rd.postsText)), rd.planned, rd.actual, 0, rd.actual,
                 rd.mediaplan.GetOr(""), rd.screenshots, GrowthText(rd.planned, rd.actual, pctText),
                 SplitLines(rd.organicText))
  }

  /** The report's HTML. */
  function ReportHtml(rd: ReportData, enrich: seq<string> -> seq<string>, pctText: (int, int) -> string): string {
    FormatReportHtml(ReportFieldsOf(rd, enrich, pctText))
  }

  const MaxPart := 3500

  /** The messages `_finish_and_send` sends: `chunk_text(html, 3500)`. There is
      always at least one, none is empty or longer than 3500 characters, a
      short report goes out whole, together they spell the report with at most
      paragraph separators lost, a separator is lost only between two
      messages whose first had no room for the paragraph behind it, and a
      message starts only where a separator was lost or inside a paragraph
      longer than 3500 characters. */
  method SendReport(rd: ReportData, enrich: seq<string> -> seq<string>, pctText: (int, int) -> string)
    returns (parts: seq<string>)
    ensures parts != []
    ensures forall k :: 0 <= k < |parts| ==> 1 <= |parts[k]| <= MaxPart
    ensures |ReportHtml(rd, enrich, pctText)| <= MaxPart ==> parts == [ReportHtml(rd, enrich, pctText)]
    ensures DropsOnlySeparators(Split(ReportHtml(rd, enrich, pctText), PARA), Concat(parts))
    ensures CutsOnParagraphs(Split(ReportHtml(rd, enrich, pctText), PARA), parts, MaxPart)
  {
    var f := ReportFieldsOf(rd, enrich, pctText);
    var html := FormatReportHtml(f);
    ReportHtmlEnds(f);
    assert html[0] == '<';
    SplitFirstPartNonEmpty(html, PARA);
    assert !AllEmpty(Split(html, PARA));
    parts := ChunkText(html, MaxPart);
  }

  /** The report shows the draft: the post bullets are the enriched post
      lines that are non-blank, the organic bullets the organic lines, the
      planned and actual reach with the growth (`0.0` when nothing was
      planned, the rendered percentage otherwise), the mediaplan (empty when there
      is none), the period line exactly when there is a period, a screenshots
      line only for the answered folder, an organic reach of 0 and the actual
      reach as the total on the last line. */
  lemma ReportShowsData(rd: ReportData, enrich: seq<string> -> seq<string>, pctText: (int, int) -> string)
    ensures var ls := ReportLines(ReportFieldsOf(rd, enrich, pctText));
      && PostBulletLinks(ls) == StrippedNonBlank(enrich(SplitLines(rd.postsText)))
      && OrganicBulletLinks(ls) == SplitLines(rd.organicText)
      && PlannedLine(rd.planned) in ls
      && ActualLine(rd.actual, GrowthText(rd.planned, rd.actual, pctText)) in ls
      && (rd.planned == 0 ==> ActualLine(rd.actual, "0.0") in ls)
      && (rd.planned != 0 ==> ActualLine(rd.actual, pctText(rd.planned, rd.actual)) in ls)
      && MediaplanLine(rd.mediaplan.GetOr("")) in ls
      && (PeriodLine(rd.period) in ls <==> rd.period != "")
      && (forall u :: ScreenshotsLine(u) in ls ==> rd.screenshots == Some(u) && u != "")
      && OrganicReachLine(0) in ls
      && ls[|ls| - 1] == TotalLine(rd.actual)
  {
    var f := ReportFieldsOf(rd, enrich, pctText);
    ReportLinesBullets(f);
    ReportLinesSections(f);
  }

  /** Without enrichment the report lists the post lines exactly as
      `_split_lines` read them from the answer. */
  lemma ReportListsPostsAsEntered(rd: ReportData, pctText: (int, int) -> string)
    ensures PostBulletLinks(ReportLines(ReportFieldsOf(rd, xs => xs, pctText))) == SplitLines(rd.postsText)
  {
    ReportShowsData(rd, xs => xs, pctText);
    SplitLinesClean(rd.postsText);
    StrippedNonBlankFixpoint(SplitLines(rd.postsText));
  }

  // ---------------------------------------------------------------------------
  // The draft invariant and whole dialogues
  // ---------------------------------------------------------------------------

  /** The type each answer is stored with. */
  predicate Fits(f: Field, v: DraftValue) {
    if f == Title || f == Period then v.StrValue?
    else if ReadsNumber(f) then v.IntValue?
    else !v.IntValue?
  }

  /** A session reachable from an idle chat: idle with an empty draft, or
      asking a question with exactly the earlier questions answered, each with
      a value of its type; never `done`. */
  ghost predicate Consistent(s: Session) {
    match s.state
    case None => s.data == map[]
    case Some(Done) => false
    case Some(Asking(f)) =>
      && (forall g :: g in s.data <==> Position(g) < Position(f))
      && (forall g :: g in s.data ==> Fits(g, s.data[g]))
  }

  /** Every event keeps the session consistent. */
  lemma StepPreservesConsistent(s: Session, e: Event)
    requires Consistent(s)
    ensures Consistent(Step(s, e).session)
  {
    var o := Step(s, e);
    if e.Message? && s.state.Some? {
      var f := s.state.value.field;
      if o.reply.Prompt? {
        var v := o.session.data[f];
        assert Fits(f, v) by {
          if StripsText(f) {
            assert e.text.Some?;
          } else if ReadsNumber(f) {
            assert ParseWizardInt(e.text).Some?;
          }
        }
        forall g | g in o.session.data
          ensures Position(g) < Position(Next(f))
        {
          assert g in s.data || g == f;
        }
      }
    }
  }

  /** The outcome of a sequence of events: the final session and every reply. */
  datatype Trace = Trace(session: Session, replies: seq<Reply>)

  function Run(s: Session, events: seq<Event>): (t: Trace)
    ensures |t.replies| == |events|
    decreases |events|
  {
    if events == [] then Trace(s, [])
    else
      var o := Step(s, events[0]);
      var t := Run(o.session, events[1..]);
      Trace(t.session, [o.reply] + t.replies)
  }

  /** From an idle chat no sequence of events reaches an inconsistent session,
      in particular never the `done` state. */
  lemma {:induction false} RunPreservesConsistent(s: Session, events: seq<Event>)
    requires Consistent(s)
    ensures Consistent(Run(s, events).session)
    ensures Run(s, events).session.state != Some(Done)
    decreases |events|
  {
    if events != [] {
      StepPreservesConsistent(s, events[0]);
      RunPreservesConsistent(Step(s, events[0]).session, events[1..]);
    }
  }


  /** A run over two sequences of events is the second run started where the
      first ends. */
  lemma {:induction false} RunAppend(s: Session, a: seq<Event>, b: seq<Event>)
    ensures Run(s, a + b).session == Run(Run(s, a).session, b).session
    ensures Run(s, a + b).replies == Run(s, a).replies + Run(Run(s, a).session, b).replies
    decreases |a|
  {
    if a == [] {
      assert a + b == b;
    } else {
      assert (a + b)[0] == a[0] && (a + b)[1..] == a[1..] + b;
      RunAppend(Step(s, a[0]).session, a[1..], b);
    }
  }

  /** Whatever happened before, `/cancel` leaves the chat idle and a following
      `/new_report` asks for the title with an empty draft. */
  lemma CancelThenRestart(s: Session, before: seq<Event>)
    ensures Run(s, before + [CancelCommand]).session == Idle
    ensures Run(s, before + [CancelCommand, NewReportCommand]).session == Session(Some(Asking(Title)), map[])
    ensures Run(s, before + [CancelCommand, NewReportCommand]).replies
         == Run(s, before).replies + [CancelAck, Prompt(Title)]
  {
    var mid := Run(s, before).session;
    RunAppend(s, before, [CancelCommand]);
    RunAppend(s, before, [CancelCommand, NewReportCommand]);
    assert [CancelCommand][1..] == [];
    var two := [CancelCommand, NewReportCommand];
    assert two[1..] == [NewReportCommand] && two[1..][1..] == [];
    assert Run(mid, two) == Trace(Session(Some(Asking(Title)), map[]), [CancelAck, Prompt(Title)]);
  }

  // ---------------------------------------------------------------------------
  // Complete dialogues
  // ---------------------------------------------------------------------------

  /** Question number `k` in the order they are asked: the inverse of
      `Position`. */
  function Question(k: nat): (f: Field)
    requires k < 8
    ensures Position(f) == k
  {
    if k == 0 then Title
    else if k == 1 then Period
    else if k == 2 then PostsLinks
    else if k == 3 then Planned
    else if k == 4 then Actual
    else if k == 5 then Mediaplan
    else if k == 6 then Screenshots
    else OrganicLinks
  }

  /** Each question but the last is followed by the next one. */
  lemma QuestionOrder(k: nat)
    requires k < 8
    ensures k < 7 ==> Question(k) != OrganicLinks && Next(Question(k)) == Question(k + 1)
    ensures k == 7 <==> Question(k) == OrganicLinks
  {
  }

  /** The messages carrying `texts`, in order. */
  function Messages(texts: seq<Option<string>>): (es: seq<Event>)
    ensures |es| == |texts|
    ensures forall k :: 0 <= k < |texts| ==> es[k] == Message(texts[k])
  {
    seq(|texts|, k requires 0 <= k < |texts| => Message(texts[k]))
  }

  /** The messages from answer `k` on start with the message of answer `k`. */
  lemma MessagesFrom(texts: seq<Option<string>>, k: nat)
    requires k < |texts|
    ensures Messages(texts)[k..] == [Message(texts[k])] + Messages(texts)[k + 1..]
  {
  }

  /** `texts` holds one answer per question, and the handlers accept the
      answers to question `k` and every later one. */
  predicate AcceptedFrom(texts: seq<Option<string>>, k: nat)
    decreases 8 - k
  {
    |texts| == 8 && (k < 8 ==> Accepts(Question(k), texts[k]) && AcceptedFrom(texts, k + 1))
  }

  /** The value the questionnaire keeps for question `f` answered with
      `text`, as the handlers' `update_data` calls store it, in one closed
      form. */
  function StoredValue(f: Field, text: Option<string>): DraftValue
    requires f != OrganicLinks && Accepts(f, text)
  {
    match f
    case Title => StrValue(Strip(text.value))
    case Period => StrValue(Strip(text.value))
    case PostsLinks => RawValue(text)
    case Planned => IntValue(ParseWizardInt(text).value)
    case Actual => IntValue(ParseWizardInt(text).value)
    case Mediaplan => OptionalAnswer(text.value)
    case Screenshots => OptionalAnswer(text.value)
  }

  /** Whatever the draft, the handler of an accepted answer stores exactly the
      value `StoredValue` names and leaves the other entries alone. */
  lemma AnswerStores(s: Session, f: Field, text: Option<string>)
    requires f != OrganicLinks && Accepts(f, text)
    ensures Answer(s, f, text).session.data == s.data[f := StoredValue(f, text)]
  {
  }

  /** The draft `d` once questions `k` to the one before the last are answered
      with `texts`. */
  function FillFrom(d: map<Field, DraftValue>, texts: seq<Option<string>>, k: nat): map<Field, DraftValue>
    requires k <= 7 && AcceptedFrom(texts, k)
    decreases 7 - k
  {
    if k == 7 then d
    else FillFrom(d[Question(k) := StoredValue(Question(k), texts[k])], texts, k + 1)
  }

  /** The draft `_finish_and_send` reads after a complete dialogue. */
  function DialogueDraft(texts: seq<Option<string>>): map<Field, DraftValue>
    requires AcceptedFrom(texts, 0)
  {
    FillFrom(map[], texts, 0)[OrganicLinks := RawValue(texts[7])]
  }

  /** The prompts for questions `k` to the last, in order. */
  function PromptsFrom(k: nat): (ps: seq<Reply>)
    requires k <= 8
    ensures |ps| == 8 - k
    decreases 8 - k
  {
    if k == 8 then [] else [Prompt(Question(k))] + PromptsFrom(k + 1)
  }

  /** The filled-in draft holds, for every question from `k` on but the last,
      the value its handler stores, and keeps what `d` held for the earlier
      ones. */
  lemma {:induction false} FillFromReads(d: map<Field, DraftValue>, texts: seq<Option<string>>, k: nat, f: Field)
    requires k <= 7 && AcceptedFrom(texts, k)
    ensures k <= Position(f) < 7 ==> f in FillFrom(d, texts, k)
    ensures k <= Position(f) < 7 ==> (Accepts(f, texts[Position(f)])
                                      && FillFrom(d, texts, k)[f] == StoredValue(f, texts[Position(f)]))
    ensures Position(f) < k ==> (f in FillFrom(d, texts, k) <==> f in d)
    ensures Position(f) < k && f in d ==> FillFrom(d, texts, k)[f] == d[f]
    decreases 7 - k
  {
    if k < 7 {
      QuestionOrder(k);
      var g := Question(k);
      assert Accepts(g, texts[k]);
      FillFromReads(d[g := StoredValue(g, texts[k])], texts, k + 1, f);
      if Position(f) == k {
        assert f == g;
      }
    }
  }

  /** Accepted answers walk the questionnaire to its end: from question `k`
      the bot asks every later question in order, then sends the report of
      the filled-in draft and leaves the chat idle. */
  lemma {:induction false} RunAnswers(d: map<Field, DraftValue>, texts: seq<Option<string>>, k: nat)
    requires k <= 7 && AcceptedFrom(texts, k)
    ensures Run(Session(Some(Asking(Question(k))), d), Messages(texts)[k..])
         == Trace(Idle, PromptsFrom(k + 1) + [Finished(FinishData(FillFrom(d, texts, k)[OrganicLinks := RawValue(texts[7])]))])
    decreases 7 - k
  {
    if k == 7 {
      RunLastAnswer(d, texts);
    } else {
      QuestionOrder(k);
      var f := Question(k);
      RunAnswers(d[f := StoredValue(f, texts[k])], texts, k + 1);
      RunNextAnswer(d, texts, k);
    }
  }

  /** The base case of `RunAnswers`: the answer to the last question. */
  lemma RunLastAnswer(d: map<Field, DraftValue>, texts: seq<Option<string>>)
    requires AcceptedFrom(texts, 7)
    ensures Run(Session(Some(Asking(OrganicLinks)), d), Messages(texts)[7..])
         == Trace(Idle, [Finished(FinishData(d[OrganicLinks := RawValue(texts[7])]))])
  {
    MessagesFrom(texts, 7);
    assert Messages(texts)[8..] == [];
    LastAnswer(d, texts[7]);
  }

  /** The inductive step of `RunAnswers`: an accepted answer to question `k`
      followed by the run from question `k + 1`. */
  lemma RunNextAnswer(d: map<Field, DraftValue>, texts: seq<Option<string>>, k: nat)
    requires k < 7 && AcceptedFrom(texts, k)
    requires var d' := d[Question(k) := StoredValue(Question(k), texts[k])];
             (Run(Session(Some(Asking(Question(k + 1))), d'), Messages(texts)[k + 1..])
              == Trace(Idle, PromptsFrom(k + 2) + [Finished(FinishData(FillFrom(d', texts, k + 1)[OrganicLinks := RawValue(texts[7])]))]))
    ensures Run(Session(Some(Asking(Question(k))), d), Messages(texts)[k..])
         == Trace(Idle, PromptsFrom(k + 1) + [Finished(FinishData(FillFrom(d, texts, k)[OrganicLinks := RawValue(texts[7])]))])
  {
    QuestionOrder(k);
    var f := Question(k);
    var rest := Messages(texts)[k + 1..];
    MessagesFrom(texts, k);
    var d' := d[f := StoredValue(f, texts[k])];
    NextAnswer(d, f, texts[k], rest);
    assert FillFrom(d, texts, k) == FillFrom(d', texts, k + 1);
    var last := Finished(FinishData(FillFrom(d', texts, k + 1)[OrganicLinks := RawValue(texts[7])]));
    assert PromptsFrom(k + 1) == [Prompt(Question(k + 1))] + PromptsFrom(k + 2);
    SeqAssoc([Prompt(Question(k + 1))], PromptsFrom(k + 2), [last]);
  }

  /** An accepted answer to any question but the last is stored and the next
      question is asked; the rest of the run continues from there. */
  lemma NextAnswer(d: map<Field, DraftValue>, f: Field, text: Option<string>, rest: seq<Event>)
    requires f != OrganicLinks && Accepts(f, text)
    ensures var t := Run(Session(Some(Asking(Next(f))), d[f := StoredValue(f, text)]), rest);
            Run(Session(Some(Asking(f)), d), [Message(text)] + rest) == Trace(t.session, [Prompt(Next(f))] + t.replies)
  {
    var s := Session(Some(Asking(f)), d);
    AnswerStores(s, f, text);
    assert Step(s, Message(text)) == Outcome(Session(Some(Asking(Next(f))), d[f := StoredValue(f, text)]), Prompt(Next(f)));
    assert ([Message(text)] + rest)[0] == Message(text) && ([Message(text)] + rest)[1..] == rest;
  }

  /** The answer to the last question produces the report of the draft with
      that answer added and leaves the chat idle. */
  lemma LastAnswer(d: map<Field, DraftValue>, text: Option<string>)
    ensures Run(Session(Some(Asking(OrganicLinks)), d), [Message(text)])
         == Trace(Idle, [Finished(FinishData(d[OrganicLinks := RawValue(text)]))])
  {
    assert [Message(text)][1..] == [];
  }

  /** Every question but the last is answered in the draft of a complete
      dialogue with the value its handler stores. */
  lemma DraftStores(texts: seq<Option<string>>, f: Field)
    requires AcceptedFrom(texts, 0)
    requires f != OrganicLinks
    ensures Accepts(f, texts[Position(f)])
    ensures f in DialogueDraft(texts) && DialogueDraft(texts)[f] == StoredValue(f, texts[Position(f)])
  {
    FillFromReads(map[], texts, 0, f);
  }

  /** The title and period of a complete dialogue's report are the stripped
      answers. */
  lemma DraftHeading(texts: seq<Option<string>>, f: Field)
    requires AcceptedFrom(texts, 0)
    requires f == Title || f == Period
    ensures texts[Position(f)].Some?
    ensures StoredText(DialogueDraft(texts), f) == Some(Strip(texts[Position(f)].value))
  {
    DraftStores(texts, f);
  }

  /** The numbers of a complete dialogue's report are the parsed answers. */
  lemma DraftNumber(texts: seq<Option<string>>, f: Field)
    requires AcceptedFrom(texts, 0)
    requires ReadsNumber(f)
    ensures ParseWizardInt(texts[Position(f)]).Some?
    ensures StoredInt(DialogueDraft(texts), f) == ParseWizardInt(texts[Position(f)]).value
  {
    DraftStores(texts, f);
  }

  /** The mediaplan and screenshots of a complete dialogue's report are the
      stripped answers, with the "none" words read as absent. */
  lemma DraftOptional(texts: seq<Option<string>>, f: Field)
    requires AcceptedFrom(texts, 0)
    requires f == Mediaplan || f == Screenshots
    ensures texts[Position(f)].Some?
    ensures StoredText(DialogueDraft(texts), f) == OptionalText(texts[Position(f)].value)
  {
    DraftStores(texts, f);
  }

  /** The link lists of a complete dialogue's report are the answers as sent. */
  lemma DraftLinks(texts: seq<Option<string>>, f: Field)
    requires AcceptedFrom(texts, 0)
    requires f == PostsLinks || f == OrganicLinks
    ensures StoredText(DialogueDraft(texts), f) == texts[Position(f)]
  {
    var k := Position(f);
    QuestionOrder(k);
    FillFromReads(map[], texts, 0, f);
  }

  /** The prompts of a whole questionnaire, in order, then `last`. */
  lemma PromptsThen(last: Reply)
    ensures [Prompt(Title)] + PromptsFrom(1) + [last]
         == [Prompt(Title), Prompt(Period), Prompt(PostsLinks), Prompt(Planned), Prompt(Actual),
             Prompt(Mediaplan), Prompt(Screenshots), Prompt(OrganicLinks), last]
  {
    assert PromptsFrom(6) == [Prompt(Screenshots), Prompt(OrganicLinks)];
    assert PromptsFrom(4) == [Prompt(Actual), Prompt(Mediaplan)] + PromptsFrom(6);
    assert PromptsFrom(2) == [Prompt(PostsLinks), Prompt(Planned)] + PromptsFrom(4);
  }

  /** Whatever the session, `/new_report` asks for the title and the events
      after it run from the first question with an empty draft. */
  lemma NewReportRestarts(s: Session, rest: seq<Event>)
    ensures var t := Run(Session(Some(Asking(Title)), map[]), rest);
            Run(s, [NewReportCommand] + rest) == Trace(t.session, [Prompt(Title)] + t.replies)
  {
    var es := [NewReportCommand] + rest;
    assert es[0] == NewReportCommand && es[1..] == rest;
  }

  /** From any session, `/new_report` followed by accepted answers asks every
      question in order, then sends the report of the filled-in draft and
      leaves the chat idle. */
  lemma DialogueRun(s: Session, texts: seq<Option<string>>)
    requires AcceptedFrom(texts, 0)
    ensures Run(s, [NewReportCommand] + Messages(texts))
         == Trace(Idle, [Prompt(Title)] + PromptsFrom(1) + [Finished(FinishData(DialogueDraft(texts)))])
  {
    var last := Finished(FinishData(DialogueDraft(texts)));
    NewReportRestarts(s, Messages(texts));
    RunFromTitle(texts);
    SeqAssoc([Prompt(Title)], PromptsFrom(1), [last]);
  }

  /** Accepted answers from the first question with an empty draft. */
  lemma RunFromTitle(texts: seq<Option<string>>)
    requires AcceptedFrom(texts, 0)
    ensures Run(Session(Some(Asking(Title)), map[]), Messages(texts))
         == Trace(Idle, PromptsFrom(1) + [Finished(FinishData(DialogueDraft(texts)))])
  {
    assert Messages(texts)[0..] == Messages(texts);
    RunAnswers(map[], texts, 0);
  }

  /** A complete dialogue: from any session, `/new_report` followed by eight
      accepted answers asks every question in order, then produces the report
      of the draft the answers filled in (read back field by field by
      `DraftHeading`, `DraftNumber`, `DraftOptional` and `DraftLinks`) and
      leaves the chat idle. */
  lemma FullDialogue(s: Session, texts: seq<Option<string>>)
    requires AcceptedFrom(texts, 0)
    ensures var t := Run(s, [NewReportCommand] + Messages(texts));
      && t.session == Idle
      && t.replies == [Prompt(Title), Prompt(Period), Prompt(PostsLinks), Prompt(Planned), Prompt(Actual),
                       Prompt(Mediaplan), Prompt(Screenshots), Prompt(OrganicLinks),
                       Finished(FinishData(DialogueDraft(texts)))]
  {
    DialogueRun(s, texts);
    PromptsThen(Finished(FinishData(DialogueDraft(texts))));
  }
}
