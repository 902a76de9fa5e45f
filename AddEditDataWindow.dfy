/**
 * The add/edit dialog's record handling: the two constructors' starting
 * record and `UpdateStudentDataFromControls`, which checks the raw field
 * texts in a fixed order, collects one message per failed check, and only
 * when every check passes copies the parsed values into the record.
 * The WPF controls are replaced by the values they hold (`Controls`); the
 * culture-dependent parsers are parameters.
 */
module EditForm {
  import opened Wrappers
  import opened Errors
  import opened Text
  import opened Models

  /** The values the dialog's controls hold when Save is pressed. */
  datatype Controls = Controls(
    fullNameText: string,
    groupText: string,
    emailText: string,
    ratingText: string,
    selectedDate: Option<Date>,            // EnrollmentDatePicker.SelectedDate
    timeText: string,
    selectedCourse: Option<CourseYear>,    // CourseComboBox.SelectedItem
    scholarshipChecked: Option<bool>)      // ReceivesScholarshipCheckBox.IsChecked

  /**
   * The library parsers the validator calls: `double.TryParse` with the
   * invariant culture, and `TimeSpan.TryParseExact` with the formats
   * `hh\:mm` and `h\:mm`.
   */
  datatype Parsers = Parsers(
    parseRating: string -> Option<Double>,
    parseTwoDigitTime: string -> Option<Duration>,
    parseOneDigitTime: string -> Option<Duration>)

  /** One failed check; `Step` is its position in the order of the checks. */
  datatype FieldError =
    | FullNameEmpty | GroupEmpty | EmailFormat | EmailEmpty | RatingFormat | RatingRange
    | DateMissing | TimeFormat | CourseMissing
  {
    function Step(): nat {
      match this
      case FullNameEmpty => 0
      case GroupEmpty => 1
      case EmailFormat | EmailEmpty => 2
      case RatingFormat | RatingRange => 3
      case DateMissing => 4
      case TimeFormat => 5
      case CourseMissing => 6
    }

    /** The line the dialog shows for this error. */
    function Message(): string {
      match this
      case FullNameEmpty => "ФИО не может быть пустым.\n"
      case GroupEmpty => "Группа не может быть пустой.\n"
      case EmailFormat => "Некорректный формат Email.\n"
      case EmailEmpty => "Email не может быть пустым.\n"
      case RatingFormat => "Некорректный формат рейтинга. Используйте число (разделитель - точка).\n"
      case RatingRange => "Рейтинг должен быть в диапазоне от 0 до 100.\n"
      case DateMissing => "Необходимо выбрать дату зачисления.\n"
      case TimeFormat => "Неверный формат времени зачисления. Используйте ЧЧ:ММ.\n"
      case CourseMissing => "Необходимо выбрать курс.\n"
    }
  }

  // ---------------------------------------------------------------------
  // The e-mail pattern ^[^@\s]+@[^@\s]+\.[^@\s]+$
  // ---------------------------------------------------------------------

  /** A character of the class `[^@\s]`. */
  predicate IsAddressChar(c: char) {
    c != '@' && !IsWhiteSpace(c)
  }

  /** A match of `[^@\s]+`. */
  predicate IsAddressRun(s: string) {
    s != [] && forall i :: 0 <= i < |s| ==> IsAddressChar(s[i])
  }

  /** `s` is three runs `a`, `b`, `c` joined as `a@b.c`. */
  predicate JoinsRuns(s: string, a: string, b: string, c: string) {
    IsAddressRun(a) && IsAddressRun(b) && IsAddressRun(c) && s == a + ['@'] + b + ['.'] + c
  }

  /** The strings the body of the pattern matches in full. */
  ghost predicate MatchesAddressPattern(s: string) {
    exists a: string, b: string, c: string :: JoinsRuns(s, a, b, c)
  }

  /**
   * The address check: exactly one `@`, a non-empty local part, a domain
   * with a `.` that is neither its first nor its last character, and no
   * white space anywhere.
   */
  predicate IsEmailAddress(s: string) {
    var parts := Split(s, '@');
    && |parts| == 2
    && IsAddressRun(parts[0])
    && IsAddressRun(parts[1])
    && exists i :: 0 < i < |parts[1]| - 1 && parts[1][i] == '.'
  }

  lemma AddressRunConcat(a: string, b: string)
    requires IsAddressRun(a) && IsAddressRun(b)
    ensures IsAddressRun(a + ['.'] + b)
  {
  }

  /** The address check accepts exactly the strings the pattern's body matches. */
  lemma IsEmailAddressMatches(s: string)
    ensures IsEmailAddress(s) <==> MatchesAddressPattern(s)
  {
    if IsEmailAddress(s) {
      AddressMatches(s);
    }
    if MatchesAddressPattern(s) {
      var a: string, b: string, c: string :| JoinsRuns(s, a, b, c);
      MatchIsAddress(a, b, c);
    }
  }

  /** An accepted address splits into the pattern's three runs. */
  lemma AddressMatches(s: string)
    requires IsEmailAddress(s)
    ensures MatchesAddressPattern(s)
  {
    var parts := Split(s, '@');
    var a, d := parts[0], parts[1];
    var i :| 0 < i < |d| - 1 && d[i] == '.';
    var b, c := d[..i], d[i + 1..];
    JoinSplit(s, '@');
    assert parts[1..] == [d];
    assert s == a + ['@'] + d;
    AddressRunSlice(d, 0, i);
    AddressRunSlice(d, i + 1, |d|);
    SplitDomain(s, a, d, i);
    assert JoinsRuns(s, a, b, c);
  }

  /** Cutting the domain at its `.` keeps the address. */
  lemma SplitDomain(s: string, a: string, d: string, i: nat)
    requires s == a + ['@'] + d && i < |d| && d[i] == '.'
    ensures s == a + ['@'] + d[..i] + ['.'] + d[i + 1..]
  {
    assert d == d[..i] + [d[i]] + d[i + 1..];
  }

  lemma AddressRunSlice(d: string, i: nat, j: nat)
    requires IsAddressRun(d) && i < j <= |d|
    ensures IsAddressRun(d[i..j])
  {
  }

  /** Three runs joined as the pattern joins them make an accepted address. */
  lemma MatchIsAddress(a: string, b: string, c: string)
    requires IsAddressRun(a) && IsAddressRun(b) && IsAddressRun(c)
    ensures IsEmailAddress(a + ['@'] + b + ['.'] + c)
  {
    var s := a + ['@'] + b + ['.'] + c;
    var d := b + ['.'] + c;
    AddressRunConcat(b, c);
    assert s == a + ['@'] + d;
    SplitOnce(a, d, '@');
    assert d[|b|] == '.';
  }

  /**
   * The pattern as `Regex.IsMatch` applies it: without the multiline
   * option, `$` matches at the very end and also just before a final
   * line feed.
   */
  predicate IsEmailAddressAsWritten(s: string) {
    IsEmailAddress(s) || (s != [] && s[|s| - 1] == '\n' && IsEmailAddress(s[..|s| - 1]))
  }

  /** Every valid address followed by a line feed passes the check as written, though it holds white space. */
  lemma AsWrittenAcceptsTrailingLineFeed(s: string)
    requires IsEmailAddress(s)
    ensures IsEmailAddressAsWritten(s + "\n")
    ensures !IsEmailAddress(s + "\n")
  {
    var t := s + "\n";
    assert t[..|t| - 1] == s;
    EndsInWhiteSpace(t);
  }

  /** No address accepted by the check ends in white space. */
  lemma EndsInWhiteSpace(t: string)
    requires t != [] && IsWhiteSpace(t[|t| - 1])
    ensures !IsEmailAddress(t)
  {
    var parts := Split(t, '@');
    if |parts| == 2 && parts[1] != [] {
      JoinSplit(t, '@');
      assert t == parts[0] + ['@'] + parts[1];
      assert t[|t| - 1] == parts[1][|parts[1]| - 1];
    }
  }

  /** An address starts with a character of its local part, so it is not blank. */
  lemma AddressNotBlank(s: string)
    ensures IsEmailAddress(s) ==> !IsBlank(s)
  {
    if IsEmailAddress(s) {
      var parts := Split(s, '@');
      JoinSplit(s, '@');
      assert s == parts[0] + ['@'] + parts[1];
      assert !IsWhiteSpace(s[0]);
    }
  }

  /** Neither is a text the pattern accepts as written. */
  lemma AsWrittenNotBlank(s: string)
    requires IsEmailAddressAsWritten(s)
    ensures !IsBlank(s)
  {
    if !IsEmailAddress(s) {
      var t := s[..|s| - 1];
      AddressNotBlank(t);
      var i :| 0 <= i < |t| && !IsWhiteSpace(t[i]);
      assert s[i] == t[i];
    } else {
      AddressNotBlank(s);
    }
  }

  /**
   * The pattern as written accepts every address, and besides exactly the
   * addresses followed by one line feed.
   */
  lemma AsWrittenDiffers(s: string)
    ensures IsEmailAddress(s) ==> IsEmailAddressAsWritten(s)
    ensures IsEmailAddressAsWritten(s) && !IsEmailAddress(s) <==>
              s != [] && s[|s| - 1] == '\n' && IsEmailAddress(s[..|s| - 1])
  {
    if s != [] && s[|s| - 1] == '\n' {
      EndsInWhiteSpace(s);
    }
  }

  /** The e-mail check as evidently intended: the whole text must be an address. */
  function IntendedEmailError(emailText: string): (r: Option<FieldError>)
    ensures r.None? <==> IsEmailAddress(emailText)
    ensures r == Some(EmailEmpty) <==> IsBlank(emailText)
  {
    AddressNotBlank(emailText);
    if !IsBlank(emailText) && !IsEmailAddress(emailText) then Some(EmailFormat)
    else if IsBlank(emailText) then Some(EmailEmpty)
    else None
  }

  /**
   * The dialog's e-mail check and the intended one disagree exactly on an
   * address followed by one line feed, which the dialog lets through.
   */
  lemma EmailChecksDiffer(s: string)
    ensures EmailError(s) != IntendedEmailError(s) <==>
              s != [] && s[|s| - 1] == '\n' && IsEmailAddress(s[..|s| - 1])
    ensures EmailError(s) != IntendedEmailError(s) ==> EmailError(s).None? && IntendedEmailError(s) == Some(EmailFormat)
  {
    AsWrittenDiffers(s);
    if IsEmailAddressAsWritten(s) {
      AsWrittenNotBlank(s);
    }
  }

  // ---------------------------------------------------------------------
  // The checks
  // ---------------------------------------------------------------------

  /** `text.Replace(",", ".")` then the rating parser. */
  function ParsedRating(ratingText: string, p: Parsers): Option<Double> {
    p.parseRating(ReplaceChar(ratingText, ',', "."))
  }

  /** `hh\:mm` is tried first; `h\:mm` only when that fails. */
  function ParsedTime(timeText: string, p: Parsers): Option<Duration> {
    if p.parseTwoDigitTime(timeText).Some? then p.parseTwoDigitTime(timeText) else p.parseOneDigitTime(timeText)
  }

  function Flag(failed: bool, e: FieldError): Option<FieldError> {
    if failed then Some(e) else None
  }

  /**
   * The e-mail check, with the pattern as `Regex.IsMatch` applies it: blank
   * and malformed are exclusive, so at most one error.
   */
  function EmailError(emailText: string): Option<FieldError> {
    if !IsBlank(emailText) && !IsEmailAddressAsWritten(emailText) then Some(EmailFormat)
    else if IsBlank(emailText) then Some(EmailEmpty)
    else None
  }

  /**
   * The range test `r < 0 || r > 100` on a `double`. Every comparison with
   * NaN is false, so NaN is not out of range.
   */
  predicate OutOfRatingRange(r: Double) {
    match r
    case Finite(x) => x < 0.0 || x > 100.0
    case NaN => false
    case PositiveInfinity => true
    case NegativeInfinity => true
  }

  /** The ratings the range test lets through: NaN, and the finite values from 0 to 100. */
  lemma RatingsLetThrough(r: Double)
    ensures !OutOfRatingRange(r) <==> r == NaN || (r.Finite? && 0.0 <= r.value <= 100.0)
  {
  }

  /** The rating check: unparsable, or parsed but outside [0, 100]. */
  function RatingError(ratingText: string, p: Parsers): Option<FieldError> {
    var rating := ParsedRating(ratingText, p);
    if rating.None? then Some(RatingFormat)
    else if OutOfRatingRange(rating.value) then Some(RatingRange)
    else None
  }

  /** The number of checks. */
  const CheckCount: nat := 7

  /** What the check at position `step` reports. */
  function CheckOutcome(c: Controls, p: Parsers, step: nat): Option<FieldError> {
    if step == 0 then Flag(IsBlank(c.fullNameText), FullNameEmpty)
    else if step == 1 then Flag(IsBlank(c.groupText), GroupEmpty)
    else if step == 2 then EmailError(c.emailText)
    else if step == 3 then RatingError(c.ratingText, p)
    else if step == 4 then Flag(c.selectedDate.None?, DateMissing)
    else if step == 5 then Flag(ParsedTime(c.timeText, p).None?, TimeFormat)
    else if step == 6 then Flag(c.selectedCourse.None?, CourseMissing)
    else None
  }

  function Append(errors: seq<FieldError>, o: Option<FieldError>): seq<FieldError> {
    if o.Some? then errors + [o.value] else errors
  }

  /** The errors of the first `n` checks, in the order they run. */
  function ErrorsBefore(c: Controls, p: Parsers, n: nat): seq<FieldError> {
    if n == 0 then [] else Append(ErrorsBefore(c, p, n - 1), CheckOutcome(c, p, n - 1))
  }

  /** The errors of a set of control values, in the order the checks run. */
  function ValidationErrors(c: Controls, p: Parsers): seq<FieldError> {
    ErrorsBefore(c, p, CheckCount)
  }

  /** The text the dialog shows: the messages, one after the other. */
  function Messages(errors: seq<FieldError>): string {
    if errors == [] then [] else Messages(errors[..|errors| - 1]) + errors[|errors| - 1].Message()
  }

  /** The text one check adds: its error's message, or nothing. */
  function Shown(o: Option<FieldError>): string {
    if o.Some? then o.value.Message() else []
  }

  lemma MessagesAppend(errors: seq<FieldError>, o: Option<FieldError>)
    ensures Messages(Append(errors, o)) == Messages(errors) + Shown(o)
  {
    if o.Some? {
      assert (errors + [o.value])[..|errors|] == errors;
    }
  }

  /** A check reports only errors of its own position. */
  lemma CheckOutcomeStep(c: Controls, p: Parsers, step: nat)
    ensures CheckOutcome(c, p, step).Some? ==> CheckOutcome(c, p, step).value.Step() == step
  {
  }

  predicate InCheckOrder(errors: seq<FieldError>) {
    forall i, j :: 0 <= i < j < |errors| ==> errors[i].Step() < errors[j].Step()
  }

  /**
   * The first `n` checks report an error exactly where their outcome is one,
   * each at most once, in the order of the checks.
   */
  lemma {:induction false} ErrorsBeforeSpec(c: Controls, p: Parsers, n: nat)
    ensures InCheckOrder(ErrorsBefore(c, p, n))
    ensures forall e :: e in ErrorsBefore(c, p, n) <==> e.Step() < n && CheckOutcome(c, p, e.Step()) == Some(e)
  {
    if n > 0 {
      ErrorsBeforeSpec(c, p, n - 1);
      var prev := ErrorsBefore(c, p, n - 1);
      var o := CheckOutcome(c, p, n - 1);
      CheckOutcomeStep(c, p, n - 1);
      forall e: FieldError | e.Step() < n && CheckOutcome(c, p, e.Step()) == Some(e) ensures e.Step() < n - 1 || o == Some(e) {
        CheckOutcomeStep(c, p, e.Step());
      }
      if o.Some? {
        var errors := prev + [o.value];
        forall i, j | 0 <= i < j < |errors| ensures errors[i].Step() < errors[j].Step() {
          if j == |prev| {
            assert errors[i] in prev;
          } else {
            assert errors[i] == prev[i] && errors[j] == prev[j];
          }
        }
      }
    }
  }

  /** Each check adds at most one error, and errors come in the order of the checks. */
  lemma ValidationErrorsOrdered(c: Controls, p: Parsers)
    ensures InCheckOrder(ValidationErrors(c, p))
    ensures |ValidationErrors(c, p)| <= CheckCount
  {
    ErrorsBeforeSpec(c, p, CheckCount);
    var errors := ValidationErrors(c, p);
    if |errors| > CheckCount {
      StepsBound(errors, |errors| - 1);
    }
  }

  /** In check order, the error at position `k` belongs to a check at position `k` or later. */
  lemma {:induction false} StepsBound(errors: seq<FieldError>, k: nat)
    requires InCheckOrder(errors) && k < |errors|
    ensures errors[k].Step() >= k
  {
    if k > 0 {
      StepsBound(errors, k - 1);
    }
  }

  /** Which errors are reported, check by check, in both directions. */
  lemma ValidationErrorsExact(c: Controls, p: Parsers)
    ensures var errors := ValidationErrors(c, p);
            && (FullNameEmpty in errors <==> IsBlank(c.fullNameText))
            && (GroupEmpty in errors <==> IsBlank(c.groupText))
            && (EmailEmpty in errors <==> IsBlank(c.emailText))
            && (EmailFormat in errors <==> !IsBlank(c.emailText) && !IsEmailAddressAsWritten(c.emailText))
            && (RatingFormat in errors <==> ParsedRating(c.ratingText, p).None?)
            && (RatingRange in errors <==>
                  ParsedRating(c.ratingText, p).Some? &&
                  OutOfRatingRange(ParsedRating(c.ratingText, p).value))
            && (DateMissing in errors <==> c.selectedDate.None?)
            && (TimeFormat in errors <==> ParsedTime(c.timeText, p).None?)
            && (CourseMissing in errors <==> c.selectedCourse.None?)
  {
    TextErrorsExact(c, p);
    ValueErrorsExact(c, p);
  }

  /** The errors of the three text checks. */
  lemma TextErrorsExact(c: Controls, p: Parsers)
    ensures var errors := ValidationErrors(c, p);
            && (FullNameEmpty in errors <==> IsBlank(c.fullNameText))
            && (GroupEmpty in errors <==> IsBlank(c.groupText))
            && (EmailEmpty in errors <==> IsBlank(c.emailText))
            && (EmailFormat in errors <==> !IsBlank(c.emailText) && !IsEmailAddressAsWritten(c.emailText))
  {
    TextCheckOutcomes(c, p);
    Reported(c, p, FullNameEmpty);
    Reported(c, p, GroupEmpty);
    Reported(c, p, EmailEmpty);
    Reported(c, p, EmailFormat);
  }

  /** The errors of the four value checks. */
  lemma ValueErrorsExact(c: Controls, p: Parsers)
    ensures var errors := ValidationErrors(c, p);
            && (RatingFormat in errors <==> ParsedRating(c.ratingText, p).None?)
            && (RatingRange in errors <==>
                  ParsedRating(c.ratingText, p).Some? &&
                  OutOfRatingRange(ParsedRating(c.ratingText, p).value))
            && (DateMissing in errors <==> c.selectedDate.None?)
            && (TimeFormat in errors <==> ParsedTime(c.timeText, p).None?)
            && (CourseMissing in errors <==> c.selectedCourse.None?)
  {
    ValueCheckOutcomes(c, p);
    Reported(c, p, RatingFormat);
    Reported(c, p, RatingRange);
    Reported(c, p, DateMissing);
    Reported(c, p, TimeFormat);
    Reported(c, p, CourseMissing);
  }

  /** No error is reported exactly when no check fails. */
  lemma NoErrors(c: Controls, p: Parsers)
    ensures ValidationErrors(c, p) == [] <==>
              && CheckOutcome(c, p, 0).None? && CheckOutcome(c, p, 1).None? && CheckOutcome(c, p, 2).None?
              && CheckOutcome(c, p, 3).None? && CheckOutcome(c, p, 4).None? && CheckOutcome(c, p, 5).None?
              && CheckOutcome(c, p, 6).None?
  {
    NoErrorsBefore(c, p, CheckCount);
  }

  /** No error before position `n` exactly when no check before it fails. */
  lemma {:induction false} NoErrorsBefore(c: Controls, p: Parsers, n: nat)
    ensures ErrorsBefore(c, p, n) == [] <==> forall k :: 0 <= k < n ==> CheckOutcome(c, p, k).None?
  {
    if n > 0 {
      NoErrorsBefore(c, p, n - 1);
    }
  }

  /** An error is reported exactly when its check's outcome is that error. */
  lemma Reported(c: Controls, p: Parsers, e: FieldError)
    ensures e in ValidationErrors(c, p) <==> CheckOutcome(c, p, e.Step()) == Some(e)
  {
    ErrorsBeforeSpec(c, p, CheckCount);
  }

  /** No errors exactly when every field is acceptable. */
  lemma ValidationPasses(c: Controls, p: Parsers)
    ensures ValidationErrors(c, p) == [] <==>
              && !IsBlank(c.fullNameText) && !IsBlank(c.groupText) && IsEmailAddressAsWritten(c.emailText)
              && ParsedRating(c.ratingText, p).Some?
              && !OutOfRatingRange(ParsedRating(c.ratingText, p).value)
              && c.selectedDate.Some? && ParsedTime(c.timeText, p).Some? && c.selectedCourse.Some?
  {
    NoErrors(c, p);
    if IsEmailAddressAsWritten(c.emailText) {
      AsWrittenNotBlank(c.emailText);
    }
  }

  /** The record after a successful save: every field from the controls, the owner from the window. */
  function Applied(d: StudentData, c: Controls, p: Parsers, photo: string, owner: string): StudentData
    requires ValidationErrors(c, p) == []
  {
    ValidationPasses(c, p);
    d.(fullName := c.fullNameText,
       group := c.groupText,
       email := c.emailText,
       rating := ParsedRating(c.ratingText, p).value,
       enrollmentDate := c.selectedDate.value,
       enrollmentTime := ParsedTime(c.timeText, p).value,
       currentCourseYear := c.selectedCourse.value,
       receivesScholarship := if c.scholarshipChecked.Some? then c.scholarshipChecked.value else false,
       photoBase64 := photo,
       ownerUsername := owner)
  }

  /**
   * A saved record keeps its id, belongs to the window's user, and holds
   * values that pass every check.
   */
  lemma AppliedIsValid(d: StudentData, c: Controls, p: Parsers, photo: string, owner: string)
    requires ValidationErrors(c, p) == []
    ensures var r := Applied(d, c, p, photo, owner);
            && r.id == d.id && r.ownerUsername == owner && r.photoBase64 == photo
            && !IsBlank(r.fullName) && !IsBlank(r.group) && IsEmailAddressAsWritten(r.email)
            && (r.rating == NaN || (r.rating.Finite? && 0.0 <= r.rating.value <= 100.0))
            && Some(r.enrollmentTime) == ParsedTime(c.timeText, p)
  {
    ValidationPasses(c, p);
    RatingsLetThrough(ParsedRating(c.ratingText, p).value);
  }

  /** The check at position `n` adds its message to the text, and clears the flag if it fails. */
  lemma CheckAdds(c: Controls, p: Parsers, n: nat)
    ensures Messages(ErrorsBefore(c, p, n + 1)) == Messages(ErrorsBefore(c, p, n)) + Shown(CheckOutcome(c, p, n))
    ensures ErrorsBefore(c, p, n + 1) == [] <==> ErrorsBefore(c, p, n) == [] && CheckOutcome(c, p, n).None?
  {
    MessagesAppend(ErrorsBefore(c, p, n), CheckOutcome(c, p, n));
  }

  /** A text and a flag that reflect the first `n` checks, extended by check `n`, reflect the first `n + 1`. */
  lemma NextCheck(c: Controls, p: Parsers, n: nat, errors: string, isValid: bool)
    requires errors == Messages(ErrorsBefore(c, p, n)) && (isValid <==> ErrorsBefore(c, p, n) == [])
    ensures errors + Shown(CheckOutcome(c, p, n)) == Messages(ErrorsBefore(c, p, n + 1))
    ensures isValid && CheckOutcome(c, p, n).None? <==> ErrorsBefore(c, p, n + 1) == []
  {
    CheckAdds(c, p, n);
  }

  /** The number of checks on the text boxes: full name, group and e-mail. */
  const TextChecks: nat := 3

  /** The text and the flag after the checks on the text boxes, run in turn. */
  lemma TextChecksCollected(c: Controls, p: Parsers, errors: string, isValid: bool)
    requires errors == Shown(Flag(IsBlank(c.fullNameText), FullNameEmpty)) + Shown(Flag(IsBlank(c.groupText), GroupEmpty))
                       + Shown(EmailError(c.emailText))
    requires isValid == (Flag(IsBlank(c.fullNameText), FullNameEmpty).None? && Flag(IsBlank(c.groupText), GroupEmpty).None?
                         && EmailError(c.emailText).None?)
    ensures errors == Messages(ErrorsBefore(c, p, TextChecks))
    ensures isValid <==> ErrorsBefore(c, p, TextChecks) == []
  {
    TextCheckOutcomes(c, p);
    var errors1, isValid1 := Shown(CheckOutcome(c, p, 0)), CheckOutcome(c, p, 0).None?;
    assert [] + errors1 == errors1;
    NextCheck(c, p, 0, [], true);
    var errors2, isValid2 := errors1 + Shown(CheckOutcome(c, p, 1)), isValid1 && CheckOutcome(c, p, 1).None?;
    NextCheck(c, p, 1, errors1, isValid1);
    NextCheck(c, p, 2, errors2, isValid2);
  }

  /** The text and the flag after the remaining checks, run in turn after the text checks. */
  lemma ValueChecksCollected(c: Controls, p: Parsers, errors0: string, isValid0: bool, errors: string, isValid: bool)
    requires errors0 == Messages(ErrorsBefore(c, p, TextChecks))
    requires isValid0 <==> ErrorsBefore(c, p, TextChecks) == []
    requires errors == errors0 + Shown(RatingError(c.ratingText, p)) + Shown(Flag(c.selectedDate.None?, DateMissing))
                       + Shown(Flag(ParsedTime(c.timeText, p).None?, TimeFormat)) + Shown(Flag(c.selectedCourse.None?, CourseMissing))
    requires isValid == (isValid0 && RatingError(c.ratingText, p).None? && Flag(c.selectedDate.None?, DateMissing).None?
                         && Flag(ParsedTime(c.timeText, p).None?, TimeFormat).None? && Flag(c.selectedCourse.None?, CourseMissing).None?)
    ensures errors == Messages(ValidationErrors(c, p))
    ensures isValid <==> ValidationErrors(c, p) == []
  {
    ValueCheckOutcomes(c, p);
    FourChecks(c, p, TextChecks, errors0, isValid0, errors, isValid);
  }

  /** The checks at positions 0 to 2. */
  lemma TextCheckOutcomes(c: Controls, p: Parsers)
    ensures CheckOutcome(c, p, 0) == Flag(IsBlank(c.fullNameText), FullNameEmpty)
    ensures CheckOutcome(c, p, 1) == Flag(IsBlank(c.groupText), GroupEmpty)
    ensures CheckOutcome(c, p, 2) == EmailError(c.emailText)
  {
  }

  /** The checks at positions 3 to 6. */
  lemma ValueCheckOutcomes(c: Controls, p: Parsers)
    ensures CheckOutcome(c, p, 3) == RatingError(c.ratingText, p) && CheckOutcome(c, p, 4) == Flag(c.selectedDate.None?, DateMissing)
    ensures CheckOutcome(c, p, 5) == Flag(ParsedTime(c.timeText, p).None?, TimeFormat)
    ensures CheckOutcome(c, p, 6) == Flag(c.selectedCourse.None?, CourseMissing)
  {
  }

  /** Four checks in turn, from position `n`. */
  lemma FourChecks(c: Controls, p: Parsers, n: nat, errors0: string, isValid0: bool, errors: string, isValid: bool)
    requires errors0 == Messages(ErrorsBefore(c, p, n)) && (isValid0 <==> ErrorsBefore(c, p, n) == [])
    requires errors == errors0 + Shown(CheckOutcome(c, p, n)) + Shown(CheckOutcome(c, p, n + 1))
                       + Shown(CheckOutcome(c, p, n + 2)) + Shown(CheckOutcome(c, p, n + 3))
    requires isValid == (isValid0 && CheckOutcome(c, p, n).None? && CheckOutcome(c, p, n + 1).None?
                         && CheckOutcome(c, p, n + 2).None? && CheckOutcome(c, p, n + 3).None?)
    ensures errors == Messages(ErrorsBefore(c, p, n + 4))
    ensures isValid <==> ErrorsBefore(c, p, n + 4) == []
  {
    var errors1, isValid1 := errors0 + Shown(CheckOutcome(c, p, n)), isValid0 && CheckOutcome(c, p, n).None?;
    NextCheck(c, p, n, errors0, isValid0);
    var errors2, isValid2 := errors1 + Shown(CheckOutcome(c, p, n + 1)), isValid1 && CheckOutcome(c, p, n + 1).None?;
    NextCheck(c, p, n + 1, errors1, isValid1);
    var errors3, isValid3 := errors2 + Shown(CheckOutcome(c, p, n + 2)), isValid2 && CheckOutcome(c, p, n + 2).None?;
    NextCheck(c, p, n + 2, errors2, isValid2);
    NextCheck(c, p, n + 3, errors3, isValid3);
  }

  /** The checks on the full name, the group and the e-mail address, in this order. */
  method CheckTextFields(c: Controls, p: Parsers) returns (isValid: bool, errors: string)
    ensures errors == Messages(ErrorsBefore(c, p, TextChecks))
    ensures isValid <==> ErrorsBefore(c, p, TextChecks) == []
  {
    isValid := true;
    errors := [];
    ghost var prior: string, wasValid: bool;  // the text and the flag before each check
    prior, wasValid := errors, isValid;
    if IsBlank(c.fullNameText) {
      errors := errors + FullNameEmpty.Message();
      isValid := false;
    }
    assert errors == Shown(Flag(IsBlank(c.fullNameText), FullNameEmpty)) && isValid == Flag(IsBlank(c.fullNameText), FullNameEmpty).None?;

    prior, wasValid := errors, isValid;
    if IsBlank(c.groupText) {
      errors := errors + GroupEmpty.Message();
      isValid := false;
    }
    assert errors == prior + Shown(Flag(IsBlank(c.groupText), GroupEmpty)) && isValid == (wasValid && Flag(IsBlank(c.groupText), GroupEmpty).None?);

    prior, wasValid := errors, isValid;
    if !IsBlank(c.emailText) && !IsEmailAddressAsWritten(c.emailText) {
      errors := errors + EmailFormat.Message();
      isValid := false;
    } else if IsBlank(c.emailText) {
      errors := errors + EmailEmpty.Message();
      isValid := false;
    }
    assert errors == prior + Shown(EmailError(c.emailText)) && isValid == (wasValid && EmailError(c.emailText).None?);

    TextChecksCollected(c, p, errors, isValid);
  }

  /**
   * The checks on the rating, the date, the time and the course, in this
   * order, continuing the text and the flag of the text checks; also the
   * rating and the time as parsed.
   */
  method CheckValueFields(c: Controls, p: Parsers, isValid0: bool, errors0: string)
    returns (isValid: bool, errors: string, parsedRating: Option<Double>, parsedTime: Option<Duration>)
    requires errors0 == Messages(ErrorsBefore(c, p, TextChecks))
    requires isValid0 <==> ErrorsBefore(c, p, TextChecks) == []
    ensures errors == Messages(ValidationErrors(c, p))
    ensures isValid <==> ValidationErrors(c, p) == []
    ensures parsedRating == ParsedRating(c.ratingText, p) && parsedTime == ParsedTime(c.timeText, p)
  {
    isValid, errors := isValid0, errors0;
    ghost var prior: string, wasValid: bool;  // the text and the flag before each check

    parsedRating := ParsedRating(c.ratingText, p);
    prior, wasValid := errors, isValid;
    if parsedRating.None? {
      errors := errors + RatingFormat.Message();
      isValid := false;
    } else if OutOfRatingRange(parsedRating.value) {
      errors := errors + RatingRange.Message();
      isValid := false;
    }
    assert errors == prior + Shown(RatingError(c.ratingText, p)) && isValid == (wasValid && RatingError(c.ratingText, p).None?);

    prior, wasValid := errors, isValid;
    if c.selectedDate.None? {
      errors := errors + DateMissing.Message();
      isValid := false;
    }
    assert errors == prior + Shown(Flag(c.selectedDate.None?, DateMissing)) && isValid == (wasValid && Flag(c.selectedDate.None?, DateMissing).None?);

    parsedTime := p.parseTwoDigitTime(c.timeText);
    if parsedTime.None? {
      parsedTime := p.parseOneDigitTime(c.timeText);
    }
    prior, wasValid := errors, isValid;
    if parsedTime.None? {
      errors := errors + TimeFormat.Message();
      isValid := false;
    }
    assert errors == prior + Shown(Flag(ParsedTime(c.timeText, p).None?, TimeFormat)) && isValid == (wasValid && Flag(ParsedTime(c.timeText, p).None?, TimeFormat).None?);

    prior, wasValid := errors, isValid;
    if c.selectedCourse.None? {
      errors := errors + CourseMissing.Message();
      isValid := false;
    }
    assert errors == prior + Shown(Flag(c.selectedCourse.None?, CourseMissing)) && isValid == (wasValid && Flag(c.selectedCourse.None?, CourseMissing).None?);

    ValueChecksCollected(c, p, errors0, isValid0, errors, isValid);
  }

  // ---------------------------------------------------------------------
  // The dialog
  // ---------------------------------------------------------------------

  class AddEditDataWindow {
    var currentStudentData: StudentData
    const isEditMode: bool
    const ownerUsername: string
    var photoBase64Holder: string
    var errorText: string

    /**
     * Add mode: a new record (`newId` and `today` stand for the generated
     * id and the current date) owned by the window's user.
     */
    constructor ForAdd(ownerUsername: string, newId: Guid, today: Date)
      ensures currentStudentData == NewStudentData(newId, today).(ownerUsername := ownerUsername)
      ensures !isEditMode && this.ownerUsername == ownerUsername
      ensures photoBase64Holder == currentStudentData.photoBase64 && errorText == []
    {
      isEditMode := false;
      this.ownerUsername := ownerUsername;
      currentStudentData := NewStudentData(newId, today).(ownerUsername := ownerUsername);
      photoBase64Holder := [];
      errorText := [];
    }

    /** Edit mode: the record passed in, as it is. */
    constructor ForEdit(ownerUsername: string, studentToEdit: StudentData)
      ensures currentStudentData == studentToEdit
      ensures isEditMode && this.ownerUsername == ownerUsername
      ensures photoBase64Holder == studentToEdit.photoBase64 && errorText == []
    {
      isEditMode := true;
      this.ownerUsername := ownerUsername;
      currentStudentData := studentToEdit;
      photoBase64Holder := studentToEdit.photoBase64;
      errorText := [];
    }

    /**
     * Run the checks in order, collecting their messages. On any failure the
     * messages are shown and the record is left alone; otherwise the record
     * takes the new values and the window's user as owner.
     */
    method UpdateStudentDataFromControls(c: Controls, p: Parsers) returns (ok: bool)
      modifies this
      ensures ok <==> ValidationErrors(c, p) == []
      ensures !ok ==> errorText == Messages(ValidationErrors(c, p)) && currentStudentData == old(currentStudentData)
      ensures ok ==> errorText == []
      ensures ok ==> currentStudentData == Applied(old(currentStudentData), c, p, photoBase64Holder, ownerUsername)
      ensures photoBase64Holder == old(photoBase64Holder)
    {
      errorText := [];
      var isValid, errors := CheckTextFields(c, p);
      var parsedRating, parsedTime;
      isValid, errors, parsedRating, parsedTime := CheckValueFields(c, p, isValid, errors);
      if !isValid {
        errorText := errors;
        return false;
      }

      ValidationPasses(c, p);
      currentStudentData := currentStudentData.(fullName := c.fullNameText);
      currentStudentData := currentStudentData.(group := c.groupText);
      currentStudentData := currentStudentData.(email := c.emailText);
      currentStudentData := currentStudentData.(rating := parsedRating.value);
      currentStudentData := currentStudentData.(enrollmentDate := c.selectedDate.value);
      currentStudentData := currentStudentData.(enrollmentTime := parsedTime.value);
      currentStudentData := currentStudentData.(currentCourseYear := c.selectedCourse.value);
      currentStudentData := currentStudentData.(receivesScholarship :=
        if c.scholarshipChecked.Some? then c.scholarshipChecked.value else false);
      currentStudentData := currentStudentData.(photoBase64 := photoBase64Holder);
      currentStudentData := currentStudentData.(ownerUsername := ownerUsername);
      return true;
    }
  }
}
