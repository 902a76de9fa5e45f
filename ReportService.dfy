/**
 * The computable part of `ReportService`: HTML escaping, the argument
 * guards of the three report generators, and the integer statistics
 * (totals, scholarship count, distribution by course year and by group)
 * together with the ordering of the listing. The HTML markup around these
 * values, the rating averages and the file write are not modelled.
 */
module Reports {
  import opened Wrappers
  import opened Errors
  import opened Text
  import opened Models
  import opened Sorting

  // ---------------------------------------------------------------------
  // EscapeHtml
  // ---------------------------------------------------------------------

  /** The five characters `EscapeHtml` rewrites. */
  predicate IsHtmlSpecial(c: char) {
    c == '&' || c == '<' || c == '>' || c == '"' || c == '\''
  }

  /** The characters that must not appear raw in escaped text. */
  predicate IsMarkupChar(c: char) {
    c == '<' || c == '>' || c == '"' || c == '\''
  }

  /** The entity that stands for one character. */
  function EscapeChar(c: char): string {
    if c == '&' then "&amp;"
    else if c == '<' then "&lt;"
    else if c == '>' then "&gt;"
    else if c == '"' then "&quot;"
    else if c == '\'' then "&#x27;"
    else [c]
  }

  /** Reference definition: every character escaped on its own. */
  function EscapeEach(s: string): (r: string)
    ensures forall i :: 0 <= i < |r| ==> !IsMarkupChar(r[i])
  {
    if s == [] then [] else EscapeChar(s[0]) + EscapeEach(s[1..])
  }

  /** The five `Replace` calls, in the order `EscapeHtml` makes them. */
  function ReplaceChain(s: string): string {
    var amp := ReplaceChar(s, '&', "&amp;");
    var lt := ReplaceChar(amp, '<', "&lt;");
    var gt := ReplaceChar(lt, '>', "&gt;");
    var quot := ReplaceChar(gt, '"', "&quot;");
    ReplaceChar(quot, '\'', "&#x27;")
  }

  /** `EscapeHtml`: null or empty gives the empty string, anything else the replacement chain. */
  function EscapeHtml(input: string): (r: string)
    ensures input == [] ==> r == []
    ensures '\'' !in r
  {
    if input == [] then [] else ReplaceChain(input)
  }

  lemma ReplaceChainAppend(a: string, b: string)
    ensures ReplaceChain(a + b) == ReplaceChain(a) + ReplaceChain(b)
  {
    ReplaceCharAppend(a, b, '&', "&amp;");
    var a1, b1 := ReplaceChar(a, '&', "&amp;"), ReplaceChar(b, '&', "&amp;");
    ReplaceCharAppend(a1, b1, '<', "&lt;");
    var a2, b2 := ReplaceChar(a1, '<', "&lt;"), ReplaceChar(b1, '<', "&lt;");
    ReplaceCharAppend(a2, b2, '>', "&gt;");
    var a3, b3 := ReplaceChar(a2, '>', "&gt;"), ReplaceChar(b2, '>', "&gt;");
    ReplaceCharAppend(a3, b3, '"', "&quot;");
    var a4, b4 := ReplaceChar(a3, '"', "&quot;"), ReplaceChar(b3, '"', "&quot;");
    ReplaceCharAppend(a4, b4, '\'', "&#x27;");
  }

  lemma ReplaceSingle(c: char, x: char, rep: string)
    ensures ReplaceChar([c], x, rep) == if c == x then rep else [c]
  {
    assert [c][1..] == [];
  }

  /**
   * Once the step for `c` has produced entity `e`, the later steps leave `e`
   * alone; the earlier steps never touch `c`. (`c` and `e` are parameters so
   * that the solver does not evaluate the chain on literal text.)
   */
  lemma ReplaceChainEntity(c: char, e: string)
    requires IsHtmlSpecial(c) && e == EscapeChar(c)
    ensures ReplaceChain([c]) == e
  {
    var s := [c];
    ReplaceSingle(c, '&', "&amp;");
    if c == '&' {
      assert ReplaceChar(s, '&', "&amp;") == e;
      assert '<' !in e && '>' !in e && '"' !in e && '\'' !in e;
    } else if c == '<' {
      assert ReplaceChar(s, '&', "&amp;") == s;
      ReplaceSingle(c, '<', "&lt;");
      assert '>' !in e && '"' !in e && '\'' !in e;
    } else if c == '>' {
      assert ReplaceChar(s, '&', "&amp;") == s;
      assert ReplaceChar(s, '<', "&lt;") == s;
      ReplaceSingle(c, '>', "&gt;");
      assert '"' !in e && '\'' !in e;
    } else if c == '"' {
      assert ReplaceChar(s, '&', "&amp;") == s;
      assert ReplaceChar(s, '<', "&lt;") == s;
      assert ReplaceChar(s, '>', "&gt;") == s;
      ReplaceSingle(c, '"', "&quot;");
      assert '\'' !in e;
    } else {
      assert ReplaceChar(s, '&', "&amp;") == s;
      assert ReplaceChar(s, '<', "&lt;") == s;
      assert ReplaceChar(s, '>', "&gt;") == s;
      assert ReplaceChar(s, '"', "&quot;") == s;
      ReplaceSingle(c, '\'', "&#x27;");
    }
  }

  /** On one character the chain produces that character's entity, because `&` is replaced first. */
  lemma ReplaceChainChar(c: char)
    ensures ReplaceChain([c]) == EscapeChar(c)
  {
    if IsHtmlSpecial(c) {
      ReplaceChainEntity(c, EscapeChar(c));
    } else {
      assert ReplaceChar([c], '&', "&amp;") == [c];
      assert ReplaceChar([c], '<', "&lt;") == [c];
      assert ReplaceChar([c], '>', "&gt;") == [c];
      assert ReplaceChar([c], '"', "&quot;") == [c];
    }
  }

  /** `EscapeHtml` is the per-character entity map. */
  lemma {:induction false} EscapeHtmlIsEscapeEach(s: string)
    ensures EscapeHtml(s) == EscapeEach(s)
  {
    if s != [] {
      assert s == [s[0]] + s[1..];
      ReplaceChainAppend([s[0]], s[1..]);
      ReplaceChainChar(s[0]);
      EscapeHtmlIsEscapeEach(s[1..]);
      if s[1..] == [] {
        assert ReplaceChain([]) == [];
      }
    }
  }

  /** Escaped text holds no raw `<`, `>`, `"` or `'`. */
  lemma EscapeHtmlNoMarkup(s: string)
    ensures forall i :: 0 <= i < |EscapeHtml(s)| ==> !IsMarkupChar(EscapeHtml(s)[i])
  {
    EscapeHtmlIsEscapeEach(s);
  }

  /** Text without any of the five special characters is left as it is. */
  lemma {:induction false} EscapeHtmlIdentity(s: string)
    requires forall i :: 0 <= i < |s| ==> !IsHtmlSpecial(s[i])
    ensures EscapeHtml(s) == s
  {
    EscapeHtmlIsEscapeEach(s);
    EscapeEachIdentity(s);
  }

  lemma {:induction false} EscapeEachIdentity(s: string)
    requires forall i :: 0 <= i < |s| ==> !IsHtmlSpecial(s[i])
    ensures EscapeEach(s) == s
  {
    if s != [] {
      EscapeEachIdentity(s[1..]);
      assert s == [s[0]] + s[1..];
    }
  }

  /** Decoding of the five entities; every other character stands for itself. */
  function Unescape(s: string): string
    decreases |s|
  {
    if s == [] then []
    else if |s| >= 5 && s[..5] == "&amp;" then "&" + Unescape(s[5..])
    else if |s| >= 4 && s[..4] == "&lt;" then "<" + Unescape(s[4..])
    else if |s| >= 4 && s[..4] == "&gt;" then ">" + Unescape(s[4..])
    else if |s| >= 6 && s[..6] == "&quot;" then "\"" + Unescape(s[6..])
    else if |s| >= 6 && s[..6] == "&#x27;" then "'" + Unescape(s[6..])
    else [s[0]] + Unescape(s[1..])
  }

  lemma UnescapeStep(c: char, rest: string)
    ensures Unescape(EscapeChar(c) + rest) == [c] + Unescape(rest)
  {
    if c == '&' {
      UnescapeAmp(rest);
    } else if c == '<' {
      UnescapeLt(rest);
    } else if c == '>' {
      UnescapeGt(rest);
    } else if c == '"' {
      UnescapeQuot(rest);
    } else if c == '\'' {
      UnescapeApos(rest);
    } else {
      UnescapePlain(c, rest);
    }
  }

  lemma UnescapeAmp(rest: string)
    ensures Unescape("&amp;" + rest) == "&" + Unescape(rest)
  {
    var s := "&amp;" + rest;
    assert s[..5] == "&amp;" && s[5..] == rest;
  }

  lemma UnescapeLt(rest: string)
    ensures Unescape("&lt;" + rest) == "<" + Unescape(rest)
  {
    var s := "&lt;" + rest;
    assert !(|s| >= 5 && s[..5] == "&amp;") by { assert s[1] == 'l'; }
    assert s[..4] == "&lt;" && s[4..] == rest;
  }

  lemma UnescapeGt(rest: string)
    ensures Unescape("&gt;" + rest) == ">" + Unescape(rest)
  {
    var s := "&gt;" + rest;
    assert !(|s| >= 5 && s[..5] == "&amp;") && s[..4] != "&lt;" by { assert s[1] == 'g'; }
    assert s[..4] == "&gt;" && s[4..] == rest;
  }

  lemma UnescapeQuot(rest: string)
    ensures Unescape("&quot;" + rest) == "\"" + Unescape(rest)
  {
    var s := "&quot;" + rest;
    assert !(|s| >= 5 && s[..5] == "&amp;") && s[..4] != "&lt;" && s[..4] != "&gt;" by { assert s[1] == 'q'; }
    assert s[..6] == "&quot;" && s[6..] == rest;
  }

  lemma UnescapeApos(rest: string)
    ensures Unescape("&#x27;" + rest) == "'" + Unescape(rest)
  {
    var s := "&#x27;" + rest;
    assert !(|s| >= 5 && s[..5] == "&amp;") && s[..4] != "&lt;" && s[..4] != "&gt;" && s[..6] != "&quot;" by {
      assert s[1] == '#';
    }
    assert s[..6] == "&#x27;" && s[6..] == rest;
  }

  lemma UnescapePlain(c: char, rest: string)
    requires c != '&'
    ensures Unescape([c] + rest) == [c] + Unescape(rest)
  {
    var s := [c] + rest;
    assert s[0] == c && s[1..] == rest;
    assert |s| >= 4 ==> s[..4][0] != '&';
    assert |s| >= 5 ==> s[..5][0] != '&';
    assert |s| >= 6 ==> s[..6][0] != '&';
  }

  /** Decoding undoes escaping, so escaping never maps two texts to one. */
  lemma {:induction false} UnescapeEscapeHtml(s: string)
    ensures Unescape(EscapeHtml(s)) == s
  {
    EscapeHtmlIsEscapeEach(s);
    UnescapeEscapeEach(s);
  }

  lemma {:induction false} UnescapeEscapeEach(s: string)
    ensures Unescape(EscapeEach(s)) == s
  {
    if s != [] {
      UnescapeStep(s[0], EscapeEach(s[1..]));
      UnescapeEscapeEach(s[1..]);
      assert s == [s[0]] + s[1..];
    }
  }

  lemma EscapeHtmlInjective(a: string, b: string)
    requires EscapeHtml(a) == EscapeHtml(b)
    ensures a == b
  {
    UnescapeEscapeHtml(a);
    UnescapeEscapeHtml(b);
  }

  // ---------------------------------------------------------------------
  // Argument guards
  // ---------------------------------------------------------------------

  /** The guard of the single-student report. */
  function CheckStudent(student: Option<StudentData>, filePath: string): (r: Result<StudentData, Error>)
    ensures student.None? ==> r == Err(ArgumentNull("student"))
    ensures student.Some? && IsBlank(filePath) ==> r == Err(ArgumentNull("filePath"))
    ensures r.Ok? <==> student.Some? && !IsBlank(filePath)
    ensures r.Ok? ==> r.value == student.value
  {
    if student.None? then Err(ArgumentNull("student"))
    else if IsBlank(filePath) then Err(ArgumentNull("filePath"))
    else Ok(student.value)
  }

  /**
   * The guard of the multiple-student and aggregate reports: a null or
   * empty list is refused first, then a blank path.
   */
  function CheckStudents(students: Option<seq<StudentData>>, filePath: string): (r: Result<seq<StudentData>, Error>)
    ensures students.None? || students.value == [] ==> r == Err(Argument("students"))
    ensures students.Some? && students.value != [] && IsBlank(filePath) ==> r == Err(ArgumentNull("filePath"))
    ensures r.Ok? <==> students.Some? && students.value != [] && !IsBlank(filePath)
    ensures r.Ok? ==> r.value == students.value && |r.value| > 0
  {
    if students.None? || students.value == [] then Err(Argument("students"))
    else if IsBlank(filePath) then Err(ArgumentNull("filePath"))
    else Ok(students.value)
  }

  // ---------------------------------------------------------------------
  // Counting statistics
  // ---------------------------------------------------------------------

  /** The positions of the students who receive a scholarship. */
  function Flagged(s: seq<StudentData>): set<int> {
    set i | 0 <= i < |s| && s[i].receivesScholarship
  }

  /**
   * `students.Count(s => s.ReceivesScholarship)`: the number of positions
   * that hold a scholarship holder.
   */
  function ScholarshipCount(s: seq<StudentData>): (n: nat)
    ensures n == |Flagged(s)|
    ensures n <= |s|
    ensures n == 0 <==> forall i :: 0 <= i < |s| ==> !s[i].receivesScholarship
    ensures n == |s| <==> forall i :: 0 <= i < |s| ==> s[i].receivesScholarship
  {
    if s == [] then
      assert Flagged(s) == {};
      0
    else
      var init, last := s[..|s| - 1], s[|s| - 1];
      FlaggedSnoc(s);
      ScholarshipCount(init) + (if last.receivesScholarship then 1 else 0)
  }

  /** The flagged positions of a list are those of its front, and the last one if it is flagged. */
  lemma FlaggedSnoc(s: seq<StudentData>)
    requires s != []
    ensures forall i :: 0 <= i < |s| - 1 ==> s[i] == s[..|s| - 1][i]
    ensures Flagged(s) == Flagged(s[..|s| - 1]) + (if s[|s| - 1].receivesScholarship then {|s| - 1} else {})
    ensures |s| - 1 !in Flagged(s[..|s| - 1])
  {
    var init := s[..|s| - 1];
    assert forall i :: 0 <= i < |init| ==> s[i] == init[i];
  }

  /** The integers `GenerateQuickStats` and `GenerateStatisticsCards` print. */
  datatype QuickStats = QuickStats(total: nat, scholarshipCount: nat)

  function QuickStatsOf(s: seq<StudentData>): (q: QuickStats)
    ensures q.total == |s| && q.scholarshipCount <= q.total
    ensures q.scholarshipCount == |Flagged(s)|
  {
    QuickStats(|s|, ScholarshipCount(s))
  }

  // ---------------------------------------------------------------------
  // Distribution by course year
  // ---------------------------------------------------------------------

  datatype CourseRow = CourseRow(course: CourseYear, count: nat)

  function CountCourse(s: seq<StudentData>, c: CourseYear): nat {
    if s == [] then 0
    else (if s[0].currentCourseYear == c then 1 else 0) + CountCourse(s[1..], c)
  }

  /** The course year at a position of the enum. */
  function CourseOfRank(r: nat): (c: CourseYear)
    requires r < 4
    ensures c.Rank() == r
  {
    if r == 0 then First else if r == 1 then Second else if r == 2 then Third else Fourth
  }

  /** The rows for the course years from position `from` on, in enum order, skipping empty years. */
  function CourseRowsFrom(s: seq<StudentData>, from: nat): seq<CourseRow>
    decreases 4 - from
  {
    if from >= 4 then []
    else
      var c := CourseOfRank(from);
      var n := CountCourse(s, c);
      (if n >= 1 then [CourseRow(c, n)] else []) + CourseRowsFrom(s, from + 1)
  }

  /**
   * `GenerateCourseDistribution`'s `GroupBy(CurrentCourseYear)` ordered by
   * course: the course years present, ascending, with their counts.
   */
  function CourseDistribution(s: seq<StudentData>): seq<CourseRow> {
    CourseRowsFrom(s, 0)
  }

  /** Each row counts the students of its course year, and is not empty. */
  predicate RowsCounted(s: seq<StudentData>, rows: seq<CourseRow>) {
    forall k :: 0 <= k < |rows| ==> rows[k].count == CountCourse(s, rows[k].course) && rows[k].count >= 1
  }

  predicate RowsFrom(rows: seq<CourseRow>, from: nat) {
    forall k :: 0 <= k < |rows| ==> rows[k].course.Rank() >= from
  }

  predicate RowsAscending(rows: seq<CourseRow>) {
    forall i, j :: 0 <= i < j < |rows| ==> rows[i].course.Rank() < rows[j].course.Rank()
  }

  lemma PrependRow(s: seq<StudentData>, row: CourseRow, rest: seq<CourseRow>, from: nat)
    requires RowsCounted(s, rest) && RowsFrom(rest, from + 1) && RowsAscending(rest)
    requires row.count == CountCourse(s, row.course) && row.count >= 1 && row.course.Rank() == from
    ensures RowsCounted(s, [row] + rest) && RowsFrom([row] + rest, from) && RowsAscending([row] + rest)
  {
    var rows := [row] + rest;
    assert forall k :: 1 <= k < |rows| ==> rows[k] == rest[k - 1];
  }

  lemma {:induction false} CourseRowsFromSpec(s: seq<StudentData>, from: nat)
    ensures RowsCounted(s, CourseRowsFrom(s, from))
    ensures RowsFrom(CourseRowsFrom(s, from), from)
    ensures RowsAscending(CourseRowsFrom(s, from))
    decreases 4 - from
  {
    if from < 4 {
      CourseRowsFromSpec(s, from + 1);
      var rest := CourseRowsFrom(s, from + 1);
      var c := CourseOfRank(from);
      if CountCourse(s, c) >= 1 {
        PrependRow(s, CourseRow(c, CountCourse(s, c)), rest, from);
      } else {
        assert CourseRowsFrom(s, from) == rest;
      }
    }
  }

  /** Every course year from position `from` on that some student is in has its row. */
  lemma {:induction false} CourseRowsFromComplete(s: seq<StudentData>, from: nat, c: CourseYear)
    requires from <= c.Rank() && CountCourse(s, c) >= 1
    ensures CourseRow(c, CountCourse(s, c)) in CourseRowsFrom(s, from)
    decreases 4 - from
  {
    if CourseOfRank(from) != c {
      CourseRowsFromComplete(s, from + 1, c);
    }
  }

  /**
   * Each row counts the students of its course year, at least one; every
   * course year some student is in has its row; rows ascend by year.
   */
  lemma CourseDistributionSpec(s: seq<StudentData>)
    ensures RowsCounted(s, CourseDistribution(s))
    ensures forall c :: CountCourse(s, c) >= 1 ==> CourseRow(c, CountCourse(s, c)) in CourseDistribution(s)
    ensures RowsAscending(CourseDistribution(s))
  {
    CourseRowsFromSpec(s, 0);
    forall c | CountCourse(s, c) >= 1 ensures CourseRow(c, CountCourse(s, c)) in CourseDistribution(s) {
      CourseRowsFromComplete(s, 0, c);
    }
  }

  function TotalCount(rows: seq<CourseRow>): nat {
    if rows == [] then 0 else rows[0].count + TotalCount(rows[1..])
  }

  /** The number of students in the course years from position `from` on. */
  function CountFrom(s: seq<StudentData>, from: nat): nat
    decreases 4 - from
  {
    if from >= 4 then 0 else CountCourse(s, CourseOfRank(from)) + CountFrom(s, from + 1)
  }

  lemma {:induction false} CourseRowsFromTotal(s: seq<StudentData>, from: nat)
    ensures TotalCount(CourseRowsFrom(s, from)) == CountFrom(s, from)
    decreases 4 - from
  {
    if from < 4 {
      CourseRowsFromTotal(s, from + 1);
      var rest := CourseRowsFrom(s, from + 1);
      var c := CourseOfRank(from);
      var n := CountCourse(s, c);
      if n >= 1 {
        var rows := [CourseRow(c, n)] + rest;
        assert rows[0].count == n && rows[1..] == rest;
      } else {
        assert CourseRowsFrom(s, from) == rest;
      }
    }
  }

  /** Every student is in exactly one course year. */
  lemma {:induction false} CountCoursesSum(s: seq<StudentData>)
    ensures CountFrom(s, 0) == |s|
  {
    if s != [] {
      CountCoursesSum(s[1..]);
    }
  }

  /** The course rows account for every student once, so their counts sum to the total. */
  lemma CourseDistributionTotal(s: seq<StudentData>)
    ensures TotalCount(CourseDistribution(s)) == |s|
  {
    CourseRowsFromTotal(s, 0);
    CountCoursesSum(s);
  }

  // ---------------------------------------------------------------------
  // Distribution by group
  // ---------------------------------------------------------------------

  datatype GroupRow = GroupRow(group: string, count: nat)

  /** `Take(10)`: the number of groups the report shows. */
  const TopGroups: nat := 10

  function CountGroup(s: seq<StudentData>, g: string): nat {
    if s == [] then 0
    else (if s[0].group == g then 1 else 0) + CountGroup(s[1..], g)
  }

  lemma {:induction false} CountGroupPositive(s: seq<StudentData>, g: string)
    ensures CountGroup(s, g) >= 1 <==> exists i :: 0 <= i < |s| && s[i].group == g
  {
    if s != [] {
      CountGroupPositive(s[1..], g);
      if exists i :: 0 <= i < |s[1..]| && s[1..][i].group == g {
        var i :| 0 <= i < |s[1..]| && s[1..][i].group == g;
        assert s[i + 1].group == g;
      }
      if exists i :: 0 <= i < |s| && s[i].group == g {
        var i :| 0 <= i < |s| && s[i].group == g;
        if i > 0 {
          assert s[1..][i - 1].group == g;
        }
      }
    }
  }

  /** The keys of `GroupBy(Group)`: each group once, in order of first appearance. */
  function GroupKeys(s: seq<StudentData>): (keys: seq<string>)
    ensures Distinct(keys)
    ensures forall g :: g in keys <==> exists i :: 0 <= i < |s| && s[i].group == g
  {
    if s == [] then []
    else
      var init := s[..|s| - 1];
      var keys := GroupKeys(init);
      assert forall i :: 0 <= i < |init| ==> s[i] == init[i];
      if s[|s| - 1].group in keys then keys else keys + [s[|s| - 1].group]
  }

  /** The position of the first student in group `g`, or `|s|` when there is none. */
  function FirstInGroup(s: seq<StudentData>, g: string): (r: nat)
    ensures r <= |s|
    ensures r < |s| ==> s[r].group == g
    ensures forall i :: 0 <= i < r ==> s[i].group != g
  {
    if s == [] then 0
    else if s[0].group == g then 0
    else
      var r := 1 + FirstInGroup(s[1..], g);
      assert forall i :: 1 <= i < r ==> s[i] == s[1..][i - 1];
      r
  }

  /** A student added at the end moves no group's first appearance, and starts the group it is first in. */
  lemma FirstInGroupSnoc(s: seq<StudentData>, g: string)
    requires s != []
    ensures var init := s[..|s| - 1];
            && (FirstInGroup(init, g) < |init| ==> FirstInGroup(s, g) == FirstInGroup(init, g))
            && (FirstInGroup(init, g) == |init| && s[|s| - 1].group == g ==> FirstInGroup(s, g) == |s| - 1)
  {
    var init := s[..|s| - 1];
    var k, r := FirstInGroup(init, g), FirstInGroup(s, g);
    assert forall i :: 0 <= i < |init| ==> s[i] == init[i];
    if k < |init| {
      assert s[k].group == g;
    }
  }

  /** The keys come in order of first appearance. */
  lemma {:induction false} GroupKeysInOrder(s: seq<StudentData>)
    ensures var keys := GroupKeys(s);
            forall i, j :: 0 <= i < j < |keys| ==> FirstInGroup(s, keys[i]) < FirstInGroup(s, keys[j])
  {
    if s != [] {
      var init := s[..|s| - 1];
      var last := s[|s| - 1].group;
      GroupKeysInOrder(init);
      var before, keys := GroupKeys(init), GroupKeys(s);
      if last in before {
        assert keys == before;
      } else {
        assert keys == before + [last];
        NewKeyLast(s);
      }
      forall i, j | 0 <= i < j < |keys| ensures FirstInGroup(s, keys[i]) < FirstInGroup(s, keys[j]) {
        OldKeyKept(s, before[i]);
        if j < |before| {
          OldKeyKept(s, before[j]);
        }
      }
    }
  }

  /** A group some earlier student is in keeps its first appearance when a student is added. */
  lemma OldKeyKept(s: seq<StudentData>, g: string)
    requires s != [] && g in GroupKeys(s[..|s| - 1])
    ensures FirstInGroup(s, g) == FirstInGroup(s[..|s| - 1], g) < |s| - 1
  {
    var init := s[..|s| - 1];
    var i :| 0 <= i < |init| && init[i].group == g;
    FirstInGroupSnoc(s, g);
  }

  /** A group no earlier student is in first appears at the added student. */
  lemma NewKeyLast(s: seq<StudentData>)
    requires s != [] && s[|s| - 1].group !in GroupKeys(s[..|s| - 1])
    ensures FirstInGroup(s, s[|s| - 1].group) == |s| - 1
  {
    FirstInGroupSnoc(s, s[|s| - 1].group);
  }

  /** `Select(g => new { Group = g.Key, Count = g.Count() })`, before ordering. */
  function GroupRows(s: seq<StudentData>): (rows: seq<GroupRow>)
    ensures |rows| == |GroupKeys(s)|
    ensures forall k :: 0 <= k < |rows| ==>
              rows[k].group == GroupKeys(s)[k] && rows[k].count == CountGroup(s, rows[k].group)
  {
    var keys := GroupKeys(s);
    seq(|keys|, k requires 0 <= k < |keys| => GroupRow(keys[k], CountGroup(s, keys[k])))
  }

  /** `OrderByDescending(x => x.Count)` */
  const ByCountDescending: (GroupRow, GroupRow) -> bool := (a: GroupRow, b: GroupRow) => a.count >= b.count

  lemma ByCountDescendingTotal()
    ensures IsTotalPreorder(ByCountDescending)
  {
  }

  /** `GenerateGroupDistribution`: the groups by non-increasing size, at most ten of them. */
  function GroupDistribution(s: seq<StudentData>): (r: seq<GroupRow>)
    ensures |r| == if |GroupKeys(s)| <= TopGroups then |GroupKeys(s)| else TopGroups
    ensures forall i, j :: 0 <= i < j < |r| ==> r[i].count >= r[j].count
  {
    var sorted := SortBy(GroupRows(s), ByCountDescending);
    ByCountDescendingTotal();
    SortBySorted(GroupRows(s), ByCountDescending);
    if |sorted| <= TopGroups then sorted else sorted[..TopGroups]
  }

  /** The rows shown are a prefix of all group rows sorted by size. */
  lemma GroupDistributionPrefix(s: seq<StudentData>)
    ensures var sorted := SortBy(GroupRows(s), ByCountDescending);
            GroupDistribution(s) == sorted[..|GroupDistribution(s)|]
  {
  }

  /** Each shown count is the number of students in that group, and a group appears once. */
  lemma GroupDistributionCounts(s: seq<StudentData>)
    ensures var r := GroupDistribution(s);
            && (forall k :: 0 <= k < |r| ==> r[k].count == CountGroup(s, r[k].group) && r[k].count >= 1)
            && Distinct(r)
            && (forall i, j :: 0 <= i < j < |r| ==> r[i].group != r[j].group)
  {
    var rows := GroupRows(s);
    var sorted := SortBy(rows, ByCountDescending);
    var r := GroupDistribution(s);
    GroupDistributionPrefix(s);
    forall k | 0 <= k < |r| ensures r[k].count == CountGroup(s, r[k].group) && r[k].count >= 1 {
      assert r[k] == sorted[k];
      assert sorted[k] in multiset(rows);
      var m :| 0 <= m < |rows| && rows[m] == r[k];
      assert r[k].group in GroupKeys(s);
      CountGroupPositive(s, r[k].group);
    }
    assert Distinct(rows) by {
      forall i, j | 0 <= i < j < |rows| ensures rows[i] != rows[j] {
        assert rows[i].group == GroupKeys(s)[i];
      }
    }
    PermutationKeepsDistinct(sorted, rows);
    assert Distinct(r);
    forall i, j | 0 <= i < j < |r| ensures r[i].group != r[j].group {
      assert r[i] != r[j];
    }
  }

  /** A group left out of the top ten is no larger than the smallest one shown. */
  lemma GroupDistributionTop(s: seq<StudentData>, x: StudentData)
    requires x in s
    ensures var r := GroupDistribution(s);
            |r| > 0 &&
            ((exists k :: 0 <= k < |r| && r[k].group == x.group) || CountGroup(s, x.group) <= r[|r| - 1].count)
  {
    var rows := GroupRows(s);
    var sorted := SortBy(rows, ByCountDescending);
    var r := GroupDistribution(s);
    GroupDistributionPrefix(s);
    var i :| 0 <= i < |s| && s[i] == x;
    assert x.group in GroupKeys(s);
    var k :| 0 <= k < |GroupKeys(s)| && GroupKeys(s)[k] == x.group;
    var row := rows[k];
    assert row in multiset(sorted);
    var m :| 0 <= m < |sorted| && sorted[m] == row;
    ByCountDescendingTotal();
    SortBySorted(rows, ByCountDescending);
    if m < |r| {
      assert r[m].group == x.group;
    } else {
      assert r[|r| - 1] == sorted[|r| - 1];
    }
  }

  /** Ties on the count go by first appearance: the order `GroupBy` gives and a stable sort keeps. */
  function EarlierGroup(s: seq<StudentData>): (GroupRow, GroupRow) -> bool {
    (a: GroupRow, b: GroupRow) => FirstInGroup(s, a.group) < FirstInGroup(s, b.group)
  }

  /** `a` comes before `b`: larger first, and of two equally large groups, the one that appears first. */
  predicate ShownBefore(s: seq<StudentData>, a: GroupRow, b: GroupRow) {
    a.count > b.count || (a.count == b.count && FirstInGroup(s, a.group) < FirstInGroup(s, b.group))
  }

  /** All group rows, sorted: by count, and by first appearance among equal counts. */
  lemma SortedGroupRowsOrder(s: seq<StudentData>)
    ensures var sorted := SortBy(GroupRows(s), ByCountDescending);
            forall i, j :: 0 <= i < j < |sorted| ==> ShownBefore(s, sorted[i], sorted[j])
  {
    var rows := GroupRows(s);
    var tie := EarlierGroup(s);
    GroupKeysInOrder(s);
    assert TiesOrdered(rows, ByCountDescending, tie) by {
      forall i, j | 0 <= i < j < |rows| && ByCountDescending(rows[i], rows[j]) && ByCountDescending(rows[j], rows[i])
        ensures tie(rows[i], rows[j])
      {
        assert rows[i].group == GroupKeys(s)[i] && rows[j].group == GroupKeys(s)[j];
      }
    }
    SortByKeepsTies(rows, ByCountDescending, tie);
    ByCountDescendingTotal();
    SortBySorted(rows, ByCountDescending);
  }

  /** The rows shown go by count, and equal counts by first appearance. */
  lemma GroupDistributionOrder(s: seq<StudentData>)
    ensures var r := GroupDistribution(s);
            forall i, j :: 0 <= i < j < |r| ==> ShownBefore(s, r[i], r[j])
  {
    GroupDistributionPrefix(s);
    SortedGroupRowsOrder(s);
  }

  /**
   * Which groups make the top ten: a student's group is shown, or every
   * group shown is larger, or as large and appearing earlier.
   */
  lemma GroupDistributionCut(s: seq<StudentData>, x: StudentData)
    requires x in s
    ensures var r := GroupDistribution(s);
            || (exists k :: 0 <= k < |r| && r[k].group == x.group)
            || (forall k :: 0 <= k < |r| ==> ShownBefore(s, r[k], GroupRow(x.group, CountGroup(s, x.group))))
  {
    var rows := GroupRows(s);
    var sorted := SortBy(rows, ByCountDescending);
    var r := GroupDistribution(s);
    GroupDistributionPrefix(s);
    SortedGroupRowsOrder(s);
    var i :| 0 <= i < |s| && s[i] == x;
    assert x.group in GroupKeys(s);
    var k :| 0 <= k < |GroupKeys(s)| && GroupKeys(s)[k] == x.group;
    var row := rows[k];
    assert row == GroupRow(x.group, CountGroup(s, x.group));
    assert row in multiset(sorted);
    var m :| 0 <= m < |sorted| && sorted[m] == row;
    if m < |r| {
      assert r[m].group == x.group;
    } else {
      forall k' | 0 <= k' < |r| ensures ShownBefore(s, r[k'], row) {
        assert r[k'] == sorted[k'];
      }
    }
  }

  // ---------------------------------------------------------------------
  // The three reports
  // ---------------------------------------------------------------------

  /** `OrderBy(s => s.FullName)` */
  const ByName: (StudentData, StudentData) -> bool :=
    (a: StudentData, b: StudentData) => OrdinalLeq(a.fullName, b.fullName)

  lemma ByNameTotal()
    ensures IsTotalPreorder(ByName)
  {
    forall a: StudentData, b: StudentData ensures ByName(a, b) || ByName(b, a) {
      OrdinalTotal(a.fullName, b.fullName);
    }
    forall a: StudentData, b: StudentData, c: StudentData | ByName(a, b) && ByName(b, c)
      ensures ByName(a, c)
    {
      OrdinalTransitive(a.fullName, b.fullName, c.fullName);
    }
  }

  /** The values a single-student report shows: the student itself. */
  function SingleStudentReport(student: Option<StudentData>, filePath: string): (r: Result<StudentData, Error>)
    ensures r.Err? <==> CheckStudent(student, filePath).Err?
    ensures r.Ok? ==> student == Some(r.value)
  {
    CheckStudent(student, filePath)
  }

  /** The multiple-student report: optional quick statistics, then the listing. */
  datatype Listing = Listing(stats: Option<QuickStats>, rows: seq<StudentData>)

  function MultipleStudentsReport(students: Option<seq<StudentData>>, filePath: string, includeStatistics: bool)
    : (r: Result<Listing, Error>)
    ensures r.Err? <==> CheckStudents(students, filePath).Err?
    ensures r.Err? ==> r.error == CheckStudents(students, filePath).error
    ensures r.Ok? ==> multiset(r.value.rows) == multiset(students.value)
    ensures r.Ok? ==> SortedBy(r.value.rows, ByName)
    ensures r.Ok? ==> (r.value.stats.Some? <==> includeStatistics)
    ensures r.Ok? && r.value.stats.Some? ==>
              r.value.stats.value.total == |students.value| > 0 &&
              r.value.stats.value.scholarshipCount == ScholarshipCount(students.value)
  {
    match CheckStudents(students, filePath)
    case Err(e) => Err(e)
    case Ok(list) =>
      ByNameTotal();
      SortBySorted(list, ByName);
      Ok(Listing(if includeStatistics then Some(QuickStatsOf(list)) else None, SortBy(list, ByName)))
  }

  /**
   * `OrderBy` is stable: in a list without repeated records, students with
   * the same name are listed in input order.
   */
  lemma MultipleStudentsStable(students: Option<seq<StudentData>>, filePath: string, includeStatistics: bool)
    ensures var r := MultipleStudentsReport(students, filePath, includeStatistics);
            r.Ok? && Distinct(students.value) ==>
              forall i, j :: 0 <= i < j < |r.value.rows| && r.value.rows[i].fullName == r.value.rows[j].fullName ==>
                FirstIndex(students.value, r.value.rows[i]) < FirstIndex(students.value, r.value.rows[j])
  {
    var r := MultipleStudentsReport(students, filePath, includeStatistics);
    if r.Ok? && Distinct(students.value) {
      var list := students.value;
      var rows := r.value.rows;
      assert rows == SortBy(list, ByName);
      SortByStable(list, ByName);
      forall i, j | 0 <= i < j < |rows| && rows[i].fullName == rows[j].fullName
        ensures FirstIndex(list, rows[i]) < FirstIndex(list, rows[j])
      {
        OrdinalTotal(rows[i].fullName, rows[i].fullName);
        assert ByName(rows[i], rows[j]) && ByName(rows[j], rows[i]);
        assert InputOrder(list)(rows[i], rows[j]);
      }
    }
  }

  /** The integer content of the aggregate report. */
  datatype Aggregate = Aggregate(stats: QuickStats, courses: seq<CourseRow>, groups: seq<GroupRow>)

  function AggregateReport(students: Option<seq<StudentData>>, filePath: string): (r: Result<Aggregate, Error>)
    ensures r.Err? <==> CheckStudents(students, filePath).Err?
    ensures r.Err? ==> r.error == CheckStudents(students, filePath).error
    ensures r.Ok? ==>
              && r.value.stats.total == |students.value| > 0
              && r.value.stats.scholarshipCount == ScholarshipCount(students.value)
              && r.value.courses == CourseDistribution(students.value) && r.value.courses != []
              && r.value.groups == GroupDistribution(students.value) && r.value.groups != []
  {
    match CheckStudents(students, filePath)
    case Err(e) => Err(e)
    case Ok(list) =>
      assert list[0].group in GroupKeys(list);
      CourseDistributionSpec(list);
      assert CountCourse(list, list[0].currentCourseYear) >= 1;
      Ok(Aggregate(QuickStatsOf(list), CourseDistribution(list), GroupDistribution(list)))
  }
}
