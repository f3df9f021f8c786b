/** Day-plan identifiers: `draft_day_plan_id` prints a crew and a service date into one
    id, `day_plan_parts_from_id` reads them back. */
module DayPlanIds {
  import opened Options
  import opened Text

  const PREFIX := "day_plan_"

  function ReplaceHyphens(s: string): (r: string)
    ensures |r| == |s|
    ensures forall i :: 0 <= i < |s| ==> r[i] == if s[i] == '-' then '_' else s[i]
  {
    seq(|s|, i requires 0 <= i < |s| => if s[i] == '-' then '_' else s[i])
  }

  function DraftDayPlanId(crewId: string, serviceDate: string): string
  {
    PREFIX + ReplaceHyphens(serviceDate) + "_" + crewId
  }

  function DayPlanPartsFromId(id: string): Option<(string, string)>
  {
    if |id| < |PREFIX| || id[..|PREFIX|] != PREFIX then None
    else
      var parts := Split(id[|PREFIX|..], '_');
      if |parts| < 4 then None
      else Some((parts[0] + "-" + parts[1] + "-" + parts[2], Join(parts[3..], '_')))
  }

  // ---- service dates -----------------------------------------------------------------

  predicate IsDigit(c: char) { '0' <= c <= '9' }

  predicate AllDigits(s: string)
  {
    forall i :: 0 <= i < |s| ==> IsDigit(s[i])
  }

  /** `str::parse::<u32>` of at most four digits. */
  function ParseDigits(s: string): nat
    requires AllDigits(s)
  {
    if s == "" then 0
    else 10 * ParseDigits(s[..|s| - 1]) + (s[|s| - 1] as int - '0' as int)
  }

  predicate IsLeapYear(year: int)
  {
    (year % 4 == 0 && year % 100 != 0) || year % 400 == 0
  }

  /** The days of a month; no days at all for a number that is not a month. */
  function MaxDay(year: int, month: int): nat
  {
    if month in {1, 3, 5, 7, 8, 10, 12} then 31
    else if month in {4, 6, 9, 11} then 30
    else if month == 2 then (if IsLeapYear(year) then 29 else 28)
    else 0
  }

  predicate IsValidServiceDate(serviceDate: string)
  {
    var parts := Split(serviceDate, '-');
    && |parts| == 3
    && |parts[0]| == 4 && |parts[1]| == 2 && |parts[2]| == 2
    && AllDigits(parts[0]) && AllDigits(parts[1]) && AllDigits(parts[2])
    && ParseDigits(parts[0]) != 0
    && 1 <= ParseDigits(parts[2]) <= MaxDay(ParseDigits(parts[0]), ParseDigits(parts[1]))
  }

  // ---- print, then parse ---------------------------------------------------------------

  /** A date of three hyphen-free, underscore-free segments prints as those segments. */
  lemma ReplaceHyphensOfSegments(a: string, b: string, c: string)
    requires '-' !in a && '-' !in b && '-' !in c
    ensures ReplaceHyphens(a + "-" + b + "-" + c) == a + "_" + b + "_" + c
  {
    assert forall i :: 0 <= i < |a| ==> a[i] in a;
    assert forall i :: 0 <= i < |b| ==> b[i] in b;
    assert forall i :: 0 <= i < |c| ==> c[i] in c;
  }

  lemma ThreePieces(s: string)
    requires |Split(s, '-')| == 3
    ensures var p := Split(s, '-'); s == p[0] + "-" + p[1] + "-" + p[2]
  {
    JoinSplit(s, '-');
    var p := Split(s, '-');
    assert p[1..][1..] == [p[2]];
    assert Join(p[1..], '-') == p[1] + ['-'] + Join(p[1..][1..], '-');
  }

  lemma Regroup(a: string, b: string, c: string, crewId: string)
    ensures a + "_" + b + "_" + c + "_" + crewId == a + ['_'] + (b + ['_'] + (c + ['_'] + crewId))
  {
  }

  lemma SplitOfPrinted(a: string, b: string, c: string, crewId: string)
    requires '_' !in a && '_' !in b && '_' !in c
    ensures Split(a + "_" + b + "_" + c + "_" + crewId, '_') == [a, b, c] + Split(crewId, '_')
  {
    Regroup(a, b, c, crewId);
    SplitAtFirst(c, '_', crewId);
    SplitAtFirst(b, '_', c + ['_'] + crewId);
    SplitAtFirst(a, '_', b + ['_'] + (c + ['_'] + crewId));
  }

  /** Reading an id back gives the date and crew it was printed from, whatever the crew id. */
  lemma PartsOfDraftId(crewId: string, serviceDate: string)
    requires IsValidServiceDate(serviceDate)
    ensures DayPlanPartsFromId(DraftDayPlanId(crewId, serviceDate)) == Some((serviceDate, crewId))
    ensures "day_plan_" <= DraftDayPlanId(crewId, serviceDate)
  {
    var p := Split(serviceDate, '-');
    ThreePieces(serviceDate);
    forall k | 0 <= k < 3 ensures '-' !in p[k] && '_' !in p[k] {
      assert AllDigits(p[k]);
    }
    ReplaceHyphensOfSegments(p[0], p[1], p[2]);
    var id := DraftDayPlanId(crewId, serviceDate);
    var body := p[0] + "_" + p[1] + "_" + p[2] + "_" + crewId;
    assert id == PREFIX + body;
    assert id[|PREFIX|..] == body;
    SplitOfPrinted(p[0], p[1], p[2], crewId);
    var parts := Split(body, '_');
    assert parts[3..] == Split(crewId, '_');
    JoinSplit(crewId, '_');
  }

  /** Hence two plans share an id only when crew and date agree. */
  lemma DraftIdInjective(crew1: string, date1: string, crew2: string, date2: string)
    requires IsValidServiceDate(date1) && IsValidServiceDate(date2)
    ensures DraftDayPlanId(crew1, date1) == DraftDayPlanId(crew2, date2) <==> crew1 == crew2 && date1 == date2
  {
    PartsOfDraftId(crew1, date1);
    PartsOfDraftId(crew2, date2);
  }

  // ---- parse, then print ---------------------------------------------------------------

  /** The three underscore-separated segments an id's date is read from. */
  function DateSegments(id: string): seq<string>
    requires DayPlanPartsFromId(id).Some?
    ensures |DateSegments(id)| == 3
  {
    Split(id[|PREFIX|..], '_')[..3]
  }

  lemma {:induction false} JoinFourOrMore(parts: seq<string>, sep: char)
    requires |parts| >= 4
    ensures Join(parts, sep)
         == parts[0] + [sep] + parts[1] + [sep] + parts[2] + [sep] + Join(parts[3..], sep)
  {
    assert parts[1..][1..] == parts[2..] && parts[2..][1..] == parts[3..];
    assert Join(parts[2..], sep) == parts[2] + [sep] + Join(parts[3..], sep);
    assert Join(parts[1..], sep) == parts[1] + [sep] + Join(parts[2..], sep);
  }

  /** A hyphen inside a segment survives in the id but not in a printed date. */
  lemma HyphenIsNotPrinted(stem: string, rest: string, printed: string)
    requires '-' in stem && '-' !in printed && |printed| == |stem|
    ensures PREFIX + (printed + "_" + rest) != PREFIX + (stem + "_" + rest)
  {
    var i :| 0 <= i < |stem| && stem[i] == '-';
    assert (PREFIX + (stem + "_" + rest))[|PREFIX| + i] == '-';
    assert (PREFIX + (printed + "_" + rest))[|PREFIX| + i] == printed[i];
  }

  lemma HyphenInStem(a: string, b: string, c: string)
    requires '-' in a || '-' in b || '-' in c
    ensures '-' in a + "_" + b + "_" + c
  {
  }

  /** Printing what was read gives the id back exactly when no date segment has a hyphen. */
  lemma DraftOfPartsIff(id: string)
    requires DayPlanPartsFromId(id).Some?
    ensures (DraftDayPlanId(DayPlanPartsFromId(id).value.1, DayPlanPartsFromId(id).value.0) == id)
       <==> forall k :: 0 <= k < 3 ==> '-' !in DateSegments(id)[k]
  {
    var parts := Split(id[|PREFIX|..], '_');
    JoinSplit(id[|PREFIX|..], '_');
    JoinFourOrMore(parts, '_');
    DraftOfSegments(parts[0], parts[1], parts[2], Join(parts[3..], '_'));
    assert DateSegments(id) == [parts[0], parts[1], parts[2]];
    assert id == PREFIX + (parts[0] + "_" + parts[1] + "_" + parts[2] + "_" + Join(parts[3..], '_'));
  }

  lemma DraftOfSegments(a: string, b: string, c: string, crewId: string)
    ensures (DraftDayPlanId(crewId, a + "-" + b + "-" + c) == PREFIX + (a + "_" + b + "_" + c + "_" + crewId))
       <==> '-' !in a && '-' !in b && '-' !in c
  {
    var printed := ReplaceHyphens(a + "-" + b + "-" + c);
    assert DraftDayPlanId(crewId, a + "-" + b + "-" + c) == PREFIX + (printed + "_" + crewId);
    if '-' !in a && '-' !in b && '-' !in c {
      ReplaceHyphensOfSegments(a, b, c);
    } else {
      HyphenInStem(a, b, c);
      HyphenIsNotPrinted(a + "_" + b + "_" + c, crewId, printed);
    }
  }
}
