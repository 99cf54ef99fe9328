/** The validators and the report formatter of the utilities file:
    which required columns are missing, whether a URL has the Google
    Sheets shape, and the Markdown rewriting of a generated report. */
module Utils {

  import opened Strings
  import Frame

  /** `a` is `b` with some elements dropped, the rest in the same order. */
  predicate Subsequence<T(==)>(a: seq<T>, b: seq<T>)
    decreases |b|
  {
    if |a| == 0 then true
    else if |b| == 0 then false
    else if a[0] == b[0] then Subsequence(a[1..], b[1..])
    else Subsequence(a, b[1..])
  }

  /** The required columns that `columns` lacks, in required order
      (a list comprehension over `required`). */
  function MissingColumns(columns: seq<string>, required: seq<string>): (m: seq<string>)
    ensures forall c :: c in m <==> c in required && c !in columns
    ensures Subsequence(m, required)
    ensures forall c :: c !in columns ==> multiset(m)[c] == multiset(required)[c]
  {
    if |required| == 0 then []
    else if required[0] in columns then
      var rest := MissingColumns(columns, required[1..]);
      assert |rest| > 0 ==> rest[0] != required[0];
      assert required == [required[0]] + required[1..];
      rest
    else
      var rest := MissingColumns(columns, required[1..]);
      assert required == [required[0]] + required[1..];
      [required[0]] + rest
  }

  /** `validate_column_names`: valid exactly when nothing is missing. */
  function ValidateColumnNames(t: Frame.Table, required: seq<string>): (r: (bool, seq<string>))
    ensures r.1 == MissingColumns(t.columns, required)
    ensures r.0 <==> |r.1| == 0
    ensures r.0 <==> forall c :: c in required ==> c in t.columns
  {
    var missing := MissingColumns(t.columns, required);
    assert forall c :: c in required && c !in t.columns ==> c in missing;
    assert |missing| > 0 ==> missing[0] in required && missing[0] !in t.columns;
    (|missing| == 0, missing)
  }

  const SheetUrlPrefix: string := "https://docs.google.com/spreadsheets/d/"

  /** Characters of the class `[a-zA-Z0-9-_]`. */
  predicate IsIdChar(c: char) {
    ('a' <= c <= 'z') || ('A' <= c <= 'Z') || ('0' <= c <= '9') || c == '-' || c == '_'
  }

  /** What `re.match` of the sheet pattern accepts: the prefix, one or more
      id characters, then `/edit` or `/view`; anything may follow. */
  ghost predicate MatchesSheetPattern(url: string) {
    && SheetUrlPrefix <= url
    && exists k :: |SheetUrlPrefix| < k <= |url|
         && (forall i :: |SheetUrlPrefix| <= i < k ==> IsIdChar(url[i]))
         && (OccursAt(url, "/edit", k) || OccursAt(url, "/view", k))
  }

  /** The end of the run of id characters starting at `i`. */
  function IdRunEnd(url: string, i: nat): (e: nat)
    requires i <= |url|
    ensures i <= e <= |url|
    ensures forall j :: i <= j < e ==> IsIdChar(url[j])
    ensures e == |url| || !IsIdChar(url[e])
    decreases |url| - i
  {
    if i == |url| || !IsIdChar(url[i]) then i else IdRunEnd(url, i + 1)
  }

  /** `validate_google_sheet_url`, as a scan instead of a regex. */
  function ValidateGoogleSheetUrl(url: string): bool {
    if !(SheetUrlPrefix <= url) then false
    else
      var e := IdRunEnd(url, |SheetUrlPrefix|);
      e > |SheetUrlPrefix| && (OccursAt(url, "/edit", e) || OccursAt(url, "/view", e))
  }

  /** A run of id characters followed by "/edit" or "/view" ends exactly
      where the suffix starts, since '/' is not an id character. */
  lemma RunEndsAtSuffix(url: string, p: nat, k: nat)
    requires p < k <= |url|
    requires forall i :: p <= i < k ==> IsIdChar(url[i])
    requires OccursAt(url, "/edit", k) || OccursAt(url, "/view", k)
    ensures IdRunEnd(url, p) == k
  {
    assert url[k] == '/';
  }

  /** The scan accepts exactly the strings the pattern matches. */
  lemma ValidateGoogleSheetUrlCorrect(url: string)
    ensures ValidateGoogleSheetUrl(url) <==> MatchesSheetPattern(url)
  {
    if SheetUrlPrefix <= url {
      var p := |SheetUrlPrefix|;
      if MatchesSheetPattern(url) {
        var k :| p < k <= |url|
          && (forall i :: p <= i < k ==> IsIdChar(url[i]))
          && (OccursAt(url, "/edit", k) || OccursAt(url, "/view", k));
        RunEndsAtSuffix(url, p, k);
      }
    }
  }

  /** A URL with an empty id segment is rejected. */
  lemma RejectsEmptyId(rest: string)
    ensures !ValidateGoogleSheetUrl(SheetUrlPrefix + "/edit" + rest)
  {
    var url := SheetUrlPrefix + "/edit" + rest;
    assert SheetUrlPrefix <= url;
    assert url[|SheetUrlPrefix|] == '/';
  }

  /** Only the `https://docs.google.com/spreadsheets/d/` prefix is accepted:
      an `http://` scheme is rejected. */
  lemma RejectsHttp(url: string)
    requires "http://" <= url
    ensures !ValidateGoogleSheetUrl(url)
  {
    assert url[4] == ':';
    assert SheetUrlPrefix[4] == 's';
  }

  // ---------------------------------------------------------------------
  // format_report_for_display

  const Sections: seq<string> := [
    "Overview Summary", "Detailed Metric Breakdown", "Strengths Identified",
    "Weaknesses Identified", "Actionable Improvements", "Viral Potential Score"]

  const MetricLabels: seq<string> := [
    "Like-to-View", "Comment-to-View", "Comment-to-Like", "Save-to-View", "Save-to-Like"]

  /** `sec` starts a line of `s`: at the very start or right after a newline. */
  predicate AtLineStart(s: string, sec: string) {
    sec <= s || Contains(s, "\n" + sec)
  }

  /** `re.sub(r'(?:\n|^)(S|S:)', '\n## S', s)`: the section name at the
      start of the text or after a newline becomes `\n## S`; the `S`
      alternative always wins over `S:`, so a trailing colon stays put. */
  function RewriteSection(s: string, sec: string): string
    requires |sec| > 0
  {
    if sec <= s then "\n## " + sec + ReplaceAll(s[|sec|..], "\n" + sec, "\n## " + sec)
    else ReplaceAll(s, "\n" + sec, "\n## " + sec)
  }

  /** `s.replace(metric + ":", "**" + metric + ":**")`. */
  function BoldLabel(s: string, metric: string): string
    requires |metric| > 0
  {
    ReplaceAll(s, metric + ":", "**" + metric + ":**")
  }

  function RewriteSections(s: string, secs: seq<string>): string
    requires forall i :: 0 <= i < |secs| ==> |secs[i]| > 0
    decreases |secs|
  {
    if |secs| == 0 then s else RewriteSections(RewriteSection(s, secs[0]), secs[1..])
  }

  function BoldLabels(s: string, metrics: seq<string>): string
    requires forall i :: 0 <= i < |metrics| ==> |metrics[i]| > 0
    decreases |metrics|
  {
    if |metrics| == 0 then s else BoldLabels(BoldLabel(s, metrics[0]), metrics[1..])
  }

  /** `format_report_for_display`. */
  function FormatReportForDisplay(report: string): string {
    BoldLabels(RewriteSections(report, Sections), MetricLabels)
  }

  /** Rewriting one section never shrinks the text, and leaves it unchanged
      exactly when the name does not start a line. */
  lemma RewriteSectionGrowsIff(s: string, sec: string)
    requires |sec| > 0
    ensures |RewriteSection(s, sec)| >= |s|
    ensures RewriteSection(s, sec) == s || |RewriteSection(s, sec)| > |s|
    ensures RewriteSection(s, sec) == s <==> !AtLineStart(s, sec)
  {
    var pat := "\n" + sec;
    var rep := "\n## " + sec;
    if sec <= s {
      ReplaceAllGrowsIff(s[|sec|..], pat, rep);
      assert |RewriteSection(s, sec)| > |s|;
    } else {
      ReplaceAllGrowsIff(s, pat, rep);
    }
  }

  lemma BoldLabelGrowsIff(s: string, metric: string)
    requires |metric| > 0
    ensures |BoldLabel(s, metric)| >= |s|
    ensures BoldLabel(s, metric) == s || |BoldLabel(s, metric)| > |s|
    ensures BoldLabel(s, metric) == s <==> !Contains(s, metric + ":")
  {
    ReplaceAllGrowsIff(s, metric + ":", "**" + metric + ":**");
  }

  lemma {:induction false} RewriteSectionsGrowsIff(s: string, secs: seq<string>)
    requires forall i :: 0 <= i < |secs| ==> |secs[i]| > 0
    ensures |RewriteSections(s, secs)| >= |s|
    ensures RewriteSections(s, secs) == s || |RewriteSections(s, secs)| > |s|
    ensures RewriteSections(s, secs) == s <==> forall i :: 0 <= i < |secs| ==> !AtLineStart(s, secs[i])
    decreases |secs|
  {
    if |secs| > 0 {
      var s1 := RewriteSection(s, secs[0]);
      RewriteSectionGrowsIff(s, secs[0]);
      RewriteSectionsGrowsIff(s1, secs[1..]);
      if s1 == s {
        forall i | 1 <= i < |secs| ensures secs[1..][i - 1] == secs[i] { }
      }
    }
  }

  lemma {:induction false} BoldLabelsGrowsIff(s: string, metrics: seq<string>)
    requires forall i :: 0 <= i < |metrics| ==> |metrics[i]| > 0
    ensures |BoldLabels(s, metrics)| >= |s|
    ensures BoldLabels(s, metrics) == s || |BoldLabels(s, metrics)| > |s|
    ensures BoldLabels(s, metrics) == s <==> forall i :: 0 <= i < |metrics| ==> !Contains(s, metrics[i] + ":")
    decreases |metrics|
  {
    if |metrics| > 0 {
      var s1 := BoldLabel(s, metrics[0]);
      BoldLabelGrowsIff(s, metrics[0]);
      BoldLabelsGrowsIff(s1, metrics[1..]);
      if s1 == s {
        forall i | 1 <= i < |metrics| ensures metrics[1..][i - 1] == metrics[i] { }
      }
    }
  }

  /** The formatted report is never shorter than the input, and it is the
      input unchanged exactly when no section name starts a line and no
      metric label (with its colon) occurs. */
  lemma FormatReportGrowsIff(report: string)
    ensures |FormatReportForDisplay(report)| >= |report|
    ensures FormatReportForDisplay(report) == report <==>
      (forall i :: 0 <= i < |Sections| ==> !AtLineStart(report, Sections[i]))
      && (forall i :: 0 <= i < |MetricLabels| ==> !Contains(report, MetricLabels[i] + ":"))
  {
    var s1 := RewriteSections(report, Sections);
    RewriteSectionsGrowsIff(report, Sections);
    BoldLabelsGrowsIff(s1, MetricLabels);
  }

  /** Each metric label occurrence is bolded: the text grows by four
      characters per occurrence. */
  lemma BoldLabelCounts(s: string, metric: string)
    requires |metric| > 0
    ensures |BoldLabel(s, metric)| == |s| + 4 * CountReplaced(s, metric + ":")
  {
    ReplaceAllLength(s, metric + ":", "**" + metric + ":**");
  }

  /** Each section rewrite adds four characters at the start of the text
      and three per later line-start occurrence. */
  lemma RewriteSectionCounts(s: string, sec: string)
    requires |sec| > 0
    ensures var rest := if sec <= s then s[|sec|..] else s;
      |RewriteSection(s, sec)| == |s| + (if sec <= s then 4 else 0) + 3 * CountReplaced(rest, "\n" + sec)
  {
    var pat := "\n" + sec;
    var rep := "\n## " + sec;
    assert |rep| - |pat| == 3;
    if sec <= s {
      ReplaceAllLength(s[|sec|..], pat, rep);
      assert |RewriteSection(s, sec)| == |rep| + |ReplaceAll(s[|sec|..], pat, rep)|;
    } else {
      ReplaceAllLength(s, pat, rep);
    }
  }

  /** `s` is a single line. */
  predicate NoNewline(s: string) {
    forall k :: 0 <= k < |s| ==> s[k] != '\n'
  }

  lemma NoNewlineNoSection(t: string, sec: string)
    requires NoNewline(t)
    ensures !Contains(t, "\n" + sec)
  {
    var pat := "\n" + sec;
    forall i ensures !OccursAt(t, pat, i) {
      if 0 <= i && i + |pat| <= |t| {
        assert t[i..i + |pat|][0] == t[i];
      }
    }
  }

  /** One line is rewritten exactly when it starts with the section name,
      and then the whole line follows the markdown marker; a line that
      merely contains the name, such as "1. Overview Summary", is kept. */
  lemma RewriteSectionLine(line: string, sec: string)
    requires |sec| > 0 && NoNewline(sec) && NoNewline(line)
    ensures RewriteSection(line, sec) == if sec <= line then "\n## " + line else line
    ensures RewriteSection("\n" + line, sec) == if sec <= line then "\n## " + line else "\n" + line
  {
    var pat := "\n" + sec;
    var rep := "\n## " + sec;
    if sec <= line {
      var tail := line[|sec|..];
      NoNewlineNoSection(tail, sec);
      ReplaceAllAbsent(tail, pat, rep);
      assert line == sec + tail;
      assert ("\n" + line)[|pat|..] == tail;
      assert pat <= "\n" + line;
    } else {
      NoNewlineNoSection(line, sec);
      ReplaceAllAbsent(line, pat, rep);
      assert !(pat <= "\n" + line) by {
        if |sec| <= |line| {
          assert ("\n" + line)[..|pat|] == "\n" + line[..|sec|];
        }
      }
      assert sec[0] != '\n';
      ReplaceAllHead("\n" + line, pat, rep);
      assert ("\n" + line)[1..] == line;
    }
    assert !(sec <= "\n" + line) by { assert sec[0] != '\n'; }
  }

  /** A newline-free name starts text that begins with a line `u` exactly
      when it starts `u` itself. */
  lemma StartsBeforeNewline(u: string, v: string, sec: string)
    requires NoNewline(sec)
    requires |v| > 0 && v[0] == '\n'
    ensures sec <= u + v <==> sec <= u
  {
    if |u| < |sec| <= |u + v| {
      assert (u + v)[..|sec|][|u|] == '\n';
    }
  }

  /** No line-start occurrence of a newline-free name reaches from `u`
      into text `v` that starts with a newline. */
  lemma NoStraddleBeforeNewline(u: string, v: string, sec: string)
    requires NoNewline(sec)
    requires |v| > 0 && v[0] == '\n'
    ensures NoStraddle(u, v, "\n" + sec)
  {
    var pat := "\n" + sec;
    forall j | 0 <= j < |u| < j + |pat| ensures !OccursAt(u + v, pat, j) {
      if j + |pat| <= |u + v| {
        assert (u + v)[j..j + |pat|][|u| - j] == '\n';
        assert pat[|u| - j] == sec[|u| - j - 1];
      }
    }
  }

  /** The rewrite works line by line: text split just before a newline is
      rewritten piece by piece, since a line-start occurrence never
      reaches across a newline. */
  lemma RewriteSectionSplitsAtNewline(u: string, v: string, sec: string)
    requires |sec| > 0 && NoNewline(sec)
    requires |v| > 0 && v[0] == '\n'
    ensures RewriteSection(u + v, sec) == RewriteSection(u, sec) + RewriteSection(v, sec)
  {
    var pat := "\n" + sec;
    var rep := "\n## " + sec;
    assert !(sec <= v) by { assert sec[0] != '\n'; }
    assert RewriteSection(v, sec) == ReplaceAll(v, pat, rep);
    StartsBeforeNewline(u, v, sec);
    if sec <= u {
      var u' := u[|sec|..];
      NoStraddleBeforeNewline(u', v, sec);
      ReplaceAllConcat(u', v, pat, rep);
      assert (u + v)[|sec|..] == u' + v;
      assert RewriteSection(u + v, sec) == rep + ReplaceAll(u' + v, pat, rep);
      assert RewriteSection(u, sec) == rep + ReplaceAll(u', pat, rep);
    } else {
      NoStraddleBeforeNewline(u, v, sec);
      ReplaceAllConcat(u, v, pat, rep);
      assert RewriteSection(u + v, sec) == ReplaceAll(u + v, pat, rep);
      assert RewriteSection(u, sec) == ReplaceAll(u, pat, rep);
    }
  }

  /** A section name in the middle of a line, after some other character
      `c`, is left untouched: the whole line is kept and the text after it
      is rewritten on its own. */
  lemma SectionMidLineKept(a: string, c: char, sec: string, b: string)
    requires |sec| > 0 && NoNewline(sec) && NoNewline(a) && c != '\n'
    requires !(sec <= a + [c] + sec)
    requires |b| > 0 ==> b[0] == '\n'
    ensures RewriteSection(a + [c] + sec + b, sec) == a + [c] + sec + RewriteSection(b, sec)
  {
    var line := a + [c] + sec;
    forall k | 0 <= k < |line| ensures line[k] != '\n' {
      if k < |a| { assert line[k] == a[k]; }
      else if k > |a| { assert line[k] == sec[k - |a| - 1]; }
    }
    RewriteSectionLine(line, sec);
    if |b| > 0 {
      RewriteSectionSplitsAtNewline(line, b, sec);
    } else {
      assert line + b == line;
      assert RewriteSection(b, sec) == [];
    }
  }

  /** A header keeps its trailing colon. */
  lemma SectionKeepsColon()
    ensures RewriteSection("Overview Summary: fine", "Overview Summary") == "\n## Overview Summary: fine"
  {
    var s := "Overview Summary: fine";
    assert "Overview Summary" <= s;
    assert s[|"Overview Summary"|..] == ": fine";
  }
}
