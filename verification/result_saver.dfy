/** The string helpers of `ResultSaver`: path-safe names, report file names,
    the status column, the cleanup of one evaluation before it becomes PDF
    paragraphs, XML escaping, and the integer parts of the total score. */
module ResultSaver {
  import opened Wrappers
  import opened Text

  // ---------------------------------------------------------------- names

  /** `name.replace('/', '_').replace('\\', '_')`: each separator becomes `_`,
      every other character stays where it was. */
  function Sanitize(name: string): (r: string)
    ensures |r| == |name|
    ensures forall i :: 0 <= i < |name| ==>
              r[i] == (if name[i] == '/' || name[i] == '\\' then '_' else name[i])
  {
    var a := ReplaceChar(name, '/', "_");
    ReplaceCharPointwise(name, '/', '_');
    ReplaceCharPointwise(a, '\\', '_');
    ReplaceChar(a, '\\', "_")
  }

  /** A sanitised name holds no path separator, and sanitising again changes nothing. */
  lemma SanitizeIsClean(name: string)
    ensures '/' !in Sanitize(name) && '\\' !in Sanitize(name)
    ensures Sanitize(Sanitize(name)) == Sanitize(name)
  {
    var r := Sanitize(name);
    assert forall i :: 0 <= i < |r| ==> r[i] != '/' && r[i] != '\\';
    SanitizeKeepsClean(r);
  }

  /** A name without separators is its own sanitised form. */
  lemma SanitizeKeepsClean(name: string)
    requires '/' !in name && '\\' !in name
    ensures Sanitize(name) == name
  {
    assert forall i :: 0 <= i < |name| ==> name[i] != '/' && name[i] != '\\';
  }

  /** `.md` for the Markdown format, `.txt` for anything else. */
  function ReportExtension(format: string): string
  {
    if format == "markdown" then ".md" else ".txt"
  }

  /** The file name of an individual report (the week directory is left out). */
  function ReportFileName(studentName: string, format: string): string
  {
    Sanitize(studentName) + "_评价报告" + ReportExtension(format)
  }

  /** The report name starts with the sanitised name, holds no separator,
      and ends `_评价报告.md` exactly for the Markdown format, `_评价报告.txt` otherwise. */
  lemma ReportFileNameShape(studentName: string, format: string)
    ensures var r := ReportFileName(studentName, format);
            && StartsWith(r, Sanitize(studentName))
            && '/' !in r && '\\' !in r
            && (EndsWith(r, "_评价报告.md") <==> format == "markdown")
            && (EndsWith(r, "_评价报告.txt") <==> format != "markdown")
  {
    ReportFileNameClean(studentName, format);
    ReportFileNameSuffix(Sanitize(studentName), format);
  }

  lemma ReportFileNameClean(studentName: string, format: string)
    ensures var r := ReportFileName(studentName, format);
            StartsWith(r, Sanitize(studentName)) && '/' !in r && '\\' !in r
  {
    var safe := Sanitize(studentName);
    var tail := "_评价报告" + ReportExtension(format);
    var r := ReportFileName(studentName, format);
    assert r == safe + tail;
    SanitizeIsClean(studentName);
    assert '/' !in tail && '\\' !in tail;
    assert r[..|safe|] == safe;
    assert forall c :: c in r ==> c in safe || c in tail;
  }

  lemma ReportFileNameSuffix(safe: string, format: string)
    ensures var r := safe + "_评价报告" + ReportExtension(format);
            && (EndsWith(r, "_评价报告.md") <==> format == "markdown")
            && (EndsWith(r, "_评价报告.txt") <==> format != "markdown")
  {
    var tail := "_评价报告" + ReportExtension(format);
    var r := safe + tail;
    assert r[|r| - |tail|..] == tail;
    if format == "markdown" {
      assert tail == "_评价报告.md";
      assert !EndsWith(r, "_评价报告.txt") by { assert r[|r| - 1] == 'd'; }
    } else {
      assert tail == "_评价报告.txt";
      assert !EndsWith(r, "_评价报告.md") by { assert r[|r| - 1] == 't'; }
    }
  }

  /** The PDF stem: `{student_id}_{safe_name}` when the id is truthy, else the safe name. */
  function PdfDisplayName(studentId: Option<string>, studentName: string): string
  {
    if Truthy(studentId) then studentId.value + "_" + Sanitize(studentName) else Sanitize(studentName)
  }

  function PdfFileName(studentId: Option<string>, studentName: string): string
  {
    PdfDisplayName(studentId, studentName) + "_评价报告.pdf"
  }

  /** The PDF stem ends with the safe name; it holds a separator only if the
      id does; and an underscore-free id is the part before the first `_`. */
  lemma PdfDisplayNameParts(studentId: Option<string>, studentName: string)
    ensures var d := PdfDisplayName(studentId, studentName);
            && EndsWith(d, Sanitize(studentName))
            && (('/' in d || '\\' in d) <==> Truthy(studentId) && ('/' in studentId.value || '\\' in studentId.value))
            && (Truthy(studentId) && '_' !in studentId.value ==> d[..IndexOf(d, '_')] == studentId.value)
            && (!Truthy(studentId) ==> d == Sanitize(studentName))
  {
    var safe := Sanitize(studentName);
    var d := PdfDisplayName(studentId, studentName);
    SanitizeIsClean(studentName);
    if Truthy(studentId) {
      var id := studentId.value;
      assert d == id + "_" + safe;
      assert d[|d| - |safe|..] == safe;
      assert forall c :: c in d <==> c in id || c == '_' || c in safe by {
        forall c ensures c in d <==> c in id || c == '_' || c in safe {
          assert d == id + ("_" + safe);
        }
      }
      if '_' !in id {
        assert d[|id|] == '_';
        assert forall j :: 0 <= j < |id| ==> d[j] == id[j];
        assert IndexOf(d, '_') == |id|;
        assert d[..|id|] == id;
      }
    } else {
      assert d[|d| - |safe|..] == safe;
    }
  }

  /** With a truthy id the PDF stem is exactly the id, an underscore and the
      safe name: it starts with `{id}_`, ends with the safe name, and has
      room for nothing else. */
  lemma PdfDisplayNameLayout(studentId: Option<string>, studentName: string)
    requires Truthy(studentId)
    ensures var d := PdfDisplayName(studentId, studentName);
            && StartsWith(d, studentId.value + "_")
            && EndsWith(d, Sanitize(studentName))
            && |d| == |studentId.value| + 1 + |Sanitize(studentName)|
  {
    var d := PdfDisplayName(studentId, studentName);
    var lead := studentId.value + "_";
    var safe := Sanitize(studentName);
    assert d == lead + safe;
    assert d[..|lead|] == lead;
    assert d[|d| - |safe|..] == safe;
  }

  // --------------------------------------------------------------- status

  /** The `状态` column: a missing status counts as `evaluated`; `None` or an
      unknown value gives `未知`. */
  function StatusLabel(status: Field<string>): (r: string)
    ensures r == "已评价" <==> status == Absent || status == Present("evaluated")
    ensures r == "未提交" <==> status == Present("not_submitted")
    ensures r == "评价失败" <==> status == Present("failed")
    ensures r == "未知" <==> status == Null || (status.Present? && status.value !in ["evaluated", "not_submitted", "failed"])
  {
    var key := match status
      case Absent => Some("evaluated")
      case Null => None
      case Present(s) => Some(s);
    if key == Some("evaluated") then "已评价"
    else if key == Some("not_submitted") then "未提交"
    else if key == Some("failed") then "评价失败"
    else "未知"
  }

  // ------------------------------------------------------- evaluation text

  /** Shown when an evaluation is `None`, empty or only whitespace. */
  const EmptyPlaceholder: string := "该题目暂无评价内容"

  /** The text of one evaluation before it is split into paragraphs: the
      default for a missing key, the placeholder for a blank one, otherwise
      the stripped text without its leading problem marker. */
  function EvaluationText(evaluation: Field<string>): (r: string)
    ensures evaluation == Absent ==> r == "无评价"
    ensures evaluation == Null || (evaluation.Present? && AllSpaces(evaluation.value)) ==> r == EmptyPlaceholder
    ensures evaluation.Present? && !AllSpaces(evaluation.value) ==> r == StripMarker(Strip(evaluation.value))
  {
    var raw := match evaluation
      case Absent => "无评价"
      case Null => ""
      case Present(s) => s;
    var text := if raw == "" || Strip(raw) == "" then EmptyPlaceholder else raw;
    var stripped := Strip(text);
    assert Strip(EmptyPlaceholder) == EmptyPlaceholder by { StripOfTrimmed(EmptyPlaceholder); }
    assert Strip("无评价") == "无评价" by { StripOfTrimmed("无评价"); }
    StripMarker(stripped)
  }

  /** A text that neither starts nor ends with whitespace is its own strip. */
  lemma StripOfTrimmed(s: string)
    requires s != [] && !IsSpace(s[0]) && !IsSpace(s[|s| - 1])
    ensures Strip(s) == s
  {
    SkipSpacesSpec(s, 0);
  }

  // Start of a problem marker, the pattern `^【题目\d+:.*?】` with `d` the
  // index of the colon and `c` the index of a closing `】` reached without
  // crossing a line break (`.` does not match a newline).
  predicate MarkerHead(t: string, d: nat, c: nat)
  {
    && 3 < d < c < |t|
    && t[0] == '【' && t[1] == '题' && t[2] == '目'
    && (forall k :: 3 <= k < d ==> IsDigit(t[k]))
    && t[d] == ':'
    && t[c] == '】'
    && (forall k :: d < k < c ==> t[k] != '\n')
  }

  /** First index at or after `k` holding `】` or a line break, or `|t|`. */
  function CloseAt(t: string, k: nat): (j: nat)
    requires k <= |t|
    ensures k <= j <= |t|
    ensures forall i :: k <= i < j ==> t[i] != '】' && t[i] != '\n'
    ensures j < |t| ==> t[j] == '】' || t[j] == '\n'
    decreases |t| - k
  {
    if k == |t| || t[k] == '】' || t[k] == '\n' then k else CloseAt(t, k + 1)
  }

  /** Where the text after the marker and its trailing whitespace begins, if `t` starts with a marker. */
  function MarkerEnd(t: string): (r: Option<nat>)
    ensures r.Some? ==> r.value <= |t|
  {
    if 3 < |t| && t[0] == '【' && t[1] == '题' && t[2] == '目' then
      var d := DigitRunEnd(t, 3);
      if 3 < d < |t| && t[d] == ':' then
        var c := CloseAt(t, d + 1);
        if c < |t| && t[c] == '】' then Some(SkipSpaces(t, c + 1)) else None
      else None
    else None
  }

  /** `re.sub(r'^【题目\d+:.*?】\s*', '', t)`: at most one marker, at the very start. */
  function StripMarker(t: string): string
  {
    match MarkerEnd(t)
    case None => t
    case Some(e) => t[e..]
  }

  /** The marker is found exactly when the pattern matches at the start; the
      lazy `.*?` stops at the first `】`, and the greedy `\s*` takes all
      whitespace after it. */
  lemma MarkerEndSpec(t: string)
    ensures MarkerEnd(t).Some? <==> exists d: nat, c: nat :: MarkerHead(t, d, c)
    ensures MarkerEnd(t).Some? ==>
      exists d: nat, c: nat ::
        && MarkerHead(t, d, c)
        && (forall k :: d < k < c ==> t[k] != '】')
        && MarkerEnd(t).value == SkipSpaces(t, c + 1)
  {
    if exists d: nat, c: nat :: MarkerHead(t, d, c) {
      MarkerFound(t);
    }
    if MarkerEnd(t).Some? {
      var d := DigitRunEnd(t, 3);
      DigitRunSpec(t, 3);
      var c := CloseAt(t, d + 1);
      assert MarkerHead(t, d, c);
    }
  }

  /** What is left: all of `t` when it does not start with a marker;
      otherwise the rest of `t` after the first `】` and the whitespace that
      follows it, so it is empty or starts with a non-space. */
  lemma StripMarkerSpec(t: string)
    ensures (forall d: nat, c: nat :: !MarkerHead(t, d, c)) ==> StripMarker(t) == t
    ensures (exists d: nat, c: nat :: MarkerHead(t, d, c)) ==>
      exists d: nat, c: nat, e: nat :: MarkerRemoved(t, d, c, e)
  {
    if exists d: nat, c: nat :: MarkerHead(t, d, c) {
      MarkerFound(t);
      var d := DigitRunEnd(t, 3);
      var c := CloseAt(t, d + 1);
      SkipSpacesSpec(t, c + 1);
      var e := SkipSpaces(t, c + 1);
      assert MarkerEnd(t) == Some(e);
      assert MarkerRemoved(t, d, c, e);
    } else {
      MarkerEndSpec(t);
    }
  }

  /** When some marker head is present, the one `MarkerEnd` looks at ends
      with the digit run and the first `】` after it. */
  lemma MarkerFound(t: string)
    requires exists d: nat, c: nat :: MarkerHead(t, d, c)
    ensures 3 < |t| && DigitRunEnd(t, 3) < |t|
    ensures MarkerHead(t, DigitRunEnd(t, 3), CloseAt(t, DigitRunEnd(t, 3) + 1))
  {
    var d': nat, c': nat :| MarkerHead(t, d', c');
    DigitRunSpec(t, 3);
    var d := DigitRunEnd(t, 3);
    assert d == d';
    var c := CloseAt(t, d + 1);
    assert c <= c';
    if c < c' { assert t[c] != '\n'; }
  }

  /** `StripMarker(t)` is `t[e..]`, where the first `】` of the marker is at
      `c` and `t[c+1..e]` is the maximal whitespace run after it. */
  predicate MarkerRemoved(t: string, d: nat, c: nat, e: nat)
  {
    && MarkerHead(t, d, c)
    && (forall k :: d < k < c ==> t[k] != '】')
    && c < e <= |t|
    && (forall k :: c < k < e ==> IsSpace(t[k]))
    && (e == |t| || !IsSpace(t[e]))
    && StripMarker(t) == t[e..]
  }

  /** Only the first marker goes, together with the space after it. */
  lemma ExampleMarkerRemovedOnce()
    ensures StripMarker("【题目1:好】 【题目2:差】") == "【题目2:差】"
  {
    var t := "【题目1:好】 【题目2:差】";
    assert DigitRunEnd(t, 3) == 4;
    assert CloseAt(t, 5) == 6;
    assert SkipSpaces(t, 7) == 8;
  }

  /** A marker whose `】` comes only after a line break is not removed. */
  lemma ExampleMarkerAcrossLines()
    ensures StripMarker("【题目1:好\n】") == "【题目1:好\n】"
  {
    var t := "【题目1:好\n】";
    assert DigitRunEnd(t, 3) == 4;
    assert CloseAt(t, 5) == 6;
  }

  // ------------------------------------------------------------ escaping

  /** The XML escape of one character. */
  function EscapeChar(c: char): string
  {
    if c == '&' then "&amp;" else if c == '<' then "&lt;" else if c == '>' then "&gt;" else [c]
  }

  /** Character-by-character escaping: the reference the three passes are compared with. */
  function EscapeEach(s: string): string
  {
    if |s| == 0 then "" else EscapeChar(s[0]) + EscapeEach(s[1..])
  }

  /** `para.replace('&', '&amp;').replace('<', '&lt;').replace('>', '&gt;')`. */
  function Escape(s: string): string
  {
    ReplaceChar(ReplaceChar(ReplaceChar(s, '&', "&amp;"), '<', "&lt;"), '>', "&gt;")
  }

  lemma EscapeConcat(a: string, b: string)
    ensures Escape(a + b) == Escape(a) + Escape(b)
  {
    ReplaceCharConcat(a, b, '&', "&amp;");
    var a1, b1 := ReplaceChar(a, '&', "&amp;"), ReplaceChar(b, '&', "&amp;");
    ReplaceCharConcat(a1, b1, '<', "&lt;");
    var a2, b2 := ReplaceChar(a1, '<', "&lt;"), ReplaceChar(b1, '<', "&lt;");
    ReplaceCharConcat(a2, b2, '>', "&gt;");
  }

  lemma ReplaceOne(x: char, c: char, rep: string)
    ensures ReplaceChar([x], c, rep) == if x == c then rep else [x]
  {
    assert [x][1..] == [];
    assert ReplaceChar([], c, rep) == [];
  }

  lemma EscapeOne(c: char)
    ensures Escape([c]) == EscapeChar(c)
  {
    ReplaceOne(c, '&', "&amp;");
    if c == '&' {
      ReplaceCharAbsent("&amp;", '<', "&lt;");
      ReplaceCharAbsent("&amp;", '>', "&gt;");
    } else {
      ReplaceOne(c, '<', "&lt;");
      if c == '<' {
        ReplaceCharAbsent("&lt;", '>', "&gt;");
      } else {
        ReplaceOne(c, '>', "&gt;");
      }
    }
  }

  /** Replacing `&` first keeps the later passes from touching the entities it
      inserts: the three passes escape each character on its own. */
  lemma {:induction false} EscapeIsPerCharacter(s: string)
    ensures Escape(s) == EscapeEach(s)
    decreases |s|
  {
    if |s| == 0 {
    } else {
      assert s == [s[0]] + s[1..];
      EscapeConcat([s[0]], s[1..]);
      EscapeOne(s[0]);
      EscapeIsPerCharacter(s[1..]);
    }
  }

  /** One of the three entities the escape produces starts at `i`. */
  predicate EntityAt(t: string, i: int)
  {
    OccursAt("&amp;", t, i) || OccursAt("&lt;", t, i) || OccursAt("&gt;", t, i)
  }

  /** Every `&` of `t` begins an entity. */
  predicate AmpersandsBeginEntities(t: string)
  {
    forall i :: 0 <= i < |t| && t[i] == '&' ==> EntityAt(t, i)
  }

  lemma EntityAtConcat(a: string, b: string, i: int)
    ensures 0 <= i && EntityAt(a, i) ==> EntityAt(a + b, i)
    ensures 0 <= i && EntityAt(b, i) ==> EntityAt(a + b, |a| + i)
  {
    var t := a + b;
    if 0 <= i && EntityAt(a, i) {
      forall e: string | OccursAt(e, a, i) ensures OccursAt(e, t, i) {
        assert t[i..i + |e|] == a[i..i + |e|];
      }
    }
    if 0 <= i && EntityAt(b, i) {
      forall e: string | OccursAt(e, b, i) ensures OccursAt(e, t, |a| + i) {
        assert t[|a| + i..|a| + i + |e|] == b[i..i + |e|];
      }
    }
  }

  lemma AmpersandsConcat(a: string, b: string)
    requires AmpersandsBeginEntities(a) && AmpersandsBeginEntities(b)
    ensures AmpersandsBeginEntities(a + b)
  {
    var t := a + b;
    forall i | 0 <= i < |t| && t[i] == '&' ensures EntityAt(t, i) {
      if i < |a| {
        assert a[i] == '&';
        EntityAtConcat(a, b, i);
      } else {
        assert b[i - |a|] == '&';
        EntityAtConcat(a, b, i - |a|);
      }
    }
  }

  lemma {:induction false} EscapeEachIsSafe(s: string)
    ensures '<' !in EscapeEach(s) && '>' !in EscapeEach(s)
    ensures AmpersandsBeginEntities(EscapeEach(s))
    decreases |s|
  {
    if |s| > 0 {
      EscapeEachIsSafe(s[1..]);
      var head := EscapeChar(s[0]);
      assert AmpersandsBeginEntities(head) by {
        if s[0] == '&' { assert OccursAt("&amp;", head, 0); }
        else if s[0] == '<' { assert OccursAt("&lt;", head, 0); }
        else if s[0] == '>' { assert OccursAt("&gt;", head, 0); }
      }
      AmpersandsConcat(head, EscapeEach(s[1..]));
    }
  }

  /** The escaped text holds no raw `<` or `>`, and every `&` in it begins
      `&amp;`, `&lt;` or `&gt;`. */
  lemma EscapeIsSafe(s: string)
    ensures '<' !in Escape(s) && '>' !in Escape(s)
    ensures AmpersandsBeginEntities(Escape(s))
  {
    EscapeIsPerCharacter(s);
    EscapeEachIsSafe(s);
  }

  /** Reading the three entities back; any other character stands for itself. */
  function Unescape(t: string): string
    decreases |t|
  {
    if |t| == 0 then ""
    else if StartsWith(t, "&amp;") then "&" + Unescape(t[5..])
    else if StartsWith(t, "&lt;") then "<" + Unescape(t[4..])
    else if StartsWith(t, "&gt;") then ">" + Unescape(t[4..])
    else [t[0]] + Unescape(t[1..])
  }

  lemma UnescapeStep(c: char, rest: string)
    ensures Unescape(EscapeChar(c) + rest) == [c] + Unescape(rest)
  {
    var t := EscapeChar(c) + rest;
    if c == '&' {
      assert t[..5] == "&amp;";
      assert t[5..] == rest;
      assert Unescape(t) == "&" + Unescape(t[5..]);
    } else if c == '<' {
      assert t[..4] == "&lt;";
      assert t[4..] == rest;
      assert !StartsWith(t, "&amp;") by { if |t| >= 5 { assert t[..5][1] == 'l'; } }
      assert Unescape(t) == "<" + Unescape(t[4..]);
    } else if c == '>' {
      assert t[..4] == "&gt;";
      assert t[4..] == rest;
      assert !StartsWith(t, "&amp;") by { if |t| >= 5 { assert t[..5][1] == 'g'; } }
      assert !StartsWith(t, "&lt;") by { assert t[..4][1] == 'g'; }
      assert Unescape(t) == ">" + Unescape(t[4..]);
    } else {
      assert t[0] == c;
      assert !StartsWith(t, "&amp;") by { if |t| >= 5 { assert t[..5][0] == c; } }
      assert !StartsWith(t, "&lt;") && !StartsWith(t, "&gt;") by { if |t| >= 4 { assert t[..4][0] == c; } }
      assert t[1..] == rest;
      assert Unescape(t) == [c] + Unescape(t[1..]);
    }
  }

  lemma {:induction false} UnescapeEscapeEach(s: string)
    ensures Unescape(EscapeEach(s)) == s
    decreases |s|
  {
    if |s| > 0 {
      UnescapeStep(s[0], EscapeEach(s[1..]));
      UnescapeEscapeEach(s[1..]);
      assert s == [s[0]] + s[1..];
    }
  }

  /** Escaping loses nothing: unescaping gives the paragraph back. */
  lemma UnescapeEscape(s: string)
    ensures Unescape(Escape(s)) == s
  {
    EscapeIsPerCharacter(s);
    UnescapeEscapeEach(s);
  }

  // ------------------------------------------------------------ paragraphs

  /** What one line of an evaluation becomes in the PDF story: an escaped
      paragraph, or a small spacer for a blank line. */
  datatype Block = Para(markup: string) | Gap

  /** One line: a spacer when it is blank, otherwise its stripped text,
      escaped into markup that is safe and unescapes back to it. */
  function LineBlock(line: string): (b: Block)
    ensures b.Gap? <==> AllSpaces(line)
    ensures b.Para? ==>
              && Unescape(b.markup) == Strip(line)
              && '<' !in b.markup && '>' !in b.markup
              && AmpersandsBeginEntities(b.markup)
  {
    var p := Strip(line);
    UnescapeEscape(p);
    EscapeIsSafe(p);
    if p == "" then Gap else Para(Escape(p))
  }

  /** `evaluation_text.split('\n')`, each line stripped, blank lines as
      spacers: the lines join back to the text, and each block stands for its
      line in order. */
  function Paragraphs(text: string): (r: seq<Block>)
    ensures var lines := Split(text, '\n');
            && Join(lines, '\n') == text
            && |r| == |lines|
            && forall i :: 0 <= i < |r| ==>
                 && (r[i].Gap? <==> AllSpaces(lines[i]))
                 && (r[i].Para? ==>
                       && Unescape(r[i].markup) == Strip(lines[i])
                       && '<' !in r[i].markup && '>' !in r[i].markup
                       && AmpersandsBeginEntities(r[i].markup))
  {
    var lines := Split(text, '\n');
    seq(|lines|, i requires 0 <= i < |lines| => LineBlock(lines[i]))
  }

  // ----------------------------------------------------------- total score

  /** The scores `_calculate_total_score` keeps: present and not `None`. A
      missing key is skipped as well, since `get('score')` is then `None`. */
  function PresentScores(scores: seq<Field<int>>): (r: seq<int>)
    ensures |r| <= |scores|
    ensures r == [] <==> forall i :: 0 <= i < |scores| ==> !scores[i].Present?
    ensures forall x :: x in r <==> exists i :: 0 <= i < |scores| && scores[i] == Present(x)
  {
    if |scores| == 0 then []
    else
      var rest := PresentScores(scores[1..]);
      assert forall i :: 1 <= i < |scores| ==> scores[i] == scores[1..][i - 1];
      (if scores[0].Present? then [scores[0].value] else []) + rest
  }

  /** Keeping the present scores is a filter: it works entry by entry, in
      order, so a list split in two is filtered part by part, and one entry
      is kept exactly when it is present. */
  lemma {:induction false} PresentScoresIsFilter(a: seq<Field<int>>, b: seq<Field<int>>)
    ensures PresentScores(a + b) == PresentScores(a) + PresentScores(b)
    ensures |a| == 1 ==> PresentScores(a) == (if a[0].Present? then [a[0].value] else [])
    decreases |a|
  {
    if |a| > 0 {
      assert (a + b)[0] == a[0];
      assert (a + b)[1..] == a[1..] + b;
      PresentScoresIsFilter(a[1..], b);
      var h := if a[0].Present? then [a[0].value] else [];
      assert PresentScores(a + b) == h + PresentScores(a[1..] + b);
      assert PresentScores(a) == h + PresentScores(a[1..]);
      ConcatAssoc(h, PresentScores(a[1..]), PresentScores(b));
      if |a| == 1 {
        assert a[1..] == [];
      }
    } else {
      assert a + b == b;
    }
  }

  /** The sum of the present scores, read straight off the entries. */
  function SumPresent(scores: seq<Field<int>>): int
  {
    if |scores| == 0 then 0
    else (if scores[0].Present? then scores[0].value else 0) + SumPresent(scores[1..])
  }

  /** The number of present scores, read straight off the entries. */
  function CountPresent(scores: seq<Field<int>>): nat
  {
    if |scores| == 0 then 0
    else (if scores[0].Present? then 1 else 0) + CountPresent(scores[1..])
  }

  /** The kept list has the entries' sum and count. */
  lemma {:induction false} PresentScoresSumCount(scores: seq<Field<int>>)
    ensures Sum(PresentScores(scores)) == SumPresent(scores)
    ensures |PresentScores(scores)| == CountPresent(scores)
    decreases |scores|
  {
    if |scores| > 0 {
      PresentScoresSumCount(scores[1..]);
      var rest := PresentScores(scores[1..]);
      if scores[0].Present? {
        var r := [scores[0].value] + rest;
        assert r[1..] == rest;
      } else {
        assert ([] + rest) == rest;
      }
    }
  }

  /** The integer parts of the total score: nothing to report, or the sum
      and the number of present scores. */
  datatype ScoreTotal = NoScores | Scored(total: int, count: nat)

  /** `total = sum(scores)` and the denominator's `len(scores)`, or nothing
      when no score is present. */
  function TotalScore(scores: seq<Field<int>>): (r: ScoreTotal)
    ensures r.NoScores? <==> forall i :: 0 <= i < |scores| ==> !scores[i].Present?
    ensures r.NoScores? <==> CountPresent(scores) == 0
    ensures r.Scored? ==> r.count > 0 && r.total == SumPresent(scores) && r.count == CountPresent(scores)
  {
    var present := PresentScores(scores);
    PresentScoresSumCount(scores);
    if present == [] then NoScores else Scored(Sum(present), |present|)
  }

  /** The cell text: `0/0`, or the average (rendered elsewhere and passed in)
      followed by ` (总分: total/count*100)`. */
  function TotalScoreText(t: ScoreTotal, average: string): (r: string)
    ensures r == "0/0" <==> t.NoScores?
    ensures t.Scored? ==>
              && StartsWith(r, average)
              && EndsWith(r, " (总分: " + IntToString(t.total) + "/" + NatToString(100 * t.count) + ")")
  {
    match t
    case NoScores => "0/0"
    case Scored(total, count) =>
      average + " (总分: " + IntToString(total) + "/" + NatToString(100 * count) + ")"
  }

  /** `0/0` appears exactly when no score is present. */
  lemma TotalScoreTextZero(scores: seq<Field<int>>, average: string)
    ensures TotalScoreText(TotalScore(scores), average) == "0/0" <==>
            forall i :: 0 <= i < |scores| ==> !scores[i].Present?
  {
    var t := TotalScore(scores);
    if t.Scored? {
      var r := TotalScoreText(t, average);
      assert |r| > 3;
    }
  }

  /** The cell can be read back: with the same rendered average, two cells
      agree only when they show the same total and the same count. */
  lemma TotalScoreTextReadBack(t1: ScoreTotal, t2: ScoreTotal, average: string)
    requires TotalScoreText(t1, average) == TotalScoreText(t2, average)
    ensures t1 == t2
  {
    if t1.Scored? && t2.Scored? {
      var lead := average + " (总分: ";
      var i1 := IntToString(t1.total);
      var i2 := IntToString(t2.total);
      var n1 := NatToString(100 * t1.count) + ")";
      var n2 := NatToString(100 * t2.count) + ")";
      ScoredTextParts(t1.total, t1.count, average);
      ScoredTextParts(t2.total, t2.count, average);
      var w := TotalScoreText(t1, average);
      assert i1 + "/" + n1 == w[|lead|..] == i2 + "/" + n2;
      IntToStringHasNoSlash(t1.total);
      IntToStringHasNoSlash(t2.total);
      SplitAtFirst(i1, n1, i2, n2, '/');
      IntToStringInjective(t1.total, t2.total);
      assert NatToString(100 * t1.count) == n1[..|n1| - 1];
      assert NatToString(100 * t2.count) == n2[..|n2| - 1];
      NatToStringInjective(100 * t1.count, 100 * t2.count);
    }
  }

  /** The cell regrouped around its first `/`. */
  lemma ScoredTextParts(total: int, count: nat, average: string)
    ensures var lead := average + " (总分: ";
            var i := IntToString(total);
            var n := NatToString(100 * count) + ")";
            TotalScoreText(Scored(total, count), average) == lead + (i + "/" + n)
  {
  }

  /** The rendered cell shows the sum of the present scores over 100 times
      their number. */
  lemma TotalScoreCell(scores: seq<Field<int>>, average: string)
    requires CountPresent(scores) > 0
    ensures EndsWith(TotalScoreText(TotalScore(scores), average),
                     " (总分: " + IntToString(SumPresent(scores)) + "/" + NatToString(100 * CountPresent(scores)) + ")")
  {
  }

  lemma {:induction false} SumWithinBounds(xs: seq<int>)
    requires forall i :: 0 <= i < |xs| ==> 0 <= xs[i] <= 100
    ensures 0 <= Sum(xs) <= 100 * |xs|
    decreases |xs|
  {
    if |xs| > 0 {
      SumWithinBounds(xs[1..]);
    }
  }

  /** With every present score in [0, 100] the total lies between 0 and the denominator. */
  lemma TotalWithinDenominator(scores: seq<Field<int>>)
    requires forall i :: 0 <= i < |scores| && scores[i].Present? ==> 0 <= scores[i].value <= 100
    ensures var t := TotalScore(scores);
            t.Scored? ==> 0 <= t.total <= 100 * t.count
  {
    var present := PresentScores(scores);
    assert forall i :: 0 <= i < |present| ==> 0 <= present[i] <= 100 by {
      forall i | 0 <= i < |present| ensures 0 <= present[i] <= 100 {
        assert present[i] in present;
      }
    }
    SumWithinBounds(present);
  }
}
