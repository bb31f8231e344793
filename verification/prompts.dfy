/** Prompt assembly: the templates as sequences of literal text and named
    holes, `str.format` over them, the choice of template by week, and the
    serialised code section of a batch prompt. The instruction prose of each
    template is abbreviated to a bracketed tag; only the holes, their order
    and the labels next to them are kept. */
module Prompts {
  import opened Wrappers
  import opened Text

  /** The names used inside the templates' braces. */
  datatype HoleName = StudentName | StudentId | Week | FileName | Code | NumProblems | AllCodes

  datatype Piece = Lit(text: string) | Hole(name: HoleName)

  type Template = seq<Piece>

  /** `template.format(**env)`: every hole replaced by its value; a hole
      whose name is not a key raises, which is `None` here. Extra keys are ignored. */
  function Fill(t: Template, env: map<HoleName, string>): (r: Option<string>)
    ensures r.Some? <==> forall p :: p in t && p.Hole? ==> p.name in env
    decreases |t|
  {
    if |t| == 0 then Some("")
    else
      var rest := Fill(t[1..], env);
      assert forall p :: p in t <==> p == t[0] || p in t[1..];
      match t[0]
      case Lit(x) => if rest.Some? then Some(x + rest.value) else None
      case Hole(h) => if h in env && rest.Some? then Some(env[h] + rest.value) else None
  }

  /** Every value put into a hole of the template occurs in the result. */
  lemma {:induction false} FillContainsValues(t: Template, env: map<HoleName, string>)
    requires Fill(t, env).Some?
    ensures forall p :: p in t && p.Hole? ==> p.name in env && IsSubstring(env[p.name], Fill(t, env).value)
    decreases |t|
  {
    if |t| > 0 {
      var s := Fill(t, env).value;
      var rest := Fill(t[1..], env).value;
      FillContainsValues(t[1..], env);
      var head := match t[0] case Lit(x) => x case Hole(h) => env[h];
      assert s == head + rest;
      forall p | p in t && p.Hole? ensures IsSubstring(env[p.name], s) {
        if p == t[0] {
          SubstringOfSelf(head);
          SubstringOfConcat(head, "", head, rest);
          assert "" + head + rest == s;
        } else {
          assert p in t[1..];
          SubstringOfConcat(env[p.name], head, rest, "");
          assert head + rest + "" == s;
        }
      }
    }
  }

  /** The value of one hole that the template uses occurs in the result. */
  lemma FillHasValue(t: Template, env: map<HoleName, string>, h: HoleName)
    requires Fill(t, env).Some? && Hole(h) in t
    ensures h in env && IsSubstring(env[h], Fill(t, env).value)
  {
    FillContainsValues(t, env);
    assert Hole(h).Hole?;
  }

  // ------------------------------------------------------------ templates

  /** `BASIC_EVALUATION_PROMPT`. */
  const BasicPrompt: Template := [
    Lit("\n[基础评价要求]\n\n学生姓名："), Hole(StudentName),
    Lit("\n作业周次："), Hole(Week),
    Lit("\n代码文件："), Hole(FileName),
    Lit("\n\n代码内容：\n```cpp\n"), Hole(Code),
    Lit("\n```\n\n[输出格式]\n")]

  /** `WEEK_SPECIFIC_PROMPTS["02"]`: it has no week hole. */
  const Week02Prompt: Template := [
    Lit("[第02周考察要点]\n\n学生姓名："), Hole(StudentName),
    Lit("\n代码文件："), Hole(FileName),
    Lit("\n\n代码内容：\n```cpp\n"), Hole(Code),
    Lit("\n```\n\n[评分标准]\n")]

  /** `BATCH_EVALUATION_PROMPT`. */
  const BatchPrompt: Template := [
    Lit("\n[批量评价说明]\n\n学生信息：\n- 姓名："), Hole(StudentName),
    Lit("\n- 学号："), Hole(StudentId),
    Lit("\n- 作业周次：第"), Hole(Week),
    Lit("周\n- 题目数量："), Hole(NumProblems),
    Lit("道\n\n[评价要求]\n\n"), Hole(AllCodes),
    Lit("\n\n[输出格式]\n")]

  /** `WEEK_BATCH_PROMPTS["02"]`. */
  const Week02BatchPrompt: Template := [
    Lit("[第02周考察要点]\n\n学生信息：\n- 姓名："), Hole(StudentName),
    Lit("\n- 学号："), Hole(StudentId),
    Lit("\n- 作业周次：第"), Hole(Week),
    Lit("周\n- 题目数量："), Hole(NumProblems),
    Lit("道\n\n[逐题评价说明]\n\n"), Hole(AllCodes),
    Lit("\n\n[评价要求与输出格式]\n")]

  const WeekSpecificPrompts: map<string, Template> := map["02" := Week02Prompt]

  const WeekBatchPrompts: map<string, Template> := map["02" := Week02BatchPrompt]

  /** The template `get_prompt` formats. */
  function SelectPrompt(week: string): Template
  {
    if week in WeekSpecificPrompts then WeekSpecificPrompts[week] else BasicPrompt
  }

  /** The template `get_batch_prompt` formats. */
  function SelectBatchPrompt(week: string): Template
  {
    if week in WeekBatchPrompts then WeekBatchPrompts[week] else BatchPrompt
  }

  /** Week `02` gets its own template, every other week the generic one. */
  lemma SelectionByWeek(week: string)
    ensures SelectPrompt(week) == Week02Prompt <==> week == "02"
    ensures SelectPrompt(week) == BasicPrompt <==> week != "02"
    ensures SelectBatchPrompt(week) == Week02BatchPrompt <==> week == "02"
    ensures SelectBatchPrompt(week) == BatchPrompt <==> week != "02"
  {
    assert |BasicPrompt| != |Week02Prompt|;
    assert BatchPrompt[0] != Week02BatchPrompt[0] by {
      assert BatchPrompt[0].text[0] != Week02BatchPrompt[0].text[0];
    }
  }

  /** The keyword arguments `get_prompt` passes to `format`. */
  function PromptEnv(studentName: string, filename: string, code: string, week: string): (env: map<HoleName, string>)
    ensures env.Keys == {StudentName, Week, FileName, Code}
    ensures env[StudentName] == studentName && env[Week] == week && env[FileName] == filename && env[Code] == code
  {
    map[StudentName := studentName, Week := week, FileName := filename, Code := code]
  }

  /** The single-file templates use only the four single-file holes; only the
      basic one shows the week. */
  lemma PromptHoles(week: string)
    ensures forall p :: p in SelectPrompt(week) && p.Hole? ==> p.name in {StudentName, Week, FileName, Code}
    ensures Hole(StudentName) in SelectPrompt(week) && Hole(FileName) in SelectPrompt(week) && Hole(Code) in SelectPrompt(week)
    ensures Hole(Week) in SelectPrompt(week) <==> week != "02"
  {
  }

  /** `get_prompt`: the chosen template filled with the four values; it never raises. */
  function GetPrompt(studentName: string, filename: string, code: string, week: string): (r: string)
    ensures IsSubstring(studentName, r) && IsSubstring(filename, r) && IsSubstring(code, r)
    ensures week != "02" ==> IsSubstring(week, r)
  {
    var t := SelectPrompt(week);
    var env := PromptEnv(studentName, filename, code, week);
    PromptHoles(week);
    assert Fill(t, env).Some?;
    FillContainsValues(t, env);
    Fill(t, env).value
  }

  // --------------------------------------------------------- batch prompt

  /** One entry of `all_problems`; each key may be missing or hold `None`. */
  datatype Problem = Problem(problemName: Field<string>, fileName: Field<string>, code: Field<string>)

  /** `problem.get(key, default)` put into an f-string: the default only for a
      missing key, `None` rendered as the text `None`. */
  function FieldText(f: Field<string>, default: string): string
  {
    match f
    case Absent => default
    case Null => "None"
    case Present(v) => v
  }

  /** A field shows the default exactly when the key is missing, or when it
      holds that very text; a key holding `None` shows `None`, not the default. */
  lemma FieldDefaultOnlyWhenAbsent(f: Field<string>, default: string)
    ensures FieldText(f, default) == default <==>
            f == Absent || f == Present(default) || (f == Null && default == "None")
    ensures f == Null ==> FieldText(f, default) == "None"
  {
  }

  /** The text before the index in every block header. */
  const HeaderLead: string := "\n### 题目"

  /** The serialised block of the problem at 1-based position `idx`. */
  function CodeBlock(idx: nat, p: Problem): string
  {
    var name := FieldText(p.problemName, "题目" + NatToString(idx));
    var file := FieldText(p.fileName, "main.cpp");
    var code := FieldText(p.code, "");
    HeaderLead + NatToString(idx) + ": " + name + "\n文件名: " + file + "\n\n```cpp\n" + code + "\n```\n\n"
  }

  /** The layout of one block: the header with the index and the name (its
      default `题目{idx}`), the file name (default `main.cpp`), and the fenced
      code (default empty). */
  lemma CodeBlockLayout(idx: nat, p: Problem)
    ensures var b := CodeBlock(idx, p);
            var n := NatToString(idx);
            && StartsWith(b, HeaderLead + n + ": " + FieldText(p.problemName, "题目" + n) +
                             "\n文件名: " + FieldText(p.fileName, "main.cpp") + "\n\n```cpp\n")
            && EndsWith(b, FieldText(p.code, "") + "\n```\n\n")
  {
    var n := NatToString(idx);
    var head := HeaderLead + n + ": " + FieldText(p.problemName, "题目" + n) +
                "\n文件名: " + FieldText(p.fileName, "main.cpp") + "\n\n```cpp\n";
    var tail := FieldText(p.code, "") + "\n```\n\n";
    var b := CodeBlock(idx, p);
    assert b == head + tail;
    assert b[..|head|] == head;
    assert b[|b| - |tail|..] == tail;
  }

  /** A problem with none of its keys set shows every default. */
  lemma CodeBlockOfEmptyProblem(idx: nat)
    ensures var n := NatToString(idx);
            CodeBlock(idx, Problem(Absent, Absent, Absent)) ==
              HeaderLead + n + ": 题目" + n + "\n文件名: main.cpp\n\n```cpp\n\n```\n\n"
  {
  }

  /** `codes_text` after the loop: the blocks of all problems in input order,
      numbered from 1. */
  function CodesText(ps: seq<Problem>): string
  {
    if |ps| == 0 then "" else CodesText(ps[..|ps| - 1]) + CodeBlock(|ps|, ps[|ps| - 1])
  }

  /** The loop of `get_batch_prompt` that builds the code section. */
  method BuildCodesText(ps: seq<Problem>) returns (codes: string)
    ensures codes == CodesText(ps)
  {
    codes := "";
    var idx := 0;
    while idx < |ps|
      invariant 0 <= idx <= |ps|
      invariant codes == CodesText(ps[..idx])
    {
      assert ps[..idx + 1][..idx] == ps[..idx];
      codes := codes + CodeBlock(idx + 1, ps[idx]);
      idx := idx + 1;
    }
    assert ps[..|ps|] == ps;
  }

  /** The code section of a prefix of the problems is a prefix of the code section. */
  lemma {:induction false} CodesTextPrefix(ps: seq<Problem>, j: nat)
    requires j <= |ps|
    ensures StartsWith(CodesText(ps), CodesText(ps[..j]))
    decreases |ps| - j
  {
    if j == |ps| {
      assert ps[..j] == ps;
    } else {
      CodesTextPrefix(ps, j + 1);
      assert ps[..j + 1][..j] == ps[..j];
      var a := CodesText(ps[..j]);
      assert CodesText(ps[..j + 1]) == a + CodeBlock(j + 1, ps[j]);
      assert CodesText(ps)[..|a|] == CodesText(ps[..j + 1])[..|a|];
    }
  }

  /** One block per problem, in input order: the block of problem `i`
      (numbered `i + 1`) follows the blocks of the problems before it. */
  lemma BlockInPlace(ps: seq<Problem>, i: nat)
    requires i < |ps|
    ensures var a := |CodesText(ps[..i])|;
            var b := CodeBlock(i + 1, ps[i]);
            a + |b| <= |CodesText(ps)| && CodesText(ps)[a..a + |b|] == b
  {
    CodesTextPrefix(ps, i + 1);
    assert ps[..i + 1][..i] == ps[..i];
    var a := CodesText(ps[..i]);
    var b := CodeBlock(i + 1, ps[i]);
    var whole := CodesText(ps);
    assert CodesText(ps[..i + 1]) == a + b;
    assert whole[..|a| + |b|] == a + b;
    assert whole[|a|..|a| + |b|] == (a + b)[|a|..];
  }

  /** The index written into a block header, read back: the digits after
      `\n### 题目` up to the colon. */
  function HeaderIndex(block: string): Option<nat>
  {
    if StartsWith(block, HeaderLead) then
      var e := DigitRunEnd(block, |HeaderLead|);
      if |HeaderLead| < e < |block| && block[e] == ':' then
        DigitRunSpec(block, |HeaderLead|);
        Some(DigitsValue(block[|HeaderLead|..e]))
      else None
    else None
  }

  /** A maximal digit run starting at `i` ends at `DigitRunEnd(s, i)`. */
  lemma DigitRunEndAt(s: string, i: nat, j: nat)
    requires i <= j <= |s|
    requires forall k :: i <= k < j ==> IsDigit(s[k])
    requires j == |s| || !IsDigit(s[j])
    ensures DigitRunEnd(s, i) == j
  {
    DigitRunSpec(s, i);
  }

  /** The header of the block for position `idx` names `idx`, whatever the
      problem's name holds: numbering can be read back from the code section. */
  lemma HeaderIndexOfBlock(idx: nat, p: Problem)
    ensures HeaderIndex(CodeBlock(idx, p)) == Some(idx)
  {
    var b := CodeBlock(idx, p);
    var n := NatToString(idx);
    var lead := |HeaderLead|;
    var rest := b[lead + |n|..];
    assert b == HeaderLead + n + rest;
    assert b[..lead] == HeaderLead;
    assert b[lead..lead + |n|] == n;
    assert b[lead + |n|] == ':';
    assert forall k :: lead <= k < lead + |n| ==> IsDigit(b[k]) by {
      forall k | lead <= k < lead + |n| ensures IsDigit(b[k]) {
        assert b[k] == n[k - lead];
      }
    }
    DigitRunEndAt(b, lead, lead + |n|);
    NatToStringRoundTrip(idx);
  }

  /** The keyword arguments `get_batch_prompt` passes to `format`. */
  function BatchEnv(studentName: string, studentId: Option<string>, problems: seq<Problem>, week: string): (env: map<HoleName, string>)
    ensures env.Keys == {StudentName, StudentId, Week, NumProblems, AllCodes}
    ensures env[StudentName] == studentName && env[StudentId] == OrElse(studentId, "无") && env[Week] == week
    ensures env[NumProblems] == NatToString(|problems|) && env[AllCodes] == CodesText(problems)
  {
    map[
      StudentName := studentName,
      StudentId := OrElse(studentId, "无"),
      Week := week,
      NumProblems := NatToString(|problems|),
      AllCodes := CodesText(problems)]
  }

  /** Both batch templates use exactly the five batch holes. */
  lemma BatchHoles(week: string)
    ensures forall p :: p in SelectBatchPrompt(week) && p.Hole? ==> p.name in {StudentName, StudentId, Week, NumProblems, AllCodes}
    ensures Hole(StudentName) in SelectBatchPrompt(week) && Hole(StudentId) in SelectBatchPrompt(week)
    ensures Hole(Week) in SelectBatchPrompt(week) && Hole(NumProblems) in SelectBatchPrompt(week)
    ensures Hole(AllCodes) in SelectBatchPrompt(week)
  {
  }

  /** `get_batch_prompt`: the chosen batch template filled with the name, the
      id or `无`, the week, the number of problems and the code section; it never raises. */
  function GetBatchPrompt(studentName: string, studentId: Option<string>, problems: seq<Problem>, week: string): (r: string)
    ensures IsSubstring(studentName, r)
    ensures IsSubstring(OrElse(studentId, "无"), r)
    ensures IsSubstring(week, r)
    ensures IsSubstring(NatToString(|problems|), r)
    ensures IsSubstring(CodesText(problems), r)
  {
    var t := SelectBatchPrompt(week);
    var env := BatchEnv(studentName, studentId, problems, week);
    BatchHoles(week);
    assert Fill(t, env).Some?;
    FillHasValue(t, env, StudentName);
    FillHasValue(t, env, StudentId);
    FillHasValue(t, env, Week);
    FillHasValue(t, env, NumProblems);
    FillHasValue(t, env, AllCodes);
    Fill(t, env).value
  }

  /** With no problems the code section is empty and the count reads `0`. */
  lemma EmptyProblemList(studentName: string, studentId: Option<string>, week: string)
    ensures CodesText([]) == ""
    ensures var env := BatchEnv(studentName, studentId, [], week);
            env[AllCodes] == "" && env[NumProblems] == "0"
            && GetBatchPrompt(studentName, studentId, [], week) == Fill(SelectBatchPrompt(week), env).value
  {
    assert NatToString(0) == "0";
  }
}
