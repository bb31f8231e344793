/** Score extraction from an evaluation text (`HomeworkEvaluationSystem._extract_score`).

    Four regular expressions are tried in a fixed order; each is searched for
    once (`re.search`, so only its leftmost match counts), its first group is
    read as an integer, and the first value in [0, 100] is the score. The
    regular expressions are written out here as matchers over `string`, with
    `\s` as `Text.IsSpace` and `\d` as an ASCII digit. */
module ScoreExtraction {
  import opened Wrappers
  import opened Text

  /** The patterns of `_extract_score`, in the order they are tried. */
  datatype Pattern =
    | LabelledOverHundred  // 分数[：:]\s*(\d+)\s*/?\s*100
    | GotLabel             // 得分[：:]\s*(\d+)
    | RatingLabel          // 评分[：:]\s*(\d+)
    | BareOverHundred      // (\d+)\s*/\s*100

  const Patterns: seq<Pattern> := [LabelledOverHundred, GotLabel, RatingLabel, BareOverHundred]

  /** The two-character label that opens a labelled pattern. */
  function Label(p: Pattern): (r: string)
    ensures !p.BareOverHundred? ==> |r| == 2
  {
    match p
    case LabelledOverHundred => "分数"
    case GotLabel => "得分"
    case RatingLabel => "评分"
    case BareOverHundred => ""
  }

  predicate LabelAt(p: Pattern, s: string, i: nat)
    requires !p.BareOverHundred?
  {
    i + 2 <= |s| && s[i] == Label(p)[0] && s[i + 1] == Label(p)[1]
  }

  /** `[：:]`: a full-width or an ASCII colon. */
  predicate IsColon(c: char)
  {
    c == '：' || c == ':'
  }

  /** Where the group `(\d+)` starts when a match of `p` starts at `i`: after
      the label, the colon and the greedy `\s*` for the labelled patterns, at
      `i` itself for the bare one. Giving back whitespace never helps, since
      a digit cannot be whitespace. */
  function CaptureStart(p: Pattern, s: string, i: nat): (r: Option<nat>)
    requires i <= |s|
    ensures r.Some? ==> i <= r.value <= |s|
  {
    if p.BareOverHundred? then Some(i)
    else if LabelAt(p, s, i) && i + 3 <= |s| && IsColon(s[i + 2]) then Some(SkipSpaces(s, i + 3))
    else None
  }

  /** The shape of a group start: for a labelled pattern, one exists exactly
      when the label and a colon stand at `i`, and it lies after the whole
      whitespace run that follows the colon; the bare pattern's group starts
      at `i` itself. */
  lemma CaptureStartSpec(p: Pattern, s: string, i: nat)
    requires i <= |s|
    ensures p.BareOverHundred? ==> CaptureStart(p, s, i) == Some(i)
    ensures !p.BareOverHundred? ==>
              (CaptureStart(p, s, i).Some? <==>
                 i + 3 <= |s| && s[i..i + 2] == Label(p) && IsColon(s[i + 2]))
    ensures !p.BareOverHundred? && CaptureStart(p, s, i).Some? ==>
              var a := CaptureStart(p, s, i).value;
              && i + 3 <= a <= |s|
              && (forall k :: i + 3 <= k < a ==> IsSpace(s[k]))
              && (a == |s| || !IsSpace(s[a]))
  {
    if !p.BareOverHundred? && i + 3 <= |s| {
      assert LabelAt(p, s, i) <==> s[i..i + 2] == Label(p) by {
        if s[i..i + 2] == Label(p) {
          assert s[i] == s[i..i + 2][0] && s[i + 1] == s[i..i + 2][1];
        }
      }
      SkipSpacesSpec(s, i + 3);
    }
  }

  predicate HundredAt(s: string, j: nat)
  {
    j + 3 <= |s| && s[j] == '1' && s[j + 1] == '0' && s[j + 2] == '0'
  }

  // Whether the rest of `p` matches from `j`, just after the group:
  // `\s*/?\s*100` for the first pattern, `\s*/\s*100` for the bare one,
  // nothing for the other two. Each `\s*` may be taken greedily, because
  // neither `/` nor `1` is whitespace; and an optional `/` is taken when
  // present, because `1` is not `/`.
  predicate TailMatches(p: Pattern, s: string, j: nat)
    requires j <= |s|
  {
    match p
    case GotLabel => true
    case RatingLabel => true
    case LabelledOverHundred => OptionalSlashThenHundred(s, j)
    case BareOverHundred => SlashThenHundred(s, j)
  }

  // `\s*100` from `j`.
  predicate SpacesThenHundred(s: string, j: nat)
    requires j <= |s|
    decreases |s| - j
  {
    if j < |s| && IsSpace(s[j]) then SpacesThenHundred(s, j + 1) else HundredAt(s, j)
  }

  // `\s*/\s*100` from `j`.
  predicate SlashThenHundred(s: string, j: nat)
    requires j <= |s|
    decreases |s| - j
  {
    if j < |s| && IsSpace(s[j]) then SlashThenHundred(s, j + 1)
    else j < |s| && s[j] == '/' && SpacesThenHundred(s, j + 1)
  }

  // `\s*/?\s*100` from `j`.
  predicate OptionalSlashThenHundred(s: string, j: nat)
    requires j <= |s|
    decreases |s| - j
  {
    if j < |s| && IsSpace(s[j]) then OptionalSlashThenHundred(s, j + 1)
    else if j < |s| && s[j] == '/' then SpacesThenHundred(s, j + 1)
    else HundredAt(s, j)
  }

  /** The continuation test of `p` as a value, for the backtracking search. */
  function Tail(p: Pattern, s: string): nat -> bool
  {
    (j: nat) => j <= |s| && TailMatches(p, s, j)
  }

  /** Python's backtracking into a greedy `\d+` that starts at `a`: the group
      lengths `k`, `k - 1`, ..., 1 are tried in turn and the first one whose
      continuation `tail` matches is taken. */
  function Backtrack(tail: nat -> bool, a: nat, k: nat): (r: Option<nat>)
    ensures r.Some? ==> 1 <= r.value <= k
    decreases k
  {
    if k == 0 then None
    else if tail(a + k) then Some(k)
    else Backtrack(tail, a, k - 1)
  }

  /** The length `Backtrack` settles on is the longest one whose continuation
      matches, and it settles on none when no length from 1 to `k` does. */
  lemma {:induction false} BacktrackSpec(tail: nat -> bool, a: nat, k: nat)
    ensures Backtrack(tail, a, k).Some? ==> tail(a + Backtrack(tail, a, k).value)
    ensures Backtrack(tail, a, k).Some? ==>
              forall j :: a + Backtrack(tail, a, k).value < j <= a + k ==> !tail(j)
    ensures Backtrack(tail, a, k).None? ==> forall j :: a + 1 <= j <= a + k ==> !tail(j)
    decreases k
  {
    if k > 0 && !tail(a + k) {
      BacktrackSpec(tail, a, k - 1);
    }
  }

  /** Every character of `s[lo..hi]` is a digit. */
  predicate DigitsIn(s: string, lo: nat, hi: nat)
    requires lo <= hi <= |s|
  {
    forall q :: lo <= q < hi ==> IsDigit(s[q])
  }

  /** A group of `m` digits starting at `a` lets the rest of `p` match. */
  predicate GroupFits(p: Pattern, s: string, a: nat, m: nat)
  {
    1 <= m && a + m <= |s| && DigitsIn(s, a, a + m) && TailMatches(p, s, a + m)
  }

  /** A match of `p` can start at `i` with a group of `m` digits. */
  predicate Accepts(p: Pattern, s: string, i: nat, m: nat)
    requires i <= |s|
  {
    CaptureStart(p, s, i).Some? && GroupFits(p, s, CaptureStart(p, s, i).value, m)
  }

  /** The group of the match of `p` that starts at `i`, if one does: the digit
      run after the label cut back, as greedy matching does, to the longest
      prefix whose continuation matches. */
  function MatchAt(p: Pattern, s: string, i: nat): (r: Option<string>)
    requires i <= |s|
  {
    match CaptureStart(p, s, i)
    case None => None
    case Some(a) => GroupAt(Tail(p, s), s, a)
  }

  /** The group that starts at `a`: the digit run there, cut back to the
      longest prefix after which `tail` holds. */
  function GroupAt(tail: nat -> bool, s: string, a: nat): (r: Option<string>)
    requires a <= |s|
  {
    var e := DigitRunEnd(s, a);
    match Backtrack(tail, a, e - a)
    case None => None
    case Some(k) => Some(s[a..a + k])
  }

  /** A group that fits lies inside the digit run at `a`. */
  lemma FitsWithinRun(p: Pattern, s: string, a: nat, m: nat)
    requires a <= |s| && GroupFits(p, s, a, m)
    ensures m <= DigitRunEnd(s, a) - a && Tail(p, s)(a + m)
  {
    var e := DigitRunEnd(s, a);
    DigitRunSpec(s, a);
    assert e == |s| || !IsDigit(s[e]);
  }

  /** Inside the digit run, a group fits exactly when its continuation matches. */
  lemma FitsInsideRun(p: Pattern, s: string, a: nat, m: nat)
    requires a <= |s| && 1 <= m <= DigitRunEnd(s, a) - a && Tail(p, s)(a + m)
    ensures GroupFits(p, s, a, m)
  {
    DigitRunSpec(s, a);
    assert DigitsIn(s, a, a + m);
  }

  /** Backtracking from the end of the digit run at `a` finds the longest
      group that fits, and finds none exactly when none fits. */
  lemma LongestFit(p: Pattern, s: string, a: nat)
    requires a <= |s|
    ensures match Backtrack(Tail(p, s), a, DigitRunEnd(s, a) - a)
            case None => forall m: nat :: !GroupFits(p, s, a, m)
            case Some(k) => GroupFits(p, s, a, k) && forall m: nat :: k < m ==> !GroupFits(p, s, a, m)
  {
    var e := DigitRunEnd(s, a);
    var tail := Tail(p, s);
    BacktrackSpec(tail, a, e - a);
    var k := Backtrack(tail, a, e - a);
    forall m: nat | GroupFits(p, s, a, m) ensures k.Some? && m <= k.value {
      FitsWithinRun(p, s, a, m);
    }
    if k.Some? {
      FitsInsideRun(p, s, a, k.value);
    }
  }

  /** Once the group's start `a` is known, matching at `i` is fitting a group at `a`. */
  lemma AcceptsFrom(p: Pattern, s: string, i: nat, a: nat)
    requires i <= |s| && CaptureStart(p, s, i) == Some(a)
    ensures forall m: nat :: Accepts(p, s, i, m) == GroupFits(p, s, a, m)
  {
  }

  /** Of all the ways `p` can match at `i`, `MatchAt` reports the one with the
      longest group, and it reports none exactly when there is no way. */
  lemma MatchAtIsLongestGroup(p: Pattern, s: string, i: nat)
    requires i <= |s|
    ensures MatchAt(p, s, i).None? <==> forall m: nat :: !Accepts(p, s, i, m)
    ensures MatchAt(p, s, i).Some? ==>
              && Accepts(p, s, i, |MatchAt(p, s, i).value|)
              && forall m: nat :: |MatchAt(p, s, i).value| < m ==> !Accepts(p, s, i, m)
    ensures MatchAt(p, s, i).Some? ==>
              var a := CaptureStart(p, s, i).value;
              a + |MatchAt(p, s, i).value| <= |s| && MatchAt(p, s, i).value == s[a..a + |MatchAt(p, s, i).value|]
  {
    match CaptureStart(p, s, i)
    case None =>
      assert MatchAt(p, s, i).None?;
    case Some(a) =>
      LongestFit(p, s, a);
      AcceptsFrom(p, s, i, a);
      match Backtrack(Tail(p, s), a, DigitRunEnd(s, a) - a)
      case None =>
        MatchAtNoGroup(p, s, i, a);
      case Some(n) =>
        MatchAtGroup(p, s, i, a, n);
        assert |MatchAt(p, s, i).value| == n;
        assert Accepts(p, s, i, n);
  }

  /** `MatchAt` reads the group that backtracking settles on ... */
  lemma MatchAtGroup(p: Pattern, s: string, i: nat, a: nat, n: nat)
    requires i <= |s| && CaptureStart(p, s, i) == Some(a)
    requires Backtrack(Tail(p, s), a, DigitRunEnd(s, a) - a) == Some(n)
    ensures a + n <= |s| && MatchAt(p, s, i) == Some(s[a..a + n])
  {
    GroupAtIs(Tail(p, s), s, a, n);
  }

  lemma GroupAtIs(tail: nat -> bool, s: string, a: nat, n: nat)
    requires a <= |s| && Backtrack(tail, a, DigitRunEnd(s, a) - a) == Some(n)
    ensures a + n <= |s| && GroupAt(tail, s, a) == Some(s[a..a + n])
  {
  }

  /** ... and reports no match when backtracking runs out. */
  lemma MatchAtNoGroup(p: Pattern, s: string, i: nat, a: nat)
    requires i <= |s| && CaptureStart(p, s, i) == Some(a)
    requires Backtrack(Tail(p, s), a, DigitRunEnd(s, a) - a).None?
    ensures MatchAt(p, s, i).None?
  {
    GroupAtNone(Tail(p, s), s, a);
  }

  lemma GroupAtNone(tail: nat -> bool, s: string, a: nat)
    requires a <= |s| && Backtrack(tail, a, DigitRunEnd(s, a) - a).None?
    ensures GroupAt(tail, s, a).None?
  {
  }

  /** A group is a non-empty run of digits, so `int()` rejects it only for
      its length (`IntMaxStrDigits`), never for its characters. */
  lemma MatchAtDigits(p: Pattern, s: string, i: nat)
    requires i <= |s|
    ensures MatchAt(p, s, i).Some? ==> IsDigits(MatchAt(p, s, i).value)
  {
    if CaptureStart(p, s, i).Some? {
      DigitRunSpec(s, CaptureStart(p, s, i).value);
    }
  }

  /** A match: where it starts and what its group captured. */
  datatype Hit = Hit(start: nat, group: string)

  /** The first `j` in `[i, n]` with `f(j)` present: a left-to-right scan. */
  function FirstHit<T>(f: nat -> Option<T>, i: nat, n: nat): (r: Option<nat>)
    ensures r.Some? ==> i <= r.value <= n && f(r.value).Some?
    ensures r.Some? ==> forall j :: i <= j < r.value ==> f(j).None?
    ensures r.None? ==> forall j :: i <= j <= n ==> f(j).None?
    decreases n + 1 - i
  {
    if i > n then None
    else if f(i).Some? then Some(i)
    else FirstHit(f, i + 1, n)
  }

  /** The match of `p` at every start position of `s`. */
  function MatchesOf(p: Pattern, s: string): nat -> Option<string>
  {
    (j: nat) => if j <= |s| then MatchAt(p, s, j) else None
  }

  /** `re.search(p, s)`: the leftmost start where `p` matches, with its group. */
  function Search(p: Pattern, s: string): (r: Option<Hit>)
    ensures r.Some? ==> r.value.start <= |s| && MatchAt(p, s, r.value.start) == Some(r.value.group)
    ensures r.Some? ==> forall j :: 0 <= j < r.value.start ==> MatchAt(p, s, j).None?
    ensures r.None? ==> forall j :: 0 <= j <= |s| ==> MatchAt(p, s, j).None?
    ensures r.Some? ==> IsDigits(r.value.group)
  {
    var f := MatchesOf(p, s);
    assert forall j :: 0 <= j <= |s| ==> f(j) == MatchAt(p, s, j);
    match FirstHit(f, 0, |s|)
    case None => None
    case Some(j) =>
      MatchAtDigits(p, s, j);
      Some(Hit(j, f(j).value))
  }

  /** The most digits `int()` converts from a string: CPython's default
      `sys.get_int_max_str_digits()`. A longer digit string, leading zeros
      included, raises `ValueError`. */
  const IntMaxStrDigits: nat := 4300

  /** What one pattern contributes: the value of its leftmost match when
      `int()` accepts the group and the value is in [0, 100]; a group too long
      for `int()` raises `ValueError`, which skips the pattern. A later match
      of the same pattern is never tried. */
  function PatternScore(p: Pattern, s: string): (r: Option<nat>)
    ensures r.Some? ==> r.value <= 100
    ensures r.Some? <==>
              && Search(p, s).Some?
              && |Search(p, s).value.group| <= IntMaxStrDigits
              && DigitsValue(Search(p, s).value.group) <= 100
    ensures r.Some? ==> r.value == DigitsValue(Search(p, s).value.group)
  {
    match Search(p, s)
    case None => None
    case Some(h) =>
      if |h.group| > IntMaxStrDigits then None
      else
        var v := DigitsValue(h.group);
        if v <= 100 then Some(v) else None
  }

  /** The first pattern of `ps` that contributes a score decides. */
  function FirstScore(ps: seq<Pattern>, s: string): (r: Option<nat>)
    ensures r.Some? <==> exists k | 0 <= k < |ps| :: PatternScore(ps[k], s).Some?
    ensures r.Some? ==> exists k | 0 <= k < |ps| ::
              && PatternScore(ps[k], s) == r
              && forall j :: 0 <= j < k ==> PatternScore(ps[j], s).None?
  {
    if |ps| == 0 then None
    else
      var rest := FirstScore(ps[1..], s);
      assert forall k :: 1 <= k < |ps| ==> ps[k] == ps[1..][k - 1];
      var first := PatternScore(ps[0], s);
      if first.Some? then first
      else
        FirstScoreShift(ps, s, rest);
        rest
  }

  lemma FirstScoreShift(ps: seq<Pattern>, s: string, rest: Option<nat>)
    requires |ps| >= 1 && PatternScore(ps[0], s).None?
    requires rest.Some? ==> exists k | 0 <= k < |ps[1..]| ::
               && PatternScore(ps[1..][k], s) == rest
               && forall j :: 0 <= j < k ==> PatternScore(ps[1..][j], s).None?
    ensures rest.Some? ==> exists k | 0 <= k < |ps| ::
              && PatternScore(ps[k], s) == rest
              && forall j :: 0 <= j < k ==> PatternScore(ps[j], s).None?
  {
    if rest.Some? {
      var k :| 0 <= k < |ps[1..]| && PatternScore(ps[1..][k], s) == rest
               && forall j :: 0 <= j < k ==> PatternScore(ps[1..][j], s).None?;
      assert PatternScore(ps[k + 1], s) == rest;
      forall j | 0 <= j < k + 1 ensures PatternScore(ps[j], s).None? {
        if j > 0 { assert ps[j] == ps[1..][j - 1]; }
      }
    }
  }

  /** `_extract_score`: `None`, or an integer in [0, 100]. */
  function ExtractScore(evaluation: string): (r: Option<int>)
    ensures r.None? || 0 <= r.value <= 100
    ensures r.None? <==> forall k :: 0 <= k < |Patterns| ==> PatternScore(Patterns[k], evaluation).None?
  {
    match FirstScore(Patterns, evaluation)
    case None => None
    case Some(v) => Some(v)
  }

  /** The fixed order decides: the score is `v` exactly when some pattern
      yields `v` from its leftmost match and every earlier pattern yields nothing. */
  lemma ExtractScoreOrderedChoice(evaluation: string, v: nat)
    ensures ExtractScore(evaluation) == Some(v) <==>
            exists k | 0 <= k < |Patterns| ::
              && PatternScore(Patterns[k], evaluation) == Some(v)
              && forall j :: 0 <= j < k ==> PatternScore(Patterns[j], evaluation).None?
  {
    if exists k | 0 <= k < |Patterns| ::
         && PatternScore(Patterns[k], evaluation) == Some(v)
         && forall j :: 0 <= j < k ==> PatternScore(Patterns[j], evaluation).None?
    {
      var k :| 0 <= k < |Patterns|
               && PatternScore(Patterns[k], evaluation) == Some(v)
               && forall j :: 0 <= j < k ==> PatternScore(Patterns[j], evaluation).None?;
      FirstScoreIsFirst(Patterns, evaluation, k);
    }
  }

  lemma {:induction false} FirstScoreIsFirst(ps: seq<Pattern>, s: string, k: nat)
    requires k < |ps|
    requires PatternScore(ps[k], s).Some?
    requires forall j :: 0 <= j < k ==> PatternScore(ps[j], s).None?
    ensures FirstScore(ps, s) == PatternScore(ps[k], s)
    decreases k
  {
    if k > 0 {
      assert ps[1..][k - 1] == ps[k];
      FirstScoreIsFirst(ps[1..], s, k - 1);
    }
  }

  // ------------------------------------------------------------ concrete texts

  /** No group can begin at `i`: the label and colon are not there, or no
      digit follows them. */
  predicate GroupCannotStart(p: Pattern, s: string, i: nat)
    requires i <= |s|
  {
    match CaptureStart(p, s, i)
    case None => true
    case Some(a) => a == |s| || !IsDigit(s[a])
  }

  /** `GroupCannotStart` at every position of `[i, n)`, checked one by one. */
  predicate NoStartBetween(p: Pattern, s: string, i: nat, n: nat)
    requires n <= |s| + 1
    decreases n - i
  {
    i >= n || (GroupCannotStart(p, s, i) && NoStartBetween(p, s, i + 1, n))
  }

  lemma {:induction false} NoStartBetweenJoin(p: Pattern, s: string, i: nat, m: nat, n: nat)
    requires i <= m <= n <= |s| + 1
    requires NoStartBetween(p, s, i, m) && NoStartBetween(p, s, m, n)
    ensures NoStartBetween(p, s, i, n)
    decreases m - i
  {
    if i < m {
      NoStartBetweenJoin(p, s, i + 1, m, n);
    }
  }

  /** `NoStartBetween` over `[0, 15)`, checked in three blocks. */
  lemma NoStartIn15(p: Pattern, s: string)
    requires |s| == 14
    requires NoStartBetween(p, s, 0, 5)
    requires NoStartBetween(p, s, 5, 10)
    requires NoStartBetween(p, s, 10, 15)
    ensures NoStartBetween(p, s, 0, 15)
  {
    NoStartBetweenJoin(p, s, 5, 10, 15);
    NoStartBetweenJoin(p, s, 0, 5, 15);
  }

  lemma NoMatchWhereNoStart(p: Pattern, s: string, i: nat)
    requires i <= |s| && GroupCannotStart(p, s, i)
    ensures MatchAt(p, s, i).None?
  {
    match CaptureStart(p, s, i)
    case None =>
    case Some(a) =>
      assert DigitRunEnd(s, a) == a;
  }

  lemma {:induction false} NoMatchBetween(p: Pattern, s: string, i: nat, n: nat)
    requires n <= |s| + 1 && NoStartBetween(p, s, i, n)
    ensures forall j :: i <= j < n ==> MatchAt(p, s, j).None?
    decreases n - i
  {
    if i < n {
      NoMatchWhereNoStart(p, s, i);
      NoMatchBetween(p, s, i + 1, n);
    }
  }

  lemma NoHit(p: Pattern, s: string)
    requires NoStartBetween(p, s, 0, |s| + 1)
    ensures Search(p, s).None?
  {
    NoMatchBetween(p, s, 0, |s| + 1);
  }

  /** Without a `/` in the text, the bare pattern's continuation never matches. */
  lemma {:induction false} NoSlashNoTail(s: string, j: nat)
    requires j <= |s| && '/' !in s
    ensures !SlashThenHundred(s, j)
    decreases |s| - j
  {
    if j < |s| {
      assert s[j] in s;
      if IsSpace(s[j]) {
        NoSlashNoTail(s, j + 1);
      }
    }
  }

  /** The bare pattern needs a `/`. */
  lemma NoSlashNoBareHit(s: string)
    requires '/' !in s
    ensures Search(BareOverHundred, s).None?
  {
    forall q: nat | q <= |s| ensures !Tail(BareOverHundred, s)(q) {
      NoSlashNoTail(s, q);
    }
    forall j | 0 <= j <= |s| ensures MatchAt(BareOverHundred, s, j).None? {
      BacktrackSpec(Tail(BareOverHundred, s), j, DigitRunEnd(s, j) - j);
      MatchAtNoGroup(BareOverHundred, s, j, j);
    }
  }

  /** A labelled pattern needs both characters of its label. */
  lemma NoLabelNoHit(p: Pattern, s: string)
    requires !p.BareOverHundred?
    requires Label(p)[0] !in s || Label(p)[1] !in s
    ensures Search(p, s).None?
  {
    forall j | 0 <= j <= |s| ensures MatchAt(p, s, j).None? {
      if j + 2 <= |s| {
        assert s[j] in s && s[j + 1] in s;
      }
      assert CaptureStart(p, s, j).None?;
    }
  }

  /** When the whole digit run fits, the match takes all of it. */
  lemma MatchAtWholeRun(p: Pattern, s: string, i: nat, a: nat, e: nat)
    requires i <= |s| && CaptureStart(p, s, i) == Some(a)
    requires e == DigitRunEnd(s, a) && a < e && TailMatches(p, s, e)
    ensures MatchAt(p, s, i) == Some(s[a..e])
  {
    MatchAtGroup(p, s, i, a, e - a);
  }

  /** The leftmost match, once every earlier start is ruled out. */
  lemma SearchFinds(p: Pattern, s: string, h: nat, g: string)
    requires h <= |s| && MatchAt(p, s, h) == Some(g)
    requires NoStartBetween(p, s, 0, h)
    ensures Search(p, s) == Some(Hit(h, g))
  {
    NoMatchBetween(p, s, 0, h);
    var r := FirstHit(MatchesOf(p, s), 0, |s|);
    assert MatchesOf(p, s)(h) == Some(g);
    assert r.Some?;
    assert MatchesOf(p, s)(r.value).Some?;
    assert r.value == h;
  }

  lemma ScoreFromHit(p: Pattern, s: string, h: nat, g: string, v: nat)
    requires Search(p, s) == Some(Hit(h, g)) && |g| <= IntMaxStrDigits && DigitsValue(g) == v <= 100
    ensures PatternScore(p, s) == Some(v)
  {
  }

  lemma NoScoreFromHit(p: Pattern, s: string, h: nat, g: string)
    requires Search(p, s) == Some(Hit(h, g)) && IsDigits(g) && DigitsValue(g) > 100
    ensures PatternScore(p, s).None?
  {
  }

  /** The score when the first pattern supplies it. */
  lemma ScoreByFirstPattern(s: string, v: nat)
    requires PatternScore(LabelledOverHundred, s) == Some(v)
    ensures ExtractScore(s) == Some(v)
  {
    FirstScoreIsFirst(Patterns, s, 0);
  }

  /** The score when only the bare pattern supplies one. */
  lemma ScoreByLastPattern(s: string, v: nat)
    requires PatternScore(LabelledOverHundred, s).None?
    requires PatternScore(GotLabel, s).None?
    requires PatternScore(RatingLabel, s).None?
    requires PatternScore(BareOverHundred, s) == Some(v)
    ensures ExtractScore(s) == Some(v)
  {
    assert forall j :: 0 <= j < 3 ==> PatternScore(Patterns[j], s).None?;
    FirstScoreIsFirst(Patterns, s, 3);
  }

  lemma NoScoreFromAnyPattern(s: string)
    requires PatternScore(LabelledOverHundred, s).None?
    requires PatternScore(GotLabel, s).None?
    requires PatternScore(RatingLabel, s).None?
    requires PatternScore(BareOverHundred, s).None?
    ensures ExtractScore(s).None?
  {
  }

  lemma ValueOf85()
    ensures DigitsValue("85") == 85
  {
    assert "85"[..1] == "8";
  }

  lemma ValueOf150()
    ensures DigitsValue("150") == 150
  {
    assert "15"[..1] == "1";
    assert "150"[..2] == "15";
  }

  lemma NoLabelledStartInSampleHead(rest: string)
    ensures NoStartBetween(LabelledOverHundred, "## 总体评分\n- 分数: 85/100" + rest, 0, 5)
  {
    var s := "## 总体评分\n- 分数: 85/100" + rest;
    assert forall k :: 0 <= k < 20 ==> s[k] == "## 总体评分\n- 分数: 85/100"[k];
  }

  lemma NoLabelledStartInSampleMiddle(rest: string)
    ensures NoStartBetween(LabelledOverHundred, "## 总体评分\n- 分数: 85/100" + rest, 5, 10)
  {
    var s := "## 总体评分\n- 分数: 85/100" + rest;
    assert forall k :: 0 <= k < 20 ==> s[k] == "## 总体评分\n- 分数: 85/100"[k];
  }

  /** Whatever follows the saver's `分数: 85/100` line, the first pattern's
      leftmost match is on that line and captures `85`. */
  lemma LabelledMatchInSample(rest: string)
    ensures Search(LabelledOverHundred, "## 总体评分\n- 分数: 85/100" + rest) == Some(Hit(10, "85"))
  {
    var s := "## 总体评分\n- 分数: 85/100" + rest;
    assert forall k :: 0 <= k < 20 ==> s[k] == "## 总体评分\n- 分数: 85/100"[k];
    assert s[10] == '分' && s[11] == '数' && s[12] == ':' && s[13] == ' ';
    assert SkipSpaces(s, 14) == 14;
    assert SkipSpaces(s, 13) == 14;
    assert CaptureStart(LabelledOverHundred, s, 10) == Some(14);
    assert s[14] == '8' && s[15] == '5' && s[16] == '/';
    assert DigitRunEnd(s, 16) == 16;
    assert DigitRunEnd(s, 14) == 16;
    assert TailMatches(LabelledOverHundred, s, 16);
    MatchAtWholeRun(LabelledOverHundred, s, 10, 14, 16);
    assert s[14..16] == "85";
    NoLabelledStartInSampleHead(rest);
    NoLabelledStartInSampleMiddle(rest);
    NoStartBetweenJoin(LabelledOverHundred, s, 0, 5, 10);
    SearchFinds(LabelledOverHundred, s, 10, "85");
  }

  lemma SampleEvaluationSplit()
    ensures "## 总体评分\n- 分数: 85/100\n\n## 优点\n- 代码逻辑清晰\n\n## 需要改进的地方\n- 需要添加注释"
            == "## 总体评分\n- 分数: 85/100" + "\n\n## 优点\n- 代码逻辑清晰\n\n## 需要改进的地方\n- 需要添加注释"
  {
  }

  /** The evaluation the result saver's self-test writes scores 85: the
      `分数: 85/100` on its second line is found by the first pattern. */
  lemma ExampleLabelledScore()
    ensures ExtractScore("## 总体评分\n- 分数: 85/100\n\n## 优点\n- 代码逻辑清晰\n\n## 需要改进的地方\n- 需要添加注释") == Some(85)
  {
    var rest := "\n\n## 优点\n- 代码逻辑清晰\n\n## 需要改进的地方\n- 需要添加注释";
    SampleEvaluationSplit();
    LabelledMatchInSample(rest);
    ValueOf85();
    ScoreFromHit(LabelledOverHundred, "## 总体评分\n- 分数: 85/100" + rest, 10, "85", 85);
    ScoreByFirstPattern("## 总体评分\n- 分数: 85/100" + rest, 85);
  }

  lemma NoLabelledStartInBoldTextHead()
    ensures NoStartBetween(LabelledOverHundred, "**分数**: 85/100", 0, 5)
  {
  }

  lemma NoLabelledStartInBoldTextMiddle()
    ensures NoStartBetween(LabelledOverHundred, "**分数**: 85/100", 5, 10)
  {
  }

  lemma NoLabelledStartInBoldTextEnd()
    ensures NoStartBetween(LabelledOverHundred, "**分数**: 85/100", 10, 15)
  {
  }

  lemma LabelledMissesBoldText()
    ensures Search(LabelledOverHundred, "**分数**: 85/100").None?
  {
    NoLabelledStartInBoldTextHead();
    NoLabelledStartInBoldTextMiddle();
    NoLabelledStartInBoldTextEnd();
    NoStartIn15(LabelledOverHundred, "**分数**: 85/100");
    NoHit(LabelledOverHundred, "**分数**: 85/100");
  }

  /** `分数` is followed by `**`, not by a colon, so the first pattern misses;
      the other two labels do not occur. */
  lemma LabelledPatternsMissBoldText()
    ensures PatternScore(LabelledOverHundred, "**分数**: 85/100").None?
    ensures PatternScore(GotLabel, "**分数**: 85/100").None?
    ensures PatternScore(RatingLabel, "**分数**: 85/100").None?
  {
    LabelledMissesBoldText();
    NoLabelNoHit(GotLabel, "**分数**: 85/100");
    NoLabelNoHit(RatingLabel, "**分数**: 85/100");
  }

  lemma BareMatchInBoldText()
    ensures Search(BareOverHundred, "**分数**: 85/100") == Some(Hit(8, "85"))
  {
    var s := "**分数**: 85/100";
    assert DigitRunEnd(s, 8) == 10;
    assert TailMatches(BareOverHundred, s, 10);
    MatchAtWholeRun(BareOverHundred, s, 8, 8, 10);
    assert s[8..10] == "85";
    assert NoStartBetween(BareOverHundred, s, 0, 8);
    SearchFinds(BareOverHundred, s, 8, "85");
  }

  /** `**分数**: 85/100`, the format the batch prompt asks for: the first
      pattern misses because of the `**` before the colon, and the bare
      `NN/100` pattern supplies 85. */
  lemma ExampleBoldLabelledScore()
    ensures ExtractScore("**分数**: 85/100") == Some(85)
  {
    LabelledPatternsMissBoldText();
    BareMatchInBoldText();
    ValueOf85();
    ScoreFromHit(BareOverHundred, "**分数**: 85/100", 8, "85", 85);
    ScoreByLastPattern("**分数**: 85/100", 85);
  }

  lemma GotMatchInRepeatedText()
    ensures Search(GotLabel, "得分: 150 得分: 80") == Some(Hit(0, "150"))
  {
    var s := "得分: 150 得分: 80";
    assert CaptureStart(GotLabel, s, 0) == Some(4);
    assert DigitRunEnd(s, 4) == 7;
    assert TailMatches(GotLabel, s, 7);
    MatchAtWholeRun(GotLabel, s, 0, 4, 7);
    assert s[4..7] == "150";
    SearchFinds(GotLabel, s, 0, "150");
  }

  /** The leftmost `得分` match reads 150, which is out of range. */
  lemma GotMissesRepeatedText()
    ensures PatternScore(GotLabel, "得分: 150 得分: 80").None?
  {
    GotMatchInRepeatedText();
    ValueOf150();
    NoScoreFromHit(GotLabel, "得分: 150 得分: 80", 0, "150");
  }

  lemma OtherPatternsMissRepeatedText()
    ensures PatternScore(LabelledOverHundred, "得分: 150 得分: 80").None?
    ensures PatternScore(RatingLabel, "得分: 150 得分: 80").None?
    ensures PatternScore(BareOverHundred, "得分: 150 得分: 80").None?
  {
    NoLabelNoHit(LabelledOverHundred, "得分: 150 得分: 80");
    NoLabelNoHit(RatingLabel, "得分: 150 得分: 80");
    NoSlashNoBareHit("得分: 150 得分: 80");
  }

  /** Only the leftmost match of a pattern is read: `得分: 150 得分: 80` has
      an in-range second match, but the first one is out of range and no
      other pattern matches, so there is no score. */
  lemma ExampleLeftmostOutOfRange()
    ensures ExtractScore("得分: 150 得分: 80").None?
  {
    GotMissesRepeatedText();
    OtherPatternsMissRepeatedText();
    NoScoreFromAnyPattern("得分: 150 得分: 80");
  }

  /** The text `分数: ` followed by `n` zeros and `85/100`, spelt out
      position by position. */
  lemma PaddedTextFacts(n: nat)
    requires n > 0
    ensures var s := "分数: " + Zeros(n) + "85/100";
            && |s| == n + 10
            && s[0] == '分' && s[1] == '数' && s[2] == ':' && s[3] == ' ' && s[4] == '0'
            && s[4..n + 6] == Zeros(n) + "85"
            && s[n + 6] == '/' && s[n + 7] == '1' && s[n + 8] == '0' && s[n + 9] == '0'
            && (forall k :: 4 <= k < n + 6 ==> IsDigit(s[k]))
            && (forall k :: 0 <= k < |s| ==> s[k] != '得' && s[k] != '评')
  {
    var head := "分数: ";
    var z := Zeros(n);
    var tail := "85/100";
    var s := head + z + tail;
    assert forall k :: 0 <= k < 4 ==> s[k] == head[k];
    assert forall k :: 4 <= k < n + 4 ==> s[k] == z[k - 4];
    assert forall k :: n + 4 <= k < n + 10 ==> s[k] == tail[k - n - 4];
    assert s[4..n + 6] == z + "85";
  }

  /** A score padded with zeros beyond `int()`'s digit limit: the first
      pattern's leftmost match captures a group worth 85, yet `int()` raises
      on it, as it does on the bare pattern's group, and there is no score. */
  lemma ExampleOverlongScore(n: nat)
    requires n + 2 > IntMaxStrDigits
    ensures var s := "分数: " + Zeros(n) + "85/100";
            && Search(LabelledOverHundred, s) == Some(Hit(0, Zeros(n) + "85"))
            && DigitsValue(Zeros(n) + "85") == 85
            && ExtractScore(s).None?
  {
    var s := "分数: " + Zeros(n) + "85/100";
    var g := Zeros(n) + "85";
    PaddedTextFacts(n);
    DigitRunEndIs(s, 4, n + 6);
    assert SkipSpaces(s, 4) == 4;
    assert SkipSpaces(s, 3) == 4;
    assert CaptureStart(LabelledOverHundred, s, 0) == Some(4);
    assert TailMatches(LabelledOverHundred, s, n + 6);
    MatchAtWholeRun(LabelledOverHundred, s, 0, 4, n + 6);
    SearchFinds(LabelledOverHundred, s, 0, g);
    assert NoStartBetween(BareOverHundred, s, 4, 4);
    assert NoStartBetween(BareOverHundred, s, 3, 4);
    assert NoStartBetween(BareOverHundred, s, 2, 4);
    assert NoStartBetween(BareOverHundred, s, 1, 4);
    assert NoStartBetween(BareOverHundred, s, 0, 4);
    assert TailMatches(BareOverHundred, s, n + 6);
    MatchAtWholeRun(BareOverHundred, s, 4, 4, n + 6);
    SearchFinds(BareOverHundred, s, 4, g);
    assert '得' !in s && '评' !in s;
    NoLabelNoHit(GotLabel, s);
    NoLabelNoHit(RatingLabel, s);
    NoScoreFromAnyPattern(s);
    LeadingZerosValue(n, "85");
    ValueOf85();
  }

  /** A text without any label and without a `/` has no score. */
  lemma NoScoreWithoutLabelOrSlash(s: string)
    requires '数' !in s && '得' !in s && '评' !in s && '/' !in s
    ensures ExtractScore(s).None?
  {
    NoLabelNoHit(LabelledOverHundred, s);
    NoLabelNoHit(GotLabel, s);
    NoLabelNoHit(RatingLabel, s);
    NoSlashNoBareHit(s);
  }

  /** Texts without any pattern have no score. */
  lemma ExampleNoScore()
    ensures ExtractScore("").None?
    ensures ExtractScore("代码优秀").None?
  {
    NoScoreWithoutLabelOrSlash("");
    NoScoreWithoutLabelOrSlash("代码优秀");
  }
}
