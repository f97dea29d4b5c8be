/**
 * The quiz game of `sakamichiquiz/__init__.py`: which groups have a quiz
 * running (`groups_in_qna`, `qnadict` and the timeout job named after the
 * group), how an answer is matched against the stored solutions, and the
 * skip preference of `userskip_main` read back by `qnastart`.
 *
 * Database writes are results: a handler returns the question it hands to
 * `qnadataupdate` and the outcome it hands to `qnauserupdate`, and the
 * store's methods say what those do to the tables. Randomness is an input:
 * the draws of the random-question loop and its dice are given.
 */
module Quiz {
  import opened Wrappers
  import opened Text
  import opened QuizStore

  // ---------------------------------------------------------------------------
  // Matching an answer

  /** What `qnachecker` compares for the answer typed after `#`. */
  function NormalAnswer(answer: string, convert: string -> string): string
  {
    convert(Replace(Without(Lower(Strip(answer, Whitespace)), ' '), "\r\n", ""))
  }

  /** What `qnachecker` compares for one stored solution. */
  function NormalSolution(solution: string, convert: string -> string): string
  {
    convert(Without(Lower(solution), ' '))
  }

  /**
   * An answer is right when its normal form equals that of one of the
   * `|`-separated solutions; `convert` is the traditional-to-simplified
   * conversion.
   */
  predicate Accepts(answers: string, answer: string, convert: string -> string)
  {
    var solutions := Split(answers, '|');
    exists i :: 0 <= i < |solutions| && NormalAnswer(answer, convert) == NormalSolution(solutions[i], convert)
  }

  /** The loop of `qnachecker`: try the solutions in order and stop at the first match. */
  method CheckAnswer(answers: string, answer: string, convert: string -> string) returns (correct: bool)
    ensures correct <==> Accepts(answers, answer, convert)
  {
    var normal := NormalAnswer(answer, convert);
    var solutions := Split(answers, '|');
    for i := 0 to |solutions|
      invariant forall j :: 0 <= j < i ==> normal != NormalSolution(solutions[j], convert)
    {
      if normal == NormalSolution(solutions[i], convert) {
        return true;
      }
    }
    return false;
  }

  lemma {:induction false} WithoutAbsent(s: string, c: char)
    requires c !in s
    ensures Without(s, c) == s
    decreases |s|
  {
    if s != [] {
      WithoutAbsent(s[1..], c);
      assert [s[0]] + s[1..] == s;
    }
  }

  lemma {:induction false} WithoutOnly(s: string, c: char)
    requires forall i :: 0 <= i < |s| ==> s[i] == c
    ensures Without(s, c) == []
    decreases |s|
  {
    if s != [] {
      WithoutOnly(s[1..], c);
    }
  }

  /** Leading spaces vanish once spaces are deleted. */
  lemma SpacesBefore(s: string, k: nat)
    requires k <= |s| && forall i :: 0 <= i < k ==> s[i] == ' '
    ensures Without(Lower(s), ' ') == Without(Lower(s[k..]), ' ')
  {
    var a, x := s[..k], s[k..];
    assert s == a + x;
    LowerAppend(a, x);
    WithoutAppend(Lower(a), Lower(x), ' ');
    WithoutOnly(Lower(a), ' ');
  }

  /** Trailing spaces vanish once spaces are deleted. */
  lemma SpacesAfter(s: string, k: nat)
    requires k <= |s| && forall i :: k <= i < |s| ==> s[i] == ' '
    ensures Without(Lower(s), ' ') == Without(Lower(s[..k]), ' ')
  {
    var x, b := s[..k], s[k..];
    assert s == x + b;
    LowerAppend(x, b);
    WithoutAppend(Lower(x), Lower(b), ' ');
    WithoutOnly(Lower(b), ' ');
  }

  /** Spaces around a text without other white space disappear with the spaces inside. */
  lemma SpacesOnlyAround(s: string)
    requires forall i :: 0 <= i < |s| ==> s[i] in Whitespace ==> s[i] == ' '
    ensures Without(Lower(Strip(s, Whitespace)), ' ') == Without(Lower(s), ' ')
  {
    var l := LStrip(s, Whitespace);
    var k := |s| - |l|;
    forall i | 0 <= i < k ensures s[i] == ' ' {
      assert s[i] in Whitespace;
    }
    SpacesBefore(s, k);
    var r := RStrip(l, Whitespace);
    forall i | |r| <= i < |l| ensures l[i] == ' ' {
      assert l[i] == s[k + i] && l[i] in Whitespace;
    }
    SpacesAfter(l, |r|);
  }

  lemma LowerKeepsNoReturn(s: string)
    requires '\r' !in s
    ensures !Contains(Without(Lower(s), ' '), "\r\n")
  {
    assert '\r' !in Lower(s);
    WithoutSubset(Lower(s), ' ');
    AbsentFirst(Without(Lower(s), ' '), "\r\n");
  }

  lemma {:induction false} WithoutSubset(s: string, c: char)
    ensures forall x :: x in Without(s, c) ==> x in s
    decreases |s|
  {
    if s != [] {
      WithoutSubset(s[1..], c);
    }
  }

  /**
   * Typing a stored solution back, with any spaces around it and no other
   * white space, is accepted.
   */
  lemma StoredSolutionAccepted(answers: string, k: nat, typed: string, convert: string -> string)
    requires k < |Split(answers, '|')|
    requires forall i :: 0 <= i < |typed| ==> typed[i] in Whitespace ==> typed[i] == ' '
    requires Without(typed, ' ') == Without(Split(answers, '|')[k], ' ')
    requires '\r' !in typed
    ensures Accepts(answers, typed, convert)
  {
    var solution := Split(answers, '|')[k];
    SpacesOnlyAround(typed);
    LowerKeepsNoReturn(typed);
    ReplaceAbsent(Without(Lower(typed), ' '), "\r\n", "");
    LowerWithout(typed);
    LowerWithout(solution);
    assert NormalAnswer(typed, convert) == NormalSolution(solution, convert);
  }

  /** Lower-casing and deleting spaces commute. */
  lemma {:induction false} LowerWithout(s: string)
    ensures Without(Lower(s), ' ') == Lower(Without(s, ' '))
    decreases |s|
  {
    if s != [] {
      LowerWithout(s[1..]);
      assert Lower(s)[1..] == Lower(s[1..]);
      LowerAppend(if s[0] == ' ' then [] else [s[0]], Without(s[1..], ' '));
    }
  }

  // ---------------------------------------------------------------------------
  // The running quizzes

  /** The timeout job of a group is named `str(group_id)`. */
  function JobId(group: nat): string { NatToString(group) }

  /** `groups_in_qna` without its (first) entry for `group`. */
  function Drop(groups: seq<nat>, group: nat): (r: seq<nat>)
    requires group in groups
    ensures |r| == |groups| - 1
    ensures forall g :: g in groups && g != group ==> g in r
    ensures forall g :: g in r ==> g in groups
  {
    if groups[0] == group then groups[1..] else [groups[0]] + Drop(groups[1..], group)
  }

  lemma {:induction false} DropDistinct(groups: seq<nat>, group: nat)
    requires group in groups && NoDup(groups)
    ensures NoDup(Drop(groups, group)) && group !in Drop(groups, group)
    decreases |groups|
  {
    if groups[0] != group {
      DropDistinct(groups[1..], group);
      assert groups[0] !in groups[1..];
    } else {
      assert forall j :: 0 < j < |groups| ==> groups[j] != group;
    }
  }

  /** What `qnastart` ends with when it does not register a quiz. */
  datatype StartOutcome =
    | Started(question: Question)
    | AlreadyRunning              // the group has a quiz already: the command is ignored
    | BadSkipSetting              // `int()` of the stored preference raised
    | NoSuchQuestion              // "题目不存在或序号形式不合法"
    | StillDrawing                // the random draws given ran out before a usable question

  /** One pass of the random loop of `qnastart`: the question fetched (if any) and the skip die. */
  datatype Draw = Draw(question: Option<Question>, roll: int)

  /** A drawn question the loop keeps: found, not reported broken, and not skipped by the die. */
  predicate Usable(d: Draw, skip: seq<nat>, skipChance: int)
  {
    d.question.Some? && d.question.value.ifErr == 0 &&
    !(d.question.value.typ in skip && d.roll <= skipChance)
  }

  /** The random loop of `qnastart`: the first usable draw. */
  method DrawQuestion(draws: seq<Draw>, skip: seq<nat>, skipChance: int) returns (q: Option<Question>)
    ensures q.None? <==> forall i :: 0 <= i < |draws| ==> !Usable(draws[i], skip, skipChance)
    ensures q.Some? ==> exists i :: (0 <= i < |draws| && Usable(draws[i], skip, skipChance) &&
      draws[i].question == q && forall j :: 0 <= j < i ==> !Usable(draws[j], skip, skipChance))
    ensures q.Some? ==> q.value.ifErr == 0
  {
    var i := 0;
    while i < |draws|
      invariant 0 <= i <= |draws|
      invariant forall j :: 0 <= j < i ==> !Usable(draws[j], skip, skipChance)
    {
      var d := draws[i];
      if d.question.Some? {
        var question := d.question.value;
        if question.ifErr != 0 {
          i := i + 1;
          continue;
        }
        if question.typ in skip && d.roll <= skipChance {
          i := i + 1;
          continue;
        }
        return Some(question);
      }
      i := i + 1;
    }
    return None;
  }

  /** The question asked for by number: the argument must be decimal and name a question of the bank. */
  function RequestedQuestion(args: string, bank: map<nat, Question>): (r: Result<Question, StartOutcome>)
    ensures r.Success? <==> IsDecimal(args) && DecimalValue(args) in bank
    ensures r.Success? ==> r.value == bank[DecimalValue(args)]
    ensures r.Failure? ==> r.error == NoSuchQuestion
  {
    if IsDecimal(args) && DecimalValue(args) in bank then Success(bank[DecimalValue(args)])
    else Failure(NoSuchQuestion)
  }

  /**
   * `groups_in_qna`, `qnadict` and the armed timeout jobs: the groups with a
   * quiz running, each once, the question each is answering, and one job per
   * running group.
   */
  class QuizSessions {
    var groups: seq<nat>
    var questions: map<nat, Question>
    var jobs: set<string>

    ghost predicate Valid()
      reads this
    {
      NoDup(groups) &&
      (forall g :: g in groups <==> g in questions) &&
      jobs == set g | g in groups :: JobId(g)
    }

    constructor()
      ensures Valid() && groups == [] && questions == map[] && jobs == {}
    {
      groups, questions, jobs := [], map[], {};
    }

    /** Register a quiz for `group` (the end of `qnastart`); refused while the group has one. */
    method Start(group: nat, question: Question) returns (started: bool)
      requires Valid()
      modifies this
      ensures Valid()
      ensures started <==> group !in old(groups)
      ensures !started ==> groups == old(groups) && questions == old(questions) && jobs == old(jobs)
      ensures started ==> (groups == old(groups) + [group] && questions == old(questions)[group := question] &&
        jobs == old(jobs) + {JobId(group)})
    {
      if group in groups {
        return false;
      }
      groups := groups + [group];
      questions := questions[group := question];
      jobs := jobs + {JobId(group)};
      started := true;
    }

    /**
     * `qnastart`: refuse a group with a quiz running; read the requester's
     * skip preference (`None` when the user is unknown); then take the
     * question by number when an argument is given, else the first usable
     * random draw; then register it.
     */
    method QnaStart(group: nat, args: string, bank: map<nat, Question>, stored: Option<string>,
                    draws: seq<Draw>, skipChance: int) returns (outcome: StartOutcome)
      requires Valid()
      modifies this
      ensures Valid()
      ensures outcome == AlreadyRunning <==> group in old(groups)
      ensures outcome.Started? <==> groups == old(groups) + [group]
      ensures outcome.Started? ==> (questions == old(questions)[group := outcome.question] &&
        jobs == old(jobs) + {JobId(group)})
      ensures !outcome.Started? ==> groups == old(groups) && questions == old(questions) && jobs == old(jobs)
      ensures outcome.Started? && Strip(args, Whitespace) != "" ==>
        RequestedQuestion(Strip(args, Whitespace), bank) == Success(outcome.question)
      ensures outcome.Started? && Strip(args, Whitespace) == "" ==> outcome.question.ifErr == 0
      ensures outcome.Started? ==> SkipTypes(stored).Some?
      ensures outcome.Started? && Strip(args, Whitespace) == "" ==>
        exists i :: 0 <= i < |draws| && Usable(draws[i], SkipTypes(stored).value, skipChance) &&
          draws[i].question == Some(outcome.question) &&
          forall j :: 0 <= j < i ==> !Usable(draws[j], SkipTypes(stored).value, skipChance)
      ensures group !in old(groups) ==> (outcome == BadSkipSetting <==> SkipTypes(stored).None?)
      ensures group !in old(groups) && SkipTypes(stored).Some? && Strip(args, Whitespace) != "" ==>
        (outcome == NoSuchQuestion <==> RequestedQuestion(Strip(args, Whitespace), bank).Failure?)
      ensures group !in old(groups) && SkipTypes(stored).Some? && Strip(args, Whitespace) == "" ==>
        (outcome == StillDrawing <==> forall i :: 0 <= i < |draws| ==> !Usable(draws[i], SkipTypes(stored).value, skipChance))
    {
      if group in groups {
        return AlreadyRunning;
      }
      var skip := ReadSkipTypes(stored);
      if skip.None? {
        return BadSkipSetting;
      }
      var request := Strip(args, Whitespace);
      var question: Question;
      if request != "" {
        var found := RequestedQuestion(request, bank);
        if found.Failure? {
          return NoSuchQuestion;
        }
        question := found.value;
      } else {
        var drawn := DrawQuestion(draws, skip.value, skipChance);
        if drawn.None? {
          return StillDrawing;
        }
        question := drawn.value;
      }
      var started := Start(group, question);
      outcome := Started(question);
    }

    /** `qnaclear`: forget the group's quiz and its timeout job. */
    method Clear(group: nat)
      requires Valid() && group in groups
      modifies this
      ensures Valid()
      ensures groups == Drop(old(groups), group) && group !in groups
      ensures questions == old(questions) - {group}
      ensures jobs == old(jobs) - {JobId(group)}
    {
      DropDistinct(groups, group);
      var before := groups;
      groups := Drop(groups, group);
      questions := questions - {group};
      jobs := jobs - {JobId(group)};
      forall g | g in groups
        ensures JobId(g) in jobs
      {
        NatToStringInjective(g, group);
      }
      forall job | job in jobs
        ensures exists g :: g in groups && job == JobId(g)
      {
        var g :| g in before && job == JobId(g);
        assert g != group;
      }
    }

    /**
     * An answer after `#` (`qnacomplete` calling `qnachecker`): in a group
     * with a quiz, the question's answer count goes up, the user's counter is
     * updated with the verdict, and a right answer also counts as right, ends
     * the quiz and saves the question.
     */
    method Answer(group: nat, answer: string, convert: string -> string)
      returns (correct: bool, userUpdate: Option<bool>, saved: Option<Question>)
      requires Valid()
      modifies this
      ensures Valid()
      ensures group !in old(questions) ==> (!correct && userUpdate.None? && saved.None? &&
        groups == old(groups) && questions == old(questions) && jobs == old(jobs))
      ensures group in old(questions) ==> (correct == Accepts(old(questions)[group].answers, answer, convert) &&
        userUpdate == Some(correct))
      ensures group in old(questions) && !correct ==> (saved.None? &&
        groups == old(groups) && jobs == old(jobs) &&
        questions == old(questions)[group := old(questions)[group].(counttotal := old(questions)[group].counttotal + 1)])
      ensures group in old(questions) && correct ==> (
        saved == Some(old(questions)[group].(counttotal := old(questions)[group].counttotal + 1,
                                             countright := old(questions)[group].countright + 1)) &&
        groups == Drop(old(groups), group) && questions == old(questions) - {group} &&
        jobs == old(jobs) - {JobId(group)})
    {
      if group !in questions {
        return false, None, None;
      }
      CountAttempt(group);
      var q := questions[group];
      correct := CheckAnswer(q.answers, answer, convert);
      userUpdate := Some(correct);
      if !correct {
        return correct, userUpdate, None;
      }
      UpdateThenRemove(old(questions), group, q);
      Clear(group);
      saved := Some(q.(countright := q.countright + 1));
    }

    /** The answer count of the group's question goes up by one; nothing else changes. */
    method CountAttempt(group: nat)
      requires Valid() && group in questions
      modifies this
      ensures Valid()
      ensures groups == old(groups) && jobs == old(jobs)
      ensures questions == old(questions)[group := old(questions)[group].(counttotal := old(questions)[group].counttotal + 1)]
    {
      var q := questions[group];
      questions := questions[group := q.(counttotal := q.counttotal + 1)];
    }

    /** Removing a key forgets what was last written under it. */
    static lemma UpdateThenRemove(m: map<nat, Question>, k: nat, v: Question)
      ensures m[k := v] - {k} == m - {k}
    {
    }

    /** `qnacancel`: save the question as it stands and end the quiz; no quiz, nothing changes. */
    method Cancel(group: nat) returns (saved: Option<Question>)
      requires Valid()
      modifies this
      ensures Valid()
      ensures group !in old(groups) ==> (saved.None? &&
        groups == old(groups) && questions == old(questions) && jobs == old(jobs))
      ensures group in old(groups) ==> (saved == Some(old(questions)[group]) &&
        groups == Drop(old(groups), group) && questions == old(questions) - {group} &&
        jobs == old(jobs) - {JobId(group)})
    {
      if group !in groups {
        return None;
      }
      saved := Some(questions[group]);
      Clear(group);
    }

    /** `qnaerror`: mark the question broken, count the attempt, save it and end the quiz. */
    method ReportError(group: nat) returns (saved: Option<Question>)
      requires Valid()
      modifies this
      ensures Valid()
      ensures group !in old(groups) ==> (saved.None? &&
        groups == old(groups) && questions == old(questions) && jobs == old(jobs))
      ensures group in old(groups) ==> (
        saved == Some(old(questions)[group].(ifErr := 1, counttotal := old(questions)[group].counttotal + 1)) &&
        groups == Drop(old(groups), group) && questions == old(questions) - {group} &&
        jobs == old(jobs) - {JobId(group)})
    {
      if group !in groups {
        return None;
      }
      var q := questions[group];
      q := q.(ifErr := 1, counttotal := q.counttotal + 1);
      saved := Some(q);
      Clear(group);
    }

    /** `qnatimout`: the group's job fired; save the question and end the quiz. */
    method Timeout(group: nat) returns (saved: Question)
      requires Valid() && JobId(group) in jobs
      modifies this
      ensures Valid()
      ensures group in old(groups) && saved == old(questions)[group]
      ensures groups == Drop(old(groups), group) && questions == old(questions) - {group} &&
        jobs == old(jobs) - {JobId(group)}
    {
      var g :| g in groups && JobId(group) == JobId(g);
      NatToStringInjective(g, group);
      saved := questions[group];
      Clear(group);
    }
  }

  // ---------------------------------------------------------------------------
  // The skip preference

  const SkipChoices: set<string> := {"2", "4", "0"}

  /** The words of the `我想跳过` argument. */
  function SkipTokens(raw: string): seq<string>
  {
    Split(Strip(raw, {' '}), ' ')
  }

  /**
   * `userskip_main`: every word must be "2", "4" or "0"; "0" clears the
   * preference to "", otherwise the words are stored joined by "|".
   */
  function SkipPreference(raw: string): Option<string>
  {
    var tokens := SkipTokens(raw);
    if AllChoices(tokens) then Some(Stored(tokens)) else None
  }

  predicate AllChoices(tokens: seq<string>)
  {
    forall i :: 0 <= i < |tokens| ==> tokens[i] in SkipChoices
  }

  /** The text `userskip_main` stores for accepted words. */
  function Stored(tokens: seq<string>): string
  {
    if "0" in tokens then "" else Join(tokens, '|')
  }

  /** The loop of `userskip_main`; `None` is the "not a number or out of range" reply. */
  method UserSkip(raw: string) returns (r: Option<string>)
    ensures r == SkipPreference(raw)
  {
    r := ChooseSkips(SkipTokens(raw));
  }

  /** The words checked one by one, as the loop of `userskip_main` does. */
  method ChooseSkips(tokens: seq<string>) returns (r: Option<string>)
    ensures r.Some? <==> AllChoices(tokens)
    ensures r.Some? ==> r.value == Stored(tokens)
  {
    var chosen: seq<string> := [];
    for i := 0 to |tokens|
      invariant chosen == tokens[..i]
      invariant forall j :: 0 <= j < i ==> tokens[j] in SkipChoices
    {
      var token := tokens[i];
      if !(IsDecimal(token) && token in SkipChoices) {
        assert !AllChoices(tokens) by {
          ChoicesAreDecimal(token);
        }
        return None;
      }
      chosen := chosen + [token];
    }
    assert chosen == tokens;
    if "0" in chosen {
      return Some("");
    }
    r := Some(Join(chosen, '|'));
  }

  lemma ChoicesAreDecimal(t: string)
    ensures t in SkipChoices ==> IsDecimal(t)
  {
  }

  /** `int()` of each piece, or `None` at the first piece that is not a number. */
  function Numbers(pieces: seq<string>): (r: Option<seq<nat>>)
    ensures r.Some? ==> |r.value| == |pieces|
    ensures r.Some? <==> forall i :: 0 <= i < |pieces| ==> IsDecimal(pieces[i])
    ensures r.Some? ==> forall i :: 0 <= i < |pieces| ==> r.value[i] == DecimalValue(pieces[i])
  {
    if pieces == [] then Some([])
    else
      var init := Numbers(pieces[..|pieces| - 1]);
      var last := pieces[|pieces| - 1];
      if init.Some? && IsDecimal(last) then Some(init.value + [DecimalValue(last)]) else None
  }

  /** How `qnastart` reads the stored preference: empty or missing means none. */
  function SkipTypes(stored: Option<string>): Option<seq<nat>>
  {
    if stored.None? || stored.value == "" then Some([]) else Numbers(Split(stored.value, '|'))
  }

  /** The loop of `qnastart` over the stored preference. */
  method ReadSkipTypes(stored: Option<string>) returns (r: Option<seq<nat>>)
    ensures r == SkipTypes(stored)
  {
    if stored.None? || stored.value == "" {
      return Some([]);
    }
    var pieces := Split(stored.value, '|');
    var types: seq<nat> := [];
    for i := 0 to |pieces|
      invariant Numbers(pieces[..i]) == Some(types)
    {
      assert pieces[..i + 1][..i] == pieces[..i];
      if !IsDecimal(pieces[i]) {
        NumbersFailureSticks(pieces, i + 1);
        return None;
      }
      types := types + [DecimalValue(pieces[i])];
    }
    assert pieces[..|pieces|] == pieces;
    r := Some(types);
  }

  lemma {:induction false} NumbersFailureSticks(pieces: seq<string>, k: nat)
    requires k <= |pieces| && Numbers(pieces[..k]).None?
    ensures Numbers(pieces).None?
    decreases |pieces| - k
  {
    if k < |pieces| {
      assert pieces[..k + 1][..k] == pieces[..k];
      NumbersFailureSticks(pieces, k + 1);
    } else {
      assert pieces[..k] == pieces;
    }
  }

  /** The stored numbers of types 2 and 4 read back as those types. */
  lemma {:induction false} TypeNumbers(tokens: seq<string>)
    requires forall i :: 0 <= i < |tokens| ==> tokens[i] == "2" || tokens[i] == "4"
    ensures Numbers(tokens).Some?
    ensures forall i :: 0 <= i < |tokens| ==> Numbers(tokens).value[i] == (if tokens[i] == "2" then 2 else 4)
  {
    assert DecimalValue("2") == 2 by { assert "2"[..0] == ""; }
    assert DecimalValue("4") == 4 by { assert "4"[..0] == ""; }
    assert forall i :: 0 <= i < |tokens| ==> IsDecimal(tokens[i]);
  }

  /** Types joined by "|" split back into the same types. */
  lemma StoredTypesReadBack(tokens: seq<string>)
    requires |tokens| >= 1
    requires forall i :: 0 <= i < |tokens| ==> tokens[i] == "2" || tokens[i] == "4"
    ensures SkipTypes(Some(Join(tokens, '|'))) == Numbers(tokens)
  {
    JoinStartsWithFirst(tokens, '|');
    assert forall i :: 0 <= i < |tokens| ==> '|' !in tokens[i];
    JoinSplit(tokens, '|');
  }

  /**
   * Whatever `userskip_main` stores, `qnastart` reads back without error:
   * nothing after a "0", else the chosen types in order, each 2 or 4.
   */
  lemma SkipPreferenceReadsBack(raw: string)
    requires SkipPreference(raw).Some?
    ensures SkipTypes(SkipPreference(raw)).Some?
    ensures "0" in SkipTokens(raw) ==> SkipTypes(SkipPreference(raw)).value == []
    ensures "0" !in SkipTokens(raw) ==>
      |SkipTypes(SkipPreference(raw)).value| == |SkipTokens(raw)| &&
      forall i :: 0 <= i < |SkipTokens(raw)| ==>
        SkipTypes(SkipPreference(raw)).value[i] == (if SkipTokens(raw)[i] == "2" then 2 else 4)
  {
    var tokens := SkipTokens(raw);
    assert SkipPreference(raw) == Some(Stored(tokens));
    StoredReadsBack(tokens);
  }

  lemma StoredReadsBack(tokens: seq<string>)
    requires |tokens| >= 1 && AllChoices(tokens)
    ensures SkipTypes(Some(Stored(tokens))).Some?
    ensures "0" in tokens ==> SkipTypes(Some(Stored(tokens))).value == []
    ensures "0" !in tokens ==>
      |SkipTypes(Some(Stored(tokens))).value| == |tokens| &&
      forall i :: 0 <= i < |tokens| ==>
        SkipTypes(Some(Stored(tokens))).value[i] == (if tokens[i] == "2" then 2 else 4)
  {
    if "0" !in tokens {
      assert forall i :: 0 <= i < |tokens| ==> tokens[i] in SkipChoices && tokens[i] != "0";
      StoredTypesReadBack(tokens);
      TypeNumbers(tokens);
    }
  }

  /** A join is at least as long as its first piece. */
  lemma {:induction false} JoinStartsWithFirst(parts: seq<string>, sep: char)
    requires |parts| >= 1
    ensures |Join(parts, sep)| >= |parts[0]|
    decreases |parts|
  {
    if |parts| > 1 {
      JoinStartsWithFirst(parts[..|parts| - 1], sep);
    }
  }
}
