/**
 * The question bank behind the quiz: the `questions`, `questions_bak` and
 * `users` tables of `SQLServer`, held as maps keyed by the primary key.
 * A missing row is what `_select` reports as `IndexError`; the SQL a method
 * sends is built as text where the source builds it (the `UPDATE ... SET`
 * list of `edit`), and its effect on the tables is stated as map updates.
 */
module QuizStore {
  import opened Wrappers
  import opened Text

  /** A column value as the MySQL driver passes it. */
  datatype Value = Str(s: string) | Int(i: int) | Null

  /** One row of `questions` (or `questions_bak`), by column name. */
  type Row = map<string, Value>

  /** One row of `users`: answers right, answers in total, and the stored skip preference. */
  datatype User = User(correct: int, total: int, skiptype: Option<string>)

  /**
   * `IndexError` is an empty result or an unknown id; `SqlError` is a
   * statement the server refuses; `BadValue` is `int(v)` failing inside `edit`.
   */
  datatype StoreError = IndexError | SqlError | BadValue(key: string)

  /** The quiz's `Question` model, without its `create_time`. */
  datatype Question = Question(
    id: int, typ: int, content: string, answers: string, files: Option<string>,
    analysis: Option<string>, analfiles: Option<string>, author: int,
    countright: int, counttotal: int, sakagroup: int, ifErr: int)

  function OptionalText(o: Option<string>): Value
  {
    if o.Some? then Str(o.value) else Null
  }

  /** `dict(question)`: every field, in declaration order. */
  function Record(q: Question): seq<(string, Value)>
  {
    [("id", Int(q.id)), ("typ", Int(q.typ)), ("content", Str(q.content)),
     ("answers", Str(q.answers)), ("files", OptionalText(q.files)),
     ("analysis", OptionalText(q.analysis)), ("analfiles", OptionalText(q.analfiles)),
     ("author", Int(q.author)), ("countright", Int(q.countright)),
     ("counttotal", Int(q.counttotal)), ("sakagroup", Int(q.sakagroup)),
     ("if_err", Int(q.ifErr))]
  }

  // ---------------------------------------------------------------------------
  // edit: the SET list

  /** Columns `edit` passes through unchanged. */
  const PlainColumns: set<string> :=
    {"content", "answers", "files", "analysis", "analfiles", "author", "countright", "counttotal", "if_err"}

  /** Columns `edit` passes as `str(int(value))`. */
  const EnumColumns: set<string> := {"typ", "sakagroup"}

  /** `str(int(v))`, or `None` where `int()` raises. */
  function IntText(v: Value): Option<string>
  {
    match v
    case Int(i) => Some(IntToString(i))
    case Str(s) => if IsDecimal(s) then Some(NatToString(DecimalValue(s))) else None
    case Null => None
  }

  function Clause(key: string): string { key + "= %s," }

  /**
   * The SET list (still ending in its comma) and the arguments `edit` builds
   * from the items of `record`; the first item whose `int()` fails ends it.
   */
  function SetList(record: seq<(string, Value)>): Result<(string, seq<Value>), StoreError>
    decreases |record|
  {
    if record == [] then Success(("", []))
    else
      match SetList(record[..|record| - 1])
      case Failure(e) => Failure(e)
      case Success(built) => AddItem(built, record[|record| - 1])
  }

  /** One pass of the loop in `edit`. */
  function AddItem(built: (string, seq<Value>), item: (string, Value)): Result<(string, seq<Value>), StoreError>
  {
    var (keystr, args) := built;
    var (key, value) := item;
    if key in PlainColumns then Success((keystr + Clause(key), args + [value]))
    else if key in EnumColumns then
      match IntText(value)
      case None => Failure(BadValue(key))
      case Some(t) => Success((keystr + Clause(key), args + [Str(t)]))
    else Success((keystr, args))
  }

  /** `keystr[0:-1]`. */
  function DropLast(s: string): string
  {
    if s == [] then [] else s[..|s| - 1]
  }

  function UpdateCommand(keystr: string): string
  {
    "UPDATE questions SET " + DropLast(keystr) + " WHERE id = %s"
  }

  /** The row after the assignments of `record` that `edit` passes on. */
  function Assigned(row: Row, record: seq<(string, Value)>): Row
    decreases |record|
  {
    if record == [] then row
    else
      var before := Assigned(row, record[..|record| - 1]);
      var (key, value) := record[|record| - 1];
      if key in PlainColumns then before[key := value]
      else if key in EnumColumns && IntText(value).Some? then before[key := Str(IntText(value).value)]
      else before
  }

  /** Once an item fails, the whole SET list fails with that error. */
  lemma {:induction false} SetListFailureSticks(record: seq<(string, Value)>, k: nat)
    requires k <= |record| && SetList(record[..k]).Failure?
    ensures SetList(record) == SetList(record[..k])
    decreases |record| - k
  {
    if k < |record| {
      assert record[..k + 1][..k] == record[..k];
      SetListFailureSticks(record, k + 1);
    } else {
      assert record[..k] == record;
    }
  }

  /** Number of occurrences of `c` in `s`. */
  function Count(s: string, c: char): nat
  {
    if s == [] then 0 else Count(s[..|s| - 1], c) + (if s[|s| - 1] == c then 1 else 0)
  }

  lemma {:induction false} CountAppend(a: string, b: string, c: char)
    ensures Count(a + b, c) == Count(a, c) + Count(b, c)
    decreases |b|
  {
    if b == [] {
      assert a + b == a;
    } else {
      assert (a + b)[..|a + b| - 1] == a + b[..|b| - 1];
      CountAppend(a, b[..|b| - 1], c);
    }
  }

  lemma {:induction false} CountAbsent(s: string, c: char)
    requires c !in s
    ensures Count(s, c) == 0
    decreases |s|
  {
    if s != [] {
      CountAbsent(s[..|s| - 1], c);
    }
  }

  lemma CountOne(d: char, c: char)
    ensures Count([d], c) == if d == c then 1 else 0
  {
    assert [d][..0] == [];
  }

  /** `"%s"` followed by text without `%` holds one placeholder. */
  lemma PlaceholderThen(before: string, after: string)
    requires '%' !in before && '%' !in after
    ensures Count(before + "%s" + after, '%') == 1
  {
    assert before + "%s" + after == before + ['%'] + ['s'] + after;
    CountAbsent(before, '%');
    CountAbsent(after, '%');
    CountOne('%', '%');
    CountOne('s', '%');
    CountAppend(before, ['%'], '%');
    CountAppend(before + ['%'], ['s'], '%');
    CountAppend(before + ['%'] + ['s'], after, '%');
  }

  lemma ClauseHasOnePlaceholder(key: string)
    requires key in PlainColumns || key in EnumColumns
    ensures Count(Clause(key), '%') == 1
  {
    assert '%' !in key;
    assert Clause(key) == key + "= " + "%s" + ",";
    PlaceholderThen(key + "= ", ",");
  }

  /** Every placeholder written into the SET list has its argument, and the list ends in its comma. */
  lemma {:induction false} SetListPlaceholders(record: seq<(string, Value)>)
    requires SetList(record).Success?
    ensures Count(SetList(record).value.0, '%') == |SetList(record).value.1|
    ensures SetList(record).value.0 != [] ==> SetList(record).value.0[|SetList(record).value.0| - 1] == ','
    decreases |record|
  {
    if record != [] {
      SetListPlaceholders(record[..|record| - 1]);
      var (keystr, args) := SetList(record[..|record| - 1]).value;
      var (key, value) := record[|record| - 1];
      if key in PlainColumns || key in EnumColumns {
        ClauseHasOnePlaceholder(key);
        CountAppend(keystr, Clause(key), '%');
      }
    }
  }

  /**
   * The statement `edit` sends has exactly as many `%s` placeholders as
   * arguments: one per whitelisted item, then the record id last.
   */
  lemma UpdatePlaceholdersMatchArguments(record: seq<(string, Value)>, recordid: int)
    requires SetList(record).Success?
    ensures Count(UpdateCommand(SetList(record).value.0), '%') == |SetList(record).value.1 + [Int(recordid)]|
    ensures (SetList(record).value.1 + [Int(recordid)])[|SetList(record).value.1|] == Int(recordid)
  {
    var (keystr, args) := SetList(record).value;
    assert Count(DropLast(keystr), '%') == |args| by {
      SetListPlaceholders(record);
      if keystr != [] {
        assert keystr == DropLast(keystr) + [','];
        CountAppend(DropLast(keystr), [','], '%');
      }
    }
    UpdateCommandPlaceholders(keystr);
  }

  /** The statement around the SET list adds one placeholder, the record id's. */
  lemma UpdateCommandPlaceholders(keystr: string)
    ensures Count(UpdateCommand(keystr), '%') == Count(DropLast(keystr), '%') + 1
  {
    assert Count("UPDATE questions SET ", '%') == 0 && Count(" WHERE id = %s", '%') == 1 by {
      assert " WHERE id = %s" == " WHERE id = " + "%s" + "";
      PlaceholderThen(" WHERE id = ", "");
      CountAbsent("UPDATE questions SET ", '%');
    }
    CountAround("UPDATE questions SET ", DropLast(keystr), " WHERE id = %s");
  }

  /** A body between a head without placeholders and a tail with one gains exactly one. */
  lemma CountAround(head: string, body: string, tail: string)
    requires Count(head, '%') == 0 && Count(tail, '%') == 1
    ensures Count(head + body + tail, '%') == Count(body, '%') + 1
  {
    CountAppend(head, body, '%');
    CountAppend(head + body, tail, '%');
  }

  /** A key outside the two whitelists never reaches the SET list, so `id` and `create_time` are never rewritten. */
  lemma {:induction false} AssignedKeepsOtherColumns(row: Row, record: seq<(string, Value)>, key: string)
    requires key !in PlainColumns && key !in EnumColumns
    ensures key in Assigned(row, record) <==> key in row
    ensures key in row ==> Assigned(row, record)[key] == row[key]
    decreases |record|
  {
    if record != [] {
      AssignedKeepsOtherColumns(row, record[..|record| - 1], key);
    }
  }

  /** A whitelisted item of `record` not overridden later sets its column. */
  lemma {:induction false} AssignedSetsLast(row: Row, record: seq<(string, Value)>, i: nat)
    requires i < |record| && record[i].0 in PlainColumns
    requires forall j :: i < j < |record| ==> record[j].0 != record[i].0
    ensures record[i].0 in Assigned(row, record) && Assigned(row, record)[record[i].0] == record[i].1
    decreases |record|
  {
    if i < |record| - 1 {
      AssignedSetsLast(row, record[..|record| - 1], i);
    }
  }

  /**
   * Saving a question back with `edit(question.id, dict(question))` writes
   * its three counters and its answers into the row and leaves its id alone.
   */
  lemma SavedQuestionCounters(row: Row, q: Question)
    ensures Column(Assigned(row, Record(q)), "counttotal") == Int(q.counttotal)
    ensures Column(Assigned(row, Record(q)), "countright") == Int(q.countright)
    ensures Column(Assigned(row, Record(q)), "if_err") == Int(q.ifErr)
    ensures Column(Assigned(row, Record(q)), "answers") == Str(q.answers)
    ensures Column(Assigned(row, Record(q)), "id") == Column(row, "id")
  {
    var r := Record(q);
    AssignedSetsLast(row, r, 9);
    AssignedSetsLast(row, r, 8);
    AssignedSetsLast(row, r, 11);
    AssignedSetsLast(row, r, 3);
    AssignedKeepsOtherColumns(row, r, "id");
  }

  /** Every item for an enum column holds a value `int()` accepts. */
  predicate EnumsConvert(record: seq<(string, Value)>)
  {
    forall i :: 0 <= i < |record| && record[i].0 in EnumColumns ==> IntText(record[i].1).Some?
  }

  /** `edit` gets through a record whose enum items convert, and any whitelisted plain item writes a clause. */
  lemma {:induction false} SetListSucceeds(record: seq<(string, Value)>)
    requires EnumsConvert(record)
    ensures SetList(record).Success?
    ensures forall i :: 0 <= i < |record| && record[i].0 in PlainColumns ==> SetList(record).value.0 != ""
    decreases |record|
  {
    if record != [] {
      var init := record[..|record| - 1];
      assert forall j :: 0 <= j < |init| ==> init[j] == record[j];
      SetListSucceeds(init);
    }
  }

  /** `dict(question)` always passes `edit`'s conversions and names at least one column. */
  lemma RecordAccepted(q: Question)
    ensures SetList(Record(q)).Success? && SetList(Record(q)).value.0 != ""
  {
    var r := Record(q);
    assert EnumsConvert(r) by {
      assert forall i :: 0 <= i < |r| ==> r[i].1.Int? || r[i].0 !in EnumColumns;
    }
    assert r[2].0 in PlainColumns;
    SetListSucceeds(r);
  }

  // ---------------------------------------------------------------------------
  // users: ranks

  /** A column of a row, NULL when the row lacks it. */
  function Column(row: Row, key: string): Value
  {
    if key in row then row[key] else Null
  }

  /** `rank() over (order by total desc)`: one more than the users with a greater total. */
  function TotalRank(users: map<int, User>, total: int): nat
  {
    1 + |set u | u in users && users[u].total > total|
  }

  /** Users who answered more than 20 times take part in the accuracy ranking. */
  predicate Ranked(x: User) { x.total > 20 }

  /** `a.correct / a.total > b.correct / b.total`, compared exactly. */
  predicate MoreAccurate(a: User, b: User)
    requires a.total > 0 && b.total > 0
  {
    a.correct * b.total > b.correct * a.total
  }

  /** `rank() over (order by (correct/total) desc)` among the users with more than 20 answers. */
  function AccuracyRank(users: map<int, User>, me: User): nat
    requires Ranked(me)
  {
    1 + |set u | u in users && Ranked(users[u]) && MoreAccurate(users[u], me)|
  }

  /** The two ranks `get_user_info` reports: a row of two ranks, or `("-", "-")` when the join finds none. */
  datatype Ranks = Ranks(byTotal: nat, byAccuracy: nat) | Unranked

  function RanksOf(users: map<int, User>, qq: int): Ranks
    requires qq in users
  {
    var me := users[qq];
    if Ranked(me) then Ranks(TotalRank(users, me.total), AccuracyRank(users, me)) else Unranked
  }

  /** `get_user_info`'s answer: the user row followed by the two ranks. */
  datatype UserInfo = UserInfo(qq: int, correct: int, total: int, skiptype: Option<string>, ranks: Ranks)

  lemma ProperSubsetSmaller(a: set<int>, b: set<int>, x: int)
    requires a <= b && x in b && x !in a
    ensures |a| < |b|
  {
    var d := b - a;
    assert x in d;
    assert b == a + d && a * d == {};
  }

  /** A user with more answers ranks strictly ahead of one with fewer. */
  lemma TotalRankOrders(users: map<int, User>, a: int, b: int)
    requires a in users && b in users && users[a].total > users[b].total
    ensures TotalRank(users, users[a].total) < TotalRank(users, users[b].total)
  {
    var above := set u | u in users && users[u].total > users[a].total;
    var aboveB := set u | u in users && users[u].total > users[b].total;
    ProperSubsetSmaller(above, aboveB, a);
  }

  /** A ranked user who is more accurate than another ranked user is ranked strictly ahead of them. */
  lemma AccuracyRankOrders(users: map<int, User>, a: int, b: int)
    requires a in users && b in users && Ranked(users[a]) && Ranked(users[b])
    requires MoreAccurate(users[a], users[b])
    ensures AccuracyRank(users, users[a]) < AccuracyRank(users, users[b])
  {
    var x, y := users[a], users[b];
    var above := set u | u in users && Ranked(users[u]) && MoreAccurate(users[u], x);
    var aboveB := set u | u in users && Ranked(users[u]) && MoreAccurate(users[u], y);
    forall u | u in above
      ensures u in aboveB
    {
      var z := users[u];
      assert z.correct * x.total > x.correct * z.total;
      assert x.correct * y.total > y.correct * x.total;
      assert z.correct * x.total * y.total > x.correct * z.total * y.total;
      assert x.correct * y.total * z.total > y.correct * x.total * z.total;
      assert z.correct * y.total * x.total > y.correct * z.total * x.total;
    }
    ProperSubsetSmaller(above, aboveB, a);
  }

  /** Nobody answered more often than a user with the largest total, so that user is first. */
  lemma MostAnswersRanksFirst(users: map<int, User>, a: int)
    requires a in users && forall u :: u in users ==> users[u].total <= users[a].total
    ensures TotalRank(users, users[a].total) == 1
  {
    var above := set u | u in users && users[u].total > users[a].total;
    assert forall u :: u !in above;
    assert above == {};
  }

  // ---------------------------------------------------------------------------
  // The tables

  /** The largest id of a non-empty table. */
  lemma {:induction false} LargestKey<V>(table: map<nat, V>) returns (m: nat)
    requires table != map[]
    ensures m in table && forall k :: k in table ==> k <= m
    decreases |table|
  {
    assert table.Keys != {};
    var x :| x in table.Keys;
    var rest := table - {x};
    if rest != map[] {
      var n := LargestKey(rest);
      m := if x > n then x else n;
      forall k | k in table
        ensures k <= m
      {
        if k != x {
          assert k in rest;
        }
      }
    } else {
      m := x;
    }
  }

  /** `SQLServer`: the three tables and the two counters it keeps about `questions`. */
  class QuestionStore {
    var questions: map<nat, Row>
    var backup: map<nat, Row>
    var users: map<int, User>
    var lastid: int
    var totl: int

    /** `__init__`: connect, then read the table totals. */
    constructor(questions0: map<nat, Row>, backup0: map<nat, Row>, users0: map<int, User>)
      ensures questions == questions0 && backup == backup0 && users == users0
      ensures totl == |questions0.Keys|
      ensures questions0 == map[] ==> lastid == 0
      ensures questions0 != map[] ==> lastid in questions0 && forall k :: k in questions0 ==> k <= lastid
    {
      questions, backup, users := questions0, backup0, users0;
      lastid, totl := 0, 0;
      new;
      Total();
    }

    /**
     * `total`: the number of questions, and the largest id when there is one
     * (an empty table leaves `lastid` as it was).
     */
    method Total()
      modifies this
      ensures questions == old(questions) && backup == old(backup) && users == old(users)
      ensures totl == |questions.Keys|
      ensures questions == map[] ==> lastid == old(lastid)
      ensures questions != map[] ==> lastid in questions && forall k :: k in questions ==> k <= lastid
    {
      totl := |questions.Keys|;
      if questions != map[] {
        var largest := LargestKey(questions);
        var m :| m in questions && forall k :: k in questions ==> k <= m;
        lastid := m;
      }
    }

    /** `_cursor_fetchbyid`: the row, or `IndexError` when the id is not in the table. */
    method Fetch(recordid: int) returns (r: Result<Row, StoreError>)
      ensures r.Success? <==> recordid in questions
      ensures r.Success? ==> r.value == questions[recordid]
      ensures r.Failure? ==> r.error == IndexError
    {
      if recordid in questions {
        r := Success(questions[recordid]);
      } else {
        r := Failure(IndexError);
      }
    }

    /**
     * `edit`: check the row exists, build the SET list item by item, then run
     * the UPDATE. An empty SET list is a statement the server refuses.
     * On success `sent` is the statement and its arguments.
     */
    method Edit(recordid: int, record: seq<(string, Value)>) returns (r: Result<(string, seq<Value>), StoreError>)
      modifies this
      ensures backup == old(backup) && users == old(users) && lastid == old(lastid) && totl == old(totl)
      ensures recordid !in old(questions) ==> r == Failure(IndexError) && questions == old(questions)
      ensures recordid in old(questions) && SetList(record).Failure? ==>
        r == Failure(SetList(record).error) && questions == old(questions)
      ensures recordid in old(questions) && SetList(record).Success? && SetList(record).value.0 == "" ==>
        r == Failure(SqlError) && questions == old(questions)
      ensures recordid in old(questions) && SetList(record).Success? && SetList(record).value.0 != "" ==>
        r == Success((UpdateCommand(SetList(record).value.0), SetList(record).value.1 + [Int(recordid)])) &&
        questions == old(questions)[recordid := Assigned(old(questions)[recordid], record)]
    {
      var found := Fetch(recordid);
      if found.Failure? {
        return Failure(IndexError);
      }
      var keystr, args := "", [];
      var row := questions[recordid];
      for i := 0 to |record|
        invariant SetList(record[..i]) == Success((keystr, args))
        invariant row == Assigned(questions[recordid], record[..i])
      {
        assert record[..i + 1][..i] == record[..i];
        var (key, value) := record[i];
        if key in PlainColumns {
          keystr := keystr + Clause(key);
          args := args + [value];
          row := row[key := value];
        } else if key in EnumColumns {
          var t := IntText(value);
          if t.None? {
            SetListFailureSticks(record, i + 1);
            return Failure(BadValue(key));
          }
          keystr := keystr + Clause(key);
          args := args + [Str(t.value)];
          row := row[key := Str(t.value)];
        }
      }
      assert record[..|record|] == record;
      if keystr == "" {
        return Failure(SqlError);
      }
      questions := questions[recordid := row];
      r := Success((UpdateCommand(keystr), args + [Int(recordid)]));
    }

    /**
     * `remove`: copy the row into `questions_bak`, then delete it. An id
     * already archived breaks the archive's primary key and the copy fails,
     * so nothing is deleted.
     */
    method Remove(recordid: int) returns (r: Result<bool, StoreError>)
      modifies this
      ensures users == old(users) && lastid == old(lastid) && totl == old(totl)
      ensures recordid !in old(questions) ==> r == Failure(IndexError)
      ensures recordid in old(questions) && recordid in old(backup) ==> r == Failure(SqlError)
      ensures r.Failure? ==> questions == old(questions) && backup == old(backup)
      ensures r.Success? <==> recordid in old(questions) && recordid !in old(backup)
      ensures r.Success? ==> (r.value &&
        backup == old(backup)[recordid := old(questions)[recordid]] &&
        questions == old(questions) - {recordid})
    {
      var found := Fetch(recordid);
      if found.Failure? {
        return Failure(IndexError);
      }
      if recordid in backup {
        return Failure(SqlError);
      }
      backup := backup[recordid := found.value];
      questions := questions - {recordid};
      r := Success(true);
    }

    /**
     * `update_user_counter`: an unknown user is first inserted as `(qq, 0, 0)`;
     * then the total always goes up by one and the right answers iff `state`.
     */
    method UpdateUserCounter(qq: int, state: bool)
      modifies this
      ensures questions == old(questions) && backup == old(backup) && lastid == old(lastid) && totl == old(totl)
      ensures users.Keys == old(users).Keys + {qq}
      ensures forall u :: u in old(users) && u != qq ==> users[u] == old(users)[u]
      ensures var before := if qq in old(users) then old(users)[qq] else User(0, 0, None);
        users[qq] == User(before.correct + (if state then 1 else 0), before.total + 1, before.skiptype)
    {
      var row := if qq in users then users[qq] else User(0, 0, None);
      if qq !in users {
        users := users[qq := row];
      }
      var correct := if state then row.correct + 1 else row.correct;
      users := users[qq := User(correct, row.total + 1, row.skiptype)];
    }

    /** `update_user_skiptype`: insert an unknown user as `(qq, 0, 0)`, then store the preference. */
    method UpdateUserSkiptype(qq: int, liststr: string)
      modifies this
      ensures questions == old(questions) && backup == old(backup) && lastid == old(lastid) && totl == old(totl)
      ensures users.Keys == old(users).Keys + {qq}
      ensures forall u :: u in old(users) && u != qq ==> users[u] == old(users)[u]
      ensures var before := if qq in old(users) then old(users)[qq] else User(0, 0, None);
        users[qq] == User(before.correct, before.total, Some(liststr))
    {
      var row := if qq in users then users[qq] else User(0, 0, None);
      users := users[qq := User(row.correct, row.total, Some(liststr))];
    }

    /**
     * `get_user_info`: `IndexError` for an unknown user; otherwise the row
     * and its two ranks, or `("-", "-")` for a user with 20 answers or fewer,
     * whom the accuracy ranking leaves out.
     */
    method GetUserInfo(qq: int) returns (r: Result<UserInfo, StoreError>)
      ensures r.Failure? <==> qq !in users
      ensures r.Failure? ==> r.error == IndexError
      ensures r.Success? ==> (r.value.qq == qq && r.value.correct == users[qq].correct &&
        r.value.total == users[qq].total && r.value.skiptype == users[qq].skiptype)
      ensures r.Success? ==> (r.value.ranks.Unranked? <==> users[qq].total <= 20)
      ensures r.Success? && r.value.ranks.Ranks? ==>
        r.value.ranks.byTotal == TotalRank(users, users[qq].total) &&
        r.value.ranks.byAccuracy == AccuracyRank(users, users[qq])
    {
      if qq !in users {
        return Failure(IndexError);
      }
      var me := users[qq];
      r := Success(UserInfo(qq, me.correct, me.total, me.skiptype, RanksOf(users, qq)));
    }

    /** `get_latest_question_id`: -1 when every question has been answered, else one never answered. */
    method LatestQuestionId() returns (id: int)
      ensures id == -1 <==> forall k :: k in questions ==> Column(questions[k], "counttotal") != Int(0)
      ensures id != -1 ==> id in questions && Column(questions[id], "counttotal") == Int(0)
    {
      if k :| k in questions && Column(questions[k], "counttotal") == Int(0) {
        id := k;
      } else {
        id := -1;
      }
    }
  }
}
