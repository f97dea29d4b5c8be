/**
 * The parsers the question editors' commands of `sakamichiquiz/__init__.py`
 * go through: `_ans_parser` for the answers, `extract_id` for the question
 * number in front of an edit, and `_ques_parser` for the question itself.
 * Image download and type detection are outside: a picture segment carries
 * the type detected for it.
 */
module QuizParse {
  import opened Wrappers
  import opened Text
  import opened Quiz

  // ---------------------------------------------------------------------------
  // _ans_parser

  /** The answer text without line breaks and outer "|", as `_ans_parser` splits it. */
  function AnswerLine(raw: string): string
  {
    Strip(Replace(Replace(raw, "\r\n", ""), "\n", ""), {'|'})
  }

  /** The loop of `_ans_parser`: a piece is kept when it is not empty, then its spaces are stripped. */
  function KeptAnswers(pieces: seq<string>): seq<string>
    decreases |pieces|
  {
    if pieces == [] then []
    else
      var last := pieces[|pieces| - 1];
      KeptAnswers(pieces[..|pieces| - 1]) + (if last != "" then [Strip(last, {' '})] else [])
  }

  /** `_ans_parser`: the answers joined by "|", or `None` (the "invalid answer" reply) when none is left. */
  function ParseAnswers(raw: string): Option<string>
  {
    var kept := KeptAnswers(Split(AnswerLine(raw), '|'));
    if kept == [] then None else Some(Join(kept, '|'))
  }

  method AnsParser(raw: string) returns (r: Option<string>)
    ensures r == ParseAnswers(raw)
  {
    var line := Replace(raw, "\r\n", "");
    line := Replace(line, "\n", "");
    line := Strip(line, {'|'});
    var pieces := Split(line, '|');
    var kept: seq<string> := [];
    for i := 0 to |pieces|
      invariant kept == KeptAnswers(pieces[..i])
    {
      assert pieces[..i + 1][..i] == pieces[..i];
      if pieces[i] != "" {
        kept := kept + [Strip(pieces[i], {' '})];
      }
    }
    assert pieces[..|pieces|] == pieces;
    if kept == [] {
      return None;
    }
    r := Some(Join(kept, '|'));
  }

  lemma {:induction false} KeptWithoutBar(pieces: seq<string>)
    requires forall i :: 0 <= i < |pieces| ==> '|' !in pieces[i]
    ensures forall i :: 0 <= i < |KeptAnswers(pieces)| ==> '|' !in KeptAnswers(pieces)[i]
    decreases |pieces|
  {
    if pieces != [] {
      KeptWithoutBar(pieces[..|pieces| - 1]);
      StripAbsent(pieces[|pieces| - 1], {' '}, '|');
    }
  }

  /** The stored answers split back, in `qnachecker`, into exactly the pieces `_ans_parser` kept. */
  lemma ParsedAnswersSplitBack(raw: string)
    requires ParseAnswers(raw).Some?
    ensures Split(ParseAnswers(raw).value, '|') == KeptAnswers(Split(AnswerLine(raw), '|'))
  {
    KeptWithoutBar(Split(AnswerLine(raw), '|'));
    JoinSplit(KeptAnswers(Split(AnswerLine(raw), '|')), '|');
  }

  lemma NoLineBreaks(s: string)
    requires '\r' !in s && '\n' !in s
    ensures AnswerLine(s) == Strip(s, {'|'})
  {
    AbsentFirst(s, "\r\n");
    ReplaceAbsent(s, "\r\n", "");
    AbsentFirst(s, "\n");
    ReplaceAbsent(s, "\n", "");
  }

  /** The empty answer is accepted by any answer list holding an empty solution. */
  lemma EmptySolutionAcceptsEmpty(answers: string, k: nat, convert: string -> string)
    requires k < |Split(answers, '|')| && Split(answers, '|')[k] == ""
    ensures Accepts(answers, "", convert)
  {
    assert Lower("") == "";
    assert NormalAnswer("", convert) == convert("");
    assert NormalSolution(Split(answers, '|')[k], convert) == convert("");
  }

  /** A stored answer: not empty, no "|", no line break, no space at either end. */
  predicate CleanAnswer(p: string)
  {
    p != "" && '|' !in p && '\r' !in p && '\n' !in p && p[0] != ' ' && p[|p| - 1] != ' '
  }

  /** Clean answers around a middle part without line breaks: `_ans_parser`'s clean-up changes nothing. */
  lemma LineAround(a: string, m: string, b: string)
    requires CleanAnswer(a) && CleanAnswer(b) && '\r' !in m && '\n' !in m
    ensures AnswerLine(a + m + b) == a + m + b
  {
    var raw := a + m + b;
    assert '\r' !in raw && '\n' !in raw;
    NoLineBreaks(raw);
    assert raw[0] == a[0] && raw[|raw| - 1] == b[|b| - 1];
    StripKeeps(raw, {'|'});
  }

  lemma SplitAroundBlank(a: string, b: string)
    requires CleanAnswer(a) && CleanAnswer(b)
    ensures Split(AnswerLine(a + "| |" + b), '|') == [a, " ", b]
  {
    LineAround(a, "| |", b);
    SplitBlankMiddle(a, b);
  }

  lemma SplitBlankMiddle(a: string, b: string)
    requires '|' !in a && '|' !in b
    ensures Split(a + "| |" + b, '|') == [a, " ", b]
  {
    assert a + "| |" + b == a + ['|'] + " " + ['|'] + b;
    SplitThree(a, " ", b, '|');
  }

  /** Three separator-free pieces joined by the separator split back into themselves. */
  lemma SplitThree(a: string, m: string, b: string, sep: char)
    requires sep !in a && sep !in m && sep !in b
    ensures Split(a + [sep] + m + [sep] + b, sep) == [a, m, b]
  {
    SplitNoSep(a, sep);
    SplitAppendPiece(a, m, sep);
    SplitAppendPiece(a + [sep] + m, b, sep);
    assert [a] + [m] + [b] == [a, m, b];
  }

  lemma KeptSnoc(pieces: seq<string>, x: string)
    ensures KeptAnswers(pieces + [x]) == KeptAnswers(pieces) + (if x != "" then [Strip(x, {' '})] else [])
  {
    assert (pieces + [x])[..|pieces|] == pieces;
  }

  lemma KeepBeforeBlank(a: string)
    requires a != "" && a[0] != ' ' && a[|a| - 1] != ' '
    ensures KeptAnswers([a, " "]) == [a, ""]
  {
    var one: seq<string> := [a];
    assert KeptAnswers(one) == [a] by {
      StripKeeps(a, {' '});
      KeptSnoc([], a);
      assert [] + [a] == one;
    }
    var blank := " ";
    assert Strip(blank, {' '}) == "" by {
      assert blank[1..] == "";
    }
    KeptSnoc(one, blank);
    assert one + [blank] == [a, " "];
  }

  lemma KeepAroundBlank(a: string, b: string)
    requires CleanAnswer(a) && CleanAnswer(b)
    ensures KeptAnswers([a, " ", b]) == [a, "", b]
  {
    KeepBeforeBlank(a);
    StripKeeps(b, {' '});
    KeptSnoc([a, " "], b);
    assert [a, " "] + [b] == [a, " ", b];
  }

  lemma JoinAroundBlank(a: string, b: string)
    ensures Join([a, "", b], '|') == a + "||" + b
  {
    assert Join([a, ""], '|') == a + "|" by {
      assert [a, ""][..1] == [a];
    }
    assert [a, "", b][..2] == [a, ""];
  }

  /**
   * `_ans_parser` tests a piece for emptiness before stripping its spaces, so
   * a blank answer between two others ("a| |b") is stored as an empty
   * solution, and then a bare `#` with nothing after it is a right answer.
   */
  lemma BlankAnswerKept(a: string, b: string, convert: string -> string)
    requires CleanAnswer(a) && CleanAnswer(b)
    ensures ParseAnswers(a + "| |" + b) == Some(a + "||" + b)
    ensures Accepts(a + "||" + b, "", convert)
  {
    assert ParseAnswers(a + "| |" + b) == Some(a + "||" + b) by {
      SplitAroundBlank(a, b);
      KeepAroundBlank(a, b);
      JoinAroundBlank(a, b);
    }
    assert Split(a + "||" + b, '|') == [a, "", b] by {
      JoinAroundBlank(a, b);
      JoinSplit([a, "", b], '|');
    }
    EmptySolutionAcceptsEmpty(a + "||" + b, 1, convert);
  }

  /** The evident intent: strip each piece first, then drop the empty ones. */
  function KeptAnswersFixed(pieces: seq<string>): seq<string>
    decreases |pieces|
  {
    if pieces == [] then []
    else
      var last := Strip(pieces[|pieces| - 1], {' '});
      KeptAnswersFixed(pieces[..|pieces| - 1]) + (if last != "" then [last] else [])
  }

  function ParseAnswersFixed(raw: string): Option<string>
  {
    var kept := KeptAnswersFixed(Split(AnswerLine(raw), '|'));
    if kept == [] then None else Some(Join(kept, '|'))
  }

  /** A solution neither empty nor starting with a space. */
  predicate Solid(p: string)
  {
    p != "" && p[0] != ' '
  }

  lemma {:induction false} KeptFixedSolid(pieces: seq<string>)
    requires forall i :: 0 <= i < |pieces| ==> '|' !in pieces[i]
    ensures forall i :: 0 <= i < |KeptAnswersFixed(pieces)| ==>
      '|' !in KeptAnswersFixed(pieces)[i] && Solid(KeptAnswersFixed(pieces)[i])
    decreases |pieces|
  {
    if pieces != [] {
      KeptFixedSolid(pieces[..|pieces| - 1]);
      StripAbsent(pieces[|pieces| - 1], {' '}, '|');
    }
  }

  /** A solid solution never normalises to the empty text. */
  lemma SolidNotBlank(p: string)
    requires Solid(p)
    ensures Without(Lower(p), ' ') != ""
  {
    assert p == [p[0]] + p[1..];
    LowerAppend([p[0]], p[1..]);
    WithoutAppend(Lower([p[0]]), Lower(p[1..]), ' ');
    assert Lower([p[0]])[0] != ' ';
  }

  /**
   * With the pieces stripped before the emptiness test, every stored
   * solution is non-empty, and the empty answer is never right (for a
   * conversion that maps no non-empty text to what it maps "" to).
   */
  lemma FixedAnswersRefuseBlank(raw: string, convert: string -> string)
    requires ParseAnswersFixed(raw).Some?
    requires forall t :: t != "" ==> convert(t) != convert("")
    ensures Split(ParseAnswersFixed(raw).value, '|') == KeptAnswersFixed(Split(AnswerLine(raw), '|'))
    ensures forall i :: 0 <= i < |Split(ParseAnswersFixed(raw).value, '|')| ==>
      Solid(Split(ParseAnswersFixed(raw).value, '|')[i])
    ensures !Accepts(ParseAnswersFixed(raw).value, "", convert)
  {
    var kept := KeptAnswersFixed(Split(AnswerLine(raw), '|'));
    KeptFixedSolid(Split(AnswerLine(raw), '|'));
    JoinSplit(kept, '|');
    assert NormalAnswer("", convert) == convert("") by { assert Lower("") == ""; }
    forall i | 0 <= i < |kept|
      ensures NormalSolution(kept[i], convert) != convert("")
    {
      SolidNotBlank(kept[i]);
    }
  }

  // ---------------------------------------------------------------------------
  // extract_id

  /** One segment of a chat message. */
  datatype Segment =
    | Plain(text: string)
    | Picture(file: string, kind: string)   // `kind` is what `imghdr` makes of the downloaded bytes
    | Unsupported

  function Chars(s: string): set<char>
  {
    set i | 0 <= i < |s| :: s[i]
  }

  /** `text.split(" ")[0]`, a prefix of the text. */
  function FirstWord(text: string): (w: string)
    ensures |w| <= |text| && w == text[..|w|]
  {
    SplitFirstPrefix(text, ' ');
    Split(text, ' ')[0]
  }

  /**
   * `extract_id`: the first segment must be text whose first word is a
   * number; the number is returned and its characters, then spaces, are
   * stripped from both ends of that text. `None` is the `ValueError`.
   */
  function ExtractId(content: seq<Segment>): Option<(nat, seq<Segment>)>
    requires |content| > 0
  {
    if !content[0].Plain? || !IsDecimal(FirstWord(content[0].text)) then None
    else
      var id := DecimalValue(FirstWord(content[0].text));
      Some((id, [Plain(Strip(Strip(content[0].text, Chars(NatToString(id))), {' '}))] + content[1..]))
  }

  lemma FirstWordOf(n: nat, c: string)
    ensures FirstWord(NatToString(n) + " " + c) == NatToString(n)
  {
    assert ' ' !in NatToString(n);
    assert NatToString(n) + " " + c == NatToString(n) + [' '] + c;
    SplitHead(NatToString(n), c, ' ');
  }

  /** A command whose text starts with a number and a space yields that number. */
  lemma ExtractIdReadsNumber(n: nat, c: string, more: seq<Segment>)
    ensures ExtractId([Plain(NatToString(n) + " " + c)] + more).Some?
    ensures ExtractId([Plain(NatToString(n) + " " + c)] + more).value.0 == n
    ensures ExtractId([Plain(NatToString(n) + " " + c)] + more).value.1[1..] == more
  {
    FirstWordOf(n, c);
    NatToStringRoundTrip(n);
    assert ([Plain(NatToString(n) + " " + c)] + more)[1..] == more;
  }

  /** A command not starting with text, or whose first word is not a number, is refused. */
  lemma ExtractIdRefuses(content: seq<Segment>)
    requires |content| > 0
    requires !content[0].Plain? || (content[0].text != "" && !IsDigit(content[0].text[0]))
    ensures ExtractId(content).None?
  {
    if content[0].Plain? {
      var w := FirstWord(content[0].text);
      if w != "" {
        assert w[0] == content[0].text[0];
      }
    }
  }

  lemma {:induction false} LStripPrefixIn(p: string, rest: string, cs: set<char>)
    requires forall i :: 0 <= i < |p| ==> p[i] in cs
    ensures LStrip(p + rest, cs) == LStrip(rest, cs)
    decreases |p|
  {
    if p != [] {
      assert p[0] in cs;
      assert (p + rest)[0] == p[0] && (p + rest)[1..] == p[1..] + rest;
      LStripPrefixIn(p[1..], rest, cs);
    } else {
      assert p + rest == rest;
    }
  }

  /** Stripping the id's digits off " " + c cuts at least the last character of c when it is one of them. */
  lemma DigitsEatAnswer(d: string, c: string)
    requires c != "" && c[|c| - 1] in Chars(d) && ' ' !in Chars(d)
    ensures |Strip(Strip(d + " " + c, Chars(d)), {' '})| < |c|
  {
    var cs := Chars(d);
    assert forall i :: 0 <= i < |d| ==> d[i] in cs;
    PrefixStripCutsAnswer(d, c, cs);
  }

  lemma PrefixStripCutsAnswer(p: string, c: string, cs: set<char>)
    requires forall i :: 0 <= i < |p| ==> p[i] in cs
    requires c != "" && c[|c| - 1] in cs && ' ' !in cs
    ensures |Strip(Strip(p + " " + c, cs), {' '})| < |c|
  {
    var x := " " + c;
    var r := RStrip(x, cs);
    assert Strip(p + " " + c, cs) == r by {
      assert p + " " + c == p + x;
      StripAfterPrefix(p, x, cs);
    }
    assert |r| < |x| by {
      RStripCuts(x, cs);
    }
    assert r == x[..|r|];
    SpaceHeadShrinks(r);
  }

  /** Characters of the set in front of a text that starts outside it go with the left strip. */
  lemma StripAfterPrefix(p: string, x: string, cs: set<char>)
    requires forall i :: 0 <= i < |p| ==> p[i] in cs
    requires x != [] && x[0] !in cs
    ensures Strip(p + x, cs) == RStrip(x, cs)
  {
    LStripPrefixIn(p, x, cs);
  }

  lemma RStripCuts(x: string, cs: set<char>)
    requires x != [] && x[|x| - 1] in cs
    ensures |RStrip(x, cs)| < |x|
  {
  }

  lemma SpaceHeadShrinks(r: string)
    requires r != [] ==> r[0] == ' '
    ensures r != [] ==> |Strip(r, {' '})| < |r|
  {
    if r != [] {
      assert |LStrip(r, {' '})| < |r|;
    }
  }

  /**
   * `strip(str(id))` strips a set of characters, not a prefix: an answer
   * that ends in one of the id's digits loses it (editing question 12 with
   * the answer "2021" leaves the answer "20").
   */
  lemma ExtractIdEatsDigits(n: nat, c: string, more: seq<Segment>)
    requires c != "" && c[|c| - 1] in Chars(NatToString(n))
    ensures ExtractId([Plain(NatToString(n) + " " + c)] + more).Some?
    ensures ExtractId([Plain(NatToString(n) + " " + c)] + more).value.0 == n
    ensures ExtractId([Plain(NatToString(n) + " " + c)] + more).value.1[0] != Plain(c)
  {
    ExtractIdReadsNumber(n, c, more);
    assert ' ' !in Chars(NatToString(n)) by {
      assert ' ' !in NatToString(n);
    }
    DigitsEatAnswer(NatToString(n), c);
  }

  /** The evident intent: cut the first word, then strip the spaces around the rest. */
  function ExtractIdFixed(content: seq<Segment>): Option<(nat, seq<Segment>)>
    requires |content| > 0
  {
    if !content[0].Plain? || !IsDecimal(FirstWord(content[0].text)) then None
    else
      var word := FirstWord(content[0].text);
      Some((DecimalValue(word), [Plain(Strip(content[0].text[|word|..], {' '}))] + content[1..]))
  }

  lemma RestAfterNumber(n: nat, c: string)
    requires c == "" || (c[0] != ' ' && c[|c| - 1] != ' ')
    ensures Strip((NatToString(n) + " " + c)[|NatToString(n)|..], {' '}) == c
  {
    RestAfterWord(NatToString(n), c);
  }

  lemma RestAfterWord(w: string, c: string)
    requires c == "" || (c[0] != ' ' && c[|c| - 1] != ' ')
    ensures Strip((w + " " + c)[|w|..], {' '}) == c
  {
    assert (w + " " + c)[|w|..] == [' '] + c;
    StripLeading(' ', c, {' '});
    StripKeeps(c, {' '});
  }

  /** Number, space, then any text without spaces at its ends: both come back whole. */
  lemma ExtractIdFixedRoundTrip(n: nat, c: string, more: seq<Segment>)
    requires c == "" || (c[0] != ' ' && c[|c| - 1] != ' ')
    ensures ExtractIdFixed([Plain(NatToString(n) + " " + c)] + more) == Some((n, [Plain(c)] + more))
  {
    var text := NatToString(n) + " " + c;
    var w := NatToString(n);
    assert FirstWord(text) == w && IsDecimal(w) && DecimalValue(w) == n && Strip(text[|w|..], {' '}) == c by {
      FirstWordOf(n, c);
      NatToStringRoundTrip(n);
      RestAfterNumber(n, c);
    }
    ExtractIdFixedReads(text, w, n, c, more);
  }

  lemma ExtractIdFixedReads(text: string, w: string, n: nat, c: string, more: seq<Segment>)
    requires FirstWord(text) == w && IsDecimal(w) && DecimalValue(w) == n
    requires Strip(text[|w|..], {' '}) == c
    ensures ExtractIdFixed([Plain(text)] + more) == Some((n, [Plain(c)] + more))
  {
    assert ([Plain(text)] + more)[1..] == more;
  }

  // ---------------------------------------------------------------------------
  // _ques_parser

  /** The name an image is saved under. */
  function FileName(file: string, kind: string): string
  {
    Replace(file, ".image", "") + "." + kind
  }

  /** What one segment adds to the question text: a line break for an image, the trimmed text, or nothing. */
  function Piece(seg: Segment): string
  {
    match seg
    case Picture(_, _) => "\r\n"
    case Plain(t) => Strip(Strip(t, {' '}), {'\r', '\n'})
    case Unsupported => ""
  }

  function QuestionText(segs: seq<Segment>): string
    decreases |segs|
  {
    if segs == [] then "" else QuestionText(segs[..|segs| - 1]) + Piece(segs[|segs| - 1])
  }

  function FileNames(segs: seq<Segment>): (r: seq<string>)
    ensures forall k :: 0 <= k < |r| ==> r[k] != ""
    decreases |segs|
  {
    if segs == [] then []
    else
      var last := segs[|segs| - 1];
      FileNames(segs[..|segs| - 1]) + (if last.Picture? then [FileName(last.file, last.kind)] else [])
  }

  const TextQuestion := 1
  const ImageQuestion := 3

  /** What `_ques_parser` leaves in `state`: the type, the files, and the text it returns. */
  datatype QuestionBody = QuestionBody(typ: int, files: Option<string>, content: string)

  /** `_ques_parser`: `None` is the "题面内容为空" `ValueError`. */
  function ParseQuestion(segs: seq<Segment>): Option<QuestionBody>
  {
    var names := FileNames(segs);
    var files := if names == [] then None else Some(Join(names, '|'));
    var content := Strip(QuestionText(segs), {'\r', '\n'});
    if (files.None? || files.value == "") && content == "" then None
    else Some(QuestionBody(if names == [] then TextQuestion else ImageQuestion, files, content))
  }

  method QuesParser(segs: seq<Segment>) returns (r: Option<QuestionBody>)
    ensures r == ParseQuestion(segs)
  {
    var names: seq<string> := [];
    var text := "";
    for i := 0 to |segs|
      invariant names == FileNames(segs[..i])
      invariant text == QuestionText(segs[..i])
    {
      assert segs[..i + 1][..i] == segs[..i];
      match segs[i]
      case Picture(file, kind) =>
        names := names + [FileName(file, kind)];
        text := text + "\r\n";
      case Plain(t) =>
        text := text + Strip(Strip(t, {' '}), {'\r', '\n'});
      case Unsupported =>
    }
    assert segs[..|segs|] == segs;
    var files := if names == [] then None else Some(Join(names, '|'));
    var content := Strip(text, {'\r', '\n'});
    if (files.None? || files.value == "") && content == "" {
      return None;
    }
    r := Some(QuestionBody(if names == [] then TextQuestion else ImageQuestion, files, content));
  }

  lemma {:induction false} FileNamesFound(segs: seq<Segment>, i: nat)
    requires i < |segs| && segs[i].Picture?
    ensures FileNames(segs) != []
    decreases |segs|
  {
    if i < |segs| - 1 {
      FileNamesFound(segs[..|segs| - 1], i);
    }
  }

  /** A question with an image is always accepted, typed as an image question, with its files joined by "|". */
  lemma PictureQuestionAccepted(segs: seq<Segment>, i: nat)
    requires i < |segs| && segs[i].Picture?
    ensures ParseQuestion(segs).Some?
    ensures ParseQuestion(segs).value.typ == ImageQuestion
    ensures ParseQuestion(segs).value.files == Some(Join(FileNames(segs), '|'))
  {
    var names := FileNames(segs);
    assert names != [] && Join(names, '|') != "" by {
      FileNamesFound(segs, i);
      JoinStartsWithFirst(names, '|');
    }
    QuestionWithFiles(segs, names);
  }

  lemma QuestionWithFiles(segs: seq<Segment>, names: seq<string>)
    requires names == FileNames(segs) && names != [] && Join(names, '|') != ""
    ensures ParseQuestion(segs) == Some(QuestionBody(ImageQuestion, Some(Join(names, '|')), Strip(QuestionText(segs), {'\r', '\n'})))
  {
  }

  lemma {:induction false} QuestionTextHolds(segs: seq<Segment>, i: nat, c: char)
    requires i < |segs| && c in Piece(segs[i])
    ensures c in QuestionText(segs)
    decreases |segs|
  {
    if i < |segs| - 1 {
      QuestionTextHolds(segs[..|segs| - 1], i, c);
    }
  }

  /** A question whose text holds a visible character is accepted, and the character is kept. */
  lemma VisibleTextAccepted(segs: seq<Segment>, i: nat, j: nat)
    requires i < |segs| && segs[i].Plain? && j < |segs[i].text|
    requires segs[i].text[j] !in {' ', '\r', '\n'}
    ensures ParseQuestion(segs).Some?
    ensures segs[i].text[j] in ParseQuestion(segs).value.content
  {
    var t, c := segs[i].text, segs[i].text[j];
    StripKeepsChar(t, {' '}, c);
    StripKeepsChar(Strip(t, {' '}), {'\r', '\n'}, c);
    QuestionTextHolds(segs, i, c);
    StripKeepsChar(QuestionText(segs), {'\r', '\n'}, c);
  }

  lemma {:induction false} NothingToShow(segs: seq<Segment>)
    requires forall i :: 0 <= i < |segs| ==> segs[i].Unsupported?
    ensures FileNames(segs) == [] && QuestionText(segs) == ""
    decreases |segs|
  {
    if segs != [] {
      NothingToShow(segs[..|segs| - 1]);
    }
  }

  /** A message of neither text nor images is refused. */
  lemma EmptyQuestionRefused(segs: seq<Segment>)
    requires forall i :: 0 <= i < |segs| ==> segs[i].Unsupported?
    ensures ParseQuestion(segs).None?
  {
    NothingToShow(segs);
  }
}
