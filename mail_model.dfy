/**
 * The `Mail` record of the fan-sub relay (src/plugins/hxzxhelper/model.py):
 * its fields and numbering, `status`, the note `preview` appends, and the two
 * pieces of integer arithmetic inside `imgcreate` — the line-wrap loop over the
 * translation and the placement loop of the three-column picture grid.
 */
module MailModel {
  import opened Wrappers
  import opened Text

  /** The raw bytes of an image, kept opaque. */
  type Bytes = seq<bv8>

  /**
   * A mail. `stat` 0: initial, or not a mail at all (a relayed tweet);
   * 1: images collected, awaiting the translation; 2: translation collected,
   * awaiting the images; 3: ready, a publish job is booked.
   */
  datatype Mail = Mail(no: nat, rawText: string, images: seq<Bytes>, translation: string, time: int, stat: nat)

  /** `Mail()` with the current value of the global counter. */
  function FreshMail(no: nat): (m: Mail)
  {
    Mail(no, "", [], "", -1, 0)
  }

  /** `Mail.status()`: the state description; Python falls off the end (None) outside 0..3. */
  function Status(stat: nat): (r: Option<string>)
    ensures r.Some? <==> stat <= 3
  {
    if stat == 0 then Some("非mail内容，等待发送")
    else if stat == 1 then Some("图片收集完成，等待翻译")
    else if stat == 2 then Some("翻译收集完成，等待图片")
    else if stat == 3 then Some("准备完毕，等待发送")
    else None
  }

  /** The four states have four different descriptions. */
  lemma StatusDistinct(a: nat, b: nat)
    requires a <= 3 && b <= 3 && a != b
    ensures Status(a) != Status(b)
  {
  }

  // ---------------------------------------------------------------------------
  // preview

  const PreviewHead: string := "【发送预览】\n-检查翻译错误/图片缺失情况-\n"
  const NoteRule: string := "\n—————————\n"
  const NoteOverwrite: string := "*如需修改请重新发送翻译，无需取消，旧翻译会被覆盖\n"
  const NoteCancelFirst: string := "*如需修改请先取消发送，再重新回复原消息\n"
  const CancelCommand: string := "取消发送"

  /** The cancel command the note suggests for mail `no`. */
  function CancelHint(no: nat): string
  {
    "**发送“" + CancelCommand + " " + NatToString(no) + "”取消"
  }

  /** The note under the preview card. */
  function PreviewNote(m: Mail): string
  {
    NoteRule + (if m.stat != 0 then NoteOverwrite else NoteCancelFirst) + CancelHint(m.no)
  }

  /**
   * The note gives the overwrite advice iff the mail is a real mail (`stat != 0`),
   * the cancel-first advice otherwise, and always ends with the cancel hint.
   */
  lemma PreviewNoteChoice(m: Mail)
    ensures StartsWith(PreviewNote(m), NoteRule + NoteOverwrite) <==> m.stat != 0
    ensures StartsWith(PreviewNote(m), NoteRule + NoteCancelFirst) <==> m.stat == 0
    ensures EndsWith(PreviewNote(m), CancelHint(m.no))
  {
    var r := PreviewNote(m);
    var advice := if m.stat != 0 then NoteOverwrite else NoteCancelFirst;
    assert r[..|NoteRule + NoteOverwrite|] == (NoteRule + advice + CancelHint(m.no))[..|NoteRule + NoteOverwrite|];
    assert r[..|NoteRule + NoteCancelFirst|] == (NoteRule + advice + CancelHint(m.no))[..|NoteRule + NoteCancelFirst|];
    assert r[|r| - |CancelHint(m.no)|..] == CancelHint(m.no);
    assert (NoteRule + NoteOverwrite)[17] != (NoteRule + NoteCancelFirst)[17];
    assert r[17] == (NoteRule + advice)[17];
  }

  /** The segments of a message: text or an image. */
  datatype Segment = Text(text: string) | Image(data: Bytes)

  /** `Mail.preview()`: heading, the rendered card `card` (the PIL output of `imgcreate`), and the note. */
  function Preview(m: Mail, card: Bytes): seq<Segment>
  {
    [Text(PreviewHead), Image(card), Text(PreviewNote(m))]
  }

  // ---------------------------------------------------------------------------
  // The line-wrap loop of imgcreate

  /** At most this many characters are counted on a line before a break is forced. */
  const LineLimit: nat := 20

  /** Remaining rows of a wrapped line, after its first row: 21 characters each. */
  function TailRows(r: string): (rows: seq<string>)
    requires |r| > 0
    ensures |rows| >= 1
    decreases |r|
  {
    if |r| <= LineLimit + 1 then [r] else [r[..LineLimit + 1]] + TailRows(r[LineLimit + 1..])
  }

  /** A source line broken into display rows: the first row holds 20 characters, later rows 21. */
  function LineRows(l: string): (rows: seq<string>)
    ensures |rows| >= 1
    ensures |rows[0]| <= LineLimit
  {
    if |l| <= LineLimit then [l] else [l[..LineLimit]] + TailRows(l[LineLimit..])
  }

  /** The rows of all source lines, in order. */
  function WrapRows(lines: seq<string>): (rows: seq<string>)
    ensures |lines| >= 1 ==> |rows| >= 1 && |rows[0]| <= LineLimit
  {
    if lines == [] then [] else WrapRows(lines[..|lines| - 1]) + LineRows(lines[|lines| - 1])
  }

  /** Every later row of a line holds between 1 and 21 characters. */
  lemma {:induction false} TailRowsLengths(r: string)
    requires |r| > 0
    ensures forall k :: 0 <= k < |TailRows(r)| ==> 0 < |TailRows(r)[k]| <= LineLimit + 1
    decreases |r|
  {
    if |r| > LineLimit + 1 {
      TailRowsLengths(r[LineLimit + 1..]);
    }
  }

  lemma LineRowsLengths(l: string)
    ensures forall k :: 0 <= k < |LineRows(l)| ==> |LineRows(l)[k]| <= LineLimit + 1
  {
    if |l| > LineLimit {
      TailRowsLengths(l[LineLimit..]);
    }
  }

  /** No row of the wrapped lines holds more than 21 characters. */
  lemma {:induction false} WrapRowsLengths(lines: seq<string>)
    ensures forall k :: 0 <= k < |WrapRows(lines)| ==> |WrapRows(lines)[k]| <= LineLimit + 1
    decreases |lines|
  {
    if lines != [] {
      WrapRowsLengths(lines[..|lines| - 1]);
      LineRowsLengths(lines[|lines| - 1]);
    }
  }

  /** Reference definition of the wrapped text: each line of the normalised input broken into rows. */
  function Wrapped(s: string): string
  {
    Join(WrapRows(Split(Replace(s, "\r\n", "\n"), '\n')), '\n')
  }

  /** The loop counter after the characters of a partial line `l`. */
  function Column(l: string): nat
  {
    if |l| <= LineLimit then |l| else (|l| - (LineLimit + 1)) % (LineLimit + 1)
  }

  lemma {:induction false} TailRowsSnoc(r: string, c: char)
    requires |r| > 0
    ensures (|r| - 1) % (LineLimit + 1) < LineLimit ==>
      TailRows(r + [c]) == TailRows(r)[..|TailRows(r)| - 1] + [TailRows(r)[|TailRows(r)| - 1] + [c]]
    ensures (|r| - 1) % (LineLimit + 1) == LineLimit ==> TailRows(r + [c]) == TailRows(r) + [[c]]
    decreases |r|
  {
    if |r| > LineLimit + 1 {
      var rest := r[LineLimit + 1..];
      assert (r + [c])[..LineLimit + 1] == r[..LineLimit + 1];
      assert (r + [c])[LineLimit + 1..] == rest + [c];
      assert (|r| - 1) % (LineLimit + 1) == (|rest| - 1) % (LineLimit + 1);
      TailRowsSnoc(rest, c);
    } else if |r| == LineLimit + 1 {
      assert (r + [c])[..LineLimit + 1] == r;
      assert (r + [c])[LineLimit + 1..] == [c];
    }
  }

  /** Appending one non-newline character to a partial line either extends its last row or opens a new one. */
  lemma LineRowsSnoc(l: string, c: char)
    ensures Column(l) < LineLimit ==> LineRows(l + [c]) == LineRows(l)[..|LineRows(l)| - 1] + [LineRows(l)[|LineRows(l)| - 1] + [c]]
    ensures Column(l) == LineLimit ==> LineRows(l + [c]) == LineRows(l) + [[c]]
  {
    if |l| > LineLimit {
      var r := l[LineLimit..];
      assert (l + [c])[..LineLimit] == l[..LineLimit];
      assert (l + [c])[LineLimit..] == r + [c];
      assert Column(l) == (|r| - 1) % (LineLimit + 1);
      TailRowsSnoc(r, c);
    } else if |l| == LineLimit {
      assert (l + [c])[..LineLimit] == l;
      assert (l + [c])[LineLimit..] == [c];
    }
  }

  lemma ModStep(x: nat)
    ensures (x + 1) % (LineLimit + 1) == if x % (LineLimit + 1) < LineLimit then x % (LineLimit + 1) + 1 else 0
  {
    var q, r := x / (LineLimit + 1), x % (LineLimit + 1);
    assert x == q * (LineLimit + 1) + r;
    if r < LineLimit {
      assert x + 1 == q * (LineLimit + 1) + (r + 1);
    } else {
      assert x + 1 == (q + 1) * (LineLimit + 1);
    }
  }

  /** The loop counter steps by one, and restarts at 0 when it would pass 20. */
  lemma ColumnSnoc(l: string, c: char)
    ensures Column(l + [c]) == (if Column(l) < LineLimit then Column(l) + 1 else 0)
  {
    if |l| > LineLimit {
      ModStep(|l| - (LineLimit + 1));
    }
  }

  lemma WrapRowsSnoc(lines: seq<string>, l: string)
    ensures WrapRows(lines + [l]) == WrapRows(lines) + LineRows(l)
  {
    assert (lines + [l])[..|lines|] == lines;
  }

  lemma SplitSnocChar(p: string, c: char)
    requires c != '\n'
    ensures var lines := Split(p, '\n');
            Split(p + [c], '\n') == lines[..|lines| - 1] + [lines[|lines| - 1] + [c]]
  {
    assert (p + [c])[..|p + [c]| - 1] == p;
  }

  lemma ReplaceLastOfConcat(before: seq<string>, rows: seq<string>, x: string)
    requires |rows| >= 1
    ensures before + (rows[..|rows| - 1] + [x]) == (before + rows)[..|before + rows| - 1] + [x]
  {
    assert (before + rows)[..|before + rows| - 1] == before + rows[..|rows| - 1];
  }

  /** A character that keeps the counter within 20 extends the last row. */
  lemma WrapExtend(init: seq<string>, last: string, c: char)
    requires Column(last) < LineLimit
    ensures Join(WrapRows(init + [last + [c]]), '\n') == Join(WrapRows(init + [last]), '\n') + [c]
  {
    var x, y := WrapRows(init + [last]), WrapRows(init + [last + [c]]);
    var before, rows, rows' := WrapRows(init), LineRows(last), LineRows(last + [c]);
    assert x == before + rows && y == before + rows' && rows' == rows[..|rows| - 1] + [rows[|rows| - 1] + [c]] by {
      WrapRowsExtend(init, last, c);
    }
    JoinExtendRows(before, rows, rows', c);
  }

  lemma WrapRowsExtend(init: seq<string>, last: string, c: char)
    requires Column(last) < LineLimit
    ensures WrapRows(init + [last]) == WrapRows(init) + LineRows(last)
    ensures WrapRows(init + [last + [c]]) == WrapRows(init) + LineRows(last + [c])
    ensures LineRows(last + [c]) == LineRows(last)[..|LineRows(last)| - 1] + [LineRows(last)[|LineRows(last)| - 1] + [c]]
  {
    WrapRowsSnoc(init, last);
    WrapRowsSnoc(init, last + [c]);
    LineRowsSnoc(last, c);
  }

  /** Joining rows whose last row grew by `c` adds `c` at the end. */
  lemma JoinExtendRows(before: seq<string>, rows: seq<string>, rows': seq<string>, c: char)
    requires |rows| >= 1 && rows' == rows[..|rows| - 1] + [rows[|rows| - 1] + [c]]
    ensures Join(before + rows', '\n') == Join(before + rows, '\n') + [c]
  {
    var all := before + rows;
    assert before + rows' == all[..|all| - 1] + [all[|all| - 1] + [c]] by {
      ReplaceLastOfConcat(before, rows, rows[|rows| - 1] + [c]);
    }
    JoinExtendLast(all, c, '\n');
  }

  /** A character that would take the counter past 20 opens a new row. */
  lemma WrapBreak(init: seq<string>, last: string, c: char)
    requires Column(last) == LineLimit
    ensures Join(WrapRows(init + [last + [c]]), '\n') == Join(WrapRows(init + [last]), '\n') + ['\n', c]
  {
    var x, y := WrapRows(init + [last]), WrapRows(init + [last + [c]]);
    var before, rows, rows' := WrapRows(init), LineRows(last), LineRows(last + [c]);
    assert x == before + rows && y == before + rows' && rows' == rows + [[c]] by {
      WrapRowsBreak(init, last, c);
    }
    JoinBreakRows(before, rows, rows', c);
  }

  lemma WrapRowsBreak(init: seq<string>, last: string, c: char)
    requires Column(last) == LineLimit
    ensures WrapRows(init + [last]) == WrapRows(init) + LineRows(last)
    ensures WrapRows(init + [last + [c]]) == WrapRows(init) + LineRows(last + [c])
    ensures LineRows(last + [c]) == LineRows(last) + [[c]]
  {
    WrapRowsSnoc(init, last);
    WrapRowsSnoc(init, last + [c]);
    LineRowsSnoc(last, c);
  }

  /** Joining rows with one more row `[c]` adds a line break and `c`. */
  lemma JoinBreakRows(before: seq<string>, rows: seq<string>, rows': seq<string>, c: char)
    requires |rows| >= 1 && rows' == rows + [[c]]
    ensures Join(before + rows', '\n') == Join(before + rows, '\n') + ['\n', c]
  {
    assert before + rows' == (before + rows) + [[c]];
    JoinSnoc(before + rows, [c], '\n');
  }

  /** One loop step with a newline, on the reference side. */
  lemma WrapStepNewline(p: string)
    ensures Split(p + ['\n'], '\n') == Split(p, '\n') + [""]
    ensures Join(WrapRows(Split(p + ['\n'], '\n')), '\n') == Join(WrapRows(Split(p, '\n')), '\n') + ['\n']
  {
    assert (p + ['\n'])[..|p + ['\n']| - 1] == p;
    var lines := Split(p, '\n');
    WrapRowsSnoc(lines, "");
    assert LineRows("") == [""];
    JoinSnoc(WrapRows(lines), "", '\n');
  }

  /** The wrapped rendering of a prefix of the normalised text. */
  function Rendered(p: string): string
  {
    Join(WrapRows(Split(p, '\n')), '\n')
  }

  /** The partial line at the end of a prefix. */
  function LastLine(p: string): string
  {
    var lines := Split(p, '\n');
    lines[|lines| - 1]
  }

  /** One iteration of the wrap loop, on the reference side. */
  lemma WrapStep(p: string, c: char)
    ensures c == '\n' ==> Rendered(p + [c]) == Rendered(p) + [c] && Column(LastLine(p + [c])) == 0
    ensures c != '\n' && Column(LastLine(p)) == LineLimit ==>
      Rendered(p + [c]) == Rendered(p) + ['\n', c] && Column(LastLine(p + [c])) == 0
    ensures c != '\n' && Column(LastLine(p)) < LineLimit ==>
      Rendered(p + [c]) == Rendered(p) + [c] && Column(LastLine(p + [c])) == Column(LastLine(p)) + 1
  {
    var lines := Split(p, '\n');
    var init, last := lines[..|lines| - 1], lines[|lines| - 1];
    if c == '\n' {
      WrapStepNewline(p);
    } else {
      SplitSnocChar(p, c);
      ColumnSnoc(last, c);
      assert lines == init + [last];
      if Column(last) == LineLimit {
        WrapBreak(init, last, c);
      } else {
        WrapExtend(init, last, c);
      }
    }
  }

  /** One pass of the wrap loop: the counter moves on or restarts, and a newline goes in before an overlong row. */
  method WrapChar(ghost p: string, c: char, out: string, cnt: nat) returns (out': string, cnt': nat)
    requires out == Rendered(p) && cnt == Column(LastLine(p))
    ensures out' == Rendered(p + [c]) && cnt' == Column(LastLine(p + [c]))
  {
    WrapStep(p, c);
    out', cnt' := out, cnt;
    if c == '\n' {
      cnt' := 0;
    } else {
      cnt' := cnt' + 1;
    }
    if cnt' > LineLimit {
      out' := out' + "\n";
      cnt' := 0;
    }
    out' := out' + [c];
  }

  /**
   * The wrap loop of `imgcreate`: "\r\n" becomes "\n", the counter restarts at
   * every newline, and a newline is inserted before a character that takes the
   * counter past 20.
   */
  method WrapText(s: string) returns (out: string)
    ensures out == Wrapped(s)
  {
    var norm := Replace(s, "\r\n", "\n");
    out := "";
    var cnt := 0;
    var i := 0;
    assert norm[..0] == "";
    while i < |norm|
      invariant 0 <= i <= |norm|
      invariant out == Rendered(norm[..i])
      invariant cnt == Column(LastLine(norm[..i]))
    {
      ghost var p := norm[..i];
      assert norm[..i + 1] == p + [norm[i]];
      out, cnt := WrapChar(p, norm[i], out, cnt);
      i := i + 1;
    }
    assert norm[..|norm|] == norm;
  }

  // Properties of the reference definition

  /** Concatenation of rows. */
  function Concat(rows: seq<string>): string
  {
    if rows == [] then [] else Concat(rows[..|rows| - 1]) + rows[|rows| - 1]
  }

  lemma ConcatAppend(a: seq<string>, b: seq<string>)
    ensures Concat(a + b) == Concat(a) + Concat(b)
    decreases |b|
  {
    if b != [] {
      assert (a + b)[..|a + b| - 1] == a + b[..|b| - 1];
      ConcatAppend(a, b[..|b| - 1]);
    } else {
      assert a + b == a;
    }
  }

  lemma {:induction false} TailRowsConcat(r: string)
    requires |r| > 0
    ensures Concat(TailRows(r)) == r
    decreases |r|
  {
    if |r| > LineLimit + 1 {
      TailRowsConcat(r[LineLimit + 1..]);
      ConcatAppend([r[..LineLimit + 1]], TailRows(r[LineLimit + 1..]));
      assert Concat([r[..LineLimit + 1]]) == [] + r[..LineLimit + 1];
      assert r[..LineLimit + 1] + r[LineLimit + 1..] == r;
    } else {
      assert Concat([r]) == Concat([]) + r;
    }
  }

  lemma LineRowsConcat(l: string)
    ensures Concat(LineRows(l)) == l
  {
    if |l| > LineLimit {
      var a, b := l[..LineLimit], l[LineLimit..];
      TailRowsConcat(b);
      ConcatCons(a, TailRows(b));
      assert a + b == l;
    } else {
      ConcatCons(l, []);
    }
  }

  lemma ConcatCons(x: string, rest: seq<string>)
    ensures Concat([x] + rest) == x + Concat(rest)
  {
    ConcatAppend([x], rest);
    assert [x][..0] == [];
  }

  lemma {:induction false} WrapRowsConcat(lines: seq<string>)
    ensures Concat(WrapRows(lines)) == Concat(lines)
    decreases |lines|
  {
    if lines != [] {
      WrapRowsConcat(lines[..|lines| - 1]);
      ConcatAppend(WrapRows(lines[..|lines| - 1]), LineRows(lines[|lines| - 1]));
      LineRowsConcat(lines[|lines| - 1]);
    }
  }

  /** Deleting the separators from a join leaves the concatenation of separator-free parts. */
  lemma {:induction false} WithoutJoin(rows: seq<string>, sep: char)
    requires forall k :: 0 <= k < |rows| ==> sep !in rows[k]
    ensures Without(Join(rows, sep), sep) == Concat(rows)
    decreases |rows|
  {
    if |rows| == 1 {
      WithoutAbsent(rows[0], sep);
      assert Concat(rows) == Concat([]) + rows[0];
    } else if |rows| > 1 {
      var init, last := rows[..|rows| - 1], rows[|rows| - 1];
      WithoutJoin(init, sep);
      WithoutAppend(Join(init, sep) + [sep], last, sep);
      WithoutAppend(Join(init, sep), [sep], sep);
      assert Without([sep], sep) == [] + Without([], sep);
      WithoutAbsent(last, sep);
    }
  }

  lemma {:induction false} WithoutAbsent(s: string, c: char)
    requires c !in s
    ensures Without(s, c) == s
  {
    if s != [] {
      assert s[0] in s;
      assert forall x | x in s[1..] :: x in s;
      WithoutAbsent(s[1..], c);
      assert [s[0]] + s[1..] == s;
    }
  }

  lemma RowsHaveNoNewline(s: string)
    ensures forall k :: 0 <= k < |WrapRows(Split(s, '\n'))| ==> '\n' !in WrapRows(Split(s, '\n'))[k]
  {
    var lines := Split(s, '\n');
    forall k | 0 <= k < |WrapRows(lines)| ensures '\n' !in WrapRows(lines)[k] {
      RowsOfNewlineFree(lines, k);
    }
  }

  lemma {:induction false} TailRowsNoChar(r: string, c: char)
    requires |r| > 0 && c !in r
    ensures forall k :: 0 <= k < |TailRows(r)| ==> c !in TailRows(r)[k]
    decreases |r|
  {
    if |r| > LineLimit + 1 {
      assert forall x | x in r[LineLimit + 1..] :: x in r;
      assert forall x | x in r[..LineLimit + 1] :: x in r;
      TailRowsNoChar(r[LineLimit + 1..], c);
    }
  }

  lemma {:induction false} RowsOfNewlineFree(lines: seq<string>, k: nat)
    requires forall j :: 0 <= j < |lines| ==> '\n' !in lines[j]
    requires k < |WrapRows(lines)|
    ensures '\n' !in WrapRows(lines)[k]
    decreases |lines|
  {
    var init, last := lines[..|lines| - 1], lines[|lines| - 1];
    var before := WrapRows(init);
    if k < |before| {
      RowsOfNewlineFree(init, k);
    } else {
      var rows := LineRows(last);
      assert WrapRows(lines)[k] == rows[k - |before|];
      if |last| > LineLimit {
        assert forall x | x in last[LineLimit..] :: x in last;
        assert forall x | x in last[..LineLimit] :: x in last;
        TailRowsNoChar(last[LineLimit..], '\n');
      }
    }
  }

  lemma {:induction false} ConcatSplit(s: string)
    ensures Concat(Split(s, '\n')) == Without(s, '\n')
    decreases |s|
  {
    if s != [] {
      var init, c := s[..|s| - 1], s[|s| - 1];
      ConcatSplit(init);
      assert init + [c] == s;
      WithoutAppend(init, [c], '\n');
      assert Without([c], '\n') == (if c == '\n' then [] else [c]) + Without([], '\n');
      var p := Split(init, '\n');
      if c == '\n' {
        ConcatAppend(p, [""]);
        assert Concat([""]) == Concat([]) + "";
      } else {
        var q, last := p[..|p| - 1], p[|p| - 1];
        assert p == q + [last];
        ConcatAppend(q, [last]);
        ConcatAppend(q, [last + [c]]);
        assert Concat([last]) == Concat([]) + last;
        assert Concat([last + [c]]) == Concat([]) + (last + [c]);
      }
    }
  }

  /** Deleting every newline from input and output gives the same text: the loop only inserts line breaks. */
  lemma WrappedKeepsText(s: string)
    ensures Without(Wrapped(s), '\n') == Without(Replace(s, "\r\n", "\n"), '\n')
  {
    var norm := Replace(s, "\r\n", "\n");
    var rows := WrapRows(Split(norm, '\n'));
    RowsHaveNoNewline(norm);
    WithoutJoin(rows, '\n');
    WrapRowsConcat(Split(norm, '\n'));
    ConcatSplit(norm);
  }

  /** No output line exceeds 21 characters, and the first line holds at most 20. */
  lemma WrappedLineLengths(s: string)
    ensures var lines := Split(Wrapped(s), '\n');
            |lines[0]| <= LineLimit && forall k :: 0 <= k < |lines| ==> |lines[k]| <= LineLimit + 1
  {
    var norm := Replace(s, "\r\n", "\n");
    var rows := WrapRows(Split(norm, '\n'));
    RowsHaveNoNewline(norm);
    WrapRowsLengths(Split(norm, '\n'));
    JoinSplit(rows, '\n');
  }

  // ---------------------------------------------------------------------------
  // The picture grid of imgcreate (three or more images)

  /** Gap between tiles and the left margin, in pixels. */
  const Gap: int := 15
  const Margin: int := 30
  /** At most nine images are placed. */
  const MaxTiles: nat := 9

  function Min(a: nat, b: nat): nat { if a <= b then a else b }

  /** `ceil(n / 3)` for a count of images. */
  function CeilThird(n: nat): nat { (n + 2) / 3 }

  /** Height of the picture area for n images of side s: s for two, a row of s + 15 per started triple, less one gap. */
  function GridHeight(n: nat, s: int): int
    requires n >= 2
  {
    if n == 2 then s else (s + Gap) * CeilThird(n) - Gap
  }

  /** Where tile k (from 0) of the grid goes: three columns, a new row every third tile. */
  function TileAt(k: nat, s: int): (int, int)
  {
    (Margin + (k % 3) * (s + Gap), (k / 3) * (s + Gap))
  }

  /**
   * The placement loop: a column cursor reset to 30 and a row cursor advanced by
   * s + 15 on every third image, stopping after the ninth.
   */
  method GridPositions(n: nat, s: int) returns (pos: seq<(int, int)>)
    ensures |pos| == Min(n, MaxTiles)
    ensures forall k :: 0 <= k < |pos| ==> pos[k] == TileAt(k, s)
  {
    pos := [];
    var column := 0;
    var row := -(s + Gap);
    var cnt := 1;
    var i := 0;
    while i < n
      invariant 0 <= i <= n && i < MaxTiles && cnt == i + 1
      invariant |pos| == i
      invariant forall k :: 0 <= k < i ==> pos[k] == TileAt(k, s)
      invariant i > 0 ==> (column, row) == TileAt(i - 1, s)
      invariant i == 0 ==> row == -(s + Gap)
    {
      TileStep(i, s);
      if cnt % 3 == 1 {
        column := Margin;
        row := row + s + Gap;
      } else {
        column := column + s + Gap;
      }
      pos := pos + [(column, row)];
      cnt := cnt + 1;
      i := i + 1;
      if cnt > MaxTiles {
        break;
      }
    }
  }

  /** The cursor moves of the loop: a new row every third tile, else one column to the right. */
  lemma TileStep(k: nat, s: int)
    ensures k % 3 == 0 ==> TileAt(k, s).0 == Margin
    ensures k % 3 == 0 && k > 0 ==> TileAt(k, s).1 == TileAt(k - 1, s).1 + s + Gap
    ensures k % 3 != 0 ==> TileAt(k, s) == (TileAt(k - 1, s).0 + s + Gap, TileAt(k - 1, s).1)
  {
    var t := s + Gap;
    if k % 3 == 0 && k > 0 {
      assert (k - 1) / 3 == k / 3 - 1;
      assert (k / 3) * t == ((k - 1) / 3) * t + t;
    } else if k % 3 != 0 {
      assert (k - 1) % 3 == k % 3 - 1 && (k - 1) / 3 == k / 3;
      assert (k % 3) * t == ((k - 1) % 3) * t + t;
    }
  }

  /** Tiles of side s >= 0 never overlap: distinct tiles differ by a full tile and gap in some direction. */
  lemma TilesDisjoint(k: nat, l: nat, s: int)
    requires k < l && s >= 0
    ensures var (xk, yk) := TileAt(k, s);
            var (xl, yl) := TileAt(l, s);
            xk + s < xl || xl + s < xk || yk + s < yl
  {
    var t := s + Gap;
    if k / 3 == l / 3 {
      assert k % 3 < l % 3;
      MulStep(k % 3, l % 3, t);
    } else {
      assert k / 3 < l / 3;
      MulStep(k / 3, l / 3, t);
    }
  }

  /** A larger factor adds at least one more t. */
  lemma MulStep(a: int, b: int, t: int)
    requires a < b && t >= 0
    ensures a * t + t <= b * t
  {
    var d := b - a;
    assert b * t == a * t + d * t;
    assert (d - 1) * t >= 0;
    assert d * t == (d - 1) * t + t;
  }

  /** Every placed tile lies inside the picture area: within three columns and above GridHeight. */
  lemma TilesFit(n: nat, k: nat, s: int)
    requires n >= 3 && k < Min(n, MaxTiles) && s >= 0
    ensures var (x, y) := TileAt(k, s);
            Margin <= x && x + s <= Margin + 3 * s + 2 * Gap && 0 <= y && y + s <= GridHeight(n, s)
  {
    var t := s + Gap;
    assert k / 3 + 1 <= CeilThird(n);
    assert (k / 3) * t + t <= CeilThird(n) * t;
    assert (k % 3) * t <= 2 * t;
  }

  /** With more than nine images the area is sized for every image but only three rows are filled. */
  lemma GridBlankRows(n: nat, s: int)
    requires n > MaxTiles && s >= 0
    ensures forall k :: 0 <= k < Min(n, MaxTiles) ==> TileAt(k, s).1 + s + Gap <= GridHeight(n, s) - s
  {
    var t := s + Gap;
    assert CeilThird(n) >= 4;
    assert CeilThird(n) * t >= 4 * t;
    forall k | 0 <= k < Min(n, MaxTiles) ensures TileAt(k, s).1 + s + Gap <= GridHeight(n, s) - s {
      assert k / 3 <= 2;
      assert (k / 3) * t <= 2 * t;
    }
  }
}
