/**
 * The handful of Python `str` operations the bot relies on, written over
 * `seq<char>`: `find`, `replace`, `split`/`join` on one separator character,
 * `strip` with a character set, ASCII `lower`, `isdecimal` and `int()` over the
 * decimal digits of every script, `str()` of a number, and the lexicographic
 * `<` of two strings; and the one fact about lists of any element the bot
 * keeps, that they hold no duplicates.
 */
module Text {

  /** No element occurs twice. */
  predicate NoDup<T(==)>(s: seq<T>)
  {
    forall i, j :: 0 <= i < j < |s| ==> s[i] != s[j]
  }

  // ---------------------------------------------------------------------------
  // Digits, int() and str()

  /**
   * The zero of the block of ten decimal digits holding code point x, or -1,
   * beyond ASCII. With '0'..'9' these are the 680 characters of Unicode 15.0's
   * category Nd, which is what `str.isdecimal()`, the regex class `\d` and
   * `int()` accept as digits.
   */
  function DigitZero(x: int): (z: int)
    ensures z >= 0 ==> z <= x < z + 10
  {
    if 0x660 <= x < 0x66A then 0x660
    else if 0x6F0 <= x < 0x6FA then 0x6F0
    else if 0x7C0 <= x < 0x7CA then 0x7C0
    else if 0x966 <= x < 0x970 then 0x966
    else if 0x9E6 <= x < 0x9F0 then 0x9E6
    else if 0xA66 <= x < 0xA70 then 0xA66
    else if 0xAE6 <= x < 0xAF0 then 0xAE6
    else if 0xB66 <= x < 0xB70 then 0xB66
    else if 0xBE6 <= x < 0xBF0 then 0xBE6
    else if 0xC66 <= x < 0xC70 then 0xC66
    else if 0xCE6 <= x < 0xCF0 then 0xCE6
    else if 0xD66 <= x < 0xD70 then 0xD66
    else if 0xDE6 <= x < 0xDF0 then 0xDE6
    else if 0xE50 <= x < 0xE5A then 0xE50
    else if 0xED0 <= x < 0xEDA then 0xED0
    else if 0xF20 <= x < 0xF2A then 0xF20
    else if 0x1040 <= x < 0x104A then 0x1040
    else if 0x1090 <= x < 0x109A then 0x1090
    else if 0x17E0 <= x < 0x17EA then 0x17E0
    else if 0x1810 <= x < 0x181A then 0x1810
    else if 0x1946 <= x < 0x1950 then 0x1946
    else if 0x19D0 <= x < 0x19DA then 0x19D0
    else if 0x1A80 <= x < 0x1A8A then 0x1A80
    else if 0x1A90 <= x < 0x1A9A then 0x1A90
    else if 0x1B50 <= x < 0x1B5A then 0x1B50
    else if 0x1BB0 <= x < 0x1BBA then 0x1BB0
    else if 0x1C40 <= x < 0x1C4A then 0x1C40
    else if 0x1C50 <= x < 0x1C5A then 0x1C50
    else if 0xA620 <= x < 0xA62A then 0xA620
    else if 0xA8D0 <= x < 0xA8DA then 0xA8D0
    else if 0xA900 <= x < 0xA90A then 0xA900
    else if 0xA9D0 <= x < 0xA9DA then 0xA9D0
    else if 0xA9F0 <= x < 0xA9FA then 0xA9F0
    else if 0xAA50 <= x < 0xAA5A then 0xAA50
    else if 0xABF0 <= x < 0xABFA then 0xABF0
    else if 0xFF10 <= x < 0xFF1A then 0xFF10
    else if 0x104A0 <= x < 0x104AA then 0x104A0
    else if 0x10D30 <= x < 0x10D3A then 0x10D30
    else if 0x11066 <= x < 0x11070 then 0x11066
    else if 0x110F0 <= x < 0x110FA then 0x110F0
    else if 0x11136 <= x < 0x11140 then 0x11136
    else if 0x111D0 <= x < 0x111DA then 0x111D0
    else if 0x112F0 <= x < 0x112FA then 0x112F0
    else if 0x11450 <= x < 0x1145A then 0x11450
    else if 0x114D0 <= x < 0x114DA then 0x114D0
    else if 0x11650 <= x < 0x1165A then 0x11650
    else if 0x116C0 <= x < 0x116CA then 0x116C0
    else if 0x11730 <= x < 0x1173A then 0x11730
    else if 0x118E0 <= x < 0x118EA then 0x118E0
    else if 0x11950 <= x < 0x1195A then 0x11950
    else if 0x11C50 <= x < 0x11C5A then 0x11C50
    else if 0x11D50 <= x < 0x11D5A then 0x11D50
    else if 0x11DA0 <= x < 0x11DAA then 0x11DA0
    else if 0x11F50 <= x < 0x11F5A then 0x11F50
    else if 0x16A60 <= x < 0x16A6A then 0x16A60
    else if 0x16AC0 <= x < 0x16ACA then 0x16AC0
    else if 0x16B50 <= x < 0x16B5A then 0x16B50
    else if 0x1D7CE <= x < 0x1D7D8 then 0x1D7CE
    else if 0x1D7D8 <= x < 0x1D7E2 then 0x1D7D8
    else if 0x1D7E2 <= x < 0x1D7EC then 0x1D7E2
    else if 0x1D7EC <= x < 0x1D7F6 then 0x1D7EC
    else if 0x1D7F6 <= x < 0x1D800 then 0x1D7F6
    else if 0x1E140 <= x < 0x1E14A then 0x1E140
    else if 0x1E2F0 <= x < 0x1E2FA then 0x1E2F0
    else if 0x1E4F0 <= x < 0x1E4FA then 0x1E4F0
    else if 0x1E950 <= x < 0x1E95A then 0x1E950
    else if 0x1FBF0 <= x < 0x1FBFA then 0x1FBF0
    else -1
  }

  predicate IsDigit(c: char) { '0' <= c <= '9' || (c >= '\U{660}' && DigitZero(c as int) >= 0) }

  predicate AllDigits(s: string) { forall i :: 0 <= i < |s| ==> IsDigit(s[i]) }

  /** `str.isdecimal()`: true for a non-empty run of decimal digits. */
  predicate IsDecimal(s: string) { |s| > 0 && AllDigits(s) }

  /** The value of a digit of any script: its distance from its block's zero. */
  function DigitValue(c: char): (r: nat)
    requires IsDigit(c)
    ensures r < 10
  {
    if c <= '9' then c as int - '0' as int else c as int - DigitZero(c as int)
  }

  function DigitChar(d: nat): char
    requires d < 10
  {
    ('0' as int + d) as char
  }

  /** `int(s)` for a string of decimal digits (the empty string gives 0). */
  function DecimalValue(s: string): nat
    requires AllDigits(s)
  {
    if s == [] then 0 else DecimalValue(s[..|s| - 1]) * 10 + DigitValue(s[|s| - 1])
  }

  /** Digits of other scripts count as `int()` counts them: "１２" is 12, "٧" is 7. */
  lemma WideDigitExamples()
    ensures IsDecimal("\U{FF11}\U{FF12}") && DecimalValue("\U{FF11}\U{FF12}") == 12
    ensures IsDecimal("\U{667}") && DecimalValue("\U{667}") == 7
    ensures !IsDigit('\U{5E74}') && !IsDigit('\U{FF1A}')
  {
    assert "\U{FF11}\U{FF12}"[..1] == "\U{FF11}" && "\U{FF11}"[..0] == "";
    assert "\U{667}"[..0] == "";
  }

  /** `str(n)`: the decimal rendering of a natural number, without leading zeros. */
  function NatToString(n: nat): (r: string)
    ensures IsDecimal(r)
    ensures r[0] == '0' ==> n == 0
  {
    if n < 10 then [DigitChar(n)] else NatToString(n / 10) + [DigitChar(n % 10)]
  }

  /** A leading zero does not change `int(s)`. */
  lemma {:induction false} DecimalLeadingZero(s: string)
    requires AllDigits(s)
    ensures AllDigits("0" + s) && DecimalValue("0" + s) == DecimalValue(s)
    decreases |s|
  {
    if s != [] {
      DecimalLeadingZero(s[..|s| - 1]);
      assert ("0" + s)[..|"0" + s| - 1] == "0" + s[..|s| - 1];
    }
  }

  /** `str(i)` for any integer. */
  function IntToString(i: int): string
  {
    if i < 0 then "-" + NatToString(-i) else NatToString(i)
  }

  /** `int(str(n)) == n`. */
  lemma {:induction false} NatToStringRoundTrip(n: nat)
    ensures DecimalValue(NatToString(n)) == n
  {
    if n >= 10 {
      var s := NatToString(n);
      assert s[..|s| - 1] == NatToString(n / 10);
      NatToStringRoundTrip(n / 10);
    }
  }

  /** Distinct numbers have distinct renderings, so `str(no)` is a unique job id. */
  lemma NatToStringInjective(m: nat, n: nat)
    ensures NatToString(m) == NatToString(n) <==> m == n
  {
    NatToStringRoundTrip(m);
    NatToStringRoundTrip(n);
  }

  // ---------------------------------------------------------------------------
  // find and substring occurrence

  predicate OccursAt(s: string, sub: string, i: int)
  {
    0 <= i && i + |sub| <= |s| && s[i..i + |sub|] == sub
  }

  predicate Contains(s: string, sub: string)
  {
    exists i :: 0 <= i <= |s| - |sub| && OccursAt(s, sub, i)
  }

  function FindFrom(s: string, sub: string, k: nat): (r: int)
    requires k <= |s| + 1
    ensures r == -1 || (k <= r && OccursAt(s, sub, r))
    ensures forall j :: k <= j && (r == -1 || j < r) ==> !OccursAt(s, sub, j)
    decreases |s| + 1 - k
  {
    if k + |sub| > |s| then -1
    else if s[k..k + |sub|] == sub then k
    else FindFrom(s, sub, k + 1)
  }

  /** `s.find(sub)`: the first index where `sub` occurs, or -1. */
  function Find(s: string, sub: string): (r: int)
    ensures r == -1 <==> !Contains(s, sub)
    ensures r != -1 ==> OccursAt(s, sub, r) && forall j :: 0 <= j < r ==> !OccursAt(s, sub, j)
  {
    FindFrom(s, sub, 0)
  }

  // ---------------------------------------------------------------------------
  // replace

  /** `s.replace(pat, rep)`: every non-overlapping occurrence, left to right. */
  function Replace(s: string, pat: string, rep: string): string
    decreases |s|
  {
    if |pat| == 0 then
      (if s == [] then rep else rep + [s[0]] + Replace(s[1..], pat, rep))
    else if |s| < |pat| then s
    else if s[..|pat|] == pat then rep + Replace(s[|pat|..], pat, rep)
    else [s[0]] + Replace(s[1..], pat, rep)
  }

  /** Replacing a pattern that does not occur leaves the string as it is. */
  lemma {:induction false} ReplaceAbsent(s: string, pat: string, rep: string)
    requires |pat| > 0 && !Contains(s, pat)
    ensures Replace(s, pat, rep) == s
    decreases |s|
  {
    if |s| >= |pat| {
      assert !OccursAt(s, pat, 0);
      assert s[..|pat|] == s[0..0 + |pat|];
      forall j | OccursAt(s[1..], pat, j) ensures OccursAt(s, pat, j + 1) {
        assert s[1..][j..j + |pat|] == s[j + 1..j + 1 + |pat|];
      }
      ReplaceAbsent(s[1..], pat, rep);
    }
  }

  /**
   * A pattern whose first occurrence starts right after `a`, and that does not
   * occur in `b`, is replaced exactly there.
   */
  lemma {:induction false} ReplaceOnce(a: string, p: string, b: string, r: string)
    requires |p| > 0
    requires forall j :: 0 <= j < |a| ==> !OccursAt(a + p + b, p, j)
    requires !Contains(b, p)
    ensures Replace(a + p + b, p, r) == a + r + b
    decreases |a|
  {
    if a == [] {
      ReplaceHere(p + b, p, b, r);
    } else {
      var s := a + p + b;
      var a' := a[1..];
      assert !OccursAt(s, p, 0);
      ReplaceSkip(s, p, r);
      assert s[1..] == a' + p + b;
      forall j | 0 <= j < |a'| ensures !OccursAt(a' + p + b, p, j) {
        assert !OccursAt(s, p, j + 1);
      }
      ReplaceOnce(a', p, b, r);
      assert [a[0]] + (a' + r + b) == a + r + b;
    }
  }

  /** A pattern at the very front is replaced, and scanning resumes after it. */
  lemma ReplaceHere(s: string, p: string, b: string, r: string)
    requires |p| > 0 && s == p + b && !Contains(b, p)
    ensures Replace(s, p, r) == r + b
  {
    assert s[..|p|] == p && s[|p|..] == b;
    ReplaceAbsent(b, p, r);
  }

  /** A string that does not start with the pattern keeps its first character. */
  lemma ReplaceSkip(s: string, p: string, r: string)
    requires |p| > 0 && |s| > 0 && !OccursAt(s, p, 0)
    ensures Replace(s, p, r) == [s[0]] + Replace(s[1..], p, r)
  {
    if |s| >= |p| {
      assert s[..|p|] == s[0..0 + |p|];
    }
  }

  // ---------------------------------------------------------------------------
  // split and join on one separator character

  /** `s.split(sep)`: the maximal separator-free pieces, `[""]` for the empty string. */
  function Split(s: string, sep: char): (r: seq<string>)
    ensures |r| >= 1
    ensures forall k :: 0 <= k < |r| ==> sep !in r[k]
  {
    if s == [] then [""]
    else
      var p := Split(s[..|s| - 1], sep);
      if s[|s| - 1] == sep then p + [""] else p[..|p| - 1] + [p[|p| - 1] + [s[|s| - 1]]]
  }

  /** `sep.join(parts)`. */
  function Join(parts: seq<string>, sep: char): string
  {
    if |parts| == 0 then ""
    else if |parts| == 1 then parts[0]
    else Join(parts[..|parts| - 1], sep) + [sep] + parts[|parts| - 1]
  }

  lemma JoinSnoc(parts: seq<string>, x: string, sep: char)
    requires |parts| >= 1
    ensures Join(parts + [x], sep) == Join(parts, sep) + [sep] + x
  {
    assert (parts + [x])[..|parts|] == parts;
  }

  /** Growing the last part by one character grows the join by that character. */
  lemma JoinExtendLast(rows: seq<string>, c: char, sep: char)
    requires |rows| >= 1
    ensures Join(rows[..|rows| - 1] + [rows[|rows| - 1] + [c]], sep) == Join(rows, sep) + [c]
  {
    var q := rows[..|rows| - 1];
    assert rows == q + [rows[|rows| - 1]];
    if |q| >= 1 {
      JoinSnoc(q, rows[|rows| - 1], sep);
      JoinSnoc(q, rows[|rows| - 1] + [c], sep);
    }
  }

  /** Joining the pieces of a split gives the original string back. */
  lemma {:induction false} SplitJoin(s: string, sep: char)
    ensures Join(Split(s, sep), sep) == s
    decreases |s|
  {
    if s != [] {
      var init, c := s[..|s| - 1], s[|s| - 1];
      var p := Split(init, sep);
      assert init + [c] == s;
      SplitJoin(init, sep);
      if c == sep {
        assert Split(s, sep) == p + [""];
        JoinSnoc(p, "", sep);
      } else {
        assert Split(s, sep) == p[..|p| - 1] + [p[|p| - 1] + [c]];
        JoinExtendLast(p, c, sep);
      }
    }
  }

  /** A string without the separator is a single piece. */
  lemma {:induction false} SplitNoSep(b: string, sep: char)
    requires sep !in b
    ensures Split(b, sep) == [b]
    decreases |b|
  {
    if b != [] {
      SplitNoSep(b[..|b| - 1], sep);
      assert b[..|b| - 1] + [b[|b| - 1]] == b;
    }
  }

  /** The first piece of a split runs up to the first separator. */
  lemma {:induction false} SplitHead(a: string, b: string, sep: char)
    requires sep !in a
    ensures |Split(a + [sep] + b, sep)| >= 2 && Split(a + [sep] + b, sep)[0] == a
    decreases |b|
  {
    var s := a + [sep] + b;
    if b == [] {
      assert s[..|s| - 1] == a;
      SplitNoSep(a, sep);
    } else {
      assert s[..|s| - 1] == a + [sep] + b[..|b| - 1];
      SplitHead(a, b[..|b| - 1], sep);
    }
  }

  /** The index of the first separator in a text holding one. */
  function FirstIndex(s: string, sep: char): (j: nat)
    requires sep in s
    ensures j < |s| && s[j] == sep && sep !in s[..j]
  {
    if s[0] == sep then 0
    else
      assert s == [s[0]] + s[1..];
      1 + FirstIndex(s[1..], sep)
  }

  /** The first piece of a split is a prefix of the text. */
  lemma SplitFirstPrefix(s: string, sep: char)
    ensures |Split(s, sep)[0]| <= |s| && Split(s, sep)[0] == s[..|Split(s, sep)[0]|]
  {
    if sep in s {
      var j := FirstIndex(s, sep);
      assert s == s[..j] + [sep] + s[j + 1..];
      SplitHead(s[..j], s[j + 1..], sep);
    } else {
      SplitNoSep(s, sep);
    }
  }

  /** Splitting `a + sep + b`, with `b` separator-free, adds exactly the piece `b`. */
  lemma {:induction false} SplitAppendPiece(a: string, b: string, sep: char)
    requires sep !in b
    ensures Split(a + [sep] + b, sep) == Split(a, sep) + [b]
    decreases |b|
  {
    if b == [] {
      assert (a + [sep] + b)[..|a + [sep] + b| - 1] == a;
    } else {
      var b' := b[..|b| - 1];
      SplitAppendPiece(a, b', sep);
      assert (a + [sep] + b)[..|a + [sep] + b| - 1] == a + [sep] + b';
      assert b' + [b[|b| - 1]] == b;
    }
  }

  /** Splitting a join of separator-free pieces gives the pieces back. */
  lemma {:induction false} JoinSplit(parts: seq<string>, sep: char)
    requires |parts| >= 1
    requires forall k :: 0 <= k < |parts| ==> sep !in parts[k]
    ensures Split(Join(parts, sep), sep) == parts
    decreases |parts|
  {
    if |parts| == 1 {
      SplitNoSep(parts[0], sep);
    } else {
      var init := parts[..|parts| - 1];
      JoinSplit(init, sep);
      SplitAppendPiece(Join(init, sep), parts[|parts| - 1], sep);
      assert init + [parts[|parts| - 1]] == parts;
    }
  }

  // ---------------------------------------------------------------------------
  // strip with a set of characters

  /** `s.lstrip(chars)`. */
  function LStrip(s: string, cs: set<char>): (r: string)
    ensures |r| <= |s| && r == s[|s| - |r|..]
    ensures |r| > 0 ==> r[0] !in cs
    ensures forall i :: 0 <= i < |s| - |r| ==> s[i] in cs
  {
    if s != [] && s[0] in cs then LStrip(s[1..], cs) else s
  }

  /** `s.rstrip(chars)`. */
  function RStrip(s: string, cs: set<char>): (r: string)
    ensures |r| <= |s| && r == s[..|r|]
    ensures |r| > 0 ==> r[|r| - 1] !in cs
    ensures forall i :: |r| <= i < |s| ==> s[i] in cs
  {
    if s != [] && s[|s| - 1] in cs then RStrip(s[..|s| - 1], cs) else s
  }

  /** `s.strip(chars)`: both ends. */
  function Strip(s: string, cs: set<char>): string
  {
    RStrip(LStrip(s, cs), cs)
  }

  /** A string whose ends are outside the set is its own strip. */
  lemma StripKeeps(s: string, cs: set<char>)
    requires |s| > 0 ==> s[0] !in cs && s[|s| - 1] !in cs
    ensures Strip(s, cs) == s
  {
  }

  /** A run of digits has no space to strip. */
  lemma DecimalUnstripped(s: string)
    requires IsDecimal(s)
    ensures Strip(s, {' '}) == s
  {
    assert IsDigit(s[0]) && IsDigit(s[|s| - 1]);
    StripKeeps(s, {' '});
  }

  /** Stripping skips a leading character from the set. */
  lemma StripLeading(c: char, s: string, cs: set<char>)
    requires c in cs
    ensures Strip([c] + s, cs) == Strip(s, cs)
  {
    assert ([c] + s)[1..] == s;
  }

  /** Stripping only removes characters: one absent before is absent after. */
  lemma StripAbsent(s: string, cs: set<char>, c: char)
    requires c !in s
    ensures c !in Strip(s, cs)
  {
    var l := LStrip(s, cs);
    assert forall i :: 0 <= i < |l| ==> l[i] == s[|s| - |l| + i];
    var r := RStrip(l, cs);
    assert forall i :: 0 <= i < |r| ==> r[i] == l[i];
  }

  /** A character outside the stripped set survives stripping. */
  lemma StripKeepsOther(s: string, cs: set<char>, i: nat)
    requires i < |s| && s[i] !in cs
    ensures s[i] in Strip(s, cs)
  {
    var l := LStrip(s, cs);
    var k := i - (|s| - |l|);
    assert 0 <= k < |l| && l[k] == s[i];
    var r := RStrip(l, cs);
    assert k < |r| && r[k] == s[i];
  }

  lemma StripKeepsChar(s: string, cs: set<char>, c: char)
    requires c in s && c !in cs
    ensures c in Strip(s, cs)
  {
    var i :| 0 <= i < |s| && s[i] == c;
    StripKeepsOther(s, cs, i);
  }

  /** A pattern whose first character is absent does not occur. */
  lemma AbsentFirst(s: string, pat: string)
    requires |pat| > 0 && pat[0] !in s
    ensures !Contains(s, pat)
  {
    forall i | 0 <= i <= |s| - |pat|
      ensures !OccursAt(s, pat, i)
    {
      assert s[i..i + |pat|][0] == s[i] != pat[0];
    }
  }

  /** The characters Python's argument-less `strip()` and the regex class `\s` remove (ASCII part). */
  const Whitespace: set<char> := {' ', '\t', '\n', '\r', '\U{B}', '\U{C}'}

  // ---------------------------------------------------------------------------
  // Small character filters

  /** `s.lower()` for ASCII letters. */
  function Lower(s: string): string
  {
    seq(|s|, i requires 0 <= i < |s| => if 'A' <= s[i] <= 'Z' then (s[i] as int + 32) as char else s[i])
  }

  predicate NoUpper(s: string)
  {
    forall i :: 0 <= i < |s| ==> !('A' <= s[i] <= 'Z')
  }

  lemma LowerAppend(a: string, b: string)
    ensures Lower(a + b) == Lower(a) + Lower(b)
  {
  }

  lemma LowerKeeps(s: string)
    requires NoUpper(s)
    ensures Lower(s) == s
  {
  }

  /** All occurrences of `c` deleted: `s.replace(c, "")` for one character. */
  function Without(s: string, c: char): string
  {
    if s == [] then [] else (if s[0] == c then [] else [s[0]]) + Without(s[1..], c)
  }

  lemma {:induction false} WithoutAppend(a: string, b: string, c: char)
    ensures Without(a + b, c) == Without(a, c) + Without(b, c)
  {
    if a != [] {
      assert (a + b)[1..] == a[1..] + b;
      WithoutAppend(a[1..], b, c);
    } else {
      assert a + b == b;
    }
  }

  predicate StartsWith(s: string, p: string) { |p| <= |s| && s[..|p|] == p }

  predicate EndsWith(s: string, p: string) { |p| <= |s| && s[|s| - |p|..] == p }

  /** A piece that starts with `t` puts `t` in any text it sits in. */
  lemma ContainsInMiddle(pre: string, mid: string, post: string, t: string)
    requires StartsWith(mid, t)
    ensures Contains(pre + mid + post, t)
  {
    var whole := pre + mid + post;
    assert whole[|pre|..|pre| + |t|] == mid[..|t|];
    assert OccursAt(whole, t, |pre|);
  }

  // ---------------------------------------------------------------------------
  // Python's `<` on str: lexicographic by code point

  predicate StrLess(a: string, b: string)
  {
    if a == [] then b != []
    else if b == [] then false
    else if a[0] != b[0] then a[0] < b[0]
    else StrLess(a[1..], b[1..])
  }

  lemma {:induction false} StrLessIrreflexive(a: string)
    ensures !StrLess(a, a)
  {
    if a != [] { StrLessIrreflexive(a[1..]); }
  }

  lemma {:induction false} StrLessTransitive(a: string, b: string, c: string)
    requires StrLess(a, b) && StrLess(b, c)
    ensures StrLess(a, c)
  {
    if a != [] && b != [] && c != [] && a[0] == b[0] == c[0] {
      StrLessTransitive(a[1..], b[1..], c[1..]);
    }
  }

  lemma {:induction false} StrLessTotal(a: string, b: string)
    ensures a == b || StrLess(a, b) || StrLess(b, a)
  {
    if a != [] && b != [] && a[0] == b[0] {
      StrLessTotal(a[1..], b[1..]);
      if a[1..] == b[1..] {
        assert a == [a[0]] + a[1..] && b == [b[0]] + b[1..];
      }
    }
  }
}
