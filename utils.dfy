/** The map file parser: the file's text cut at every newline, empty lines
    dropped, and every character of a remaining line turned into its code
    minus the code of '0', so that the digits give the cell values 0 to 9. */
module Utils {

  // ---------------------------------------------------------------------
  // Splitting at newlines
  // ---------------------------------------------------------------------

  /** Number of occurrences of `c` in `s`. */
  function Count(s: string, c: char): nat {
    if s == [] then 0 else (if s[0] == c then 1 else 0) + Count(s[1..], c)
  }

  /** `s` without its newline characters. */
  function Strip(s: string): string {
    if s == [] then [] else (if s[0] == '\n' then [] else [s[0]]) + Strip(s[1..])
  }

  /** The lines joined back together with a newline between neighbours. */
  function Join(lines: seq<string>): string {
    if |lines| <= 1 then (if lines == [] then [] else lines[0])
    else lines[0] + ['\n'] + Join(lines[1..])
  }

  /** The lines one after the other, with nothing between them. */
  function Concat(lines: seq<string>): string {
    if lines == [] then [] else lines[0] + Concat(lines[1..])
  }

  ghost predicate NoNewline(lines: seq<string>) {
    forall i :: 0 <= i < |lines| ==> '\n' !in lines[i]
  }

  /** `str::split("\n")`: the pieces of `s` between newlines. There is one
      piece more than there are newlines, none of them holds a newline, and
      the first is empty exactly when `s` is empty or starts with a newline,
      so the empty text gives one empty piece and a trailing newline gives
      an empty last piece. */
  function Split(s: string): (lines: seq<string>)
    ensures |lines| == Count(s, '\n') + 1
    ensures NoNewline(lines)
    ensures lines[0] == [] <==> s == [] || s[0] == '\n'
  {
    if s == [] then [[]]
    else
      var rest := Split(s[1..]);
      if s[0] == '\n' then [[]] + rest
      else
        assert forall i :: 1 <= i < |rest| ==> rest[1..][i - 1] == rest[i];
        [[s[0]] + rest[0]] + rest[1..]
  }

  /** Joining the pieces with newlines gives the text back. */
  lemma {:induction false} JoinSplit(s: string)
    ensures Join(Split(s)) == s
  {
    if s != [] {
      var rest := Split(s[1..]);
      JoinSplit(s[1..]);
      if s[0] == '\n' {
        assert Split(s) == [[]] + rest;
        assert Split(s)[1..] == rest;
      } else {
        var lines := [[s[0]] + rest[0]] + rest[1..];
        assert Split(s) == lines;
        if |rest| > 1 {
          assert lines[1..] == rest[1..];
          assert Join(rest) == rest[0] + ['\n'] + Join(rest[1..]);
        }
      }
      assert s == [s[0]] + s[1..];
    }
  }

  /** Splitting text that starts with a character other than a newline
      puts that character in front of the first piece of the rest. */
  lemma SplitCons(c: char, t: string)
    requires c != '\n'
    ensures Split([c] + t) == [[c] + Split(t)[0]] + Split(t)[1..]
  {
    assert ([c] + t)[1..] == t;
  }

  /** Splitting text that starts with a newline-free `a` glues `a` onto the
      first piece of the rest. */
  lemma {:induction false} SplitPrefix(a: string, t: string)
    requires '\n' !in a
    ensures Split(a + t) == [a + Split(t)[0]] + Split(t)[1..]
    decreases |a|
  {
    var st := Split(t);
    if a == [] {
      assert a + t == t;
      assert a + st[0] == st[0];
      assert [st[0]] + st[1..] == st;
    } else {
      var a' := a[1..];
      assert a + t == [a[0]] + (a' + t);
      assert '\n' !in a' && a[0] != '\n';
      SplitPrefix(a', t);
      var r := Split(a' + t);
      SplitCons(a[0], a' + t);
      assert r[0] == a' + st[0] && r[1..] == st[1..];
      assert [a[0]] + (a' + st[0]) == a + st[0];
    }
  }

  /** Conversely, splitting newline-free lines joined with newlines gives
      the lines back, so `Split` and `Join` are inverse to each other. */
  lemma {:induction false} SplitJoin(lines: seq<string>)
    requires |lines| >= 1 && NoNewline(lines)
    ensures Split(Join(lines)) == lines
    decreases |lines|
  {
    if |lines| == 1 {
      var a := lines[0];
      assert '\n' !in a;
      SplitPrefix(a, []);
      assert a + [] == a;
    } else {
      var a, tail := lines[0], lines[1..];
      assert NoNewline(tail) by {
        forall i | 0 <= i < |tail| ensures '\n' !in tail[i] {
          assert tail[i] == lines[i + 1];
        }
      }
      SplitJoin(tail);
      var t := ['\n'] + Join(tail);
      assert Join(lines) == a + t;
      assert '\n' !in lines[0];
      SplitPrefix(a, t);
      assert t[1..] == Join(tail);
      assert Split(t) == [[]] + tail;
      assert a + [] == a;
    }
  }

  /** Reading the pieces one after the other gives the text without its
      newlines. */
  lemma {:induction false} ConcatSplit(s: string)
    ensures Concat(Split(s)) == Strip(s)
  {
    if s != [] {
      var rest := Split(s[1..]);
      ConcatSplit(s[1..]);
      if s[0] == '\n' {
        assert Split(s) == [[]] + rest;
        assert Split(s)[1..] == rest;
      } else {
        var lines := [[s[0]] + rest[0]] + rest[1..];
        assert Split(s) == lines;
        assert lines[1..] == rest[1..];
        assert Concat(rest) == rest[0] + Concat(rest[1..]);
      }
    }
  }

  // ---------------------------------------------------------------------
  // Dropping empty lines
  // ---------------------------------------------------------------------

  /** `filter(|line| line.len() > 0)`: the non-empty lines, in order. */
  function NonEmpty(lines: seq<string>): (r: seq<string>)
    ensures |r| <= |lines|
    ensures forall i :: 0 <= i < |r| ==> |r[i]| > 0
    ensures forall l :: l in r <==> l in lines && |l| > 0
  {
    if lines == [] then []
    else (if |lines[0]| > 0 then [lines[0]] else []) + NonEmpty(lines[1..])
  }

  /** Dropping empty lines leaves newline-free lines newline-free. */
  lemma NonEmptyNoNewline(lines: seq<string>)
    requires NoNewline(lines)
    ensures NoNewline(NonEmpty(lines))
  {
    forall i | 0 <= i < |NonEmpty(lines)|
      ensures '\n' !in NonEmpty(lines)[i]
    {
      var l := NonEmpty(lines)[i];
      assert l in lines;
    }
  }

  /** Dropping empty lines does not change what the lines spell out one
      after the other: the kept lines keep their order. */
  lemma {:induction false} ConcatNonEmpty(lines: seq<string>)
    ensures Concat(NonEmpty(lines)) == Concat(lines)
  {
    if lines != [] {
      ConcatNonEmpty(lines[1..]);
      if |lines[0]| > 0 {
        assert NonEmpty(lines) == [lines[0]] + NonEmpty(lines[1..]);
        assert NonEmpty(lines)[1..] == NonEmpty(lines[1..]);
      } else {
        assert lines[0] == [];
        assert NonEmpty(lines) == NonEmpty(lines[1..]);
      }
    }
  }

  lemma TailOfAppend<T>(a: seq<T>, b: seq<T>)
    requires a != []
    ensures (a + b)[0] == a[0] && (a + b)[1..] == a[1..] + b
  {
  }

  lemma AppendAssoc<T>(a: seq<T>, b: seq<T>, c: seq<T>)
    ensures a + (b + c) == (a + b) + c
  {
  }

  /** Dropping empty lines works line by line: the kept lines of two parts
      are the kept lines of the first part followed by those of the
      second, so the kept lines stay in their order. */
  lemma {:induction false} NonEmptyAppend(a: seq<string>, b: seq<string>)
    ensures NonEmpty(a + b) == NonEmpty(a) + NonEmpty(b)
  {
    if a != [] {
      NonEmptyAppend(a[1..], b);
      var head := if |a[0]| > 0 then [a[0]] else [];
      TailOfAppend(a, b);
      AppendAssoc(head, NonEmpty(a[1..]), NonEmpty(b));
    } else {
      assert a + b == b;
    }
  }

  /** Number of maximal runs of non-newline characters in `s`, counted by
      their last characters. */
  function Runs(s: string): nat {
    if s == [] then 0
    else if s[0] != '\n' && (|s| == 1 || s[1] == '\n') then 1 + Runs(s[1..])
    else Runs(s[1..])
  }

  /** There is one non-empty piece per run of non-newline characters. */
  lemma {:induction false} NonEmptySplitCount(s: string)
    ensures |NonEmpty(Split(s))| == Runs(s)
  {
    if s != [] {
      var rest := Split(s[1..]);
      NonEmptySplitCount(s[1..]);
      if s[0] == '\n' {
        assert Split(s) == [[]] + rest;
        assert Split(s)[1..] == rest;
      } else {
        var lines := [[s[0]] + rest[0]] + rest[1..];
        assert Split(s) == lines;
        assert lines[1..] == rest[1..];
        assert NonEmpty(rest) == (if |rest[0]| > 0 then [rest[0]] else []) + NonEmpty(rest[1..]);
        assert |s| == 1 || s[1] == '\n' <==> s[1..] == [] || s[1..][0] == '\n';
      }
    }
  }

  // ---------------------------------------------------------------------
  // Characters to cell values
  // ---------------------------------------------------------------------

  /** `c as i32 - '0' as i32` for each character of the line. A character
      is at most 0x10FFFF, so the value fits an `i32`. */
  function RowOf(line: string): (row: seq<int>)
    ensures |row| == |line|
  {
    seq(|line|, k requires 0 <= k < |line| => line[k] as int - '0' as int)
  }

  /** The code of a Unicode scalar value. */
  predicate IsCharCode(x: int) {
    0 <= x < 0xD800 || 0xE000 <= x < 0x11_0000
  }

  /** Every entry, shifted back by the code of '0', is a character code. */
  predicate IsLine(row: seq<int>) {
    forall k :: 0 <= k < |row| ==> IsCharCode(row[k] + '0' as int)
  }

  /** The line a row was read from: character '0' + v for each entry v. */
  function LineOf(row: seq<int>): (line: string)
    requires IsLine(row)
    ensures |line| == |row|
  {
    seq(|row|, k requires 0 <= k < |row| => (row[k] + '0' as int) as char)
  }

  /** Each entry is its character's code minus that of '0', a digit gives
      its value, and mapping the entries back through '0' + v reproduces
      the line. */
  lemma RowRoundTrip(line: string)
    ensures forall k :: 0 <= k < |line| ==> RowOf(line)[k] == line[k] as int - '0' as int
    ensures forall k :: 0 <= k < |line| && '0' <= line[k] <= '9' ==> 0 <= RowOf(line)[k] <= 9
    ensures IsLine(RowOf(line)) && LineOf(RowOf(line)) == line
  {
  }

  // ---------------------------------------------------------------------
  // read_map
  // ---------------------------------------------------------------------

  /** `read_map` from the `.split("\n")` on, applied to the file's text:
      one row per run of non-newline characters. */
  function ReadMap(text: string): (rows: seq<seq<int>>)
    ensures |rows| == Runs(text)
  {
    NonEmptySplitCount(text);
    var lines := NonEmpty(Split(text));
    seq(|lines|, i requires 0 <= i < |lines| => RowOf(lines[i]))
  }

  /** The parsed map has one row per run of non-newline characters of the
      text; each row is a non-empty line, entry for character, and no entry
      stems from a newline. */
  lemma ReadMapShape(text: string)
    ensures |ReadMap(text)| == |NonEmpty(Split(text))| == Runs(text)
    ensures forall i :: 0 <= i < |ReadMap(text)| ==>
              |ReadMap(text)[i]| == |NonEmpty(Split(text))[i]| > 0
    ensures forall i, k :: 0 <= i < |ReadMap(text)| && 0 <= k < |ReadMap(text)[i]| ==>
              ReadMap(text)[i][k] != '\n' as int - '0' as int
  {
    NonEmptySplitCount(text);
    var lines := NonEmpty(Split(text));
    NonEmptyNoNewline(Split(text));
    forall i, k | 0 <= i < |ReadMap(text)| && 0 <= k < |ReadMap(text)[i]|
      ensures ReadMap(text)[i][k] != '\n' as int - '0' as int
    {
      assert '\n' !in lines[i];
      assert lines[i][k] != '\n';
    }
  }

  /** The rows mapped back to lines. */
  function Text(rows: seq<seq<int>>): (lines: seq<string>)
    requires forall i :: 0 <= i < |rows| ==> IsLine(rows[i])
    ensures |lines| == |rows|
  {
    seq(|rows|, i requires 0 <= i < |rows| => LineOf(rows[i]))
  }

  /** Round trip: each row mapped back through '0' + v is its line, so
      the rows read back in order spell out the text without its
      newlines. */
  lemma ReadMapRoundTrip(text: string)
    ensures forall i :: 0 <= i < |ReadMap(text)| ==>
              IsLine(ReadMap(text)[i]) && LineOf(ReadMap(text)[i]) == NonEmpty(Split(text))[i]
    ensures Text(ReadMap(text)) == NonEmpty(Split(text))
    ensures Concat(Text(ReadMap(text))) == Strip(text)
  {
    var lines := NonEmpty(Split(text));
    var rows := ReadMap(text);
    forall i | 0 <= i < |rows|
      ensures IsLine(rows[i]) && LineOf(rows[i]) == lines[i]
    {
      RowRoundTrip(lines[i]);
    }
    assert Text(rows) == lines;
    ConcatNonEmpty(Split(text));
    ConcatSplit(text);
  }
}
