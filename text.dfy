/** Strings: splitting on a separator (Python's `str.split(sep)`), joining
    with one, and the decimal form of an integer (`str(n)`). */
module Text {

  /** The position of the first `c` in `s`. */
  function IndexOf(s: string, c: char): (i: nat)
    requires c in s
    ensures i < |s| && s[i] == c && c !in s[..i]
  {
    if s[0] == c then 0 else 1 + IndexOf(s[1..], c)
  }

  /** `s.split(c)`: the pieces between separators, an empty piece after a trailing one. */
  function Split(s: string, c: char): (parts: seq<string>)
    ensures |parts| >= 1
    decreases |s|
  {
    if c !in s then [s]
    else
      var i := IndexOf(s, c);
      [s[..i]] + Split(s[i + 1..], c)
  }

  /** `c.join(parts)`. */
  function Join(parts: seq<string>, c: char): string
    requires |parts| >= 1
  {
    if |parts| == 1 then parts[0] else parts[0] + [c] + Join(parts[1..], c)
  }

  /** Splitting a piece free of the separator, the separator and the rest
      gives the piece and then the pieces of the rest. */
  lemma SplitAtFirst(p: string, c: char, rest: string)
    requires c !in p
    ensures Split(p + [c] + rest, c) == [p] + Split(rest, c)
  {
    var s := p + [c] + rest;
    assert s[|p|] == c;
    var i := IndexOf(s, c);
    assert i == |p|;
    assert s[..i] == p;
    assert s[i + 1..] == rest;
  }

  /** Splitting undoes joining when no piece holds the separator. */
  lemma {:induction false} SplitJoin(parts: seq<string>, c: char)
    requires |parts| >= 1
    requires forall k :: 0 <= k < |parts| ==> c !in parts[k]
    ensures Split(Join(parts, c), c) == parts
  {
    if |parts| > 1 {
      var tail := parts[1..];
      assert forall k :: 0 <= k < |tail| ==> tail[k] == parts[k + 1];
      SplitJoin(tail, c);
      assert Join(parts, c) == parts[0] + [c] + Join(tail, c);
      SplitAtFirst(parts[0], c, Join(tail, c));
      assert [parts[0]] + tail == parts;
    }
  }

  function Digit(d: nat): (c: char)
    requires d < 10
    ensures '0' <= c <= '9'
  {
    "0123456789"[d]
  }

  /** The decimal digits of a natural number, most significant first. */
  function Digits(n: nat): (s: string)
    ensures |s| >= 1
    ensures forall k :: 0 <= k < |s| ==> '0' <= s[k] <= '9'
    decreases n
  {
    if n < 10 then [Digit(n)] else Digits(n / 10) + [Digit(n % 10)]
  }

  /** `str(n)` for an integer: a minus sign before the digits of a negative one. */
  function IntToString(n: int): (s: string)
    ensures |s| >= 1
    ensures forall k :: 0 <= k < |s| ==> s[k] == '-' || '0' <= s[k] <= '9'
  {
    if n < 0 then "-" + Digits(-n) else Digits(n)
  }

  /** Concatenation regrouped. Calling it hands the solver this one instance
      as a fact, which is far cheaper than proving the regrouping inline in a
      context where `Unlines` unfolds. */
  lemma AppendAssoc(a: string, b: string, c: string)
    ensures a + b + c == a + (b + c)
  {
  }

  /** The lines, each followed by a newline, one after another. */
  function Unlines(lines: seq<string>): string {
    if lines == [] then "" else Unlines(lines[..|lines| - 1]) + lines[|lines| - 1] + "\n"
  }

  /** Text before the lines, and one more line, is that text, the lines so
      far and the new line with its newline. */
  lemma UnlinesStep(prefix: string, lines: seq<string>)
    requires lines != []
    ensures prefix + Unlines(lines) == prefix + Unlines(lines[..|lines| - 1]) + lines[|lines| - 1] + "\n"
  {
    var init := Unlines(lines[..|lines| - 1]);
    AppendAssoc(prefix, init, lines[|lines| - 1]);
    AppendAssoc(prefix, init + lines[|lines| - 1], "\n");
  }

  lemma {:induction false} UnlinesFront(lines: seq<string>)
    requires lines != []
    ensures Unlines(lines) == lines[0] + "\n" + Unlines(lines[1..])
  {
    if |lines| == 1 {
      assert lines[..0] == [] && lines[1..] == [];
    } else {
      var init, last := lines[..|lines| - 1], lines[|lines| - 1];
      UnlinesFront(init);
      var first := lines[0] + "\n";
      var middle := Unlines(init[1..]);
      var end := last + "\n";
      assert init[1..] == lines[1..][..|lines[1..]| - 1];
      assert Unlines(lines[1..]) == middle + end;
      assert first + middle + end == first + (middle + end);
    }
  }

  /** Splitting newline-free lines joined by newlines, with a trailing one,
      gives back the lines and an empty piece after the last newline. */
  lemma {:induction false} SplitUnlines(lines: seq<string>)
    requires forall k :: 0 <= k < |lines| ==> '\n' !in lines[k]
    ensures Split(Unlines(lines), '\n') == lines + [""]
    decreases |lines|
  {
    if lines == [] {
      assert Unlines(lines) == [];
    } else {
      var tail := lines[1..];
      SplitUnlines(tail);
      var rest := Unlines(tail);
      UnlinesFront(lines);
      assert Unlines(lines) == lines[0] + ['\n'] + rest;
      SplitAtFirst(lines[0], '\n', rest);
      assert [lines[0]] + (tail + [""]) == lines + [""];
    }
  }

  /** A newline-free first line, a newline and newline-terminated lines split
      into the first line, the lines and a final empty piece. */
  lemma SplitAfterFirstLine(first: string, lines: seq<string>)
    requires '\n' !in first
    requires forall k :: 0 <= k < |lines| ==> '\n' !in lines[k]
    ensures Split(first + "\n" + Unlines(lines), '\n') == [first] + lines + [""]
  {
    SplitAtFirst(first, '\n', Unlines(lines));
    SplitUnlines(lines);
  }
}
