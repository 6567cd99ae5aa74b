/**
 Reading a line from a stream (core/include/join/utils.hpp, `getline`): every carriage return is
 skipped, a line feed ends the line, and no more than `max` characters are taken for one line.
 */
module LineReader {

  datatype Line = Line(ok: bool, text: string, rest: string)

  /** What `getline` makes of a stream: the line so far, and what is left to read. */
  function ReadLine(s: string, max: nat): (r: Line)
    ensures r.ok ==> |r.rest| < |s|
  {
    if max == 0 || s == "" then Line(false, "", s)
    else if s[0] == '\r' then ReadLine(s[1..], max - 1)
    else if s[0] == '\n' then Line(true, "", s[1..])
    else
      var r := ReadLine(s[1..], max - 1);
      r.(text := [s[0]] + r.text)
  }

  /** An inner stream: what it has still to give. */
  class Source {
    var left: string

    constructor (s: string)
      ensures left == s
    {
      left := s;
    }

    method Getline(max: nat) returns (ok: bool, line: string)
      modifies this
      ensures Line(ok, line, left) == ReadLine(old(left), max)
    {
      line := "";
      var n := max;
      while n > 0
        invariant var r := ReadLine(left, n); ReadLine(old(left), max) == r.(text := line + r.text)
      {
        if left == "" { return false, line; }
        var ch := left[0];
        left := left[1..];
        n := n - 1;
        if ch == '\n' { return true, line; }
        if ch != '\r' { line := line + [ch]; }
      }
      ok := false;
    }

    /** sgetn: as many of `n` characters as there are. */
    method Take(n: nat) returns (s: string)
      modifies this
      ensures s + left == old(left) && |s| == if n <= |old(left)| then n else |old(left)|
    {
      var k := if n <= |left| then n else |left|;
      s := left[..k];
      left := left[k..];
    }
  }

  predicate NoBreaks(s: string) {
    '\r' !in s && '\n' !in s
  }

  /** A line that fits is read back, whatever comes after it. */
  lemma {:induction false} ReadsBack(line: string, rest: string, max: nat)
    requires NoBreaks(line) && |line| + 2 <= max
    ensures ReadLine(line + "\r\n" + rest, max) == Line(true, line, rest)
  {
    var s := line + "\r\n" + rest;
    if line == "" {
      assert s[1..] == "\n" + rest && s[1..][1..] == rest;
    } else {
      assert line[0] in line && s[1..] == line[1..] + "\r\n" + rest;
      ReadsBack(line[1..], rest, max - 1);
    }
  }

  /** The characters of a line: all but the carriage returns. */
  function WithoutReturns(s: string): string {
    if s == "" then "" else if s[0] == '\r' then WithoutReturns(s[1..]) else [s[0]] + WithoutReturns(s[1..])
  }

  /** On any stream: a line is read exactly when a line feed comes among the first `max` characters, and
      then it is what comes before the first one, without carriage returns, and what comes after it is
      left; else those characters are taken and there is no line. */
  lemma {:induction false} ReadsExactly(s: string, max: nat, n: nat)
    requires n <= |s| && n <= max && '\n' !in s[..n]
    requires n < |s| && n < max ==> s[n] == '\n'
    ensures ReadLine(s, max)
            == if n < |s| && n < max then Line(true, WithoutReturns(s[..n]), s[n + 1..])
               else Line(false, WithoutReturns(s[..n]), s[n..])
    decreases n
  {
    if n > 0 {
      assert s[0] in s[..n] && s[1..][..n - 1] == s[..n][1..];
      ReadsExactly(s[1..], max - 1, n - 1);
    }
  }
}
