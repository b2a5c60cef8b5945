/** Line input as the two programs see it: `fgets` through a 4096-byte buffer, and `getline`. */
module Text {

  const BUFFER_SIZE: nat := 4096

  /** The part of `s` before the first `c`; all of `s` when there is none. */
  function UpTo(s: string, c: char): (r: string)
    ensures |r| <= |s| && r == s[..|r|] && c !in r
    ensures |r| < |s| ==> s[|r|] == c
  {
    if s == [] || s[0] == c then [] else [s[0]] + UpTo(s[1..], c)
  }

  /** A buffer read as a C string ends at its first NUL. */
  function CString(s: string): string {
    UpTo(s, '\0')
  }

  /** How many characters `fgets` takes from `fd` into a buffer with `room` characters left. */
  function Taken(fd: string, room: nat): (n: nat)
    ensures n <= |fd| && n <= room
    ensures fd != [] && room > 0 ==> n > 0
  {
    if room == 0 || fd == [] then 0
    else if fd[0] == '\n' then 1
    else 1 + Taken(fd[1..], room - 1)
  }

  /** `readNextLine`: the line read, and what is left of the file. At the end of the file the line is empty. */
  function ReadNextLine(fd: string): (r: (string, string))
    ensures |r.1| <= |fd| && (r.0 != [] ==> |r.1| < |fd|)
    ensures '\n' !in r.0 && '\0' !in r.0
  {
    var n := Taken(fd, BUFFER_SIZE - 1);
    (CString(UpTo(fd[..n], '\n')), fd[n..])
  }

  lemma {:induction false} TakenExactly(fd: string, room: nat)
    ensures var n := Taken(fd, room);
            && '\n' !in fd[..if n > 0 then n - 1 else 0]
            && (n == |fd| || n == room || (n > 0 && fd[n - 1] == '\n'))
    decreases |fd|
  {
    var n := Taken(fd, room);
    if n > 1 {
      TakenExactly(fd[1..], room - 1);
      assert fd[..n - 1] == [fd[0]] + fd[1..][..n - 2];
    }
  }

  /** What one call reads: up to the first newline, the end of the file or a full buffer; of that, the line is
      the part before the first newline or NUL. */
  lemma NextLineExactly(fd: string)
    ensures var (line, rest) := ReadNextLine(fd);
            var n := |fd| - |rest|;
            && 0 <= n < BUFFER_SIZE && rest == fd[n..] && |line| <= n && line == fd[..|line|]
            && '\n' !in fd[..if n > 0 then n - 1 else 0]
            && (n == |fd| || n == BUFFER_SIZE - 1 || (n > 0 && fd[n - 1] == '\n'))
            && (|line| < n ==> fd[|line|] == '\n' || fd[|line|] == '\0')
  {
    var n := Taken(fd, BUFFER_SIZE - 1);
    var upTo := UpTo(fd[..n], '\n');
    TakenExactly(fd, BUFFER_SIZE - 1);
    assert ReadNextLine(fd) == (CString(upTo), fd[n..]);
    assert upTo == fd[..|upTo|];
  }

  /** Can be written on a line of its own and read back unharmed. */
  predicate FitsALine(f: string) {
    '\n' !in f && '\0' !in f && |f| <= BUFFER_SIZE - 2
  }

  lemma {:induction false} UpToAbsent(f: string, c: char, rest: string)
    requires c !in f
    ensures UpTo(f + [c] + rest, c) == f && UpTo(f, c) == f
    decreases |f|
  {
    if f != [] {
      assert (f + [c] + rest)[1..] == f[1..] + [c] + rest;
      UpToAbsent(f[1..], c, rest);
    }
  }

  lemma {:induction false} TakesTheLine(f: string, rest: string, room: nat)
    requires '\n' !in f && |f| < room
    ensures Taken(f + "\n" + rest, room) == |f| + 1
    decreases |f|
  {
    var fd := f + "\n" + rest;
    if f != [] {
      assert fd[1..] == f[1..] + "\n" + rest;
      TakesTheLine(f[1..], rest, room - 1);
    }
  }

  /** A printed line is read back exactly when it has no newline, no NUL and fits the buffer. */
  lemma ReadsBackExactly(f: string, rest: string)
    ensures ReadNextLine(f + "\n" + rest) == (f, rest) <==> FitsALine(f)
    ensures FitsALine(f) <==> '\n' !in f && '\0' !in f && |f| <= 4094
  {
    var fd := f + "\n" + rest;
    if FitsALine(f) {
      TakesTheLine(f, rest, BUFFER_SIZE - 1);
      assert fd[..|f| + 1] == f + "\n" + [] && fd[|f| + 1..] == rest;
      UpToAbsent(f, '\n', []);
      UpToAbsent(f, '\0', []);
    } else if |f| > BUFFER_SIZE - 2 {
      assert |ReadNextLine(fd).1| >= |fd| - (BUFFER_SIZE - 1);
    }
  }

  /** What is left after the first line and its newline. */
  function AfterLine(text: string): (rest: string)
    ensures text != [] ==> |rest| < |text|
  {
    var line := UpTo(text, '\n');
    if |line| == |text| then [] else text[|line| + 1..]
  }

  /** The lines `getline` yields until the stream is exhausted. */
  function GetLines(text: string): (lines: seq<string>)
    ensures forall l :: l in lines ==> '\n' !in l
    decreases |text|
  {
    if text == [] then [] else [UpTo(text, '\n')] + GetLines(AfterLine(text))
  }

  /** Each line with its newline. */
  function Unlines(lines: seq<string>): string {
    if lines == [] then "" else lines[0] + "\n" + Unlines(lines[1..])
  }

  lemma {:induction false} LinesComeBack(lines: seq<string>)
    requires forall i :: 0 <= i < |lines| ==> '\n' !in lines[i]
    ensures GetLines(Unlines(lines)) == lines
    decreases |lines|
  {
    if lines != [] {
      var line, rest := lines[0], Unlines(lines[1..]);
      UpToAbsent(line, '\n', rest);
      assert AfterLine(Unlines(lines)) == rest;
      LinesComeBack(lines[1..]);
    }
  }

  lemma UnlinesCons(line: string, lines: seq<string>)
    ensures Unlines([line] + lines) == line + "\n" + Unlines(lines)
  {
    assert ([line] + lines)[1..] == lines;
  }

  /** A text that ends its last line. */
  function Ended(text: string): string {
    if text == "" || text[|text| - 1] == '\n' then text else text + "\n"
  }

  lemma EndedTail(line: string, rest: string)
    ensures Ended(line + "\n" + rest) == line + "\n" + Ended(rest)
  {
    var text := line + "\n" + rest;
    if rest == "" {
      assert text == line + "\n" && text[|text| - 1] == '\n';
      assert line + "\n" + Ended(rest) == text;
    } else {
      assert text[|text| - 1] == rest[|rest| - 1];
      assert line + "\n" + (rest + "\n") == text + "\n";
    }
  }

  lemma FirstLineEnds(text: string)
    requires text != []
    ensures Ended(text) == UpTo(text, '\n') + "\n" + Ended(AfterLine(text))
  {
    var line, rest := UpTo(text, '\n'), AfterLine(text);
    if |line| == |text| {
      assert line == text;
      assert text + "\n" + "" == text + "\n";
    } else {
      assert text == line + "\n" + rest;
      EndedTail(line, rest);
    }
  }

  /** And the text comes back from its lines, a last line without a newline gaining one. */
  lemma {:induction false} TextComesBack(text: string)
    ensures Unlines(GetLines(text)) == Ended(text)
    decreases |text|
  {
    if text != [] {
      var line, rest := UpTo(text, '\n'), AfterLine(text);
      TextComesBack(rest);
      UnlinesCons(line, GetLines(rest));
      FirstLineEnds(text);
    }
  }
}
