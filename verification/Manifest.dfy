/** The updater's side of the manifest: reading it, rebuilding the signed stream, choosing what to install. */
module Manifest {
  import opened Wrappers
  import opened FileSystem
  import opened Text
  import opened Generator
  import Decimal

  datatype Platform = Windows | Posix

  /** Does this signature verify for this content? The cryptography is not modelled. */
  type Verifier = (string, string) -> bool

  function Separator(os: Platform): char {
    if os == Windows then '\\' else '/'
  }

  predicate IsSeparator(c: char) {
    c == '/' || c == '\\'
  }

  /** Both separators become the platform's own; nothing else changes. */
  function Native(os: Platform, path: string): (r: string)
    ensures |r| == |path|
    ensures forall i :: 0 <= i < |path| ==> r[i] == if IsSeparator(path[i]) then Separator(os) else path[i]
  {
    seq(|path|, i requires 0 <= i < |path| =>
      if os == Windows && path[i] == '/' then '\\' else if os == Posix && path[i] == '\\' then '/' else path[i])
  }

  /** The same but for the choice of separators. */
  ghost predicate SamePlace(p: string, q: string) {
    |p| == |q| && forall i :: 0 <= i < |p| ==> p[i] == q[i] || (IsSeparator(p[i]) && IsSeparator(q[i]))
  }

  /** A native path has no foreign separator, names the place the path named, and is the native form of exactly the
      paths that name that place. */
  lemma NativeExactly(os: Platform, p: string, q: string)
    ensures forall c :: c in Native(os, p) && IsSeparator(c) ==> c == Separator(os)
    ensures SamePlace(p, Native(os, p))
    ensures Native(os, p) == Native(os, q) <==> SamePlace(p, q)
  {
    var m, n := Native(os, p), Native(os, q);
    if SamePlace(p, q) {
      forall i | 0 <= i < |p| ensures m[i] == n[i] {}
    }
    if m == n {
      forall i | 0 <= i < |p| ensures p[i] == q[i] || (IsSeparator(p[i]) && IsSeparator(q[i])) {
        assert m[i] == n[i];
      }
    }
  }

  datatype Reading = EndOfList | Spoiled | Next(entry: Entry, rest: string)

  /** Three lines make an entry; an empty URL ends the list, an empty path or signature spoils the file. */
  function ReadEntry(fd: string): (r: Reading)
    ensures r.Next? ==> |r.rest| < |fd|
  {
    var url := ReadNextLine(fd);
    if url.0 == [] then EndOfList else
    var path := ReadNextLine(url.1);
    if path.0 == [] then Spoiled else
    var sig := ReadNextLine(path.1);
    if sig.0 == [] then Spoiled else Next(Entry(url.0, path.0, sig.0), sig.1)
  }

  datatype Body = Malformed | Body(entries: seq<Entry>)

  function ReadBody(fd: string): Body
    decreases |fd|
  {
    match ReadEntry(fd)
    case EndOfList => Body([])
    case Spoiled => Malformed
    case Next(e, fd') => Prepend([e], ReadBody(fd'))
  }

  function Prepend(before: seq<Entry>, body: Body): Body {
    match body
    case Malformed => Malformed
    case Body(rest) => Body(before + rest)
  }

  lemma PrependTwice(a: seq<Entry>, b: seq<Entry>, body: Body)
    ensures Prepend(a, Prepend(b, body)) == Prepend(a + b, body)
  {
    if body.Body? {
      assert a + (b + body.entries) == a + b + body.entries;
    }
  }

  predicate Verified(verify: Verifier, fs: Files, q: Path, sig: string) {
    q in fs && verify(fs[q], sig)
  }

  /** Where an entry goes below the application folder. */
  function Target(os: Platform, e: Entry): string {
    Native(os, e.path)
  }

  predicate Installed(os: Platform, verify: Verifier, fs: Files, e: Entry) {
    Verified(verify, fs, Path(App, Target(os, e)), e.sig)
  }

  /** The entries still to be installed, in manifest order, with native separators. */
  function Pending(os: Platform, verify: Verifier, fs: Files, entries: seq<Entry>): (r: seq<Entry>)
    ensures |r| <= |entries|
  {
    if entries == [] then []
    else
      var init, last := entries[..|entries| - 1], entries[|entries| - 1];
      Pending(os, verify, fs, init) +
      if Installed(os, verify, fs, last) then [] else [last.(path := Target(os, last))]
  }

  /** The two header lines and the body. */
  function VersionLine(text: string): string {
    ReadNextLine(text).0
  }

  function SignatureLine(text: string): string {
    ReadNextLine(ReadNextLine(text).1).0
  }

  function BodyOf(text: string): Body {
    ReadBody(ReadNextLine(ReadNextLine(text).1).1)
  }

  /** The byte stream the updater hashes while reading: lines as read, before separators are converted. */
  function HashedStream(text: string): string
    requires BodyOf(text).Body?
  {
    StreamOf(VersionLine(text), BodyOf(text).entries)
  }

  datatype Verdict = Rejected | Accepted(version: int, pending: seq<Entry>)

  /** `processUpdateFile`: whether to go on, and with what. `current` is the installed version, -1 if unreadable. */
  function Judge(os: Platform, verify: Verifier, fs: Files, current: int, text: string): Verdict {
    if VersionLine(text) == [] || current == -1 then Rejected
    else if Decimal.Atoi(VersionLine(text)) <= current || SignatureLine(text) == [] then Rejected
    else match BodyOf(text)
      case Malformed => Rejected
      case Body(entries) =>
        var pending := Pending(os, verify, fs, entries);
        if pending == [] || !verify(HashedStream(text), SignatureLine(text)) then Rejected
        else Accepted(Decimal.Atoi(VersionLine(text)), pending)
  }

  lemma PendingGrows(os: Platform, verify: Verifier, fs: Files, entries: seq<Entry>, e: Entry)
    ensures Pending(os, verify, fs, entries + [e]) ==
            Pending(os, verify, fs, entries) + if Installed(os, verify, fs, e) then [] else [e.(path := Target(os, e))]
  {
    assert (entries + [e])[..|entries|] == entries;
  }

  /** Every entry is either installed already or pending, and nothing else is pending. */
  lemma {:induction false} PendingIsTheRest(os: Platform, verify: Verifier, fs: Files, entries: seq<Entry>)
    ensures forall e :: e in entries && !Installed(os, verify, fs, e) ==>
              e.(path := Target(os, e)) in Pending(os, verify, fs, entries)
    ensures forall p :: p in Pending(os, verify, fs, entries) ==>
              exists e :: e in entries && !Installed(os, verify, fs, e) && p == e.(path := Target(os, e))
  {
    if entries != [] {
      var init, last := entries[..|entries| - 1], entries[|entries| - 1];
      PendingIsTheRest(os, verify, fs, init);
      assert entries == init + [last];
    }
  }

  /** A pending entry is an entry not installed, with the same URL and signature, under a path that names the same
      place with the platform's separators only. */
  lemma PendingIsNative(os: Platform, verify: Verifier, fs: Files, entries: seq<Entry>, p: Entry)
    requires p in Pending(os, verify, fs, entries)
    ensures forall c :: c in p.path && IsSeparator(c) ==> c == Separator(os)
    ensures exists e :: e in entries && p.url == e.url && p.sig == e.sig && SamePlace(e.path, p.path)
                        && !Verified(verify, fs, Path(App, p.path), p.sig)
  {
    PendingIsTheRest(os, verify, fs, entries);
    var e :| e in entries && !Installed(os, verify, fs, e) && p == e.(path := Target(os, e));
    NativeExactly(os, e.path, e.path);
  }

  lemma AppendLast(a: seq<Entry>, b: seq<Entry>, c: seq<Entry>)
    ensures a + (b + c) == a + b + c
  {}

  /** The pending entries keep the order of the manifest and how often each is listed. */
  lemma {:induction false} PendingKeepsOrder(
      os: Platform, verify: Verifier, fs: Files, before: seq<Entry>, after: seq<Entry>)
    ensures Pending(os, verify, fs, before + after) ==
            Pending(os, verify, fs, before) + Pending(os, verify, fs, after)
    decreases |after|
  {
    if after == [] {
      assert before + after == before;
    } else {
      var init, last := after[..|after| - 1], after[|after| - 1];
      PendingKeepsOrder(os, verify, fs, before, init);
      assert after == init + [last];
      assert before + after == before + init + [last];
      PendingGrows(os, verify, fs, before + init, last);
      PendingGrows(os, verify, fs, init, last);
      AppendLast(Pending(os, verify, fs, before), Pending(os, verify, fs, init),
        if Installed(os, verify, fs, last) then [] else [last.(path := Target(os, last))]);
    }
  }

  // ----- Round trip with the generator -----

  predicate Readable(f: string) {
    f != [] && FitsALine(f)
  }

  ghost predicate ReadableEntries(entries: seq<Entry>) {
    forall e :: e in entries ==> Readable(e.url) && Readable(e.path) && Readable(e.sig)
  }

  lemma EmptyLine(rest: string)
    ensures ReadNextLine("\n" + rest) == ([], rest)
  {
    ReadsBackExactly([], rest);
    assert [] + "\n" + rest == "\n" + rest;
  }

  /** A field that reads back as itself fits a line or fills the buffer, and then the next line read is empty. */
  lemma FieldReadBack(f: string, rest: string)
    requires f != [] && ReadNextLine(f + "\n" + rest).0 == f
    ensures Readable(f) || ReadNextLine(f + "\n" + rest).1 == "\n" + rest
  {
    var fd := f + "\n" + rest;
    var r := ReadNextLine(fd);
    if !FitsALine(f) {
      assert |f| == BUFFER_SIZE - 1;
      assert Taken(fd, BUFFER_SIZE - 1) <= |f|;
      assert |r.1| >= |fd| - |f|;
      TakesAll(f, "\n" + rest);
      assert fd == f + ("\n" + rest);
      assert fd[|f|..] == "\n" + rest;
    }
  }

  lemma {:induction false} TakesAll(f: string, rest: string)
    requires '\n' !in f
    ensures Taken(f + rest, |f|) == |f|
    decreases |f|
  {
    if f != [] {
      assert (f + rest)[1..] == f[1..] + rest;
      TakesAll(f[1..], rest);
    }
  }

  /** Three printed lines are read as the entry they were printed from, and nothing more, exactly when each of
      its fields is readable. */
  lemma EntryReadsBackExactly(e: Entry, rest: string)
    ensures ReadEntry(e.url + "\n" + (e.path + "\n" + (e.sig + "\n" + rest))) == Next(e, rest) <==>
            Readable(e.url) && Readable(e.path) && Readable(e.sig)
  {
    var afterPath := e.sig + "\n" + rest;
    var afterUrl := e.path + "\n" + afterPath;
    ReadsBackExactly(e.url, afterUrl);
    ReadsBackExactly(e.path, afterPath);
    ReadsBackExactly(e.sig, rest);
    EmptyLine(afterUrl);
    EmptyLine(afterPath);
    if ReadEntry(e.url + "\n" + afterUrl) == Next(e, rest) {
      FieldReadBack(e.url, afterUrl);
      assert Readable(e.url);
      FieldReadBack(e.path, afterPath);
      assert Readable(e.path);
    }
  }

  lemma {:induction false} EntriesReadBack(entries: seq<Entry>)
    requires ReadableEntries(entries)
    ensures ReadBody(PrintEntries(entries)) == Body(entries)
    decreases |entries|
  {
    if entries != [] {
      var e, rest := entries[0], PrintEntries(entries[1..]);
      assert e in entries;
      EntryReadsBackExactly(e, rest);
      EntriesReadBack(entries[1..]);
      assert [e] + entries[1..] == entries;
    }
  }

  lemma {:induction false} StreamOfSplits(version: string, entries: seq<Entry>)
    ensures StreamOf(version, entries) == version + StreamOf("", entries)
  {
    if entries != [] {
      StreamOfSplits(version, entries[..|entries| - 1]);
    }
  }

  lemma SameTail(a: string, b: string, tail: string)
    ensures a + tail == b + tail <==> a == b
  {
    if a + tail == b + tail {
      assert |a| == |b|;
      assert a == (a + tail)[..|a|] && b == (b + tail)[..|b|];
    }
  }

  ghost predicate ReadableOutcome(o: Outcome) {
    o.Printed? && Readable(o.sig) && ReadableEntries(o.entries) &&
        -Decimal.LONG_MAX - 1 <= o.version <= Decimal.LONG_MAX
  }

  /** The text of the `#version=` setting as the generator signs it. */
  function VersionText(text: string): string {
    CString(ReadContents(GetLines(text)).version)
  }

  lemma GeneratedFacts(text: string, env: Environment)
    requires Generate(text, env).Printed?
    ensures var o := Generate(text, env);
            && o.version == Decimal.Strtol(VersionText(text))
            && o.stream == StreamOf(VersionText(text), o.entries)
  {}

  /** What the generator prints is what the updater reads: version, signature and entries in order. */
  lemma ManifestReadsBack(o: Outcome)
    requires ReadableOutcome(o)
    ensures VersionLine(PrintManifest(o)) == Decimal.Print(o.version)
    ensures SignatureLine(PrintManifest(o)) == o.sig
    ensures BodyOf(PrintManifest(o)) == Body(o.entries)
  {
    var printed, afterVersion := PrintManifest(o), o.sig + "\n" + PrintEntries(o.entries);
    Decimal.LongIsShort(o.version);
    ReadsBackExactly(Decimal.Print(o.version), afterVersion);
    assert ReadNextLine(printed) == (Decimal.Print(o.version), afterVersion);
    ReadsBackExactly(o.sig, PrintEntries(o.entries));
    EntriesReadBack(o.entries);
  }

  /** The generator signs the version text but prints the number it parsed. So both programs hash the
      same stream exactly when that text is already the printed form of the number. */
  lemma StreamsAgreeExactly(text: string, env: Environment)
    requires ReadableOutcome(Generate(text, env))
    ensures BodyOf(PrintManifest(Generate(text, env))).Body?
    ensures HashedStream(PrintManifest(Generate(text, env))) == Generate(text, env).stream <==>
            VersionText(text) == Decimal.Print(Decimal.Strtol(VersionText(text)))
  {
    var o := Generate(text, env);
    GeneratedFacts(text, env);
    ManifestReadsBack(o);
    StreamOfSplits(VersionText(text), o.entries);
    StreamOfSplits(Decimal.Print(o.version), o.entries);
    SameTail(VersionText(text), Decimal.Print(o.version), StreamOf("", o.entries));
  }

  lemma JudgeReadable(o: Outcome, os: Platform, verify: Verifier, fs: Files, current: int)
    requires ReadableOutcome(o) && -Decimal.INT_MAX - 1 <= o.version <= Decimal.INT_MAX && current != -1
    ensures BodyOf(PrintManifest(o)).Body?
    ensures var pending := Pending(os, verify, fs, o.entries);
            Judge(os, verify, fs, current, PrintManifest(o)) ==
            if o.version > current && pending != [] && verify(HashedStream(PrintManifest(o)), o.sig)
            then Accepted(o.version, pending) else Rejected
  {
    ManifestReadsBack(o);
    Decimal.ReadBackAsInt(o.version);
  }

  /** A manifest produced from a canonical version number and signed by the matching key makes the
      updater install exactly the entries not yet in place, whatever was skipped. */
  lemma SignedManifestIsFollowed(
      text: string, env: Environment, os: Platform, verify: Verifier, fs: Files, current: int)
    requires ReadableOutcome(Generate(text, env)) && current != -1
    requires verify(Generate(text, env).stream, Generate(text, env).sig)
    requires VersionText(text) == Decimal.Print(Decimal.Strtol(VersionText(text)))
    requires -Decimal.INT_MAX - 1 <= Generate(text, env).version <= Decimal.INT_MAX
    ensures var o := Generate(text, env);
            var pending := Pending(os, verify, fs, o.entries);
            Judge(os, verify, fs, current, PrintManifest(o)) ==
            if o.version > current && pending != [] then Accepted(o.version, pending) else Rejected
  {
    StreamsAgreeExactly(text, env);
    JudgeReadable(Generate(text, env), os, verify, fs, current);
  }

  // ----- Any text -----

  /** What the updater accepts, for any text: a version line with a number above the installed version, which could
      be read; a signature line; a well-formed list; an entry not installed yet; and a stream that verifies. */
  lemma AcceptsExactly(os: Platform, verify: Verifier, fs: Files, current: int, text: string)
    ensures Judge(os, verify, fs, current, text).Accepted? <==>
            && VersionLine(text) != [] && SignatureLine(text) != []
            && current != -1 && current < Decimal.Atoi(VersionLine(text))
            && BodyOf(text).Body?
            && (exists e :: e in BodyOf(text).entries && !Installed(os, verify, fs, e))
            && verify(HashedStream(text), SignatureLine(text))
    ensures Judge(os, verify, fs, current, text).Accepted? ==>
              && Judge(os, verify, fs, current, text).version == Decimal.Atoi(VersionLine(text))
              && Judge(os, verify, fs, current, text).pending == Pending(os, verify, fs, BodyOf(text).entries)
  {
    if BodyOf(text).Body? {
      var entries := BodyOf(text).entries;
      PendingIsTheRest(os, verify, fs, entries);
      if Pending(os, verify, fs, entries) != [] {
        assert Pending(os, verify, fs, entries)[0] in Pending(os, verify, fs, entries);
      }
    }
  }

  lemma Nested(a: string, b: string, c: string, d: string, rest: string)
    ensures a + (b + (c + d)) + rest == a + (b + (c + (d + rest)))
    ensures a + b + c + d == a + (b + (c + d))
  {}

  lemma PrintedSplits(entries: seq<Entry>, rest: string)
    requires entries != []
    ensures var e := entries[0];
            PrintEntries(entries) + rest ==
            e.url + "\n" + (e.path + "\n" + (e.sig + "\n" + (PrintEntries(entries[1..]) + rest)))
  {
    var e := entries[0];
    Nested(e.url + "\n", e.path + "\n", e.sig + "\n", PrintEntries(entries[1..]), rest);
  }

  lemma PrependOne(e: Entry, entries: seq<Entry>, body: Body)
    ensures Prepend([e], Prepend(entries, body)) == Prepend([e] + entries, body)
  {
    PrependTwice([e], entries, body);
  }

  lemma ReadOneEntry(fd: string, e: Entry, rest: string)
    requires ReadEntry(fd) == Next(e, rest)
    ensures ReadBody(fd) == Prepend([e], ReadBody(rest))
  {}

  lemma PrependNothing(body: Body)
    ensures Prepend([], body) == body
  {
    if body.Body? {
      assert [] + body.entries == body.entries;
    }
  }

  lemma EntryThenRest(e: Entry, rest: string)
    requires Readable(e.url) && Readable(e.path) && Readable(e.sig)
    ensures ReadBody(e.url + "\n" + (e.path + "\n" + (e.sig + "\n" + rest))) == Prepend([e], ReadBody(rest))
  {
    EntryReadsBackExactly(e, rest);
    ReadOneEntry(e.url + "\n" + (e.path + "\n" + (e.sig + "\n" + rest)), e, rest);
  }

  /** Printed entries are read whatever follows, and then the rest is read. */
  lemma {:induction false} EntriesThenRest(entries: seq<Entry>, rest: string)
    requires ReadableEntries(entries)
    ensures ReadBody(PrintEntries(entries) + rest) == Prepend(entries, ReadBody(rest))
    decreases |entries|
  {
    if entries == [] {
      assert PrintEntries(entries) + rest == rest;
      PrependNothing(ReadBody(rest));
    } else {
      assert entries[0] in entries;
      PrintedSplits(entries, rest);
      EntryThenRest(entries[0], PrintEntries(entries[1..]) + rest);
      EntriesThenRest(entries[1..], rest);
      PrependOne(entries[0], entries[1..], ReadBody(rest));
      assert [entries[0]] + entries[1..] == entries;
    }
  }

  lemma EmptyText()
    ensures ReadNextLine("") == ("", "")
  {}

  /** The list ends at an empty line or at the end of the file, whatever follows. */
  lemma ListEndsAtEmptyLine(entries: seq<Entry>, rest: string)
    requires ReadableEntries(entries)
    ensures ReadBody(PrintEntries(entries)) == Body(entries)
    ensures ReadBody(PrintEntries(entries) + ("\n" + rest)) == Body(entries)
  {
    EntriesReadBack(entries);
    EmptyLine(rest);
    EntriesThenRest(entries, "\n" + rest);
    assert entries + [] == entries;
  }

  /** Nothing more, or an empty line. */
  predicate EndsList(rest: string) {
    rest == "" || rest[0] == '\n'
  }

  lemma NoLineAtEnd(rest: string)
    requires EndsList(rest)
    ensures ReadNextLine(rest).0 == []
  {
    if rest == "" {
      EmptyText();
    } else {
      EmptyLine(rest[1..]);
      assert rest == "\n" + rest[1..];
    }
  }

  /** A list that ends after the URL of an entry is malformed. */
  lemma CutAfterUrl(entries: seq<Entry>, url: string, rest: string)
    requires ReadableEntries(entries) && Readable(url) && EndsList(rest)
    ensures ReadBody(PrintEntries(entries) + (url + "\n" + rest)) == Malformed
  {
    NoLineAtEnd(rest);
    CutShort(entries, url, rest);
  }

  /** And so is one that ends after its path. */
  lemma CutAfterPath(entries: seq<Entry>, url: string, path: string, rest: string)
    requires ReadableEntries(entries) && Readable(url) && Readable(path) && EndsList(rest)
    ensures ReadBody(PrintEntries(entries) + (url + "\n" + (path + "\n" + rest))) == Malformed
  {
    NoLineAtEnd(rest);
    ReadsBackExactly(path, rest);
    CutShort(entries, url, path + "\n" + rest);
  }

  lemma CutShort(entries: seq<Entry>, url: string, rest: string)
    requires ReadableEntries(entries) && Readable(url)
    requires ReadNextLine(rest).0 == [] || ReadNextLine(ReadNextLine(rest).1).0 == []
    ensures ReadBody(PrintEntries(entries) + (url + "\n" + rest)) == Malformed
  {
    ReadsBackExactly(url, rest);
    EntriesThenRest(entries, url + "\n" + rest);
  }

  // ----- What the signed stream determines -----

  /** A text with its newlines removed. */
  function Joined(text: string): string {
    if text == "" then "" else (if text[0] == '\n' then "" else [text[0]]) + Joined(text[1..])
  }

  lemma {:induction false} JoinedConcat(a: string, b: string)
    ensures Joined(a + b) == Joined(a) + Joined(b)
    decreases |a|
  {
    if a == "" {
      assert a + b == b;
    } else {
      assert (a + b)[1..] == a[1..] + b;
      JoinedConcat(a[1..], b);
    }
  }

  lemma {:induction false} JoinedField(f: string)
    requires '\n' !in f
    ensures Joined(f) == f
    decreases |f|
  {
    if f != "" {
      JoinedField(f[1..]);
    }
  }

  lemma JoinedNewline()
    ensures Joined("\n") == ""
  {
    assert "\n"[1..] == "";
  }

  lemma JoinedLine(f: string, rest: string)
    requires '\n' !in f
    ensures Joined(f + "\n" + rest) == f + Joined(rest)
  {
    JoinedConcat(f, "\n");
    JoinedConcat(f + "\n", rest);
    JoinedField(f);
    JoinedNewline();
    assert f + "" == f;
  }

  lemma StreamFromFront(e: Entry, rest: seq<Entry>)
    ensures StreamOf("", [e] + rest) == EntryBytes(e) + StreamOf("", rest)
    decreases |rest|
  {
    var all := [e] + rest;
    if rest == [] {
      assert all[..0] == [];
    } else {
      var n := |rest| - 1;
      assert all[..|all| - 1] == [e] + rest[..n] && all[|all| - 1] == rest[n];
      StreamFromFront(e, rest[..n]);
    }
  }

  lemma JoinedEntry(e: Entry, rest: string)
    requires '\n' !in e.url && '\n' !in e.path && '\n' !in e.sig
    ensures Joined(e.url + "\n" + (e.path + "\n" + (e.sig + "\n" + rest))) == EntryBytes(e) + Joined(rest)
  {
    JoinedLine(e.url, e.path + "\n" + (e.sig + "\n" + rest));
    JoinedLine(e.path, e.sig + "\n" + rest);
    JoinedLine(e.sig, rest);
    Nested(e.url, e.path, e.sig, Joined(rest), "");
  }

  /** The signed stream is the version followed by the printed list with its newlines removed. */
  lemma {:induction false} StreamIsThePrintedList(entries: seq<Entry>)
    requires ReadableEntries(entries)
    ensures StreamOf("", entries) == Joined(PrintEntries(entries))
    decreases |entries|
  {
    if entries != [] {
      var e, rest := entries[0], PrintEntries(entries[1..]);
      assert e in entries;
      StreamIsThePrintedList(entries[1..]);
      assert entries == [e] + entries[1..];
      StreamFromFront(e, entries[1..]);
      JoinedEntry(e, rest);
    }
  }

  /** The same number of entries, field by field of the same length. */
  ghost predicate SameShape(v: string, a: seq<Entry>, w: string, b: seq<Entry>) {
    && |v| == |w| && |a| == |b|
    && forall i :: 0 <= i < |a| ==> SameLengths(a[i], b[i])
  }

  predicate SameLengths(d: Entry, e: Entry) {
    |d.url| == |e.url| && |d.path| == |e.path| && |d.sig| == |e.sig|
  }

  lemma EqualParts(a: string, b: string, c: string, d: string)
    requires a + b == c + d && |b| == |d|
    ensures a == c && b == d
  {
    assert |a| == |c|;
    assert a == (a + b)[..|a|] && c == (c + d)[..|c|];
    assert b == (a + b)[|a|..] && d == (c + d)[|c|..];
  }

  lemma SameEntryBytes(d: Entry, e: Entry)
    requires SameLengths(d, e) && EntryBytes(d) == EntryBytes(e)
    ensures d == e
  {
    EqualParts(d.url + d.path, d.sig, e.url + e.path, e.sig);
    EqualParts(d.url, d.path, e.url, e.path);
  }

  lemma {:induction false} StreamOfShape(v: string, a: seq<Entry>, w: string, b: seq<Entry>)
    requires SameShape(v, a, w, b) && StreamOf(v, a) == StreamOf(w, b)
    ensures v == w && a == b
    decreases |a|
  {
    if a != [] {
      var n := |a| - 1;
      assert SameLengths(a[n], b[n]);
      EqualParts(StreamOf(v, a[..n]), EntryBytes(a[n]), StreamOf(w, b[..n]), EntryBytes(b[n]));
      SameEntryBytes(a[n], b[n]);
      assert SameShape(v, a[..n], w, b[..n]) by {
        assert forall i :: 0 <= i < n ==> SameLengths(a[i], b[i]) ==> SameLengths(a[..n][i], b[..n][i]);
      }
      StreamOfShape(v, a[..n], w, b[..n]);
      assert a == a[..n] + [a[n]] && b == b[..n] + [b[n]];
    }
  }

  /** The stream joins the fields without separators, so it says what they are only together with their lengths:
      manifests with the same stream are the same exactly when they have the same shape. */
  lemma StreamDeterminesShaped(v: string, a: seq<Entry>, w: string, b: seq<Entry>)
    requires StreamOf(v, a) == StreamOf(w, b)
    ensures v == w && a == b <==> SameShape(v, a, w, b)
  {
    if SameShape(v, a, w, b) {
      StreamOfShape(v, a, w, b);
    }
  }

  /** Without its shape the stream does not determine the manifest: text may stand on either side of a boundary. */
  lemma BoundariesAreNotSigned(v: string, url: string, x: string, path: string, sig: string)
    ensures StreamOf(v, [Entry(url, x + path, sig)]) == StreamOf(v, [Entry(url + x, path, sig)])
  {
    var one, other := Entry(url, x + path, sig), Entry(url + x, path, sig);
    assert [one][..0] == [] && [other][..0] == [];
    assert url + (x + path) + sig == url + x + path + sig;
  }

  /** Even if its signature verifies for the published stream only, an accepted manifest is the published one
      exactly when its fields have the published lengths. */
  lemma AcceptedIsPublishedExactly(
      os: Platform, verify: Verifier, fs: Files, current: int, text: string, version: string, entries: seq<Entry>)
    requires forall c :: verify(c, SignatureLine(text)) ==> c == StreamOf(version, entries)
    ensures Judge(os, verify, fs, current, text).Accepted? ==>
              && BodyOf(text).Body? && HashedStream(text) == StreamOf(version, entries)
              && (VersionLine(text) == version && BodyOf(text).entries == entries <==>
                  SameShape(VersionLine(text), BodyOf(text).entries, version, entries))
  {
    if Judge(os, verify, fs, current, text).Accepted? {
      StreamDeterminesShaped(VersionLine(text), BodyOf(text).entries, version, entries);
    }
  }
}
