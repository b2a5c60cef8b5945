/** The manifest producer: reading the contents file, signing, and printing the manifest. */
module Generator {
  import opened Wrappers
  import opened Text
  import Decimal

  /** One file of the update as the manifest names it. */
  datatype Entry = Entry(url: string, path: string, sig: string)

  /** What the line loop accumulates. */
  datatype Contents = Contents(
    files: seq<string>,
    targets: seq<string>,
    hashes: seq<string>,
    version: string,
    baseUrl: string,
    keyHash: string)

  const EMPTY := Contents([], [], [], "", "UNSET", "")

  /** Files, keys and hashes are outside the model: these functions answer for them. */
  datatype Environment = Environment(
    folder: string,
    hashOf: string -> string,
    signFile: string -> Option<string>,
    signStream: string -> Option<string>,
    keyHash: string)

  datatype Outcome =
    | Failed(code: nat)
    | OutOfRange                 // `hashesVector.at(i)` throws
    | Printed(version: int, sig: string, entries: seq<Entry>, stream: string)

  function StripReturn(line: string): string {
    if line != [] && line[|line| - 1] == '\r' then line[..|line| - 1] else line
  }

  /** A line naming a file, as opposed to an empty line, a comment or a setting. */
  predicate IsListed(line: string) {
    var l := StripReturn(line);
    l != [] && l[0] != '#'
  }

  /** A listed line with something after its first semicolon. */
  predicate HasTarget(line: string) {
    |UpTo(StripReturn(line), ';')| + 1 < |StripReturn(line)|
  }

  function AddFile(c: Contents, l: string): Contents {
    var file := UpTo(l, ';');
    if |file| + 1 < |l| then
      var rest := l[|file| + 1..];
      var target := UpTo(rest, ';');
      var hash := if |target| + 1 < |rest| then rest[|target| + 1..] else "UNKNOWN";
      c.(files := c.files + [CString(file)], targets := c.targets + [CString(target)], hashes := c.hashes + [hash])
    else
      c.(files := c.files + [CString(file)], targets := c.targets + [CString(file)])
  }

  const VERSION_KEY := "#version="
  const BASE_URL_KEY := "#baseurl="
  const KEY_HASH_KEY := "#pubkeysha256sum="

  function AddSetting(c: Contents, l: string): Contents {
    if VERSION_KEY <= l then c.(version := l[|VERSION_KEY|..])
    else if BASE_URL_KEY <= l then c.(baseUrl := l[|BASE_URL_KEY|..])
    else if KEY_HASH_KEY <= l then c.(keyHash := l[|KEY_HASH_KEY|..])
    else c
  }

  function AddLine(c: Contents, line: string): Contents {
    if IsListed(line) then AddFile(c, StripReturn(line)) else AddSetting(c, StripReturn(line))
  }

  function ReadContents(lines: seq<string>): (c: Contents)
    ensures |c.files| == |c.targets|
  {
    if lines == [] then EMPTY else AddLine(ReadContents(lines[..|lines| - 1]), lines[|lines| - 1])
  }

  /** What one entry adds to the signed stream. */
  function EntryBytes(e: Entry): string {
    e.url + e.path + e.sig
  }

  function StreamOf(version: string, entries: seq<Entry>): string {
    if entries == [] then version
    else StreamOf(version, entries[..|entries| - 1]) + EntryBytes(entries[|entries| - 1])
  }

  datatype Signed = Stopped(outcome: Outcome) | Signed(entries: seq<Entry>)

  /** The first `n` rounds of the signing loop. */
  function SignFiles(c: Contents, env: Environment, n: nat): (r: Signed)
    requires n <= |c.files| == |c.targets|
    ensures r.Stopped? ==> !r.outcome.Printed?
    ensures r.Signed? ==> |r.entries| == n <= |c.hashes|
  {
    if n == 0 then Signed([])
    else
      var before := SignFiles(c, env, n - 1);
      if before.Stopped? then before
      else if n - 1 >= |c.hashes| then Stopped(OutOfRange)
      else if c.hashes[n - 1] != "UNKNOWN" &&
          env.hashOf(env.folder + c.files[n - 1]) != c.hashes[n - 1] then Stopped(Failed(6))
      else match env.signFile(env.folder + c.files[n - 1])
        case None => Stopped(Failed(4))
        case Some(s) => Signed(before.entries + [Entry(c.baseUrl + c.files[n - 1], c.targets[n - 1], s)])
  }

  function Generate(text: string, env: Environment): Outcome {
    var c := ReadContents(GetLines(text));
    var versionCode := Decimal.Strtol(CString(c.version));
    if env.keyHash != c.keyHash then Failed(7)
    else if versionCode == 0 then Failed(5)
    else
      var signed := SignFiles(c, env, |c.files|);
      if signed.Stopped? then signed.outcome
      else
        var stream := StreamOf(CString(c.version), signed.entries);
        match env.signStream(stream)
        case None => Failed(6)
        case Some(sig) => Printed(versionCode, sig, signed.entries, stream)
  }

  function PrintEntries(entries: seq<Entry>): string {
    if entries == [] then ""
    else
      entries[0].url + "\n" + (entries[0].path + "\n" + (entries[0].sig + "\n" + PrintEntries(entries[1..])))
  }

  /** The manifest as it is printed: the parsed version number, not its text. */
  function PrintManifest(o: Outcome): string
    requires o.Printed?
  {
    Decimal.Print(o.version) + "\n" + (o.sig + "\n" + PrintEntries(o.entries))
  }

  // ----- The loops -----

  lemma ReadOneMore(done: seq<string>, line: string)
    ensures ReadContents(done + [line]) == AddLine(ReadContents(done), line)
  {
    assert (done + [line])[..|done|] == done;
  }

  lemma Snoc(done: seq<string>, line: string, rest: seq<string>)
    ensures done + ([line] + rest) == done + [line] + rest
  {}

  method ReadContentsFile(text: string) returns (c: Contents)
    ensures c == ReadContents(GetLines(text))
  {
    c := EMPTY;
    var rest := text;
    ghost var done := [];
    while rest != []
      invariant GetLines(text) == done + GetLines(rest)
      invariant c == ReadContents(done)
      decreases |rest|
    {
      var line := UpTo(rest, '\n');
      Snoc(done, line, GetLines(AfterLine(rest)));
      ReadOneMore(done, line);
      rest := AfterLine(rest);
      c := AddLine(c, line);
      done := done + [line];
    }
    assert done + [] == done;
  }

  lemma StreamGrows(version: string, entries: seq<Entry>, e: Entry)
    ensures StreamOf(version, entries + [e]) == StreamOf(version, entries) + EntryBytes(e)
  {
    assert (entries + [e])[..|entries|] == entries;
  }

  /** One more round of the signing loop. */
  lemma SignOneMore(c: Contents, env: Environment, i: nat, entries: seq<Entry>)
    requires i < |c.files| == |c.targets| && SignFiles(c, env, i) == Signed(entries)
    ensures var sig := env.signFile(env.folder + c.files[i]);
            SignFiles(c, env, i + 1) ==
            if i >= |c.hashes| then Stopped(OutOfRange)
            else if c.hashes[i] != "UNKNOWN" && env.hashOf(env.folder + c.files[i]) != c.hashes[i] then
              Stopped(Failed(6))
            else if sig.None? then Stopped(Failed(4))
            else Signed(entries + [Entry(c.baseUrl + c.files[i], c.targets[i], sig.value)])
  {}

  method SignAll(c: Contents, env: Environment) returns (r: Signed, stream: string)
    requires |c.files| == |c.targets|
    ensures r == SignFiles(c, env, |c.files|)
    ensures r.Signed? ==> stream == StreamOf(CString(c.version), r.entries)
  {
    stream := CString(c.version);
    ghost var version := stream;
    var entries := [];
    var i := 0;
    while i < |c.files|
      invariant 0 <= i <= |c.files|
      invariant SignFiles(c, env, i) == Signed(entries)
      invariant stream == StreamOf(version, entries)
    {
      SignOneMore(c, env, i, entries);
      StopsForGood(c, env, i + 1);
      if i >= |c.hashes| {
        return Stopped(OutOfRange), stream;
      }
      var filePath := env.folder + c.files[i];
      if c.hashes[i] != "UNKNOWN" && env.hashOf(filePath) != c.hashes[i] {
        return Stopped(Failed(6)), stream;
      }
      var s := env.signFile(filePath);
      if s.None? {
        return Stopped(Failed(4)), stream;
      }
      var e := Entry(c.baseUrl + c.files[i], c.targets[i], s.value);
      StreamGrows(version, entries, e);
      stream := stream + EntryBytes(e);
      entries := entries + [e];
      i := i + 1;
    }
    r := Signed(entries);
  }

  method Run(text: string, env: Environment) returns (o: Outcome)
    ensures o == Generate(text, env)
  {
    var c := ReadContentsFile(text);
    if env.keyHash != c.keyHash {
      return Failed(7);
    }
    var versionCode := Decimal.Strtol(CString(c.version));
    if versionCode == 0 {
      return Failed(5);
    }
    var signed, stream := SignAll(c, env);
    if signed.Stopped? {
      return signed.outcome;
    }
    var sig := env.signStream(stream);
    o := if sig.None? then Failed(6) else Printed(versionCode, sig.value, signed.entries, stream);
  }

  lemma {:induction false} StopsForGood(c: Contents, env: Environment, n: nat)
    requires n <= |c.files| == |c.targets|
    ensures SignFiles(c, env, n).Stopped? ==> SignFiles(c, env, |c.files|) == SignFiles(c, env, n)
    decreases |c.files| - n
  {
    if n < |c.files| {
      StopsForGood(c, env, n + 1);
    }
  }

  // ----- What a well-formed contents file says -----

  datatype Item = Item(file: string, target: string, hash: string)

  // ----- Each kind of line -----

  /** A listed line with a target but nothing after it has no known hash. */
  lemma TwoFieldLine(c: Contents, file: string, target: string, trailing: bool)
    requires file != [] && file[0] != '#' && ';' !in file && '\0' !in file
    requires target != [] && ';' !in target && '\0' !in target && target[|target| - 1] != '\r'
    ensures AddLine(c, file + [';'] + (if trailing then target + [';'] else target)) ==
            c.(files := c.files + [file], targets := c.targets + [target], hashes := c.hashes + ["UNKNOWN"])
  {
    var rest := if trailing then target + [';'] else target;
    var l := file + [';'] + rest;
    assert StripReturn(l) == l;
    UpToAbsent(file, ';', rest);
    UpToAbsent(target, ';', []);
    assert target + [';'] + [] == target + [';'];
    assert l[|file| + 1..] == rest;
    UpToAbsent(file, '\0', []);
    UpToAbsent(target, '\0', []);
  }

  /** A listed line without a target is its own target, and no hash is added for it. */
  lemma OneFieldLine(c: Contents, file: string, trailing: bool)
    requires file != [] && file[0] != '#' && ';' !in file && '\0' !in file && file[|file| - 1] != '\r'
    ensures AddLine(c, if trailing then file + [';'] else file) ==
            c.(files := c.files + [file], targets := c.targets + [file])
  {
    var l := if trailing then file + [';'] else file;
    assert StripReturn(l) == l;
    UpToAbsent(file, ';', []);
    assert file + [';'] + [] == file + [';'];
    UpToAbsent(file, '\0', []);
  }

  /** One carriage return at the end of a line is ignored. */
  lemma ReturnIsIgnored(c: Contents, line: string)
    requires line == [] || line[|line| - 1] != '\r'
    ensures AddLine(c, line + ['\r']) == AddLine(c, line)
  {
    assert StripReturn(line + ['\r']) == line == StripReturn(line);
  }

  /** Empty lines and comments that are no setting add nothing. */
  lemma OtherLinesAreIgnored(c: Contents, line: string)
    requires StripReturn(line) == [] || StripReturn(line)[0] == '#'
    requires !(VERSION_KEY <= StripReturn(line)) && !(BASE_URL_KEY <= StripReturn(line))
    requires !(KEY_HASH_KEY <= StripReturn(line))
    ensures AddLine(c, line) == c
  {}

  /** Before any line nothing is listed, no version is set, and the base URL is a marker. */
  lemma NothingRead()
    ensures ReadContents([]) == Contents([], [], [], "", "UNSET", "")
  {}

  // ----- Whole files -----

  /** Fields that survive being put on one line. */
  predicate Clean(it: Item) {
    && it.file != [] && it.file[0] != '#' && ';' !in it.file && '\0' !in it.file
    && ';' !in it.target && '\0' !in it.target
    && it.hash != [] && it.hash[|it.hash| - 1] != '\r'
  }

  function ItemLine(it: Item): string {
    it.file + [';'] + (it.target + [';'] + it.hash)
  }

  lemma LineFields(c: Contents, it: Item)
    requires Clean(it)
    ensures AddLine(c, ItemLine(it)) ==
            c.(files := c.files + [it.file], targets := c.targets + [it.target], hashes := c.hashes + [it.hash])
  {
    var l, rest := ItemLine(it), it.target + [';'] + it.hash;
    assert StripReturn(l) == l;
    UpToAbsent(it.file, ';', rest);
    UpToAbsent(it.target, ';', it.hash);
    assert l[|it.file| + 1..] == rest && rest[|it.target| + 1..] == it.hash;
    UpToAbsent(it.file, '\0', []);
    UpToAbsent(it.target, '\0', []);
  }

  function Lines(items: seq<Item>): (r: seq<string>)
    ensures |r| == |items|
  {
    if items == [] then [] else Lines(items[..|items| - 1]) + [ItemLine(items[|items| - 1])]
  }

  function Files(items: seq<Item>): seq<string> {
    seq(|items|, i requires 0 <= i < |items| => items[i].file)
  }

  function Targets(items: seq<Item>): seq<string> {
    seq(|items|, i requires 0 <= i < |items| => items[i].target)
  }

  function Hashes(items: seq<Item>): seq<string> {
    seq(|items|, i requires 0 <= i < |items| => items[i].hash)
  }

  function Extended(c: Contents, items: seq<Item>): Contents {
    c.(files := c.files + Files(items), targets := c.targets + Targets(items), hashes := c.hashes + Hashes(items))
  }

  lemma ExtendedSnoc(c: Contents, items: seq<Item>, last: Item)
    ensures Extended(c, items + [last]) ==
            var d := Extended(c, items);
            d.(files := d.files + [last.file], targets := d.targets + [last.target], hashes := d.hashes + [last.hash])
  {
    assert Files(items + [last]) == Files(items) + [last.file];
    assert Targets(items + [last]) == Targets(items) + [last.target];
    assert Hashes(items + [last]) == Hashes(items) + [last.hash];
    assert c.files + (Files(items) + [last.file]) == c.files + Files(items) + [last.file];
    assert c.targets + (Targets(items) + [last.target]) == c.targets + Targets(items) + [last.target];
    assert c.hashes + (Hashes(items) + [last.hash]) == c.hashes + Hashes(items) + [last.hash];
  }

  lemma ExtendedByNothing(c: Contents)
    ensures Extended(c, []) == c
  {
    assert c.files + Files([]) == c.files && c.targets + Targets([]) == c.targets && c.hashes + Hashes([]) == c.hashes;
  }

  lemma OneItemMore(before: seq<string>, c: Contents, init: seq<Item>, last: Item)
    requires ReadContents(before) == Extended(c, init) && Clean(last)
    ensures ReadContents(before + [ItemLine(last)]) == Extended(c, init + [last])
  {
    ReadOneMore(before, ItemLine(last));
    LineFields(ReadContents(before), last);
    ExtendedSnoc(c, init, last);
  }

  lemma LinesSnoc(before: seq<string>, init: seq<Item>, last: Item)
    ensures before + Lines(init + [last]) == before + Lines(init) + [ItemLine(last)]
  {
    assert (init + [last])[..|init|] == init;
  }

  ghost predicate AllClean(items: seq<Item>) {
    forall i :: 0 <= i < |items| ==> Clean(items[i])
  }

  /** Every item comes back in its place, after whatever came before, and no setting is touched. */
  lemma {:induction false} ItemsReadBack(before: seq<string>, items: seq<Item>)
    requires AllClean(items)
    ensures ReadContents(before + Lines(items)) == Extended(ReadContents(before), items)
    decreases |items|
  {
    if items == [] {
      assert before + Lines(items) == before;
      ExtendedByNothing(ReadContents(before));
    } else {
      var init, last := items[..|items| - 1], items[|items| - 1];
      assert items == init + [last];
      ItemsReadBack(before, init);
      LinesSnoc(before, init, last);
      OneItemMore(before + Lines(init), ReadContents(before), init, last);
    }
  }

  lemma SettingLine(c: Contents, key: string, value: string)
    requires key != [] && key[0] == '#' && value != [] && value[|value| - 1] != '\r'
    ensures AddLine(c, key + value) == AddSetting(c, key + value)
    ensures key <= key + value && (key + value)[|key|..] == value
  {
    assert StripReturn(key + value) == key + value;
  }

  lemma OtherSetting(key: string, other: string, value: string)
    requires 2 <= |key| && 2 <= |other| && key[1] != other[1]
    ensures !(other <= key + value)
  {
    assert (key + value)[1] == key[1];
  }

  lemma KeysDiffer()
    ensures 2 <= |VERSION_KEY| && VERSION_KEY[1] == 'v'
    ensures 2 <= |BASE_URL_KEY| && BASE_URL_KEY[1] == 'b'
    ensures 2 <= |KEY_HASH_KEY| && KEY_HASH_KEY[1] == 'p'
  {}

  lemma KeysDoNotMix(value: string)
    ensures !(VERSION_KEY <= BASE_URL_KEY + value)
    ensures !(VERSION_KEY <= KEY_HASH_KEY + value)
    ensures !(BASE_URL_KEY <= KEY_HASH_KEY + value)
  {
    KeysDiffer();
    OtherSetting(BASE_URL_KEY, VERSION_KEY, value);
    OtherSetting(KEY_HASH_KEY, VERSION_KEY, value);
    OtherSetting(KEY_HASH_KEY, BASE_URL_KEY, value);
  }

  // A setting line changes its own setting and nothing else.

  lemma VersionLineRead(c: Contents, value: string)
    requires value != [] && value[|value| - 1] != '\r'
    ensures AddLine(c, VERSION_KEY + value) == c.(version := value)
  {
    SettingLine(c, VERSION_KEY, value);
  }

  lemma BaseUrlLineRead(c: Contents, value: string)
    requires value != [] && value[|value| - 1] != '\r'
    ensures AddLine(c, BASE_URL_KEY + value) == c.(baseUrl := value)
  {
    SettingLine(c, BASE_URL_KEY, value);
    KeysDoNotMix(value);
  }

  lemma KeyHashLineRead(c: Contents, value: string)
    requires value != [] && value[|value| - 1] != '\r'
    ensures AddLine(c, KEY_HASH_KEY + value) == c.(keyHash := value)
  {
    SettingLine(c, KEY_HASH_KEY, value);
    KeysDoNotMix(value);
  }

  /** Entry `k` is listed file `k`: its URL, its target and its signature, its hash checked unless unknown. */
  ghost predicate IsEntry(c: Contents, env: Environment, k: nat, e: Entry)
    requires k < |c.files| && k < |c.targets| && k < |c.hashes|
  {
    && e.url == c.baseUrl + c.files[k]
    && e.path == c.targets[k]
    && env.signFile(env.folder + c.files[k]) == Some(e.sig)
    && (c.hashes[k] == "UNKNOWN" || env.hashOf(env.folder + c.files[k]) == c.hashes[k])
  }

  lemma {:induction false} SignedInOrder(c: Contents, env: Environment, n: nat)
    requires n <= |c.files| == |c.targets| && SignFiles(c, env, n).Signed?
    ensures var entries := SignFiles(c, env, n).entries;
            && |entries| == n <= |c.hashes|
            && forall k :: 0 <= k < n ==> IsEntry(c, env, k, entries[k])
  {
    if n > 0 {
      SignedInOrder(c, env, n - 1);
    }
  }

  /** The file is there to be signed and, unless its hash is unknown, has that hash. */
  predicate Signable(c: Contents, env: Environment, k: nat)
    requires k < |c.files| && k < |c.hashes|
  {
    && (c.hashes[k] == "UNKNOWN" || env.hashOf(env.folder + c.files[k]) == c.hashes[k])
    && env.signFile(env.folder + c.files[k]).Some?
  }

  /** Signing goes through exactly when no hash is missing and every file can be signed. */
  lemma {:induction false} SignedExactly(c: Contents, env: Environment, n: nat)
    requires n <= |c.files| == |c.targets|
    ensures SignFiles(c, env, n).Signed? <==> n <= |c.hashes| && forall k :: 0 <= k < n ==> Signable(c, env, k)
  {
    if n > 0 {
      SignedExactly(c, env, n - 1);
      if n <= |c.hashes| && SignFiles(c, env, n - 1).Signed? {
        assert SignFiles(c, env, n).Signed? <==> Signable(c, env, n - 1);
      }
    }
  }

  function Settings(version: string, baseUrl: string, keyHash: string): seq<string> {
    [VERSION_KEY + version, BASE_URL_KEY + baseUrl, KEY_HASH_KEY + keyHash]
  }

  predicate OneLine(s: string) {
    s != [] && s[|s| - 1] != '\r' && '\n' !in s
  }

  lemma ThreeLines(first: string, second: string, third: string, one: Contents, two: Contents, three: Contents)
    requires AddLine(EMPTY, first) == one && AddLine(one, second) == two && AddLine(two, third) == three
    ensures ReadContents([first, second, third]) == three
  {
    ReadOneMore([], first);
    assert [] + [first] == [first];
    ReadOneMore([first], second);
    assert [first] + [second] == [first, second];
    ReadOneMore([first, second], third);
    assert [first, second] + [third] == [first, second, third];
  }

  lemma SettingsReadBack(version: string, baseUrl: string, keyHash: string)
    requires OneLine(version) && OneLine(baseUrl) && OneLine(keyHash)
    ensures ReadContents(Settings(version, baseUrl, keyHash)) == Contents([], [], [], version, baseUrl, keyHash)
  {
    var one := EMPTY.(version := version);
    var two := one.(baseUrl := baseUrl);
    VersionLineRead(EMPTY, version);
    BaseUrlLineRead(one, baseUrl);
    KeyHashLineRead(two, keyHash);
    ThreeLines(VERSION_KEY + version, BASE_URL_KEY + baseUrl, KEY_HASH_KEY + keyHash, one, two,
        two.(keyHash := keyHash));
  }

  function FileText(version: string, baseUrl: string, keyHash: string, items: seq<Item>): string {
    Unlines(Settings(version, baseUrl, keyHash) + Lines(items))
  }

  ghost predicate OnLines(items: seq<Item>) {
    forall i :: 0 <= i < |items| ==> '\n' !in items[i].file && '\n' !in items[i].target && '\n' !in items[i].hash
  }

  lemma {:induction false} LinesAreLines(items: seq<Item>)
    requires OnLines(items)
    ensures forall i :: 0 <= i < |items| ==> '\n' !in Lines(items)[i]
  {
    if items != [] {
      LinesAreLines(items[..|items| - 1]);
    }
  }

  lemma FileReadBack(version: string, baseUrl: string, keyHash: string, items: seq<Item>)
    requires OneLine(version) && OneLine(baseUrl) && OneLine(keyHash) && AllClean(items) && OnLines(items)
    ensures ReadContents(GetLines(FileText(version, baseUrl, keyHash, items))) ==
            Contents(Files(items), Targets(items), Hashes(items), version, baseUrl, keyHash)
  {
    var settings := Settings(version, baseUrl, keyHash);
    LinesAreLines(items);
    assert forall i :: 0 <= i < |settings| ==> '\n' !in settings[i];
    LinesComeBack(settings + Lines(items));
    SettingsReadBack(version, baseUrl, keyHash);
    ItemsReadBack(settings, items);
    assert [] + Files(items) == Files(items) && [] + Targets(items) == Targets(items) &&
        [] + Hashes(items) == Hashes(items);
  }

  /** The contents printed decide the manifest: its version, and one entry for each listed file, in order. */
  lemma PrintedEntries(text: string, env: Environment)
    requires Generate(text, env).Printed?
    ensures var c, o := ReadContents(GetLines(text)), Generate(text, env);
            && o.version == Decimal.Strtol(CString(c.version)) && env.keyHash == c.keyHash
            && |o.entries| == |c.files| <= |c.hashes|
            && forall k :: 0 <= k < |c.files| ==> IsEntry(c, env, k, o.entries[k])
  {
    var c := ReadContents(GetLines(text));
    SignedInOrder(c, env, |c.files|);
  }

  // ----- When a manifest is printed, and what happens otherwise -----

  /** The entries of the listed files, as far as they can be signed. */
  function ExpectedEntries(c: Contents, env: Environment): seq<Entry>
    requires |c.files| == |c.targets|
  {
    seq(|c.files|, k requires 0 <= k < |c.files| =>
      var sig := env.signFile(env.folder + c.files[k]);
      Entry(c.baseUrl + c.files[k], c.targets[k], if sig.Some? then sig.value else ""))
  }

  lemma SignedAreExpected(c: Contents, env: Environment)
    requires |c.files| == |c.targets| && SignFiles(c, env, |c.files|).Signed?
    ensures SignFiles(c, env, |c.files|).entries == ExpectedEntries(c, env)
  {
    var entries := SignFiles(c, env, |c.files|).entries;
    SignedInOrder(c, env, |c.files|);
    forall k | 0 <= k < |c.files| ensures entries[k] == ExpectedEntries(c, env)[k] {
      assert IsEntry(c, env, k, entries[k]);
    }
  }

  ghost predicate AllSignable(c: Contents, env: Environment, n: nat)
    requires n <= |c.files|
  {
    n <= |c.hashes| && forall k :: 0 <= k < n ==> Signable(c, env, k)
  }

  ghost predicate StreamSignable(c: Contents, env: Environment)
    requires |c.files| == |c.targets|
  {
    env.signStream(StreamOf(CString(c.version), ExpectedEntries(c, env))).Some?
  }

  /** A manifest is printed exactly when the key is the expected one, the version is a number other than zero, no
      hash is missing, every file can be signed and has its hash, and the stream can be signed. */
  lemma PrintsExactly(text: string, env: Environment)
    ensures var c := ReadContents(GetLines(text));
            Generate(text, env).Printed? <==>
            && env.keyHash == c.keyHash
            && Decimal.Strtol(CString(c.version)) != 0
            && AllSignable(c, env, |c.files|)
            && StreamSignable(c, env)
  {
    var c := ReadContents(GetLines(text));
    SignedExactly(c, env, |c.files|);
    if SignFiles(c, env, |c.files|).Signed? {
      SignedAreExpected(c, env);
    }
  }

  /** How a file that is listed makes the program end: no hash for it, a hash it does not have, or no signature. */
  function FileOutcome(c: Contents, env: Environment, k: nat): Outcome
    requires k < |c.files|
  {
    if k >= |c.hashes| then OutOfRange
    else if c.hashes[k] != "UNKNOWN" && env.hashOf(env.folder + c.files[k]) != c.hashes[k] then Failed(6)
    else Failed(4)
  }

  lemma FileStops(c: Contents, env: Environment, k: nat)
    requires k < |c.files| == |c.targets| && AllSignable(c, env, k) && !AllSignable(c, env, k + 1)
    ensures SignFiles(c, env, |c.files|) == Stopped(FileOutcome(c, env, k))
  {
    SignedExactly(c, env, k);
    SignedExactly(c, env, k + 1);
    StopsForGood(c, env, k + 1);
  }

  /** Otherwise it ends with 7 for another key, else with 5 for a version that is no number or zero, else as the
      first file that cannot be signed makes it end, else with 6 for the stream. */
  lemma StopsInOrder(text: string, env: Environment)
    ensures var c, o := ReadContents(GetLines(text)), Generate(text, env);
            if env.keyHash != c.keyHash then o == Failed(7)
            else if Decimal.Strtol(CString(c.version)) == 0 then o == Failed(5)
            else
              && (AllSignable(c, env, |c.files|) && !StreamSignable(c, env) ==> o == Failed(6))
              && forall k :: 0 <= k < |c.files| && AllSignable(c, env, k) && !AllSignable(c, env, k + 1) ==>
                   o == FileOutcome(c, env, k)
  {
    var c := ReadContents(GetLines(text));
    SignedExactly(c, env, |c.files|);
    if SignFiles(c, env, |c.files|).Signed? {
      SignedAreExpected(c, env);
    }
    forall k | 0 <= k < |c.files| && AllSignable(c, env, k) && !AllSignable(c, env, k + 1)
      ensures SignFiles(c, env, |c.files|) == Stopped(FileOutcome(c, env, k))
    {
      FileStops(c, env, k);
    }
  }

  /** For a contents file of settings and items, a manifest is printed exactly when the key and the version are good,
      every file can be signed and has its hash, and the stream can be signed; and it lists the items in order,
      each under the base URL, with its target and the signature of its file. */
  lemma ContentsFileIsFollowed(version: string, baseUrl: string, keyHash: string, items: seq<Item>, env: Environment)
    requires OneLine(version) && OneLine(baseUrl) && OneLine(keyHash) && AllClean(items) && OnLines(items)
    ensures var o := Generate(FileText(version, baseUrl, keyHash, items), env);
            && (o.Printed? <==>
                && env.keyHash == keyHash
                && Decimal.Strtol(CString(version)) != 0
                && (forall k :: 0 <= k < |items| ==> ItemSignable(items[k], env))
                && env.signStream(StreamOf(CString(version), ItemEntries(baseUrl, items, env))).Some?)
            && (o.Printed? ==>
                  && o.version == Decimal.Strtol(CString(version))
                  && o.entries == ItemEntries(baseUrl, items, env)
                  && o.stream == StreamOf(CString(version), o.entries)
                  && env.signStream(o.stream) == Some(o.sig))
  {
    var text := FileText(version, baseUrl, keyHash, items);
    var c := ReadContents(GetLines(text));
    FileReadBack(version, baseUrl, keyHash, items);
    PrintsExactly(text, env);
    ItemsAreExpected(c, baseUrl, items, env);
    if Generate(text, env).Printed? {
      SignedAreExpected(c, env);
    }
  }

  ghost predicate ItemSignable(it: Item, env: Environment) {
    && env.signFile(env.folder + it.file).Some?
    && (it.hash == "UNKNOWN" || env.hashOf(env.folder + it.file) == it.hash)
  }

  /** Each item under the base URL, with its target and the signature of its file. */
  function ItemEntries(baseUrl: string, items: seq<Item>, env: Environment): seq<Entry> {
    seq(|items|, k requires 0 <= k < |items| =>
      var sig := env.signFile(env.folder + items[k].file);
      Entry(baseUrl + items[k].file, items[k].target, if sig.Some? then sig.value else ""))
  }

  lemma ItemsAreExpected(c: Contents, baseUrl: string, items: seq<Item>, env: Environment)
    requires c.files == Files(items) && c.targets == Targets(items) && c.hashes == Hashes(items) && c.baseUrl == baseUrl
    ensures ExpectedEntries(c, env) == ItemEntries(baseUrl, items, env)
    ensures AllSignable(c, env, |c.files|) <==> forall k :: 0 <= k < |items| ==> ItemSignable(items[k], env)
  {
    forall k | 0 <= k < |items| ensures Signable(c, env, k) <==> ItemSignable(items[k], env) {}
  }

  // ----- The printed lines -----

  /** The lines of the list: URL, path and signature of each entry. */
  function EntryLines(entries: seq<Entry>): (lines: seq<string>)
    ensures |lines| == 3 * |entries|
    ensures forall k :: 0 <= k < |entries| ==>
              && lines[3 * k] == entries[k].url
              && lines[3 * k + 1] == entries[k].path
              && lines[3 * k + 2] == entries[k].sig
  {
    if entries == [] then []
    else
      var init, last := entries[..|entries| - 1], entries[|entries| - 1];
      EntryLines(init) + [last.url, last.path, last.sig]
  }

  lemma {:induction false} EntryLinesFromFront(e: Entry, rest: seq<Entry>)
    ensures EntryLines([e] + rest) == [e.url, e.path, e.sig] + EntryLines(rest)
    decreases |rest|
  {
    var all := [e] + rest;
    if rest == [] {
      assert all[..0] == [];
    } else {
      assert all[..|all| - 1] == [e] + rest[..|rest| - 1];
      EntryLinesFromFront(e, rest[..|rest| - 1]);
    }
  }

  lemma UnlinesThree(a: string, b: string, c: string, rest: seq<string>)
    ensures Unlines([a, b, c] + rest) == a + "\n" + (b + "\n" + (c + "\n" + Unlines(rest)))
  {
    assert ([a, b, c] + rest)[1..] == [b, c] + rest;
    assert ([b, c] + rest)[1..] == [c] + rest;
    assert ([c] + rest)[1..] == rest;
    assert Unlines([c] + rest) == c + "\n" + Unlines(rest);
    assert Unlines([b, c] + rest) == b + "\n" + Unlines([c] + rest);
    assert Unlines([a, b, c] + rest) == a + "\n" + Unlines([b, c] + rest);
  }

  lemma {:induction false} EntriesPrintedByLine(entries: seq<Entry>)
    ensures PrintEntries(entries) == Unlines(EntryLines(entries))
    decreases |entries|
  {
    if entries != [] {
      var e, rest := entries[0], entries[1..];
      EntriesPrintedByLine(rest);
      assert entries == [e] + rest;
      EntryLinesFromFront(e, rest);
      UnlinesThree(e.url, e.path, e.sig, EntryLines(rest));
    }
  }

  /** The manifest is the version, the signature, and then URL, path and signature of each entry, a line each. */
  lemma PrintedByLine(o: Outcome)
    requires o.Printed?
    ensures PrintManifest(o) == Unlines([Decimal.Print(o.version), o.sig] + EntryLines(o.entries))
  {
    EntriesPrintedByLine(o.entries);
    var head, list := [Decimal.Print(o.version), o.sig], EntryLines(o.entries);
    assert (head + list)[1..] == [o.sig] + list;
    assert ([o.sig] + list)[1..] == list;
  }

  // ----- Lines without a target field -----

  function CountListed(lines: seq<string>): nat {
    if lines == [] then 0 else CountListed(lines[..|lines| - 1]) + if IsListed(lines[|lines| - 1]) then 1 else 0
  }

  function CountTargeted(lines: seq<string>): nat {
    if lines == [] then 0
    else CountTargeted(lines[..|lines| - 1]) + if IsListed(lines[|lines| - 1]) &&
        HasTarget(lines[|lines| - 1]) then 1 else 0
  }

  lemma AddLineLengths(c: Contents, line: string)
    ensures |AddLine(c, line).files| == |c.files| + if IsListed(line) then 1 else 0
    ensures |AddLine(c, line).hashes| == |c.hashes| + if IsListed(line) && HasTarget(line) then 1 else 0
  {}

  lemma {:induction false} VectorLengths(lines: seq<string>)
    ensures |ReadContents(lines).files| == CountListed(lines)
    ensures |ReadContents(lines).hashes| == CountTargeted(lines)
  {
    if lines != [] {
      VectorLengths(lines[..|lines| - 1]);
      AddLineLengths(ReadContents(lines[..|lines| - 1]), lines[|lines| - 1]);
    }
  }

  lemma {:induction false} EqualCountsMeanTargets(lines: seq<string>)
    ensures CountTargeted(lines) <= CountListed(lines)
    ensures CountTargeted(lines) == CountListed(lines) <==>
            forall l :: l in lines && IsListed(l) ==> HasTarget(l)
  {
    if lines != [] {
      var init, last := lines[..|lines| - 1], lines[|lines| - 1];
      EqualCountsMeanTargets(init);
      assert forall l :: l in lines <==> l in init || l == last by {
        assert lines == init + [last];
      }
    }
  }

  /** The vectors fall out of step on the first line without a target field, and no manifest is printed. */
  lemma PrintingNeedsEveryTarget(text: string, env: Environment)
    requires Generate(text, env).Printed?
    ensures forall l :: l in GetLines(text) && IsListed(l) ==> HasTarget(l)
    ensures |Generate(text, env).entries| == CountListed(GetLines(text))
  {
    VectorLengths(GetLines(text));
    EqualCountsMeanTargets(GetLines(text));
  }
}
