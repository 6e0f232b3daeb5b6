/**
 * The manifest resolver of the native messaging proxy: the mode string, the
 * host-name grammar, manifest validation, and the ordered search for
 * `<dir>/<name>.json` over a mode's search directories.
 *
 * Reading a file is a lookup in a `FileSystem` map and JSON parsing is a
 * given function `parse` from bytes to the three string members the proxy
 * looks at (absent when the bytes are not JSON).
 */
module Manifest {
  import opened Wrappers
  import opened Text

  newtype byte = x: int | 0 <= x < 256

  /** The errors a request can be answered with: the two D-Bus errors the
      resolver raises, and `SpawnFailed`, which stands for the error that
      spawning the host reported and that the reply forwards unchanged. */
  datatype DbusError = InvalidArgs | FileNotFound | SpawnFailed

  /** Which browser's native-messaging conventions a request follows. */
  datatype Mode = Chromium | Mozilla

  /** `get_mode_from_str`: only the exact string "chromium" selects Chromium;
      "mozilla" and every other string, the empty one included, select Mozilla. */
  function ModeFromString(mode: string): (m: Mode)
    ensures m == Chromium <==> mode == "chromium"
    ensures m == Mozilla <==> mode != "chromium"
  {
    if mode == "mozilla" then Mozilla
    else if mode == "chromium" then Chromium
    else Mozilla
  }

  // ---------------------------------------------------------------------
  // Host names: `^\w+(\.\w+)*$` over ASCII word characters

  predicate IsWordChar(c: char) {
    ('a' <= c <= 'z') || ('A' <= c <= 'Z') || ('0' <= c <= '9') || c == '_'
  }

  /** `is_valid_name`: the regular expression `^\w+(\.\w+)*$` run as a
      matcher; after the first word character the matcher sits in the
      accepting state `AfterWordChar`. */
  predicate IsValidName(name: string) {
    |name| > 0 && IsWordChar(name[0]) && AfterWordChar(name[1..])
  }

  /** What may follow a word character: more word characters, or a dot and
      a word character, repeatedly, up to the end of the input. */
  predicate AfterWordChar(s: string)
    decreases |s|
  {
    || s == []
    || (IsWordChar(s[0]) && AfterWordChar(s[1..]))
    || (|s| >= 2 && s[0] == '.' && IsWordChar(s[1]) && AfterWordChar(s[2..]))
  }

  /** Only word characters and dots, and no dot followed by a dot. */
  ghost predicate WordsAndSingleDots(s: string) {
    && (forall i :: 0 <= i < |s| ==> IsWordChar(s[i]) || s[i] == '.')
    && (forall i :: 0 <= i < |s| - 1 && s[i] == '.' ==> s[i + 1] != '.')
  }

  /** The name grammar described character by character: non-empty, word
      characters and dots only, no leading, trailing or doubled dot. */
  ghost predicate IsDotSeparatedWords(s: string) {
    |s| > 0 && s[0] != '.' && s[|s| - 1] != '.' && WordsAndSingleDots(s)
  }

  lemma {:induction false} AfterWordCharIff(t: string)
    ensures AfterWordChar(t) <==> WordsAndSingleDots(t) && (|t| > 0 ==> t[|t| - 1] != '.')
    decreases |t|
  {
    if t != [] {
      if IsWordChar(t[0]) {
        AfterWordCharIff(t[1..]);
        assert WordsAndSingleDots(t) <==> WordsAndSingleDots(t[1..]) by {
          if WordsAndSingleDots(t[1..]) {
            forall i | 0 <= i < |t| ensures IsWordChar(t[i]) || t[i] == '.' {
              if i > 0 { assert t[i] == t[1..][i - 1]; }
            }
            forall i | 0 <= i < |t| - 1 && t[i] == '.' ensures t[i + 1] != '.' {
              assert t[i] == t[1..][i - 1];
            }
          }
        }
      } else if t[0] == '.' && |t| >= 2 && IsWordChar(t[1]) {
        AfterWordCharIff(t[2..]);
        assert WordsAndSingleDots(t) <==> WordsAndSingleDots(t[2..]) by {
          if WordsAndSingleDots(t[2..]) {
            forall i | 0 <= i < |t| ensures IsWordChar(t[i]) || t[i] == '.' {
              if i > 1 { assert t[i] == t[2..][i - 2]; }
            }
            forall i | 0 <= i < |t| - 1 && t[i] == '.' ensures t[i + 1] != '.' {
              if i > 0 { assert t[i + 1] == t[2..][i - 1]; }
            }
          }
        }
      }
    }
  }

  /** A host name is accepted iff it is non-empty, made of word characters
      and dots, and has no leading, trailing or doubled dot. */
  lemma ValidNameCharacterwise(name: string)
    ensures IsValidName(name) <==> IsDotSeparatedWords(name)
  {
    if |name| > 0 {
      AfterWordCharIff(name[1..]);
      if IsWordChar(name[0]) && WordsAndSingleDots(name[1..]) {
        forall i | 0 <= i < |name| ensures IsWordChar(name[i]) || name[i] == '.' {
          if i > 0 { assert name[i] == name[1..][i - 1]; }
        }
        forall i | 0 <= i < |name| - 1 && name[i] == '.' ensures name[i + 1] != '.' {
          assert name[i] == name[1..][i - 1];
        }
      }
    }
  }

  /** A non-empty run of word characters. */
  predicate IsWord(g: string) {
    |g| > 0 && forall i :: 0 <= i < |g| ==> IsWordChar(g[i])
  }

  /** One or more words. */
  predicate IsWordGroups(gs: seq<string>) {
    |gs| >= 1 && forall k :: 0 <= k < |gs| ==> IsWord(gs[k])
  }

  lemma {:induction false} AfterWordCharPieces(t: string)
    requires AfterWordChar(t)
    ensures forall i :: 0 <= i < |Pieces(t, '.')[0]| ==> IsWordChar(Pieces(t, '.')[0][i])
    ensures forall k :: 1 <= k < |Pieces(t, '.')| ==> IsWord(Pieces(t, '.')[k])
    decreases |t|
  {
    if t != [] {
      var p := Pieces(t, '.');
      if IsWordChar(t[0]) {
        AfterWordCharPieces(t[1..]);
        var rest := Pieces(t[1..], '.');
        assert p == [[t[0]] + rest[0]] + rest[1..];
        forall k | 1 <= k < |p| ensures IsWord(p[k]) {
          assert p[k] == rest[k];
        }
      } else {
        assert t[0] == '.' && IsWordChar(t[1]) && AfterWordChar(t[2..]);
        AfterWordCharPieces(t[2..]);
        var r2 := Pieces(t[2..], '.');
        assert t[1..][1..] == t[2..];
        var r1 := Pieces(t[1..], '.');
        assert r1 == [[t[1]] + r2[0]] + r2[1..];
        assert p == [[]] + r1;
        forall k | 1 <= k < |p| ensures IsWord(p[k]) {
          if k == 1 {
            assert p[1] == [t[1]] + r2[0];
          } else {
            assert p[k] == r2[k - 1];
          }
        }
      }
    }
  }

  lemma {:induction false} WordCharsFollowWord(w: string)
    requires forall i :: 0 <= i < |w| ==> IsWordChar(w[i])
    ensures AfterWordChar(w)
    decreases |w|
  {
    if w != [] {
      WordCharsFollowWord(w[1..]);
    }
  }

  lemma {:induction false} WordDotName(w: string, j: string)
    requires forall i :: 0 <= i < |w| ==> IsWordChar(w[i])
    requires IsValidName(j)
    ensures AfterWordChar(w + ['.'] + j)
    decreases |w|
  {
    var t := w + ['.'] + j;
    if w == [] {
      assert t == ['.'] + j;
      assert t[2..] == j[1..];
    } else {
      WordDotName(w[1..], j);
      assert t[1..] == w[1..] + ['.'] + j;
    }
  }

  lemma {:induction false} JoinedWordGroupsAreValid(gs: seq<string>)
    requires IsWordGroups(gs)
    ensures IsValidName(JoinWith(gs, '.'))
    decreases |gs|
  {
    var g := gs[0];
    if |gs| == 1 {
      WordCharsFollowWord(g[1..]);
    } else {
      assert IsWordGroups(gs[1..]) by {
        forall k | 0 <= k < |gs[1..]| ensures IsWord(gs[1..][k]) { assert gs[1..][k] == gs[k + 1]; }
      }
      JoinedWordGroupsAreValid(gs[1..]);
      var rest := JoinWith(gs[1..], '.');
      var whole := g + ['.'] + rest;
      assert JoinWith(gs, '.') == whole;
      WordDotName(g[1..], rest);
      assert whole[1..] == g[1..] + ['.'] + rest;
    }
  }

  /** The name grammar as the Mozilla documentation words it: one or more
      groups of word characters joined by single dots. */
  lemma ValidNameIsDottedGroups(name: string)
    ensures IsValidName(name) <==> exists gs :: IsWordGroups(gs) && JoinWith(gs, '.') == name
  {
    if IsValidName(name) {
      var gs := Pieces(name, '.');
      AfterWordCharPieces(name[1..]);
      var rest := Pieces(name[1..], '.');
      assert gs == [[name[0]] + rest[0]] + rest[1..];
      forall k | 0 <= k < |gs| ensures IsWord(gs[k]) {
        if k > 0 { assert gs[k] == rest[k]; }
      }
      JoinPieces(name, '.');
      assert IsWordGroups(gs) && JoinWith(gs, '.') == name;
    }
    if exists gs :: IsWordGroups(gs) && JoinWith(gs, '.') == name {
      var gs :| IsWordGroups(gs) && JoinWith(gs, '.') == name;
      JoinedWordGroupsAreValid(gs);
    }
  }

  // ---------------------------------------------------------------------
  // Manifests

  /** The string members `name`, `type` and `path` of a manifest's JSON
      object; a member that is missing (or not a string) is `None`. */
  datatype ManifestFields = ManifestFields(name: Option<string>, hostType: Option<string>, path: Option<string>)

  /** The reasons a well-formed manifest is rejected. */
  datatype Invalidity = UnexpectedName | NotStdio | PathNotAbsolute

  datatype Verdict = Accepted | Rejected(reason: Invalidity)

  /** `g_path_is_absolute` on a UNIX system. */
  predicate IsAbsolutePath(p: string) {
    |p| > 0 && p[0] == '/'
  }

  /** `is_valid_manifest`: the checks run in the order name, type, path and
      the first failing one names the rejection. */
  function ValidateManifest(fields: ManifestFields, hostName: string): (v: Verdict)
    ensures v == Accepted <==>
              && fields.name == Some(hostName)
              && fields.hostType == Some("stdio")
              && fields.path.Some? && IsAbsolutePath(fields.path.value)
    ensures v == Rejected(UnexpectedName) <==> fields.name != Some(hostName)
    ensures v == Rejected(NotStdio) <==> fields.name == Some(hostName) && fields.hostType != Some("stdio")
  {
    if fields.name != Some(hostName) then Rejected(UnexpectedName)
    else if fields.hostType != Some("stdio") then Rejected(NotStdio)
    else if fields.path.None? || !IsAbsolutePath(fields.path.value) then Rejected(PathNotAbsolute)
    else Accepted
  }

  // ---------------------------------------------------------------------
  // The ordered search

  /** What loading a file gives: it does not exist, it could not be read,
      or its bytes. */
  datatype LoadResult = Missing | IoError | Contents(bytes: seq<byte>)

  /** The files the search can see; a path that is not a key does not exist. */
  type FileSystem = map<string, LoadResult>

  /** JSON parsing: the manifest's members, or `None` if the bytes are not JSON. */
  type JsonParser = seq<byte> -> Option<ManifestFields>

  function Load(fs: FileSystem, path: string): LoadResult {
    if path in fs then fs[path] else Missing
  }

  /** `g_build_filename` of a directory and a base name. An empty directory
      is skipped, as `g_build_filename` skips empty elements, so the result
      is the bare base name, a path relative to the working directory. */
  function BuildFilename(dir: string, base: string): string {
    if dir == "" then base else dir + "/" + base
  }

  /** The file a search directory offers for a host: `<dir>/<name>.json`. */
  function CandidateFile(dir: string, hostName: string): string {
    BuildFilename(dir, hostName + ".json")
  }

  /** A manifest that was found: its bytes, its file name and its members. */
  datatype Found = Found(contents: seq<byte>, filename: string, fields: ManifestFields)

  /** One directory's candidate: loaded, parsed and validated, or `None`. */
  function Probe(hostName: string, dir: string, fs: FileSystem, parse: JsonParser): Option<Found> {
    var filename := CandidateFile(dir, hostName);
    match Load(fs, filename)
    case Missing => None
    case IoError => None
    case Contents(bytes) =>
      match parse(bytes)
      case None => None
      case Some(fields) =>
        if ValidateManifest(fields, hostName) == Accepted then Some(Found(bytes, filename, fields)) else None
  }

  /** The search from the `k`-th directory on: the first accepted candidate
      wins, and running out of directories is FileNotFound. */
  function ScanFrom(hostName: string, dirs: seq<string>, k: nat, fs: FileSystem, parse: JsonParser): (r: Result<Found, DbusError>)
    requires k <= |dirs|
    ensures r.Failure? ==> r.error == FileNotFound
    ensures r.Success? ==>
              && Load(fs, r.value.filename) == Contents(r.value.contents)
              && parse(r.value.contents) == Some(r.value.fields)
              && ValidateManifest(r.value.fields, hostName) == Accepted
    decreases |dirs| - k
  {
    if k == |dirs| then Failure(FileNotFound)
    else match Probe(hostName, dirs[k], fs, parse)
      case Some(found) => Success(found)
      case None => ScanFrom(hostName, dirs, k + 1, fs, parse)
  }

  /** The files the search from the `k`-th directory on loads, in order. */
  function ReadsFrom(hostName: string, dirs: seq<string>, k: nat, fs: FileSystem, parse: JsonParser): seq<string>
    requires k <= |dirs|
    decreases |dirs| - k
  {
    if k == |dirs| then []
    else [CandidateFile(dirs[k], hostName)]
         + (if Probe(hostName, dirs[k], fs, parse).Some? then [] else ReadsFrom(hostName, dirs, k + 1, fs, parse))
  }

  /** The outcome of `find_manifest`: an invalid name is InvalidArgs before
      any directory is looked at. */
  function Resolve(hostName: string, dirs: seq<string>, fs: FileSystem, parse: JsonParser): Result<Found, DbusError> {
    if !IsValidName(hostName) then Failure(InvalidArgs) else ScanFrom(hostName, dirs, 0, fs, parse)
  }

  /** The files `find_manifest` loads, in order. */
  function FilesRead(hostName: string, dirs: seq<string>, fs: FileSystem, parse: JsonParser): seq<string> {
    if !IsValidName(hostName) then [] else ReadsFrom(hostName, dirs, 0, fs, parse)
  }

  /** The candidate files of a list of directories, in order. */
  function CandidateFiles(dirs: seq<string>, hostName: string): (files: seq<string>)
    ensures |files| == |dirs|
    ensures forall j :: 0 <= j < |dirs| ==> files[j] == CandidateFile(dirs[j], hostName)
  {
    seq(|dirs|, j requires 0 <= j < |dirs| => CandidateFile(dirs[j], hostName))
  }

  /** `find_manifest`: an indexed loop over the search directories that
      returns the first candidate that passes; every candidate it probes is
      loaded, in order. */
  method FindManifest(hostName: string, searchPaths: seq<string>, fs: FileSystem, parse: JsonParser)
    returns (r: Result<Found, DbusError>, filesRead: seq<string>)
    ensures r == Resolve(hostName, searchPaths, fs, parse)
    ensures filesRead == FilesRead(hostName, searchPaths, fs, parse)
    ensures !IsValidName(hostName) ==> r == Failure(InvalidArgs) && filesRead == []
    ensures r.Success? ==> r.value.filename == filesRead[|filesRead| - 1]
  {
    filesRead := [];
    if !IsValidName(hostName) {
      return Failure(InvalidArgs), filesRead;
    }
    assert filesRead + ReadsFrom(hostName, searchPaths, 0, fs, parse) == FilesRead(hostName, searchPaths, fs, parse);
    for i := 0 to |searchPaths|
      invariant ScanFrom(hostName, searchPaths, i, fs, parse) == Resolve(hostName, searchPaths, fs, parse)
      invariant filesRead + ReadsFrom(hostName, searchPaths, i, fs, parse) == FilesRead(hostName, searchPaths, fs, parse)
    {
      var filename, found := ProbeCandidate(hostName, searchPaths[i], fs, parse);
      ScanStep(hostName, searchPaths, i, fs, parse, filesRead);
      filesRead := filesRead + [filename];
      if found.Some? {
        return Success(found.value), filesRead;
      }
    }
    return Failure(FileNotFound), filesRead;
  }

  /** One iteration of `find_manifest`'s loop: build `<dir>/<name>.json`,
      load it, parse it and validate it, skipping the candidate when it is
      missing, unreadable, not JSON or invalid. */
  method ProbeCandidate(hostName: string, dir: string, fs: FileSystem, parse: JsonParser)
    returns (filename: string, found: Option<Found>)
    ensures filename == CandidateFile(dir, hostName)
    ensures found == Probe(hostName, dir, fs, parse)
    ensures found.Some? ==>
              && found.value.filename == filename
              && Load(fs, filename) == Contents(found.value.contents)
              && parse(found.value.contents) == Some(found.value.fields)
              && ValidateManifest(found.value.fields, hostName) == Accepted
  {
    filename := BuildFilename(dir, hostName + ".json");
    var loaded := Load(fs, filename);
    if !loaded.Contents? {
      return filename, None;
    }
    var fields := parse(loaded.bytes);
    if fields.None? {
      return filename, None;
    }
    if ValidateManifest(fields.value, hostName) != Accepted {
      return filename, None;
    }
    found := Some(Found(loaded.bytes, filename, fields.value));
  }

  /** One step of the search, unfolded: an accepted candidate ends the scan
      and is the last file read; otherwise the scan goes on from the next
      directory. */
  lemma ScanStep(hostName: string, dirs: seq<string>, i: nat, fs: FileSystem, parse: JsonParser, before: seq<string>)
    requires i < |dirs|
    ensures var probe := Probe(hostName, dirs[i], fs, parse);
            var filename := CandidateFile(dirs[i], hostName);
            && (probe.Some? ==> ScanFrom(hostName, dirs, i, fs, parse) == Success(probe.value)
                                && before + ReadsFrom(hostName, dirs, i, fs, parse) == before + [filename])
            && (probe.None? ==> ScanFrom(hostName, dirs, i, fs, parse) == ScanFrom(hostName, dirs, i + 1, fs, parse)
                                && before + ReadsFrom(hostName, dirs, i, fs, parse)
                                   == (before + [filename]) + ReadsFrom(hostName, dirs, i + 1, fs, parse))
  {
  }

  // ---------------------------------------------------------------------
  // Properties of the search

  /** The candidate files of a non-empty list: the first directory's, then the rest. */
  lemma CandidateFilesCons(dirs: seq<string>, hostName: string)
    requires |dirs| > 0
    ensures CandidateFiles(dirs, hostName) == [CandidateFile(dirs[0], hostName)] + CandidateFiles(dirs[1..], hostName)
  {
    var rest := CandidateFiles(dirs[1..], hostName);
    assert forall j :: 0 <= j < |rest| ==> rest[j] == CandidateFile(dirs[j + 1], hostName);
  }

  lemma {:induction false} ScanFindsFirstAccepted(hostName: string, dirs: seq<string>, k: nat, i: nat, fs: FileSystem, parse: JsonParser)
    requires k <= i < |dirs|
    requires Probe(hostName, dirs[i], fs, parse).Some?
    requires forall j :: k <= j < i ==> Probe(hostName, dirs[j], fs, parse).None?
    ensures ScanFrom(hostName, dirs, k, fs, parse) == Success(Probe(hostName, dirs[i], fs, parse).value)
    ensures ReadsFrom(hostName, dirs, k, fs, parse) == CandidateFiles(dirs[k..i + 1], hostName)
    decreases i - k
  {
    CandidateFilesCons(dirs[k..i + 1], hostName);
    assert dirs[k..i + 1][0] == dirs[k];
    if k < i {
      ScanFindsFirstAccepted(hostName, dirs, k + 1, i, fs, parse);
      assert Probe(hostName, dirs[k], fs, parse).None?;
      assert dirs[k..i + 1][1..] == dirs[k + 1..i + 1];
      assert ReadsFrom(hostName, dirs, k, fs, parse)
             == [CandidateFile(dirs[k], hostName)] + ReadsFrom(hostName, dirs, k + 1, fs, parse);
    } else {
      assert dirs[k..i + 1][1..] == [];
      assert ReadsFrom(hostName, dirs, k, fs, parse) == [CandidateFile(dirs[k], hostName)];
    }
  }

  /** First wins: when the `i`-th directory is the first whose candidate
      loads, parses and validates, the search returns that candidate's bytes
      and file name `<dir_i>/<name>.json`, and loads exactly the candidates of
      directories 0 to `i`; later directories are never read. */
  lemma ResolveFirstAccepted(hostName: string, dirs: seq<string>, i: nat, fs: FileSystem, parse: JsonParser)
    requires IsValidName(hostName)
    requires i < |dirs|
    requires Probe(hostName, dirs[i], fs, parse).Some?
    requires forall j :: 0 <= j < i ==> Probe(hostName, dirs[j], fs, parse).None?
    ensures Resolve(hostName, dirs, fs, parse) == Success(Probe(hostName, dirs[i], fs, parse).value)
    ensures Resolve(hostName, dirs, fs, parse).value.filename
            == if dirs[i] == "" then hostName + ".json" else dirs[i] + "/" + hostName + ".json"
    ensures FilesRead(hostName, dirs, fs, parse) == CandidateFiles(dirs[..i + 1], hostName)
  {
    ScanFindsFirstAccepted(hostName, dirs, 0, i, fs, parse);
    assert dirs[0..i + 1] == dirs[..i + 1];
  }

  lemma {:induction false} ScanSuccessIsFirstAccepted(hostName: string, dirs: seq<string>, k: nat, fs: FileSystem, parse: JsonParser)
    requires k <= |dirs|
    requires ScanFrom(hostName, dirs, k, fs, parse).Success?
    ensures exists i :: k <= i < |dirs|
              && Probe(hostName, dirs[i], fs, parse) == Some(ScanFrom(hostName, dirs, k, fs, parse).value)
              && forall j :: k <= j < i ==> Probe(hostName, dirs[j], fs, parse).None?
    decreases |dirs| - k
  {
    if Probe(hostName, dirs[k], fs, parse).None? {
      ScanSuccessIsFirstAccepted(hostName, dirs, k + 1, fs, parse);
    }
  }

  /** Conversely, a successful search returns the candidate of the first
      directory that accepts, for a valid name. */
  lemma ResolveSuccessIsFirstAccepted(hostName: string, dirs: seq<string>, fs: FileSystem, parse: JsonParser)
    requires Resolve(hostName, dirs, fs, parse).Success?
    ensures IsValidName(hostName)
    ensures exists i :: 0 <= i < |dirs|
              && Probe(hostName, dirs[i], fs, parse) == Some(Resolve(hostName, dirs, fs, parse).value)
              && forall j :: 0 <= j < i ==> Probe(hostName, dirs[j], fs, parse).None?
  {
    ScanSuccessIsFirstAccepted(hostName, dirs, 0, fs, parse);
  }

  lemma {:induction false} ScanExhausted(hostName: string, dirs: seq<string>, k: nat, fs: FileSystem, parse: JsonParser)
    requires k <= |dirs|
    ensures ScanFrom(hostName, dirs, k, fs, parse) == Failure(FileNotFound)
            <==> forall j :: k <= j < |dirs| ==> Probe(hostName, dirs[j], fs, parse).None?
    ensures ScanFrom(hostName, dirs, k, fs, parse).Failure?
            ==> ReadsFrom(hostName, dirs, k, fs, parse) == CandidateFiles(dirs[k..], hostName)
    decreases |dirs| - k
  {
    if k < |dirs| {
      ScanExhausted(hostName, dirs, k + 1, fs, parse);
      CandidateFilesCons(dirs[k..], hostName);
      assert dirs[k..][0] == dirs[k] && dirs[k..][1..] == dirs[k + 1..];
    }
  }

  /** For a valid name the search fails with FileNotFound exactly when no
      directory's candidate is accepted, and then it has loaded every
      candidate in order: a failing candidate never stops the scan. */
  lemma ResolveNotFoundIffNoneAccepted(hostName: string, dirs: seq<string>, fs: FileSystem, parse: JsonParser)
    requires IsValidName(hostName)
    ensures Resolve(hostName, dirs, fs, parse) == Failure(FileNotFound)
            <==> forall j :: 0 <= j < |dirs| ==> Probe(hostName, dirs[j], fs, parse).None?
    ensures Resolve(hostName, dirs, fs, parse).Failure?
            ==> FilesRead(hostName, dirs, fs, parse) == CandidateFiles(dirs, hostName)
  {
    ScanExhausted(hostName, dirs, 0, fs, parse);
    assert dirs[0..] == dirs;
  }

  /** A valid host name never leaves its search directory: the candidate
      file is the directory, one separator, and a base name without a
      separator that is neither "." nor "..". */
  lemma CandidateStaysInDirectory(hostName: string, dir: string)
    requires IsValidName(hostName)
    ensures var f := CandidateFile(dir, hostName);
            dir != "" ==> f[..|dir| + 1] == dir + "/" && '/' !in f[|dir| + 1..]
    ensures dir == "" ==> CandidateFile(dir, hostName) == hostName + ".json" && '/' !in CandidateFile(dir, hostName)
    ensures hostName != "." && hostName != ".."
  {
    ValidNameCharacterwise(hostName);
    var f := CandidateFile(dir, hostName);
    if dir != "" {
      assert f[|dir| + 1..] == hostName + ".json";
    }
  }
}
