/**
  Writing a file through a temporary one, and reading it back (`fsWrite`, `fsRead`
  and the path checks in firmware/esp-idf/main/idf_command_services.h).
*/
module FileReplace {
  import opened CStrings
  import opened CommandCore
  import Routing

  const ROOT := "/littlefs"
  const UPLOADS := "/apps/"
  const TEMPORARY := ".tmp"
  const PATH_CAPACITY: nat := 96
  const USER_PATH_CAPACITY: nat := 65
  const MAX_CONTENT: nat := 512

  type Files = map<string, string>

  predicate ValidPath(path: string) {
    path != "" && path[0] == '/' && |path| <= 64 && !Contains(path, "..") && !Contains(path, "//")
  }

  /** `snprintf` of the full path, refused when it would be cut. */
  function BuildPath(userPath: string): Option<string> {
    if ValidPath(userPath) && |ROOT + userPath| < PATH_CAPACITY then Some(ROOT + userPath) else None
  }

  datatype Upload = Malformed | Outside | BadPath | LongPath | Upload(path: string, content: string) {
    function Temporary(): string
      requires Upload?
    {
      path + TEMPORARY
    }
  }

  function ParseUpload(arguments: string): Upload {
    var i := IndexOf(arguments, ' ');
    if i == |arguments| || i == 0 || i + 1 == |arguments| || |arguments| - i - 1 > MAX_CONTENT then Malformed
    else if i >= USER_PATH_CAPACITY || i < 7 || arguments[..6] != UPLOADS then Outside
    else
      var path := BuildPath(arguments[..i]);
      if path.None? then BadPath
      else if |path.value + TEMPORARY| >= PATH_CAPACITY then LongPath
      else Upload(path.value, arguments[i + 1..])
  }

  /** The path buffers always hold the whole path. */
  lemma PathsAreNeverCut(userPath: string)
    requires ValidPath(userPath)
    ensures BuildPath(userPath) == Some(ROOT + userPath)
    ensures |ROOT + userPath + TEMPORARY| < PATH_CAPACITY
  {
  }

  /**
    How the file system answers: whether each call succeeds, how many bytes `fwrite`
    takes, and how many of these have reached the flash after it, after flushing and
    after a close that fails. Only a close that succeeds puts all of them there.
  */
  datatype Calls = Calls(
    open: bool, taken: nat, afterWrite: nat, flush: bool, afterFlush: nat, close: bool, afterClose: nat,
    rename: bool, remove: bool)

  function UpTo(text: string, n: nat): string {
    if n < |text| then text[..n] else text
  }

  function Wrote(calls: Calls, content: string): bool {
    calls.taken >= |content| && calls.flush
  }

  function Renamed(files: Files, from: string, to: string): Files {
    if from in files then (files - {from})[to := files[from]] else files
  }

  /** What the temporary file holds once it is closed. */
  function Draft(content: string, calls: Calls): string {
    var taken := UpTo(content, calls.taken);
    if calls.close then taken else UpTo(taken, calls.afterClose)
  }

  /** The temporary file's contents after opening, writing, flushing and closing it. */
  function Drafts(content: string, calls: Calls): (r: seq<string>)
    ensures |r| == 4
  {
    var taken := UpTo(content, calls.taken);
    ["", UpTo(taken, calls.afterWrite), UpTo(taken, calls.afterFlush), Draft(content, calls)]
  }

  /** The files once the temporary one is renamed or removed, or neither. */
  function Finished(closed: Files, u: Upload, calls: Calls): Files
    requires u.Upload?
  {
    if Wrote(calls, u.content) then (if calls.rename then Renamed(closed, u.Temporary(), u.path) else closed)
    else if calls.remove then closed - {u.Temporary()}
    else closed
  }

  /** The files after each call of an upload, in order: what a stop at any point leaves. */
  function Stages(files: Files, u: Upload, calls: Calls): seq<Files>
    requires u.Upload?
  {
    if !calls.open then [files]
    else
      var t, d := u.Temporary(), Drafts(u.content, calls);
      [files, files[t := d[0]], files[t := d[1]], files[t := d[2]], files[t := d[3]],
       Finished(files[t := d[3]], u, calls)]
  }

  /** `fs-write`: its verdict and the files it leaves. */
  function Write(files: Files, arguments: string, calls: Calls): (bool, Files) {
    var u := ParseUpload(arguments);
    if !u.Upload? || !calls.open then (false, files)
    else (Wrote(calls, u.content), Stages(files, u, calls)[5])
  }

  datatype Reading = BadArguments | NotFound | TooLarge | Printed(text: string)

  /** How a file is read: whether opening succeeds, how many bytes `fread` gets, and whether `fgetc` gets one more. */
  datatype ReadCalls = ReadCalls(open: bool, got: nat, more: bool)

  function Read(files: Files, arguments: string, calls: ReadCalls): Reading {
    var path := BuildPath(arguments);
    if path.None? then BadArguments
    else if !calls.open || path.value !in files then NotFound
    else
      var content := files[path.value];
      var count := |UpTo(UpTo(content, MAX_CONTENT), calls.got)|;
      if calls.more && count < |content| then TooLarge else Printed(Terminated(content[..count]))
  }

  class Storage {
    var files: Files
    ghost var stages: seq<Files>

    constructor (files: Files)
      ensures this.files == files && stages == []
    {
      this.files := files;
      stages := [];
    }

    /** One call's effect on a file, and the state a stop right after it would leave. */
    method Put(path: string, content: string)
      modifies this
      ensures files == old(files)[path := content] && stages == old(stages) + [files]
    {
      files := files[path := content];
      stages := stages + [files];
    }

    /** Opens, writes, flushes and closes the temporary file. */
    method Fill(temporary: string, content: string, calls: Calls) returns (ok: bool)
      modifies this
      ensures ok == Wrote(calls, content)
      ensures var f, d := old(files), Drafts(content, calls);
              && files == f[temporary := d[3]]
              && stages == old(stages) + [f[temporary := d[0]], f[temporary := d[1]], f[temporary := d[2]], files]
    {
      var taken := UpTo(content, calls.taken);
      ghost var f, d := files, Drafts(content, calls);
      Put(temporary, "");
      Put(temporary, UpTo(taken, calls.afterWrite));
      assert files == f[temporary := d[1]];
      Put(temporary, UpTo(taken, calls.afterFlush));
      assert files == f[temporary := d[2]];
      Put(temporary, if calls.close then taken else UpTo(taken, calls.afterClose));
      assert files == f[temporary := d[3]];
      ok := |taken| == |content| && calls.flush;
    }

    method FsWrite(arguments: string, calls: Calls) returns (ok: bool)
      modifies this
      ensures (ok, files) == Write(old(files), arguments, calls)
      ensures var u := ParseUpload(arguments);
              stages == old(stages) + if u.Upload? then Stages(old(files), u, calls) else []
    {
      hide ParseUpload, Drafts;
      var u := ParseUpload(arguments);
      if !u.Upload? {
        return false;
      }
      stages := stages + [files];
      if !calls.open {
        return false;
      }
      var temporary := u.Temporary();
      ok := Fill(temporary, u.content, calls);
      if ok {
        if calls.rename {
          files := (files - {temporary})[u.path := files[temporary]];
        }
      } else if calls.remove {
        files := files - {temporary};
      }
      stages := stages + [files];
    }

    method FsRead(arguments: string, calls: ReadCalls) returns (r: Reading)
      ensures r == Read(files, arguments, calls)
    {
      var path := BuildPath(arguments);
      if path.None? {
        return BadArguments;
      }
      if !calls.open || path.value !in files {
        return NotFound;
      }
      var content := files[path.value];
      var buffer := UpTo(UpTo(content, MAX_CONTENT), calls.got);
      if calls.more && |buffer| < |content| {
        return TooLarge;
      }
      r := Printed(Terminated(buffer));
    }
  }

  function Lookup(files: Files, path: string): Option<string> {
    if path in files then Some(files[path]) else None
  }

  /** The target holds its whole old content or the whole new one. */
  predicate Whole(files: Files, now: Files, u: Upload)
    requires u.Upload?
  {
    Lookup(now, u.path) == Lookup(files, u.path) || Lookup(now, u.path) == Some(u.content)
  }

  /** A close has failed and lost bytes, and the rename installs what is left. */
  predicate Torn(files: Files, u: Upload, calls: Calls)
    requires u.Upload?
  {
    && calls.open && Wrote(calls, u.content) && calls.rename
    && !calls.close && calls.afterClose < |u.content|
    && Lookup(files, u.path) != Some(u.content[..calls.afterClose])
  }

  /**
    Stopped after any call, the target is whole, and only it and its temporary file
    differ: for every upload except one whose close fails with bytes lost, since the
    result of the close is not looked at before the rename.
  */
  lemma CrashSafe(files: Files, u: Upload, calls: Calls)
    requires u.Upload?
    ensures (forall now <- Stages(files, u, calls) :: Whole(files, now, u)) <==> !Torn(files, u, calls)
    ensures forall now <- Stages(files, u, calls) ::
              forall p :: p != u.path && p != u.Temporary() ==> Lookup(now, p) == Lookup(files, p)
  {
    hide Stages, Whole, Wrote, Torn;
    StagesBeforeTheEnd(files, u, calls);
    if calls.open {
      StagesInOrder(files, u, calls);
      TheEnd(files, u, calls);
    } else {
      NotOpened(files, u, calls);
    }
  }

  lemma NotOpened(files: Files, u: Upload, calls: Calls)
    requires u.Upload? && !calls.open
    ensures Stages(files, u, calls) == [files] && Whole(files, files, u) && !Torn(files, u, calls)
  {
  }

  lemma StagesInOrder(files: Files, u: Upload, calls: Calls)
    requires u.Upload? && calls.open
    ensures |Stages(files, u, calls)| == 6
    ensures Stages(files, u, calls)[5] == Finished(files[u.Temporary() := Draft(u.content, calls)], u, calls)
  {
  }

  /** Up to the last call only the temporary file differs. */
  lemma StagesBeforeTheEnd(files: Files, u: Upload, calls: Calls)
    requires u.Upload?
    ensures forall k :: 0 <= k < |Stages(files, u, calls)| && k < 5 ==>
              var now := Stages(files, u, calls)[k];
              && (forall p :: p != u.Temporary() ==> Lookup(now, p) == Lookup(files, p))
              && Whole(files, now, u)
  {
    hide Drafts, UpTo;
    assert |u.Temporary()| > |u.path|;
  }

  lemma TheEnd(files: Files, u: Upload, calls: Calls)
    requires u.Upload? && calls.open
    ensures var now := Finished(files[u.Temporary() := Draft(u.content, calls)], u, calls);
            && (forall p :: p != u.path && p != u.Temporary() ==> Lookup(now, p) == Lookup(files, p))
            && (Whole(files, now, u) <==> !Torn(files, u, calls))
  {
    assert |u.Temporary()| > |u.path|;
  }

  lemma ShortPathIsValid()
    ensures ValidPath("/apps/a") && "/apps/a"[..6] == UPLOADS && ' ' !in "/apps/a"
  {
    var path := "/apps/a";
    forall i | 0 <= i <= |path|
      ensures !Occurs("..", path, i) && !Occurs("//", path, i)
    {
      if i + 2 <= |path| {
        assert path[i..i + 2][0] == path[i] && path[i..i + 2][1] == path[i + 1];
      }
    }
  }

  /** The failing input: a close fails with nothing on the flash, and an empty file replaces the target. */
  lemma FailedCloseTearsTheTarget()
    ensures var files, u := map["/littlefs/apps/a" := "old"], Upload("/littlefs/apps/a", "new");
            var calls := Calls(true, 3, 0, true, 0, false, 0, true, true);
            && ParseUpload("/apps/a new") == u
            && Write(files, "/apps/a new", calls) == (true, map["/littlefs/apps/a" := ""])
  {
    hide ParseUpload, ValidPath;
    ShortPathIsValid();
    ParseOf("/apps/a", "new");
    assert "/apps/a" + " " + "new" == "/apps/a new";
    assert ROOT + "/apps/a" == "/littlefs/apps/a";
    var files, u := map["/littlefs/apps/a" := "old"], Upload("/littlefs/apps/a", "new");
    var calls := Calls(true, 3, 0, true, 0, false, 0, true, true);
    assert Draft("new", calls) == "";
    assert |u.Temporary()| > |u.path|;
    var closed := files[u.Temporary() := ""];
    assert Stages(files, u, calls)[5] == Finished(closed, u, calls) == Renamed(closed, u.Temporary(), u.path);
    assert closed - {u.Temporary()} == files;
    assert files[u.path := ""] == map["/littlefs/apps/a" := ""];
  }

  /**
    What a reported success is worth: the target then holds the new content exactly
    when the rename succeeded and the close had lost nothing, or when there was no
    rename and the target held that content before. Neither result is looked at.
  */
  lemma ReportedSuccess(files: Files, arguments: string, calls: Calls)
    requires Write(files, arguments, calls).0
    ensures var u := ParseUpload(arguments);
            Lookup(Write(files, arguments, calls).1, u.path) == Some(u.content)
            <==> if calls.rename then calls.close || calls.afterClose >= |u.content|
                 else Lookup(files, u.path) == Some(u.content)
  {
    var u := ParseUpload(arguments);
    assert |u.Temporary()| > |u.path|;
  }

  /** A failed upload leaves the target as it was. */
  lemma ReportedFailure(files: Files, arguments: string, calls: Calls, path: string)
    requires !Write(files, arguments, calls).0
    requires ParseUpload(arguments).Upload? ==> path != ParseUpload(arguments).Temporary()
    ensures Lookup(Write(files, arguments, calls).1, path) == Lookup(files, path)
  {
  }

  ghost predicate Uploadable(userPath: string, content: string) {
    && ValidPath(userPath) && |userPath| >= 7 && userPath[..6] == UPLOADS && ' ' !in userPath
    && 1 <= |content| <= MAX_CONTENT && NulFree(content)
  }

  /**
    A NUL-free file is printed as it is exactly when it has at most 512 bytes and all of
    them are read. A read that fails half-way is not told from the end of the file.
  */
  lemma ReadIsExact(files: Files, arguments: string, path: string, calls: ReadCalls)
    requires BuildPath(arguments) == Some(path) && path in files && NulFree(files[path]) && calls.open
    ensures Read(files, arguments, calls) == Printed(files[path])
            <==> |files[path]| <= 512 && |files[path]| <= calls.got
    ensures Read(files, arguments, calls).TooLarge?
            <==> calls.more && (|files[path]| > 512 || |files[path]| > calls.got)
  {
    hide BuildPath;
    var content := files[path];
    var count := |UpTo(UpTo(content, MAX_CONTENT), calls.got)|;
    assert forall c <- content[..count] :: c in content;
    assert Terminated(content[..count]) == content[..count];
    assert content[..|content|] == content;
  }

  predicate AllSucceed(calls: Calls, content: string) {
    calls.open && Wrote(calls, content) && calls.close && calls.rename
  }

  lemma ParseOf(userPath: string, content: string)
    requires Uploadable(userPath, content)
    ensures ParseUpload(userPath + " " + content) == Upload(ROOT + userPath, content)
  {
    hide Contains;
    var arguments := userPath + " " + content;
    forall j | 0 <= j < |userPath|
      ensures arguments[j] != ' '
    {
      assert arguments[j] == userPath[j] && userPath[j] in userPath;
    }
    IndexOfIs(arguments, ' ', |userPath|);
    assert arguments[..|userPath|] == userPath && arguments[|userPath| + 1..] == content;
    assert arguments[..6] == userPath[..6];
    PathsAreNeverCut(userPath);
  }

  /**
    A file written and read through the dispatcher comes back byte for byte, blanks
    at its ends included, when every call succeeds; nothing but it and its temporary file changes.
  */
  lemma FileRoundTrip(files: Files, userPath: string, content: string, calls: Calls, reading: ReadCalls)
    requires Uploadable(userPath, content) && AllSucceed(calls, content)
    requires reading.open && reading.got >= |content|
    ensures Route(FsWrite.Word() + " " + (userPath + " " + content)) == Call(FsWrite, userPath + " " + content)
    ensures Route(FsRead.Word() + " " + userPath) == Call(FsRead, userPath)
    ensures var (ok, after) := Write(files, userPath + " " + content, calls);
            && ok && Read(after, userPath, reading) == Printed(content)
            && after == (files - {ROOT + userPath + TEMPORARY})[ROOT + userPath := content]
  {
    hide Route, ValidPath;
    var arguments := userPath + " " + content;
    Routing.WordsAreSolid(FsWrite);
    Routing.WordsAreSolid(FsRead);
    StartsWithSlash(userPath, content);
    Routing.RouteOf(FsWrite, arguments, 0);
    Routing.RouteOf(FsRead, userPath, 0);
    ParseOf(userPath, content);
    PathsAreNeverCut(userPath);
    assert Terminated(content) == content;
  }

  lemma StartsWithSlash(userPath: string, content: string)
    requires Uploadable(userPath, content)
    ensures 1 <= |userPath| <= 64 && userPath[0] == '/' && (userPath + " " + content)[0] == '/'
    ensures |userPath + " " + content| <= 577
  {
  }

  /** No parent directory and no empty component is named. */
  predicate Direct(path: string) {
    forall k :: 0 <= k < |path| - 1 ==> !(path[k] == path[k + 1] == '.') && !(path[k] == path[k + 1] == '/')
  }

  lemma PairOccurs(c: char, path: string)
    ensures Contains(path, [c, c]) <==> exists k :: 0 <= k < |path| - 1 && path[k] == path[k + 1] == c
  {
    if Contains(path, [c, c]) {
      var k :| 0 <= k <= |path| && Occurs([c, c], path, k);
      assert path[k..k + 2][0] == path[k] && path[k..k + 2][1] == path[k + 1];
    }
    if k :| 0 <= k < |path| - 1 && path[k] == path[k + 1] == c {
      assert path[k..k + 2] == [c, c];
      assert Occurs([c, c], path, k);
    }
  }

  /** Which paths are accepted, and what they stand for. */
  lemma PathIff(userPath: string)
    ensures BuildPath(userPath).Some? <==> 1 <= |userPath| <= 64 && userPath[0] == '/' && Direct(userPath)
    ensures BuildPath(userPath).Some? ==> BuildPath(userPath).value == "/littlefs" + userPath
  {
    hide Contains;
    assert ".." == ['.', '.'] && "//" == ['/', '/'];
    PairOccurs('.', userPath);
    PairOccurs('/', userPath);
  }

  /** Which uploads are accepted: a direct path of at most 64 bytes below `/apps/`, and 1 to 512 bytes of content. */
  lemma UploadIff(arguments: string)
    ensures var i, u := IndexOf(arguments, ' '), ParseUpload(arguments);
            && (u.Upload? <==>
                  7 <= i <= 64 && i + 1 < |arguments| <= i + 513
                  && arguments[..6] == "/apps/" && Direct(arguments[..i]))
            && (u.Upload? ==> u == Upload("/littlefs" + arguments[..i], arguments[i + 1..]))
  {
    hide Direct, Contains, IndexOf;
    var i := IndexOf(arguments, ' ');
    if 7 <= i <= 64 && i < |arguments| {
      PathIff(arguments[..i]);
      assert arguments[0] == arguments[..6][0];
    }
  }

  /** When an upload reports success: it is accepted, and opening, writing and flushing succeed. */
  lemma WriteIff(files: Files, arguments: string, calls: Calls)
    ensures Write(files, arguments, calls).0 <==>
            var u := ParseUpload(arguments);
            u.Upload? && calls.open && calls.taken >= |u.content| && calls.flush
  {
    hide ParseUpload;
  }

  /** An upload leaves its temporary file behind only when the call that should take it away fails. */
  lemma NoTemporaryIsLeft(files: Files, arguments: string, calls: Calls)
    requires ParseUpload(arguments).Upload? && calls.open
    requires if Write(files, arguments, calls).0 then calls.rename else calls.remove
    ensures Lookup(Write(files, arguments, calls).1, ParseUpload(arguments).path + ".tmp").None?
  {
    hide ParseUpload, Drafts;
    assert |ParseUpload(arguments).Temporary()| > |ParseUpload(arguments).path|;
  }
}
