/** The Downloader class of index.js. Its fields are the series name, the manga
    directory and the accumulating chapters map; the host and the file system are
    the objects it talks to. Every method is proved to perform exactly the steps of
    the machine in machine.dfy, so what invariant.dfy and termination.dfy prove
    about the machine holds of the methods. */
module MangaDownloader {
  import opened Types
  import opened Urls
  import opened Store
  import opened Layout
  import opened Remote
  import Machine
  import opened Invariant
  import opened Termination

  /** What run() resolves to. */
  datatype RunResult = RunResult(manga: string, chapters: map<nat, Machine.ChapterRecord>)

  class Downloader {
    const manga: string
    const mangaDir: Path
    const server: Server
    const fs: FileStore
    var chapters: map<nat, Machine.ChapterRecord>

    /** The machine's view of this downloader. */
    function Environment(): Machine.Env {
      Machine.Env(server.remote, manga, mangaDir)
    }

    /** new Downloader(manga), run from the directory cwd. */
    constructor(manga: string, cwd: Path, server: Server, fs: FileStore)
      ensures this.manga == manga && this.mangaDir == MangaDir(cwd, manga)
      ensures this.server == server && this.fs == fs
      ensures chapters == map[]
    {
      this.manga := manga;
      this.mangaDir := MangaDir(cwd, manga);
      this.server := server;
      this.fs := fs;
      this.chapters := map[];
    }

    /** fileExists: stat succeeds. */
    method FileExists(path: Path) returns (found: bool)
      ensures found <==> path == [] || path in fs.entries
    {
      var st := fs.Stat(path);
      found := st.Some?;
    }

    /** createDirIfNotExists: keep a directory, replace a file by a directory,
        create a missing one with its ancestors. */
    method CreateDirIfNotExists(directory: Path) returns (r: Outcome<()>)
      modifies fs
      ensures EnsureDir(old(fs.entries), directory) == if r.Ok? then Ok(fs.entries) else Fatal(r.failure)
      ensures r.Fatal? ==> fs.entries == old(fs.entries) - {directory}
    {
      var st := fs.Stat(directory);
      if st == Some(Dir) {
        r := Ok(());
      } else {
        if st == Some(File) {
          fs.Rm(directory);
        }
        r := fs.Mkdir(directory);
      }
    }

    /** downloadPicture(chapter, picture, chapterDir): Ok(true) on a 404. */
    method DownloadPicture(chapter: nat, picture: nat, chapterDir: Path) returns (r: Outcome<bool>)
      modifies fs, server
      ensures var eff := Machine.Picture(server.remote, manga, chapter, picture, chapterDir, old(fs.entries));
        r == eff.result && fs.entries == eff.entries && server.log == old(server.log) + eff.sent
    {
      var filepath := PicturePath(chapterDir, picture);
      var found := FileExists(filepath);
      if found {
        assert old(server.log) + [] == server.log;
        return Ok(false);
      }
      var request := Get(PageUrl(manga, chapter, picture));
      var reply := server.Send(request);
      var verdict := Verdict(request, reply);
      if verdict != Ok(false) {
        return verdict;
      }
      var written := fs.CreateFile(filepath);
      if written.Fatal? {
        return Fatal(written.failure);
      }
      return Ok(false);
    }

    /** checkChapterNotExists(chapter): HEAD of the chapter's first picture. */
    method CheckChapterNotExists(chapter: nat) returns (r: Outcome<bool>)
      modifies server
      ensures var request := Machine.ProbeRequest(manga, chapter);
        r == Verdict(request, ReplyTo(server.remote, request)) && server.log == old(server.log) + [request]
    {
      var request := Head(ProbeUrl(manga, chapter));
      var reply := server.Send(request);
      r := Verdict(request, reply);
    }
  
    /** downloadChapter(chapter): create the chapter directory, then download
        pictures 1, 2, ... until one is a 404; pages is one past that picture.
        Called when the run from s0 is at step `at`, about to enter the chapter, it
        leaves the run at step `reached`, in the Record phase with the returned
        record, or in the Aborted phase with the failure. The run is known to be
        over by step `last`. */
    method DownloadChapter(chapter: nat, ghost s0: Machine.State, ghost at: nat,
                           ghost recorded: map<nat, Machine.ChapterRecord>, ghost last: nat)
      returns (r: Outcome<Machine.ChapterRecord>, ghost reached: nat)
      requires s0.phase == Machine.Start && Machine.Terminal(Machine.Run(Environment(), s0, last))
      requires Machine.Run(Environment(), s0, at) == Machine.State(Machine.Enter(chapter), fs.entries, recorded, server.log)
      modifies fs, server
      ensures at < reached <= last
      ensures var s := Machine.Run(Environment(), s0, reached);
        s.entries == fs.entries && s.log == server.log && s.chapters == recorded &&
        s.phase == if r.Ok? then Machine.Record(chapter, r.value) else Machine.Aborted(r.failure)
    {
      ghost var env := Environment();
      Machine.Before(env, s0, at, last);
      var chapterDir := ChapterDir(mangaDir, chapter);
      var made := CreateDirIfNotExists(chapterDir);
      Machine.EnterAt(env, s0, at);
      reached := at + 1;
      ghost var s := Machine.Run(env, s0, reached);
      if made.Fatal? {
        return Fatal(made.failure), reached;
      }
      var page := 1;
      var done := false;
      while !done
        invariant at < reached <= last && s == Machine.Run(env, s0, reached)
        invariant s.entries == fs.entries && s.log == server.log && s.chapters == recorded
        invariant s.phase == if done then Machine.Record(chapter, Machine.ChapterRecord(page, chapterDir)) else Machine.Page(chapter, page)
        decreases last - reached
      {
        Machine.Before(env, s0, reached, last);
        Machine.PageAt(env, s0, reached);
        var result := DownloadPicture(chapter, page, chapterDir);
        reached := reached + 1;
        s := Machine.Run(env, s0, reached);
        if result.Fatal? {
          return Fatal(result.failure), reached;
        }
        done := result.value;
        page := page + 1;
      }
      r := Ok(Machine.ChapterRecord(page, chapterDir));
    }
  
    /** downloadManga(): probe chapters 0, 1, ... and download each present one,
        recording it under its number, until a probe is a 404. Called when the run
        from s0 is at step `at`, about to probe chapter 0 with no record yet, it
        leaves the run at step `reached`, Done or Aborted with the failure, and
        this.chapters extended by the records the machine stored. */
    method DownloadManga(ghost s0: Machine.State, ghost at: nat, ghost last: nat)
      returns (r: Outcome<()>, ghost reached: nat)
      requires s0.phase == Machine.Start && Machine.Terminal(Machine.Run(Environment(), s0, last))
      requires Machine.Run(Environment(), s0, at) == Machine.State(Machine.Probe(0), fs.entries, map[], server.log)
      modifies this, fs, server
      ensures at <= reached <= last
      ensures var s := Machine.Run(Environment(), s0, reached);
        s.entries == fs.entries && s.log == server.log && chapters == old(chapters) + s.chapters &&
        if r.Ok? then s.phase.Done? else s.phase == Machine.Aborted(r.failure)
    {
      ghost var env := Environment();
      ghost var start := chapters;
      Machine.Before(env, s0, at, last);
      reached := at;
      ghost var s := Machine.Run(env, s0, at);
      assert start + map[] == start;
      var chapter := 0;
      var done := false;
      while !done
        invariant at <= reached <= last && s == Machine.Run(env, s0, reached)
        invariant s.entries == fs.entries && s.log == server.log && chapters == start + s.chapters
        invariant s.phase == if done then Machine.Done(chapter) else Machine.Probe(chapter)
        decreases last - reached
      {
        Machine.Before(env, s0, reached, last);
        Machine.ProbeAt(env, s0, reached);
        var absent := CheckChapterNotExists(chapter);
        reached := reached + 1;
        s := Machine.Run(env, s0, reached);
        if absent.Fatal? {
          return Fatal(absent.failure), reached;
        }
        done := absent.value;
        if !done {
          var record, next := DownloadChapter(chapter, s0, reached, s.chapters, last);
          reached := next;
          s := Machine.Run(env, s0, reached);
          if record.Fatal? {
            return Fatal(record.failure), reached;
          }
          Machine.Before(env, s0, reached, last);
          Machine.RecordAt(env, s0, reached);
          reached := reached + 1;
          assert (start + s.chapters)[chapter := record.value] == start + s.chapters[chapter := record.value];
          s := Machine.Run(env, s0, reached);
          chapters := chapters[chapter := record.value];
          chapter := chapter + 1;
        }
      }
      r := Ok(());
    }

    /** run(): create the manga directory, download the manga, resolve to the
        series name and the chapters map. */
    method Run(ghost bound: nat) returns (r: Outcome<RunResult>, ghost steps: nat)
      requires RemoteBound(Environment(), bound)
      modifies this, fs, server
      ensures var s := Machine.Run(Environment(), Machine.Init(old(fs.entries), old(server.log)), steps);
        s.entries == fs.entries && s.log == server.log && chapters == old(chapters) + s.chapters &&
        if r.Ok? then s.phase.Done? && r.value == RunResult(manga, chapters) else s.phase == Machine.Aborted(r.failure)
      ensures var s := Machine.Run(Environment(), Machine.Init(old(fs.entries), old(server.log)), steps);
        Valid(old(fs.entries)) ==>
          (r.Ok? ==> Completed(Environment(), old(fs.entries), s)) &&
          (r.Fatal? ==> AbortCause(Environment(), old(fs.entries), r.failure))
    {
      ghost var env := Environment();
      ghost var e0 := fs.entries;
      ghost var s0 := Machine.Init(fs.entries, server.log);
      RunTerminates(env, e0, s0.log, bound);
      ghost var last: nat :| Machine.Terminal(Machine.Run(env, s0, last));
      var made := CreateDirIfNotExists(mangaDir);
      Machine.RunNext(env, s0, 0);
      steps := 1;
      if made.Fatal? {
        r := Fatal(made.failure);
      } else {
        Machine.Before(env, s0, 0, last);
        var outcome;
        outcome, steps := DownloadManga(s0, 1, last);
        r := if outcome.Ok? then Ok(RunResult(manga, chapters)) else Fatal(outcome.failure);
      }
      if Valid(e0) {
        if r.Ok? {
          CompletedRun(env, e0, s0.log, steps);
        } else {
          AbortedRun(env, e0, s0.log, steps);
        }
      }
    }
  }
}
