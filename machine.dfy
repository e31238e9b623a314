/** The downloader's run as a small-step state machine. Each step is one of the
    actions index.js performs in order: create the manga directory (run), probe a
    chapter (downloadManga's loop), create the chapter directory, attempt one picture
    (downloadChapter's loop), store a chapter record (downloadManga's loop). The
    Downloader class is proved to perform exactly these steps. */
module Machine {
  import opened Types
  import opened Decimal
  import opened Urls
  import opened Store
  import opened Layout
  import opened Remote

  /** { pages, chapterDir } as downloadChapter returns it. */
  datatype ChapterRecord = ChapterRecord(pages: nat, chapterDir: Path)

  /** What a run depends on besides the store: the host, the series name and the
      manga directory. */
  datatype Env = Env(remote: Remote, manga: string, mangaDir: Path)

  datatype Phase =
    | Start                                      // run(), before createDirIfNotExists(mangaDir)
    | Probe(chapter: nat)                        // downloadManga, before checkChapterNotExists(chapter)
    | Enter(chapter: nat)                        // downloadChapter, before createDirIfNotExists(chapterDir)
    | Page(chapter: nat, page: nat)              // downloadChapter's loop, before downloadPicture(chapter, page)
    | Record(chapter: nat, record: ChapterRecord) // downloadChapter has returned record
    | Done(stop: nat)                            // chapter `stop` was reported absent
    | Aborted(failure: Failure)                  // a request or store operation failed

  datatype State = State(phase: Phase, entries: Entries, chapters: map<nat, ChapterRecord>, log: seq<Request>)

  predicate Terminal(s: State) {
    s.phase.Done? || s.phase.Aborted?
  }

  function Init(entries: Entries, log: seq<Request>): State {
    State(Start, entries, map[], log)
  }

  /** One downloadPicture call: its result, the store afterwards and the requests sent. */
  datatype Effect = Effect(result: Outcome<bool>, entries: Entries, sent: seq<Request>)

  /** downloadPicture(chapter, picture, chapterDir) */
  function Picture(remote: Remote, manga: string, chapter: nat, picture: nat, chapterDir: Path, e: Entries): Effect {
    var path := PicturePath(chapterDir, picture);
    if path in e then Effect(Ok(false), e, [])
    else
      var request := Get(PageUrl(manga, chapter, picture));
      var verdict := Verdict(request, ReplyTo(remote, request));
      if verdict != Ok(false) then Effect(verdict, e, [request])
      else match Written(e, path)
        case Ok(e') => Effect(Ok(false), e', [request])
        case Fatal(f) => Effect(Fatal(f), e, [request])
  }

  /** checkChapterNotExists(chapter): the HEAD request it sends and its verdict. */
  function ProbeRequest(manga: string, chapter: nat): Request {
    Head(ProbeUrl(manga, chapter))
  }

  function Step(env: Env, s: State): State {
    match s.phase
    case Start =>
      (match EnsureDir(s.entries, env.mangaDir)
       case Ok(e) => s.(phase := Probe(0), entries := e)
       case Fatal(f) => s.(phase := Aborted(f), entries := s.entries - {env.mangaDir}))
    case Probe(c) =>
      var request := ProbeRequest(env.manga, c);
      var s' := s.(log := s.log + [request]);
      (match Verdict(request, ReplyTo(env.remote, request))
       case Ok(absent) => if absent then s'.(phase := Done(c)) else s'.(phase := Enter(c))
       case Fatal(f) => s'.(phase := Aborted(f)))
    case Enter(c) =>
      (match EnsureDir(s.entries, ChapterDir(env.mangaDir, c))
       case Ok(e) => s.(phase := Page(c, 1), entries := e)
       case Fatal(f) => s.(phase := Aborted(f), entries := s.entries - {ChapterDir(env.mangaDir, c)}))
    case Page(c, p) =>
      var dir := ChapterDir(env.mangaDir, c);
      var eff := Picture(env.remote, env.manga, c, p, dir, s.entries);
      var s' := s.(entries := eff.entries, log := s.log + eff.sent);
      (match eff.result
       case Ok(done) => if done then s'.(phase := Record(c, ChapterRecord(p + 1, dir))) else s'.(phase := Page(c, p + 1))
       case Fatal(f) => s'.(phase := Aborted(f)))
    case Record(c, record) => s.(phase := Probe(c + 1), chapters := s.chapters[c := record])
    case Done(_) => s
    case Aborted(_) => s
  }

  /** n applications of a step function, the first one to s. */
  function Iterate(step: State -> State, s: State, n: nat): State
    decreases n
  {
    if n == 0 then s else Iterate(step, step(s), n - 1)
  }

  /** The state after n steps. */
  function Run(env: Env, s: State, n: nat): State {
    Iterate(t => Step(env, t), s, n)
  }

  lemma {:induction false} IterateAdd(step: State -> State, s: State, a: nat, b: nat)
    ensures Iterate(step, s, a + b) == Iterate(step, Iterate(step, s, a), b)
    decreases a
  {
    if a > 0 {
      IterateAdd(step, step(s), a - 1, b);
    }
  }

  lemma {:induction false} IterateNext(step: State -> State, s: State, n: nat)
    ensures Iterate(step, s, n + 1) == step(Iterate(step, s, n))
    decreases n
  {
    if n > 0 {
      IterateNext(step, step(s), n - 1);
    }
  }

  lemma RunAdd(env: Env, s: State, a: nat, b: nat)
    ensures Run(env, s, a + b) == Run(env, Run(env, s, a), b)
  {
    IterateAdd(t => Step(env, t), s, a, b);
  }

  lemma RunNext(env: Env, s: State, n: nat)
    ensures Run(env, s, n + 1) == Step(env, Run(env, s, n))
  {
    IterateNext(t => Step(env, t), s, n);
  }

  /** A stored record moves on to the probe of the next chapter. */
  lemma RecordNext(env: Env, s: State)
    requires s.phase.Record?
    ensures Step(env, s) == s.(phase := Probe(s.phase.chapter + 1), chapters := s.chapters[s.phase.chapter := s.phase.record])
  {
  }

  /** The same at step n of a run from s0. */
  lemma RecordAt(env: Env, s0: State, n: nat)
    requires Run(env, s0, n).phase.Record?
    ensures var s := Run(env, s0, n);
      Run(env, s0, n + 1) == s.(phase := Probe(s.phase.chapter + 1), chapters := s.chapters[s.phase.chapter := s.phase.record])
  {
    RunNext(env, s0, n);
    RecordNext(env, Run(env, s0, n));
  }

  /** The step from Enter(c) at step n of a run from s0: the chapter directory. */
  lemma EnterAt(env: Env, s0: State, n: nat)
    requires Run(env, s0, n).phase.Enter?
    ensures var s := Run(env, s0, n);
      var dir := ChapterDir(env.mangaDir, s.phase.chapter);
      Run(env, s0, n + 1) == match EnsureDir(s.entries, dir)
        case Ok(e) => s.(phase := Page(s.phase.chapter, 1), entries := e)
        case Fatal(f) => s.(phase := Aborted(f), entries := s.entries - {dir})
  {
    RunNext(env, s0, n);
  }

  /** The step from Probe(c) at step n of a run from s0: one checkChapterNotExists call. */
  lemma ProbeAt(env: Env, s0: State, n: nat)
    requires Run(env, s0, n).phase.Probe?
    ensures var s := Run(env, s0, n);
      var c := s.phase.chapter;
      var request := ProbeRequest(env.manga, c);
      Run(env, s0, n + 1) == State(
        match Verdict(request, ReplyTo(env.remote, request))
        case Ok(absent) => if absent then Done(c) else Enter(c)
        case Fatal(f) => Aborted(f),
        s.entries, s.chapters, s.log + [request])
  {
    RunNext(env, s0, n);
  }

  /** The step from Page(c, p) at step n of a run from s0: one downloadPicture call. */
  lemma PageAt(env: Env, s0: State, n: nat)
    requires Run(env, s0, n).phase.Page?
    ensures var s := Run(env, s0, n);
      var c, p := s.phase.chapter, s.phase.page;
      var dir := ChapterDir(env.mangaDir, c);
      var eff := Picture(env.remote, env.manga, c, p, dir, s.entries);
      Run(env, s0, n + 1) == State(
        match eff.result
        case Ok(done) => if done then Record(c, ChapterRecord(p + 1, dir)) else Page(c, p + 1)
        case Fatal(f) => Aborted(f),
        eff.entries, s.chapters, s.log + eff.sent)
  {
    RunNext(env, s0, n);
  }

  /** A run that is over at step `last` is in that same state at every later step,
      so a state that is not over comes before `last`. */
  lemma Before(env: Env, s0: State, k: nat, last: nat)
    requires Terminal(Run(env, s0, last))
    ensures k < last || Run(env, s0, k) == Run(env, s0, last)
  {
    if k >= last {
      RunAdd(env, s0, last, k - last);
      TerminalStays(env, Run(env, s0, last), k - last);
    }
  }

  /** Once a chapter is reported absent or something failed, nothing else happens:
      no request, no write, no record. */
  lemma {:induction false} TerminalStays(env: Env, s: State, n: nat)
    requires Terminal(s)
    ensures Run(env, s, n) == s
    decreases n
  {
    if n > 0 {
      calc {
        Run(env, s, n);
        { RunNext(env, s, n - 1); }
        Step(env, Run(env, s, n - 1));
        { TerminalStays(env, s, n - 1); }
        Step(env, s);
      }
    }
  }

  /** The order of the actions: chapters are probed 0, 1, 2, ...; a present chapter
      gets its directory, then pictures 1, 2, 3, ...; the record of a chapter is
      stored once its picture loop is over, and only then is the next chapter probed. */
  predicate Follows(a: Phase, b: Phase) {
    match a
    case Start => b == Probe(0) || b.Aborted?
    case Probe(c) => b == Enter(c) || b == Done(c) || b.Aborted?
    case Enter(c) => b == Page(c, 1) || b.Aborted?
    case Page(c, p) => b == Page(c, p + 1) || (b.Record? && b.chapter == c) || b.Aborted?
    case Record(c, _) => b == Probe(c + 1)
    case Done(_) => b == a
    case Aborted(_) => b == a
  }

  lemma StepFollows(env: Env, s: State)
    ensures Follows(s.phase, Step(env, s).phase)
    ensures Step(env, s).phase.Record? ==>
              s.phase.Page? &&
              Step(env, s).phase.record == ChapterRecord(s.phase.page + 1, ChapterDir(env.mangaDir, s.phase.chapter))
  {
  }

  /** What each step does to the store: the manga or chapter directory is created
      (or, when that fails, a file in its place is gone), or one picture file is
      added after a 2xx reply; nothing else is written. */
  lemma StepEntries(env: Env, s: State)
    ensures var e' := Step(env, s).entries;
      match s.phase
      case Start =>
        var r := EnsureDir(s.entries, env.mangaDir);
        e' == if r.Ok? then r.value else s.entries - {env.mangaDir}
      case Enter(c) =>
        var r := EnsureDir(s.entries, ChapterDir(env.mangaDir, c));
        e' == if r.Ok? then r.value else s.entries - {ChapterDir(env.mangaDir, c)}
      case Page(c, p) =>
        var path := PicturePath(ChapterDir(env.mangaDir, c), p);
        e' == s.entries ||
        (path !in s.entries && Accepted(env.remote.get(PageUrl(env.manga, c, p))) && e' == s.entries[path := File])
      case _ => e' == s.entries
  {
    if s.phase.Page? {
      WrittenEffect(s.entries, PicturePath(ChapterDir(env.mangaDir, s.phase.chapter), s.phase.page));
    }
  }
}
