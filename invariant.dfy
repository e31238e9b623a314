/** What a run of the downloader establishes, as an invariant of the machine. */
module Invariant {
  import opened Types
  import opened Decimal
  import opened Urls
  import opened Store
  import opened Layout
  import opened Remote
  import opened Machine

  // Everything is stated against the store e0 the run started from.

  /** The file of picture q of chapter c is in store e. */
  predicate Local(env: Env, e: Entries, c: nat, q: nat) {
    PicturePath(ChapterDir(env.mangaDir, c), q) in e
  }

  /** Picture q of chapter c does not end the chapter: it was already there, or it
      could be downloaded. */
  predicate Kept(env: Env, e0: Entries, c: nat, q: nat) {
    Local(env, e0, c, q) || Accepted(env.remote.get(PageUrl(env.manga, c, q)))
  }

  /** Picture q of chapter c ends the chapter: not stored locally, and a 404. */
  predicate Missing(env: Env, e0: Entries, c: nat, q: nat) {
    !Local(env, e0, c, q) && NotFound(env.remote.get(PageUrl(env.manga, c, q)))
  }

  /** t is the picture at which chapter c's loop stops. */
  predicate EndsAt(env: Env, e0: Entries, c: nat, t: nat) {
    t >= 1 && Missing(env, e0, c, t) && forall q :: 1 <= q < t ==> Kept(env, e0, c, q)
  }

  predicate ChapterPresent(env: Env, c: nat) {
    Accepted(env.remote.head(ProbeUrl(env.manga, c)))
  }

  /** A chapter record as downloadChapter(c) returns it. */
  ghost predicate RecordOf(env: Env, e0: Entries, c: nat, record: ChapterRecord) {
    record.chapterDir == ChapterDir(env.mangaDir, c) && record.pages >= 2 &&
    EndsAt(env, e0, c, record.pages - 1)
  }

  /** The chapters map holds exactly chapters 0 .. n-1, each with its directory and
      with pages one past the picture that ended it. */
  ghost predicate RecordsUpTo(env: Env, e0: Entries, chapters: map<nat, ChapterRecord>, n: nat) {
    (forall c: nat :: c in chapters <==> c < n) &&
    (forall c: nat :: c < n ==> ChapterPresent(env, c)) &&
    (forall c :: c in chapters ==> RecordOf(env, e0, c, chapters[c]))
  }

  /** Chapters from `from` on have the same picture files in e as in e0. */
  ghost predicate Untouched(env: Env, e0: Entries, e: Entries, from: nat) {
    forall c: nat, q: nat :: c >= from ==> (Local(env, e, c, q) <==> Local(env, e0, c, q))
  }

  /** The only reasons a run aborts: a reply that is neither 2xx nor 404, or a file
      where an ancestor of the manga directory should be. */
  predicate AbortCause(env: Env, e0: Entries, f: Failure) {
    match f
    case BadReply(request, reply) => reply == ReplyTo(env.remote, request) && !Accepted(reply) && !NotFound(reply)
    case StoreFailure(path) => path != [] && path < env.mangaDir && IsFile(e0, path)
  }

  /** Inside downloadChapter(c), before picture p: the chapter directory exists,
      pictures 1 .. p-1 did not end the chapter and pictures from p on are as in e0. */
  ghost predicate InChapter(env: Env, e0: Entries, e: Entries, c: nat, p: nat) {
    p >= 1 && IsDir(e, ChapterDir(env.mangaDir, c)) &&
    (forall q :: 1 <= q < p ==> Kept(env, e0, c, q)) &&
    (forall q :: q >= p ==> (Local(env, e, c, q) <==> Local(env, e0, c, q)))
  }

  /** Before chapter c is probed: the manga directory exists, chapters 0 .. c-1
      are recorded, and nothing of chapter c or later has been written. */
  ghost predicate Between(env: Env, e0: Entries, e: Entries, chapters: map<nat, ChapterRecord>, c: nat) {
    IsDir(e, env.mangaDir) && RecordsUpTo(env, e0, chapters, c)
  }

  ghost predicate Inv(env: Env, e0: Entries, s: State) {
    match s.phase
    case Start => s.entries == e0 && s.chapters == map[]
    case Probe(c) => Between(env, e0, s.entries, s.chapters, c) && Untouched(env, e0, s.entries, c)
    case Enter(c) =>
      Between(env, e0, s.entries, s.chapters, c) && ChapterPresent(env, c) && Untouched(env, e0, s.entries, c)
    case Page(c, p) =>
      Between(env, e0, s.entries, s.chapters, c) && ChapterPresent(env, c) &&
      InChapter(env, e0, s.entries, c, p) && Untouched(env, e0, s.entries, c + 1)
    case Record(c, record) =>
      Between(env, e0, s.entries, s.chapters, c) && ChapterPresent(env, c) &&
      RecordOf(env, e0, c, record) && Untouched(env, e0, s.entries, c + 1)
    case Done(k) =>
      RecordsUpTo(env, e0, s.chapters, k) && NotFound(env.remote.head(ProbeUrl(env.manga, k)))
    case Aborted(f) => AbortCause(env, e0, f)
  }

  // ---------------------------------------------------------------------------
  // Preservation, one phase at a time

  lemma RecordsEmpty(env: Env, e0: Entries)
    ensures RecordsUpTo(env, e0, map[], 0)
  {
  }

  lemma RecordsExtend(env: Env, e0: Entries, chapters: map<nat, ChapterRecord>, c: nat, record: ChapterRecord)
    requires RecordsUpTo(env, e0, chapters, c) && ChapterPresent(env, c) && RecordOf(env, e0, c, record)
    ensures RecordsUpTo(env, e0, chapters[c := record], c + 1)
  {
    var m := chapters[c := record];
    forall k: nat
      ensures k in m <==> k < c + 1
    {
      assert k in chapters <==> k < c;
    }
    forall k: nat | k < c + 1
      ensures ChapterPresent(env, k)
    {
      if k < c {
        assert k in chapters;
      }
    }
    forall k | k in m
      ensures RecordOf(env, e0, k, m[k])
    {
      if k != c {
        assert k in chapters && m[k] == chapters[k];
      }
    }
  }

  /** A change that touches no picture of chapters from `from` on keeps Untouched. */
  lemma UntouchedFrame(env: Env, e0: Entries, e: Entries, e': Entries, from: nat)
    requires Untouched(env, e0, e, from)
    requires forall c: nat, q: nat :: c >= from ==> (Local(env, e', c, q) <==> Local(env, e, c, q))
    ensures Untouched(env, e0, e', from)
  {
  }

  lemma StartStep(env: Env, e0: Entries, s: State)
    requires Valid(s.entries) && Inv(env, e0, s) && s.phase.Start?
    ensures Inv(env, e0, Step(env, s))
  {
    var r := EnsureDir(s.entries, env.mangaDir);
    if r.Fatal? {
      EnsureDirFails(s.entries, env.mangaDir);
      assert Step(env, s).phase == Aborted(r.failure);
    } else {
      var t := s.(phase := Probe(0), entries := r.value);
      assert Step(env, s) == t;
      EnsureDirEffect(s.entries, env.mangaDir);
      forall c: nat, q: nat
        ensures Local(env, r.value, c, q) <==> Local(env, e0, c, q)
      {
        PictureBelowChapters(env.mangaDir, c, q);
      }
      RecordsEmpty(env, e0);
      assert Between(env, e0, t.entries, t.chapters, 0);
      assert Untouched(env, e0, t.entries, 0);
    }
  }

  lemma ProbeStep(env: Env, e0: Entries, s: State)
    requires Inv(env, e0, s) && s.phase.Probe?
    ensures Inv(env, e0, Step(env, s))
  {
    var c := s.phase.chapter;
    var request := ProbeRequest(env.manga, c);
    var reply := ReplyTo(env.remote, request);
    var s' := s.(log := s.log + [request]);
    match Verdict(request, reply)
    case Ok(absent) =>
      if absent {
        assert Step(env, s) == s'.(phase := Done(c));
      } else {
        assert Step(env, s) == s'.(phase := Enter(c));
      }
    case Fatal(f) =>
      assert Step(env, s) == s'.(phase := Aborted(f));
  }

  /** The chapter directory's proper ancestors are the manga directory and its
      ancestors, none of which is a file. */
  lemma ChapterDirClear(e: Entries, d: Path, c: nat)
    requires Valid(e) && IsDir(e, d)
    ensures EnsureDir(e, ChapterDir(d, c)).Ok?
  {
    var dir := ChapterDir(d, c);
    forall k | 0 < k < |dir|
      ensures !IsFile(e, dir[..k])
    {
      assert dir[..k] == d[..k];
      if k < |d| {
        assert d in e && Rooted(e, d);
      } else {
        assert d[..k] == d;
      }
    }
    EnsureDirSucceeds(e, dir);
  }

  lemma EnterStep(env: Env, e0: Entries, s: State)
    requires Valid(s.entries) && Inv(env, e0, s) && s.phase.Enter?
    ensures Inv(env, e0, Step(env, s))
  {
    var c := s.phase.chapter;
    var dir := ChapterDir(env.mangaDir, c);
    ChapterDirClear(s.entries, env.mangaDir, c);
    EnsureDirEffect(s.entries, dir);
    var e := EnsureDir(s.entries, dir).value;
    var t := s.(phase := Page(c, 1), entries := e);
    assert Step(env, s) == t;
    assert env.mangaDir <= dir;
    forall c': nat, q: nat
      ensures Local(env, e, c', q) <==> Local(env, s.entries, c', q)
    {
      PictureBelowChapters(env.mangaDir, c', q);
    }
    UntouchedFrame(env, e0, s.entries, e, c + 1);
    assert Between(env, e0, e, s.chapters, c);
    assert InChapter(env, e0, e, c, 1);
  }

  /** downloadPicture's four outcomes in a chapter whose directory exists. */
  lemma PictureCases(remote: Remote, manga: string, c: nat, p: nat, dir: Path, e: Entries)
    requires IsDir(e, dir)
    ensures var eff := Picture(remote, manga, c, p, dir, e);
      var path := PicturePath(dir, p);
      var request := Get(PageUrl(manga, c, p));
      var reply := ReplyTo(remote, request);
      if path in e then eff == Effect(Ok(false), e, [])
      else if Accepted(reply) then eff == Effect(Ok(false), e[path := File], [request])
      else if NotFound(reply) then eff == Effect(Ok(true), e, [request])
      else eff == Effect(Fatal(BadReply(request, reply)), e, [request])
  {
    var path := PicturePath(dir, p);
    if path !in e {
      assert path[..|path| - 1] == dir;
      WrittenEffect(e, path);
    }
  }

  lemma PageStep(env: Env, e0: Entries, s: State)
    requires Inv(env, e0, s) && s.phase.Page?
    ensures Inv(env, e0, Step(env, s))
  {
    var c, p := s.phase.chapter, s.phase.page;
    var dir := ChapterDir(env.mangaDir, c);
    assert InChapter(env, e0, s.entries, c, p);
    PictureCases(env.remote, env.manga, c, p, dir, s.entries);
    var path := PicturePath(dir, p);
    var request := Get(PageUrl(env.manga, c, p));
    var reply := ReplyTo(env.remote, request);
    if path in s.entries {
      assert s.log + [] == s.log;
      var t := s.(phase := Page(c, p + 1));
      assert Step(env, s) == t;
      PageSkip(env, e0, s, t);
    } else if Accepted(reply) {
      var t := s.(entries := s.entries[path := File], log := s.log + [request], phase := Page(c, p + 1));
      assert Step(env, s) == t;
      PageWrite(env, e0, s, t);
    } else if NotFound(reply) {
      assert Step(env, s) == s.(log := s.log + [request], phase := Record(c, ChapterRecord(p + 1, dir)));
      assert EndsAt(env, e0, c, p);
    } else {
      assert Step(env, s) == s.(log := s.log + [request], phase := Aborted(BadReply(request, reply)));
    }
  }

  /** The picture is already stored: nothing is fetched and the loop goes on. */
  lemma PageSkip(env: Env, e0: Entries, s: State, t: State)
    requires Inv(env, e0, s) && s.phase.Page?
    requires Local(env, s.entries, s.phase.chapter, s.phase.page)
    requires t == s.(phase := Page(s.phase.chapter, s.phase.page + 1))
    ensures Inv(env, e0, t)
  {
    var c, p := s.phase.chapter, s.phase.page;
    assert InChapter(env, e0, s.entries, c, p);
    assert Kept(env, e0, c, p);
    assert InChapter(env, e0, s.entries, c, p + 1);
  }

  /** The picture is fetched and written: the store gains exactly that file. */
  lemma PageWrite(env: Env, e0: Entries, s: State, t: State)
    requires Inv(env, e0, s) && s.phase.Page?
    requires !Local(env, s.entries, s.phase.chapter, s.phase.page)
    requires Accepted(env.remote.get(PageUrl(env.manga, s.phase.chapter, s.phase.page)))
    requires t.phase == Page(s.phase.chapter, s.phase.page + 1) && t.chapters == s.chapters
    requires t.entries == s.entries[PicturePath(ChapterDir(env.mangaDir, s.phase.chapter), s.phase.page) := File]
    ensures Inv(env, e0, t)
  {
    var c, p := s.phase.chapter, s.phase.page;
    var dir := ChapterDir(env.mangaDir, c);
    var path := PicturePath(dir, p);
    var e := t.entries;
    assert |path| == |env.mangaDir| + 2 == |dir| + 1;
    forall c': nat, q: nat | c' != c || q != p
      ensures Local(env, e, c', q) <==> Local(env, s.entries, c', q)
    {
      if PicturePath(ChapterDir(env.mangaDir, c'), q) == path {
        PicturePathInjective(env.mangaDir, c', q, c, p);
      }
    }
    UntouchedFrame(env, e0, s.entries, e, c + 1);
    assert Between(env, e0, e, s.chapters, c);
    assert InChapter(env, e0, s.entries, c, p);
    assert Kept(env, e0, c, p);
    assert InChapter(env, e0, e, c, p + 1);
  }

  lemma RecordStep(env: Env, e0: Entries, s: State)
    requires Inv(env, e0, s) && s.phase.Record?
    ensures Inv(env, e0, Step(env, s))
  {
    var c, record := s.phase.chapter, s.phase.record;
    var t := s.(phase := Probe(c + 1), chapters := s.chapters[c := record]);
    RecordNext(env, s);
    RecordsExtend(env, e0, s.chapters, c, record);
    assert Between(env, e0, t.entries, t.chapters, c + 1);
    assert Untouched(env, e0, t.entries, c + 1);
    assert Inv(env, e0, t);
  }

  /** Every step keeps the store well formed. */
  lemma StepValid(env: Env, s: State)
    requires Valid(s.entries)
    ensures Valid(Step(env, s).entries)
  {
    match s.phase
    case Start =>
      if EnsureDir(s.entries, env.mangaDir).Ok? {
        EnsureDirEffect(s.entries, env.mangaDir);
      } else {
        EnsureDirFailsAbsent(s.entries, env.mangaDir);
        assert s.entries - {env.mangaDir} == s.entries;
      }
    case Enter(c) =>
      if EnsureDir(s.entries, ChapterDir(env.mangaDir, c)).Ok? {
        EnsureDirEffect(s.entries, ChapterDir(env.mangaDir, c));
      } else {
        EnsureDirFailsAbsent(s.entries, ChapterDir(env.mangaDir, c));
        assert s.entries - {ChapterDir(env.mangaDir, c)} == s.entries;
      }
    case Page(c, p) =>
      WrittenEffect(s.entries, PicturePath(ChapterDir(env.mangaDir, c), p));
    case _ =>
  }

  lemma StepInv(env: Env, e0: Entries, s: State)
    requires Valid(s.entries) && Inv(env, e0, s)
    ensures Inv(env, e0, Step(env, s))
  {
    match s.phase
    case Start => StartStep(env, e0, s);
    case Probe(_) => ProbeStep(env, e0, s);
    case Enter(_) => EnterStep(env, e0, s);
    case Page(_, _) => PageStep(env, e0, s);
    case Record(_, _) => RecordStep(env, e0, s);
    case Done(_) =>
    case Aborted(_) =>
  }

  lemma {:induction false} RunInv(env: Env, e0: Entries, log: seq<Request>, n: nat)
    requires Valid(e0)
    ensures Valid(Run(env, Init(e0, log), n).entries) && Inv(env, e0, Run(env, Init(e0, log), n))
    decreases n
  {
    if n > 0 {
      var t := Run(env, Init(e0, log), n - 1);
      RunInv(env, e0, log, n - 1);
      StepValid(env, t);
      StepInv(env, e0, t);
      RunNext(env, Init(e0, log), n - 1);
    }
  }

  // ---------------------------------------------------------------------------
  // What a finished run has done

  /** A missing picture is never one that was kept: a 404 is not a 2xx. */
  lemma MissingNotKept(env: Env, e0: Entries, c: nat, q: nat)
    ensures Missing(env, e0, c, q) ==> !Kept(env, e0, c, q)
  {
  }

  /** A chapter's loop can stop at one picture only. */
  lemma EndsAtUnique(env: Env, e0: Entries, c: nat, t: nat, t': nat)
    requires EndsAt(env, e0, c, t) && EndsAt(env, e0, c, t')
    ensures t == t'
  {
    MissingNotKept(env, e0, c, t);
    MissingNotKept(env, e0, c, t');
  }

  /** downloadManga resolved: chapters 0 .. k-1 were present and are recorded with
      their directory and page count, and chapter k was reported absent. */
  ghost predicate Completed(env: Env, e0: Entries, s: State)
    requires s.phase.Done?
  {
    var k := s.phase.stop;
    (forall c: nat :: c in s.chapters <==> c < k) &&
    (forall c: nat :: c < k ==> ChapterPresent(env, c)) &&
    NotFound(env.remote.head(ProbeUrl(env.manga, k))) &&
    (forall c :: c in s.chapters ==>
       s.chapters[c].chapterDir == ChapterDir(env.mangaDir, c) && s.chapters[c].pages >= 2 &&
       EndsAt(env, e0, c, s.chapters[c].pages - 1))
  }

  lemma CompletedRun(env: Env, e0: Entries, log: seq<Request>, n: nat)
    requires Valid(e0) && Run(env, Init(e0, log), n).phase.Done?
    ensures Completed(env, e0, Run(env, Init(e0, log), n))
  {
    var s := Run(env, Init(e0, log), n);
    RunInv(env, e0, log, n);
    assert Inv(env, e0, s);
  }

  /** A run aborts only on a reply that is neither 2xx nor 404, or on a file where
      an ancestor of the manga directory should be. */
  lemma AbortedRun(env: Env, e0: Entries, log: seq<Request>, n: nat)
    requires Valid(e0) && Run(env, Init(e0, log), n).phase.Aborted?
    ensures AbortCause(env, e0, Run(env, Init(e0, log), n).phase.failure)
  {
    RunInv(env, e0, log, n);
  }
}
