/** Two runs worked out end to end, on an empty local store.

    A complete run: the host has chapters 0 and 1 of the series "demo"; chapter 0
    has pictures 1 to 3 and chapter 1 has picture 1, every other URL is a 404.
    run() resolves with records for chapters 0 and 1 only, with pages 5 and 3: one
    past the picture whose 404 ended each chapter's loop.

    An aborted run: the same host, except that picture 2 of chapter 0 answers 500.
    run() rejects with that reply. */
module Demo {
  import opened Types
  import opened Urls
  import opened Store
  import opened Layout
  import opened Remote
  import Machine
  import opened Invariant
  import opened Termination
  import opened MangaDownloader

  const Name := "demo"

  /** A name String.replace writes verbatim into the template. */
  lemma NamePlain()
    ensures PlainName(Name)
  {
  }

  /** A host that answers 500 for the URLs in `broken`, 200 for those in `found`
      and 404 for every other URL. */
  function Serving(found: set<string>, broken: set<string>): string -> Reply {
    url => if url in broken then Response(500) else if url in found then Response(200) else Response(404)
  }

  function HostOf(probes: set<string>, pages: set<string>, broken: set<string>): Remote {
    Remote(Serving(probes, {}), Serving(pages, broken))
  }

  function DemoEnv(remote: Remote, manga: string, cwd: Path): Machine.Env {
    Machine.Env(remote, manga, MangaDir(cwd, manga))
  }

  /** Chapters 0 and 1 exist. */
  function DemoProbes(manga: string): set<string> {
    {ProbeUrl(manga, 0), ProbeUrl(manga, 1)}
  }

  /** Pictures 1 to 3 of chapter 0 and picture 1 of chapter 1 exist. */
  function DemoPages(manga: string): set<string> {
    {PageUrl(manga, 0, 1), PageUrl(manga, 0, 2), PageUrl(manga, 0, 3), PageUrl(manga, 1, 1)}
  }

  predicate Stored(c: nat, p: nat) {
    (c == 0 && 1 <= p <= 3) || (c == 1 && p == 1)
  }

  function Expected(manga: string, cwd: Path): map<nat, Machine.ChapterRecord> {
    var dir := MangaDir(cwd, manga);
    map[0 := Machine.ChapterRecord(5, ChapterDir(dir, 0)), 1 := Machine.ChapterRecord(3, ChapterDir(dir, 1))]
  }

  /** The probe URLs a host answers 200 for are those of chapters 0 and 1. */
  ghost predicate TwoChapters(manga: string, probes: set<string>) {
    forall c: nat :: ProbeUrl(manga, c) in probes <==> c < 2
  }

  /** The picture URLs of the intact host. */
  ghost predicate IntactPages(manga: string, pages: set<string>) {
    forall c: nat, p: nat :: PageUrl(manga, c, p) in pages <==> Stored(c, p)
  }

  /** The picture URLs of the broken host: picture 1 of chapter 0 is there,
      picture 2 of chapter 0 fails. */
  ghost predicate BrokenPages(manga: string, pages: set<string>, broken: set<string>) {
    (forall c: nat, p: nat :: PageUrl(manga, c, p) in pages <==> c == 0 && p == 1) &&
    broken == {PageUrl(manga, 0, 2)}
  }

  lemma ProbesListed(manga: string)
    requires PlainName(manga)
    ensures TwoChapters(manga, DemoProbes(manga))
  {
    forall c: nat
      ensures ProbeUrl(manga, c) in DemoProbes(manga) <==> c < 2
    {
      ProbeIsFirstPicture(manga, c);
      ProbeIsFirstPicture(manga, 0);
      ProbeIsFirstPicture(manga, 1);
      if ProbeUrl(manga, c) == ProbeUrl(manga, 0) { PageUrlInjective(manga, c, 1, 0, 1); }
      if ProbeUrl(manga, c) == ProbeUrl(manga, 1) { PageUrlInjective(manga, c, 1, 1, 1); }
    }
  }

  lemma PagesListed(manga: string)
    requires PlainName(manga)
    ensures IntactPages(manga, DemoPages(manga))
    ensures BrokenPages(manga, {PageUrl(manga, 0, 1)}, {PageUrl(manga, 0, 2)})
  {
    forall c: nat, p: nat
      ensures PageUrl(manga, c, p) in DemoPages(manga) <==> Stored(c, p)
      ensures PageUrl(manga, c, p) in {PageUrl(manga, 0, 1)} <==> c == 0 && p == 1
    {
      var u := PageUrl(manga, c, p);
      if u == PageUrl(manga, 0, 1) { PageUrlInjective(manga, c, p, 0, 1); }
      if u == PageUrl(manga, 0, 2) { PageUrlInjective(manga, c, p, 0, 2); }
      if u == PageUrl(manga, 0, 3) { PageUrlInjective(manga, c, p, 0, 3); }
      if u == PageUrl(manga, 1, 1) { PageUrlInjective(manga, c, p, 1, 1); }
    }
  }

  /** Both hosts have finitely many chapters and pictures: 404 from 4 on. */
  lemma DemoBound(manga: string, cwd: Path, probes: set<string>, pages: set<string>, broken: set<string>)
    requires TwoChapters(manga, probes)
    requires (IntactPages(manga, pages) && broken == {}) || BrokenPages(manga, pages, broken)
    requires PlainName(manga)
    ensures RemoteBound(DemoEnv(HostOf(probes, pages, broken), manga, cwd), 4)
  {
    forall c: nat, q: nat | q >= 4
      ensures PageUrl(manga, c, q) !in broken
    {
      if broken != {} {
        assert PageUrl(manga, c, q) in broken ==> PageUrl(manga, c, q) == PageUrl(manga, 0, 2);
        if PageUrl(manga, c, q) == PageUrl(manga, 0, 2) {
          PageUrlInjective(manga, c, q, 0, 2);
        }
      }
    }
  }

  /** Neither host sends anything but 200, 404 and (the broken one) 500, and the
      empty store has no file in the way: the only possible abort is the 500. */
  lemma AbortsOnlyOn500(manga: string, cwd: Path, probes: set<string>, pages: set<string>, broken: set<string>)
    ensures forall f :: AbortCause(DemoEnv(HostOf(probes, pages, broken), manga, cwd), map[], f) ==>
      f.BadReply? && f.request.Get? && f.request.url in broken && f.reply == Response(500)
  {
  }

  /** Chapter c's loop on the intact host stops at picture t when pictures 1 .. t-1
      are there and picture t is not. */
  lemma DemoEndsAt(manga: string, cwd: Path, probes: set<string>, pages: set<string>, c: nat, t: nat)
    requires IntactPages(manga, pages)
    requires t >= 1 && !Stored(c, t) && forall q :: 1 <= q < t ==> Stored(c, q)
    ensures EndsAt(DemoEnv(HostOf(probes, pages, {}), manga, cwd), map[], c, t)
  {
    var env := DemoEnv(HostOf(probes, pages, {}), manga, cwd);
    forall q | 1 <= q < t
      ensures Kept(env, map[], c, q)
    {
      assert PageUrl(manga, c, q) in pages;
    }
    assert PageUrl(manga, c, t) !in pages;
  }

  /** The record of a chapter whose loop stops at picture t has t + 1 pages. */
  lemma RecordPages(manga: string, cwd: Path, probes: set<string>, pages: set<string>, c: nat, t: nat,
                    r: Machine.ChapterRecord)
    requires IntactPages(manga, pages)
    requires t >= 1 && !Stored(c, t) && forall q :: 1 <= q < t ==> Stored(c, q)
    requires RecordOf(DemoEnv(HostOf(probes, pages, {}), manga, cwd), map[], c, r)
    ensures r.pages == t + 1
  {
    DemoEndsAt(manga, cwd, probes, pages, c, t);
    EndsAtUnique(DemoEnv(HostOf(probes, pages, {}), manga, cwd), map[], c, t, r.pages - 1);
  }

  /** A completed run on the intact host was stopped by the probe of chapter 2 and
      has exactly the expected records. */
  lemma DemoCompleted(manga: string, cwd: Path, probes: set<string>, pages: set<string>, s: Machine.State)
    requires TwoChapters(manga, probes) && IntactPages(manga, pages) && s.phase.Done?
    requires Completed(DemoEnv(HostOf(probes, pages, {}), manga, cwd), map[], s)
    ensures s.phase.stop == 2 && s.chapters == Expected(manga, cwd)
  {
    var env := DemoEnv(HostOf(probes, pages, {}), manga, cwd);
    var k := s.phase.stop;
    assert ProbeUrl(manga, k) !in probes;
    assert 2 < k ==> ChapterPresent(env, 2);
    assert ProbeUrl(manga, 2) !in probes;
    var m := s.chapters;
    RecordPages(manga, cwd, probes, pages, 0, 4, m[0]);
    RecordPages(manga, cwd, probes, pages, 1, 2, m[1]);
    var e := Expected(manga, cwd);
    TwoKeys(m, e[0], e[1]);
  }

  lemma TwoKeys<V>(m: map<nat, V>, a: V, b: V)
    requires forall c: nat :: c in m <==> c < 2
    requires m[0] == a && m[1] == b
    ensures m == map[0 := a, 1 := b]
  {
    assert m.Keys == {0, 1};
  }

  /** On the broken host chapter 0's loop has no picture to stop at, so no run
      completes: picture 1 is no 404, and picture 2 is neither kept nor a 404. */
  lemma BrokenNeverCompletes(manga: string, cwd: Path, probes: set<string>, pages: set<string>,
                             broken: set<string>, s: Machine.State)
    requires TwoChapters(manga, probes) && BrokenPages(manga, pages, broken)
    ensures s.phase.Done? ==> !Completed(DemoEnv(HostOf(probes, pages, broken), manga, cwd), map[], s)
  {
    var env := DemoEnv(HostOf(probes, pages, broken), manga, cwd);
    forall t
      ensures !EndsAt(env, map[], 0, t)
    {
      assert PageUrl(manga, 0, t) in pages <==> t == 1;
      assert PageUrl(manga, 0, 2) !in pages;
      assert t > 2 ==> !Kept(env, map[], 0, 2);
    }
    if s.phase.Done? {
      assert ProbeUrl(manga, s.phase.stop) !in probes ==> s.phase.stop >= 2;
      assert Completed(env, map[], s) ==> 0 in s.chapters;
    }
  }

  /** run() on the intact host resolves with chapters 0 and 1. */
  method CompleteExample(manga: string, cwd: Path) returns (r: Outcome<RunResult>)
    requires PlainName(manga)
    ensures r == Ok(RunResult(manga, Expected(manga, cwd)))
  {
    var probes, pages := DemoProbes(manga), DemoPages(manga);
    ProbesListed(manga);
    PagesListed(manga);
    var server := new Server(HostOf(probes, pages, {}));
    var fs := new FileStore(map[]);
    var downloader := new Downloader(manga, cwd, server, fs);
    assert downloader.Environment() == DemoEnv(HostOf(probes, pages, {}), manga, cwd);
    DemoBound(manga, cwd, probes, pages, {});
    AbortsOnlyOn500(manga, cwd, probes, pages, {});
    ghost var steps: nat;
    r, steps := downloader.Run(4);
    ghost var s := Machine.Run(downloader.Environment(), Machine.Init(map[], []), steps);
    DemoCompleted(manga, cwd, probes, pages, s);
    assert map[] + s.chapters == s.chapters;
  }

  /** run() on the broken host rejects with the 500 of picture 2 of chapter 0. */
  method AbortExample(manga: string, cwd: Path) returns (r: Outcome<RunResult>)
    requires PlainName(manga)
    ensures r == Fatal(BadReply(Get(PageUrl(manga, 0, 2)), Response(500)))
  {
    var probes, pages, broken := DemoProbes(manga), {PageUrl(manga, 0, 1)}, {PageUrl(manga, 0, 2)};
    ProbesListed(manga);
    PagesListed(manga);
    var server := new Server(HostOf(probes, pages, broken));
    var fs := new FileStore(map[]);
    var downloader := new Downloader(manga, cwd, server, fs);
    assert downloader.Environment() == DemoEnv(HostOf(probes, pages, broken), manga, cwd);
    DemoBound(manga, cwd, probes, pages, broken);
    AbortsOnlyOn500(manga, cwd, probes, pages, broken);
    ghost var steps: nat;
    r, steps := downloader.Run(4);
    ghost var s := Machine.Run(downloader.Environment(), Machine.Init(map[], []), steps);
    BrokenNeverCompletes(manga, cwd, probes, pages, broken, s);
  }
}
