/** downloadManga and downloadChapter loop until the host answers 404. They stop
    when the host has finitely many chapters and pictures: past some bound every
    probe and every picture request is a 404. The local store is finite, so past
    some picture number nothing is stored either. */
module Termination {
  import opened Types
  import opened Decimal
  import opened Urls
  import opened Store
  import opened Layout
  import opened Remote
  import opened Machine
  import opened Invariant

  /** From chapter `bound` on, probes are 404; from picture `bound` on, picture
      requests are 404. */
  ghost predicate RemoteBound(env: Env, bound: nat) {
    (forall c: nat :: c >= bound ==> NotFound(env.remote.head(ProbeUrl(env.manga, c)))) &&
    (forall c: nat, q: nat :: q >= bound ==> NotFound(env.remote.get(PageUrl(env.manga, c, q))))
  }

  /** No picture numbered `bound` or more is stored. */
  ghost predicate LocalBound(env: Env, e: Entries, bound: nat) {
    forall c: nat, q: nat :: q >= bound ==> !Local(env, e, c, q)
  }

  predicate Within(bound: nat, s: State) {
    match s.phase
    case Probe(c) => c <= bound
    case Enter(c) => c < bound
    case Page(c, p) => c < bound && 1 <= p <= bound
    case Record(c, _) => c < bound
    case _ => true
  }

  /** Chapters still to probe. */
  function Outer(bound: nat, s: State): nat {
    match s.phase
    case Start => bound + 2
    case Probe(c) => if c <= bound then bound + 1 - c else 0
    case Enter(c) => if c <= bound then bound + 1 - c else 0
    case Page(c, _) => if c <= bound then bound + 1 - c else 0
    case Record(c, _) => if c <= bound then bound + 1 - c else 0
    case _ => 0
  }

  /** Steps still to take inside the current chapter. */
  function Inner(bound: nat, s: State): nat {
    match s.phase
    case Probe(_) => bound + 3
    case Enter(_) => bound + 2
    case Page(_, p) => if p <= bound + 1 then bound + 1 - p else 0
    case _ => 0
  }

  // ---------------------------------------------------------------------------
  // The store is finite

  /** The length of a path's last component. */
  function NameLength(p: Path): nat {
    if p == [] then 0 else |p[|p| - 1]|
  }

  /** The length of the longest last component of a path in ps. */
  ghost function LongestName(ps: set<Path>): (r: nat)
    ensures forall p :: p in ps ==> NameLength(p) <= r
    decreases ps
  {
    if ps == {} then 0
    else
      var x :| x in ps;
      var rest := LongestName(ps - {x});
      if NameLength(x) > rest then NameLength(x) else rest
  }

  lemma LocalBoundExists(env: Env, e: Entries) returns (bound: nat)
    ensures bound >= 1 && LocalBound(env, e, bound)
  {
    var longest := LongestName(e.Keys);
    bound := Pow10(longest);
    forall c: nat, q: nat | q >= bound
      ensures !Local(env, e, c, q)
    {
      DecLength(q, longest);
      var path := PicturePath(ChapterDir(env.mangaDir, c), q);
      assert NameLength(path) == |PictureName(q)|;
    }
  }

  // ---------------------------------------------------------------------------
  // Each step makes progress

  lemma StepLocalBound(env: Env, s: State, bound: nat)
    requires LocalBound(env, s.entries, bound) && RemoteBound(env, bound)
    ensures LocalBound(env, Step(env, s).entries, bound)
  {
    StepEntries(env, s);
    match s.phase
    case Start => DirLocalBound(env, s.entries, Step(env, s).entries, env.mangaDir, bound);
    case Enter(c) => DirLocalBound(env, s.entries, Step(env, s).entries, ChapterDir(env.mangaDir, c), bound);
    case Page(c, p) =>
      if Step(env, s).entries != s.entries {
        assert p < bound;
        PictureLocalBound(env, s.entries, c, p, bound);
      }
    case _ =>
  }

  /** Creating the manga directory or a chapter directory adds no picture. */
  lemma DirLocalBound(env: Env, e: Entries, e': Entries, dir: Path, bound: nat)
    requires LocalBound(env, e, bound) && env.mangaDir <= dir && |dir| <= |env.mangaDir| + 1
    requires e' == if EnsureDir(e, dir).Ok? then EnsureDir(e, dir).value else e - {dir}
    ensures LocalBound(env, e', bound)
  {
    if EnsureDir(e, dir).Ok? {
      EnsureDirFrame(e, dir);
      forall c: nat, q: nat
        ensures Local(env, e', c, q) <==> Local(env, e, c, q)
      {
        var path := PicturePath(ChapterDir(env.mangaDir, c), q);
        PictureBelowChapters(env.mangaDir, c, q);
        assert !(path <= dir);
      }
    } else {
      forall c: nat, q: nat | q >= bound
        ensures !Local(env, e', c, q)
      {
        assert !Local(env, e, c, q);
      }
    }
  }

  /** At the bound a chapter's loop stops: nothing stored and a 404. */
  lemma PageEnds(env: Env, e: Entries, c: nat, p: nat, bound: nat)
    requires RemoteBound(env, bound) && LocalBound(env, e, bound) && p >= bound
    ensures Picture(env.remote, env.manga, c, p, ChapterDir(env.mangaDir, c), e).result == Ok(true)
  {
    assert !Local(env, e, c, p);
    assert NotFound(env.remote.get(PageUrl(env.manga, c, p)));
  }

  /** Writing picture p below the bound adds no picture at or above it. */
  lemma PictureLocalBound(env: Env, e: Entries, c: nat, p: nat, bound: nat)
    requires LocalBound(env, e, bound) && p < bound
    ensures LocalBound(env, e[PicturePath(ChapterDir(env.mangaDir, c), p) := File], bound)
  {
    var path := PicturePath(ChapterDir(env.mangaDir, c), p);
    var e' := e[path := File];
    forall c': nat, q: nat | q >= bound
      ensures !Local(env, e', c', q)
    {
      if PicturePath(ChapterDir(env.mangaDir, c'), q) == path {
        PicturePathInjective(env.mangaDir, c', q, c, p);
      }
      assert !Local(env, e, c', q);
    }
  }

  lemma StepProgress(env: Env, s: State, bound: nat)
    requires LocalBound(env, s.entries, bound) && RemoteBound(env, bound)
    requires Within(bound, s) && !Terminal(s)
    ensures Within(bound, Step(env, s))
    ensures Outer(bound, Step(env, s)) < Outer(bound, s) ||
            (Outer(bound, Step(env, s)) == Outer(bound, s) && Inner(bound, Step(env, s)) < Inner(bound, s))
  {
    match s.phase
    case Page(c, p) =>
      if p == bound {
        PageEnds(env, s.entries, c, p, bound);
        assert Step(env, s).phase == Record(c, ChapterRecord(p + 1, ChapterDir(env.mangaDir, c)));
      }
    case Probe(c) =>
      if c == bound {
        assert NotFound(env.remote.head(ProbeUrl(env.manga, c)));
      }
    case _ =>
  }

  lemma Terminates(env: Env, s: State, bound: nat)
    requires LocalBound(env, s.entries, bound) && RemoteBound(env, bound)
    requires Within(bound, s)
    ensures exists n: nat :: Terminal(Run(env, s, n))
    decreases Outer(bound, s), Inner(bound, s)
  {
    if Terminal(s) {
      assert Run(env, s, 0) == s;
    } else {
      StepProgress(env, s, bound);
      StepLocalBound(env, s, bound);
      Terminates(env, Step(env, s), bound);
      var n: nat :| Terminal(Run(env, Step(env, s), n));
      RunAdd(env, s, 1, n);
      RunNext(env, s, 0);
      assert Terminal(Run(env, s, 1 + n));
    }
  }

  /** A host with finitely many chapters and pictures: every run ends, by a chapter
      reported absent or by an abort. */
  lemma RunTerminates(env: Env, e0: Entries, log: seq<Request>, bound: nat)
    requires RemoteBound(env, bound)
    ensures exists n: nat :: Terminal(Run(env, Init(e0, log), n))
  {
    var local := LocalBoundExists(env, e0);
    var b := if local > bound then local else bound;
    assert RemoteBound(env, b);
    assert LocalBound(env, e0, b);
    Terminates(env, Init(e0, log), b);
  }
}
