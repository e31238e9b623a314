/** The local file store as a map from paths to files and directories, with the
    Node fs/promises operations the downloader uses: stat, rm, mkdir with
    { recursive: true }, and createWriteStream followed by finished. */
module Store {
  import opened Types

  predicate IsDir(e: Entries, p: Path) {
    p == [] || (p in e && e[p] == Dir)
  }

  predicate IsFile(e: Entries, p: Path) {
    p in e && e[p] == File
  }

  /** Every stored path hangs below directories. */
  ghost predicate Rooted(e: Entries, p: Path) {
    p != [] && forall k :: 0 < k < |p| ==> IsDir(e, p[..k])
  }

  /** The shape every real filesystem has: each entry's ancestors are directories. */
  ghost predicate Valid(e: Entries) {
    forall p :: p in e ==> Rooted(e, p)
  }

  /** stat: what is at p, if anything. */
  function Lookup(e: Entries, p: Path): (r: Option<Node>)
    ensures r.None? <==> p != [] && p !in e
    ensures r == Some(Dir) <==> IsDir(e, p)
  {
    if p == [] then Some(Dir) else if p in e then Some(e[p]) else None
  }

  /** mkdir(p, { recursive: true }) past the first k components: each directory on
      the way to p, p included, is created when missing; a file anywhere on the
      way refuses the call, naming the first such file. */
  function MkdirFrom(e: Entries, p: Path, k: nat): Outcome<Entries>
    requires k <= |p|
    decreases |p| - k
  {
    if k == |p| then Ok(e)
    else if IsFile(e, p[..k + 1]) then Fatal(StoreFailure(p[..k + 1]))
    else MkdirFrom(e[p[..k + 1] := Dir], p, k + 1)
  }

  function MkdirAll(e: Entries, p: Path): Outcome<Entries> {
    MkdirFrom(e, p, 0)
  }

  /** createDirIfNotExists: a directory at p is kept, a file at p is removed and
      replaced, and a missing p is created with its parents. */
  function EnsureDir(e: Entries, p: Path): Outcome<Entries> {
    match Lookup(e, p)
    case Some(Dir) => Ok(e)
    case Some(File) => MkdirAll(e - {p}, p)
    case None => MkdirAll(e, p)
  }

  /** createWriteStream(p) and the end of the piped body: the file is created (or
      truncated) when its parent is a directory and p is not one. */
  function Written(e: Entries, p: Path): Outcome<Entries> {
    if p != [] && IsDir(e, p[..|p| - 1]) && !IsDir(e, p) then Ok(e[p := File])
    else Fatal(StoreFailure(p))
  }

  lemma {:induction false} MkdirFromResult(e: Entries, p: Path, k: nat)
    requires k <= |p|
    ensures MkdirFrom(e, p, k).Ok? <==> forall j :: k < j <= |p| ==> !IsFile(e, p[..j])
    ensures MkdirFrom(e, p, k).Fatal? ==> MkdirFrom(e, p, k).failure.StoreFailure?
    ensures MkdirFrom(e, p, k).Fatal? ==> var f := MkdirFrom(e, p, k).failure.path;
      |f| > k && f <= p && IsFile(e, f) && forall j :: k < j < |f| ==> !IsFile(e, p[..j])
    ensures MkdirFrom(e, p, k).Ok? ==> var e' := MkdirFrom(e, p, k).value;
      (forall q :: |q| > k && q <= p ==> IsDir(e', q)) &&
      (forall q :: !(|q| > k && q <= p) ==> (q in e' <==> q in e) && (q in e ==> e'[q] == e[q]))
    decreases |p| - k
  {
    if k < |p| && !IsFile(e, p[..k + 1]) {
      var d := p[..k + 1];
      var e1 := e[d := Dir];
      MkdirFromResult(e1, p, k + 1);
      forall j | k + 1 < j <= |p|
        ensures IsFile(e1, p[..j]) <==> IsFile(e, p[..j])
      {
        assert |p[..j]| != |d|;
      }
      if MkdirFrom(e, p, k).Ok? {
        var e' := MkdirFrom(e, p, k).value;
        forall q | |q| > k && q <= p
          ensures IsDir(e', q)
        {
          if |q| == k + 1 {
            assert q == d;
          }
        }
      }
    } else if k < |p| {
      assert p[..k + 1] <= p;
    }
  }

  lemma MkdirAllResult(e: Entries, p: Path)
    ensures MkdirAll(e, p).Ok? <==> forall k :: 0 < k <= |p| ==> !IsFile(e, p[..k])
    ensures MkdirAll(e, p).Fatal? ==> MkdirAll(e, p).failure.StoreFailure?
    ensures MkdirAll(e, p).Fatal? ==> var f := MkdirAll(e, p).failure.path;
      f != [] && f <= p && IsFile(e, f) && forall j :: 0 < j < |f| ==> !IsFile(e, p[..j])
    ensures MkdirAll(e, p).Ok? ==> var e' := MkdirAll(e, p).value;
      ([] in e' <==> [] in e) &&
      (forall q :: q != [] && q <= p ==> IsDir(e', q)) &&
      (forall q :: !(q <= p) ==> (q in e' <==> q in e) && (q in e ==> e'[q] == e[q]))
  {
    MkdirFromResult(e, p, 0);
  }

  /** createDirIfNotExists fails only when a proper ancestor of p is a file, and
      then it names that ancestor. */
  lemma EnsureDirFails(e: Entries, p: Path)
    requires EnsureDir(e, p).Fatal?
    ensures var f := EnsureDir(e, p).failure;
      f.StoreFailure? && f.path != [] && f.path < p && IsFile(e, f.path)
  {
    if Lookup(e, p) == Some(File) {
      MkdirAllResult(e - {p}, p);
      var f := EnsureDir(e, p).failure.path;
      assert f in e - {p} && f <= p && f != p;
      assert p[..|p|] == p;
    } else {
      assert Lookup(e, p).None?;
      MkdirAllResult(e, p);
      var f := EnsureDir(e, p).failure.path;
      assert f in e && f != p && f <= p;
      assert p[..|p|] == p;
    }
  }

  /** In a well-formed store it fails exactly then. */
  lemma EnsureDirSucceeds(e: Entries, p: Path)
    requires Valid(e)
    ensures EnsureDir(e, p).Ok? <==> forall k :: 0 < k < |p| ==> !IsFile(e, p[..k])
  {
    if p != [] && p in e {
      assert Rooted(e, p);
    }
    if Lookup(e, p) == Some(File) {
      MkdirAllResult(e - {p}, p);
      assert p[..|p|] == p;
      assert forall k :: 0 < k < |p| ==> (IsFile(e - {p}, p[..k]) <==> IsFile(e, p[..k]));
    } else if Lookup(e, p).None? {
      MkdirAllResult(e, p);
      assert p[..|p|] == p;
    }
  }

  /** Afterwards p and all its ancestors are directories, the store is still
      well formed, and every path that is not p or an ancestor of p is untouched. */
  lemma EnsureDirEffect(e: Entries, p: Path)
    requires Valid(e) && EnsureDir(e, p).Ok?
    ensures var e' := EnsureDir(e, p).value;
      IsDir(e', p) && (forall q :: q <= p ==> IsDir(e', q)) && Valid(e') &&
      (forall q :: !(q <= p) ==> (q in e' <==> q in e) && (q in e ==> e'[q] == e[q]))
  {
    var e' := EnsureDir(e, p).value;
    if Lookup(e, p) == Some(Dir) {
      forall q | q <= p
        ensures IsDir(e', q)
      {
        if q != [] && q != p {
          assert Rooted(e, p) && q == p[..|q|];
        }
      }
    } else if Lookup(e, p) == Some(File) {
      MkdirAllResult(e - {p}, p);
    } else {
      MkdirAllResult(e, p);
    }
    forall q | q in e'
      ensures Rooted(e', q)
    {
      if q <= p {
        assert forall k :: 0 < k < |q| ==> q[..k] <= p;
      } else {
        assert q in e && Rooted(e, q);
        forall k | 0 < k < |q|
          ensures IsDir(e', q[..k])
        {
          assert IsDir(e, q[..k]);
        }
      }
    }
  }

  /** Whatever the store, only p and its ancestors can change. */
  lemma EnsureDirFrame(e: Entries, p: Path)
    requires EnsureDir(e, p).Ok?
    ensures var e' := EnsureDir(e, p).value;
      forall q :: !(q <= p) ==> (q in e' <==> q in e) && (q in e ==> e'[q] == e[q])
  {
    if Lookup(e, p) == Some(File) {
      MkdirAllResult(e - {p}, p);
    } else if Lookup(e, p).None? {
      MkdirAllResult(e, p);
    }
  }

  /** An existing directory is left exactly as it is. */
  lemma EnsureDirKeepsDir(e: Entries, p: Path)
    requires IsDir(e, p)
    ensures EnsureDir(e, p) == Ok(e)
  {
  }

  /** A file at p is removed and a directory takes its place. */
  lemma EnsureDirReplacesFile(e: Entries, p: Path)
    requires Valid(e) && IsFile(e, p)
    ensures EnsureDir(e, p).Ok? && p in EnsureDir(e, p).value && EnsureDir(e, p).value[p] == Dir
  {
    EnsureDirSucceeds(e, p);
    assert Rooted(e, p);
    EnsureDirEffect(e, p);
  }

  /** In a well-formed store a failing call had nothing at p to remove. */
  lemma EnsureDirFailsAbsent(e: Entries, p: Path)
    requires Valid(e) && EnsureDir(e, p).Fatal?
    ensures p !in e
  {
    EnsureDirSucceeds(e, p);
  }

  /** A second call changes nothing. */
  lemma EnsureDirIdempotent(e: Entries, p: Path)
    requires Valid(e) && EnsureDir(e, p).Ok?
    ensures EnsureDir(EnsureDir(e, p).value, p) == EnsureDir(e, p)
  {
    EnsureDirEffect(e, p);
  }

  /** Writing a picture succeeds exactly when its directory exists and nothing but
      possibly a file is at its path, adds exactly that file and keeps the store
      well formed. */
  lemma WrittenEffect(e: Entries, p: Path)
    ensures Written(e, p).Ok? <==> p != [] && IsDir(e, p[..|p| - 1]) && !IsDir(e, p)
    ensures Written(e, p).Ok? ==> Written(e, p).value == e[p := File]
    ensures Written(e, p).Ok? && Valid(e) ==> Valid(Written(e, p).value)
    ensures Written(e, p).Fatal? ==> Written(e, p).failure == StoreFailure(p)
  {
    if Written(e, p).Ok? && Valid(e) {
      var e' := e[p := File];
      forall q | q in e'
        ensures Rooted(e', q)
      {
        if q == p {
          if |p| > 1 {
            assert Rooted(e, p[..|p| - 1]);
            forall k | 0 < k < |p|
              ensures IsDir(e', p[..k])
            {
              if k < |p| - 1 {
                assert p[..|p| - 1][..k] == p[..k];
              }
            }
          }
        } else {
          assert Rooted(e, q);
          forall k | 0 < k < |q|
            ensures IsDir(e', q[..k])
          {
            assert IsDir(e, q[..k]);
          }
        }
      }
    }
  }

  /** The store the downloader writes to; the methods are the fs calls index.js makes. */
  class FileStore {
    var entries: Entries

    constructor (initial: Entries)
      ensures entries == initial
    {
      entries := initial;
    }

    /** stat; a missing path is its error case. */
    method Stat(p: Path) returns (r: Option<Node>)
      ensures r == Lookup(entries, p)
    {
      r := Lookup(entries, p);
    }

    /** rm on a path stat reported as a file. */
    method Rm(p: Path)
      requires IsFile(entries, p)
      modifies this
      ensures entries == old(entries) - {p}
    {
      entries := entries - {p};
    }

    /** mkdir(p, { recursive: true }) */
    method Mkdir(p: Path) returns (r: Outcome<()>)
      modifies this
      ensures MkdirAll(old(entries), p) == if r.Ok? then Ok(entries) else Fatal(r.failure)
      ensures r.Fatal? ==> entries == old(entries)
    {
      match MkdirAll(entries, p)
      case Ok(e) => entries := e; r := Ok(());
      case Fatal(f) => r := Fatal(f);
    }

    /** createWriteStream(p), the response piped in, and finished(writer). */
    method CreateFile(p: Path) returns (r: Outcome<()>)
      modifies this
      ensures Written(old(entries), p) == if r.Ok? then Ok(entries) else Fatal(r.failure)
      ensures r.Fatal? ==> entries == old(entries)
    {
      match Written(entries, p)
      case Ok(e) => entries := e; r := Ok(());
      case Fatal(f) => r := Fatal(f);
    }
  }
}
