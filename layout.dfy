/** Where the downloader puts things: <cwd>/mangas/<manga>/<chapter>/<picture>.jpg
    (CONFIG.MANGAS_DIR, the constructor's mangaDir, downloadChapter's chapterDir
    and downloadPicture's filepath). */
module Layout {
  import opened Types
  import opened Decimal

  const MangasDirName := "mangas"
  const PictureExt := "jpg"

  function MangaDir(cwd: Path, manga: string): Path {
    cwd + [MangasDirName, manga]
  }

  /** join(this.mangaDir, chapter.toString()) */
  function ChapterDir(mangaDir: Path, chapter: nat): Path {
    mangaDir + [Dec(chapter)]
  }

  /** `${picture}.${CONFIG.PICTURE_DEFAULT_EXT}` */
  function PictureName(picture: nat): string {
    Dec(picture) + "." + PictureExt
  }

  /** join(chapterDir, `${picture}.jpg`) */
  function PicturePath(chapterDir: Path, picture: nat): Path {
    chapterDir + [PictureName(picture)]
  }

  lemma PictureNameInjective(p: nat, q: nat)
    requires PictureName(p) == PictureName(q)
    ensures p == q
  {
    var a, b := Dec(p), Dec(q);
    assert |a| == |b|;
    assert a == PictureName(p)[..|a|] && b == PictureName(q)[..|a|];
    DecInjective(p, q);
  }

  /** Every (chapter, picture) pair has its own file. */
  lemma PicturePathInjective(d: Path, c: nat, p: nat, c': nat, p': nat)
    requires PicturePath(ChapterDir(d, c), p) == PicturePath(ChapterDir(d, c'), p')
    ensures c == c' && p == p'
  {
    var x, y := PicturePath(ChapterDir(d, c), p), PicturePath(ChapterDir(d, c'), p');
    assert x[|d|] == Dec(c) && y[|d|] == Dec(c');
    assert x[|d| + 1] == PictureName(p) && y[|d| + 1] == PictureName(p');
    DecInjective(c, c');
    PictureNameInjective(p, p');
  }

  /** A picture file is never the manga directory, a chapter directory or one of
      their ancestors: those are all shorter. */
  lemma PictureBelowChapters(d: Path, c: nat, p: nat)
    ensures |PicturePath(ChapterDir(d, c), p)| == |d| + 2
    ensures forall c' :: !(PicturePath(ChapterDir(d, c), p) <= ChapterDir(d, c'))
    ensures !(PicturePath(ChapterDir(d, c), p) <= d)
  {
  }
}
