/** The download and probe URLs built from the fixed template (index.js, CONFIG.BASE_URL)
    by three chained String.prototype.replace calls. */
module Urls {
  import opened Decimal
  import opened Template

  const Host := "https://img.lermanga.org/S/"
  const MangaSlot := "{{MANGA}}"
  const ChapterPrefix := "/capitulo-"
  const ChapterSlot := "{{CHAPTER}}"
  const PictureSlot := "{{PICTURE}}"
  const Suffix := ".jpg"

  /** CONFIG.BASE_URL, written as its pieces:
      "https://img.lermanga.org/S/{{MANGA}}/capitulo-{{CHAPTER}}/{{PICTURE}}.jpg" */
  const BaseUrl := Host + MangaSlot + ChapterPrefix + ChapterSlot + "/" + PictureSlot + Suffix

  /** The URL downloadPicture requests: manga, then chapter, then picture, each
      replacing the first occurrence of its placeholder in the text built so far. */
  function PageUrl(manga: string, chapter: nat, picture: nat): string {
    ReplaceChain(BaseUrl, [(MangaSlot, manga), (ChapterSlot, Dec(chapter)), (PictureSlot, Dec(picture))])
  }

  /** The URL checkChapterNotExists sends its HEAD request to: the same chain, with
      the number 1 for the picture. */
  function ProbeUrl(manga: string, chapter: nat): string {
    ReplaceChain(BaseUrl, [(MangaSlot, manga), (ChapterSlot, Dec(chapter)), (PictureSlot, "1")])
  }

  /** A series name that String.replace inserts verbatim and that cannot hide a placeholder. */
  predicate PlainName(manga: string) {
    Lacks(manga, '{') && Lacks(manga, '$')
  }

  lemma DigitsLack(s: string)
    requires IsDigits(s)
    ensures Lacks(s, '{') && Lacks(s, '$') && Lacks(s, '/')
  {
  }

  /** Replacing a placeholder that starts with '{' in a text whose part before it has
      no '{' puts the expanded replacement exactly there. */
  lemma ReplaceSlot(a: string, slot: string, b: string, rep: string)
    requires |slot| > 0 && slot[0] == '{' && Lacks(a, '{')
    ensures ReplaceFirst(a + slot + b, slot, rep) == a + Expand(rep, slot, a, b) + b
  {
    var s := a + slot + b;
    assert s[..|a|] == a;
    assert s[|a|..|a| + |slot|] == slot;
    assert s[|a| + |slot|..] == b;
    FirstBrace(s, slot, |a|);
    ReplaceFirstAt(s, slot, rep, |a|);
  }

  /** The three replacements on a template of the form
      h + ms + cp + cs + "/" + ps + sx, for placeholders ms, cs, ps that start with
      '{' and fixed text h, cp, "/" without '{': each value lands on its own
      placeholder as long as the expanded name brings no '{' of its own. */
  lemma ChainShape(h: string, ms: string, cp: string, cs: string, ps: string, sx: string,
                   name: string, chap: string, pic: string)
    requires |ms| > 0 && ms[0] == '{' && |cs| > 0 && cs[0] == '{' && |ps| > 0 && ps[0] == '{'
    requires Lacks(h, '{') && Lacks(cp, '{')
    requires Lacks(Expand(name, ms, h, cp + cs + "/" + ps + sx), '{')
    requires Lacks(chap, '{') && Lacks(chap, '$') && Lacks(pic, '$')
    ensures ReplaceFirst(ReplaceFirst(ReplaceFirst(h + ms + cp + cs + "/" + ps + sx, ms, name), cs, chap), ps, pic)
         == h + Expand(name, ms, h, cp + cs + "/" + ps + sx) + cp + chap + "/" + pic + sx
  {
    var n := Expand(name, ms, h, cp + cs + "/" + ps + sx);
    var s1 := ChainFirst(h, ms, cp, cs, ps, sx, name);
    LacksJoin(h, n);
    LacksJoin(h + n, cp);
    var s2 := ChainSecond(h + n + cp, cs, "/" + ps + sx, chap);
    LacksJoin(h + n + cp, chap);
    LacksJoin(h + n + cp + chap, "/");
    Regroup4(h + n + cp, chap, "/", ps, sx);
    var s3 := ChainSecond(h + n + cp + chap + "/", ps, sx, pic);
    Regroup5(h + n, cp, chap, "/", pic, sx);
  }

  lemma Regroup5(a: string, b: string, c: string, d: string, e: string, f: string)
    ensures a + b + c + d + e + f == (a + b + c + d) + e + f
  {
  }

  lemma Regroup4(a: string, c: string, d: string, e: string, f: string)
    ensures a + c + (d + e + f) == (a + c + d) + e + f
  {
  }

  lemma LacksJoin(a: string, b: string)
    requires Lacks(a, '{') && Lacks(b, '{')
    ensures Lacks(a + b, '{')
  {
    forall i | 0 <= i < |a + b|
      ensures (a + b)[i] != '{'
    {
      if i >= |a| {
        assert (a + b)[i] == b[i - |a|];
      }
    }
  }

  /** The first replace: the name's expansion takes the manga placeholder's place. */
  lemma ChainFirst(h: string, ms: string, cp: string, cs: string, ps: string, sx: string, name: string)
      returns (s1: string)
    requires |ms| > 0 && ms[0] == '{' && Lacks(h, '{')
    ensures s1 == ReplaceFirst(h + ms + cp + cs + "/" + ps + sx, ms, name)
    ensures s1 == (h + Expand(name, ms, h, cp + cs + "/" + ps + sx) + cp) + cs + ("/" + ps + sx)
  {
    var rest := cp + cs + "/" + ps + sx;
    Regroup7(h, ms, cp, cs, "/", ps, sx);
    ReplaceSlot(h, ms, rest, name);
    s1 := ReplaceFirst(h + ms + rest, ms, name);
    Regroup6(h, Expand(name, ms, h, rest), cp, cs, "/", ps, sx);
  }

  lemma Regroup7(a: string, b: string, c: string, d: string, e: string, f: string, g: string)
    ensures a + b + c + d + e + f + g == a + b + (c + d + e + f + g)
  {
  }

  lemma Regroup6(a: string, n: string, c: string, d: string, e: string, f: string, g: string)
    ensures a + n + (c + d + e + f + g) == (a + n + c) + d + (e + f + g)
  {
  }

  /** A later replace of a placeholder after '{'-free text inserts a '$'-free value verbatim. */
  lemma ChainSecond(a: string, slot: string, b: string, rep: string) returns (s: string)
    requires |slot| > 0 && slot[0] == '{' && Lacks(a, '{') && Lacks(rep, '$')
    ensures s == ReplaceFirst(a + slot + b, slot, rep) && s == a + rep + b
  {
    ReplaceSlot(a, slot, b, rep);
    ExpandPlain(rep, slot, a, b);
    s := a + rep + b;
  }

  lemma TemplateFacts()
    ensures BaseUrl == Host + MangaSlot + ChapterPrefix + ChapterSlot + "/" + PictureSlot + Suffix
    ensures MangaSlot[0] == '{' && ChapterSlot[0] == '{' && PictureSlot[0] == '{'
    ensures Lacks(Host, '{') && Lacks(ChapterPrefix, '{')
  {
  }

  /** The page URL of any name: GetSubstitution's expansion of the name, then the
      chapter and picture numbers, as long as the expansion has no '{'. */
  lemma PageUrlOf(manga: string, chapter: nat, picture: nat)
    requires Lacks(Expand(manga, MangaSlot, Host, ChapterPrefix + ChapterSlot + "/" + PictureSlot + Suffix), '{')
    ensures PageUrl(manga, chapter, picture)
         == Host + Expand(manga, MangaSlot, Host, ChapterPrefix + ChapterSlot + "/" + PictureSlot + Suffix)
            + ChapterPrefix + Dec(chapter) + "/" + Dec(picture) + Suffix
  {
    TemplateFacts();
    ReplaceChain3(BaseUrl, (MangaSlot, manga), (ChapterSlot, Dec(chapter)), (PictureSlot, Dec(picture)));
    DigitsLack(Dec(chapter));
    DigitsLack(Dec(picture));
    ChainShape(Host, MangaSlot, ChapterPrefix, ChapterSlot, PictureSlot, Suffix, manga, Dec(chapter), Dec(picture));
  }

  /** For a plain name the page URL is the template with the three values written in. */
  lemma PageUrlShape(manga: string, chapter: nat, picture: nat)
    requires PlainName(manga)
    ensures PageUrl(manga, chapter, picture)
         == Host + manga + ChapterPrefix + Dec(chapter) + "/" + Dec(picture) + Suffix
  {
    ExpandPlain(manga, MangaSlot, Host, ChapterPrefix + ChapterSlot + "/" + PictureSlot + Suffix);
    PageUrlOf(manga, chapter, picture);
  }

  /** The existence probe always asks for picture 1 of the chapter. */
  lemma ProbeIsFirstPicture(manga: string, chapter: nat)
    ensures ProbeUrl(manga, chapter) == PageUrl(manga, chapter, 1)
  {
    assert Dec(1) == "1";
  }

  /** Index of the first non-digit of s at or after k (|s| when there is none). */
  function DigitRunEnd(s: string, k: nat): nat
    requires k <= |s|
    decreases |s| - k
  {
    if k == |s| || !('0' <= s[k] <= '9') then k else DigitRunEnd(s, k + 1)
  }

  lemma {:induction false} DigitRunEndAt(d: string, sep: string, e: string, k: nat)
    requires IsDigits(d) && |sep| == 1 && !('0' <= sep[0] <= '9') && k <= |d|
    ensures DigitRunEnd(d + sep + e, k) == |d|
    decreases |d| - k
  {
    var x := d + sep + e;
    if k < |d| {
      assert x[k] == d[k];
      DigitRunEndAt(d, sep, e, k + 1);
    } else {
      assert x[k] == sep[0];
    }
  }

  /** Two digit strings followed by the same non-digit separator split equally. */
  lemma SplitAtSeparator(d: string, e: string, d': string, e': string, sep: string)
    requires IsDigits(d) && IsDigits(d') && |sep| == 1 && !('0' <= sep[0] <= '9')
    requires d + sep + e == d' + sep + e'
    ensures d == d' && e == e'
  {
    var x, y := d + sep + e, d' + sep + e';
    DigitRunEndAt(d, sep, e, 0);
    DigitRunEndAt(d', sep, e', 0);
    assert d == x[..|d|] && d' == y[..|d|];
    assert e == x[|d| + 1..] && e' == y[|d| + 1..];
  }

  lemma StripSuffix(a: string, b: string, sx: string)
    requires a + sx == b + sx
    ensures a == b
  {
    assert |a| == |b|;
    assert a == (a + sx)[..|a|] && b == (b + sx)[..|a|];
  }

  /** The part after "/capitulo-" determines chapter and picture: the chapter's
      digits end at the separator. */
  lemma TailInjective(c: nat, p: nat, c': nat, p': nat, sep: string, sx: string)
    requires |sep| == 1 && !('0' <= sep[0] <= '9')
    requires Dec(c) + sep + Dec(p) + sx == Dec(c') + sep + Dec(p') + sx
    ensures c == c' && p == p'
  {
    SplitTail(Dec(c), Dec(p), Dec(c'), Dec(p'), sep, sx);
    DecInjective(c, c');
    DecInjective(p, p');
  }

  lemma SplitTail(d: string, e: string, d': string, e': string, sep: string, sx: string)
    requires IsDigits(d) && IsDigits(d') && |sep| == 1 && !('0' <= sep[0] <= '9')
    requires d + sep + e + sx == d' + sep + e' + sx
    ensures d == d' && e == e'
  {
    assert d + sep + e + sx == d + sep + (e + sx);
    assert d' + sep + e' + sx == d' + sep + (e' + sx);
    SplitAtSeparator(d, e + sx, d', e' + sx, sep);
    StripSuffix(e, e', sx);
  }

  /** Distinct (chapter, picture) pairs of a plain name are requested at distinct URLs. */
  lemma PageUrlInjective(manga: string, c: nat, p: nat, c': nat, p': nat)
    requires PlainName(manga)
    requires PageUrl(manga, c, p) == PageUrl(manga, c', p')
    ensures c == c' && p == p'
  {
    PageUrlShape(manga, c, p);
    PageUrlShape(manga, c', p');
    Regroup(Host, manga, ChapterPrefix, Dec(c), "/", Dec(p), Suffix);
    Regroup(Host, manga, ChapterPrefix, Dec(c'), "/", Dec(p'), Suffix);
    StripPrefix(Host + manga + ChapterPrefix, Dec(c) + "/" + Dec(p) + Suffix, Dec(c') + "/" + Dec(p') + Suffix);
    TailInjective(c, p, c', p', "/", Suffix);
  }

  lemma Regroup(a: string, b: string, c: string, d: string, e: string, f: string, g: string)
    ensures a + b + c + d + e + f + g == (a + b + c) + (d + e + f + g)
  {
  }

  lemma StripPrefix(a: string, x: string, y: string)
    requires a + x == a + y
    ensures x == y
  {
    assert x == (a + x)[|a|..] && y == (a + y)[|a|..];
  }

  /** The series name is not always used verbatim: "$$" in it becomes a single "$". */
  lemma DollarsCollapse(chapter: nat, picture: nat)
    ensures PageUrl("a$$b", chapter, picture)
         == Host + "a$b" + ChapterPrefix + Dec(chapter) + "/" + Dec(picture) + Suffix
  {
    var rest := ChapterPrefix + ChapterSlot + "/" + PictureSlot + Suffix;
    assert Expand("a$$b", MangaSlot, Host, rest) == "a$b";
    PageUrlOf("a$$b", chapter, picture);
  }

  /** and "$`" inserts everything before the placeholder, the host, a second time. */
  lemma BacktickRepeatsHost(chapter: nat, picture: nat)
    ensures PageUrl("$`", chapter, picture)
         == Host + Host + ChapterPrefix + Dec(chapter) + "/" + Dec(picture) + Suffix
  {
    var rest := ChapterPrefix + ChapterSlot + "/" + PictureSlot + Suffix;
    assert Expand("$`", MangaSlot, Host, rest) == Host;
    TemplateFacts();
    PageUrlOf("$`", chapter, picture);
  }
}
