/**
 Model of the pathname rewrite that `fetchWithLang` (src/logic/helper.ts)
 applies before fetching: for any language but the default one, the language
 code is put into the requested file name as its second dot-separated part
 (`/img/photo.png` becomes `/img/photo.fr.png`). The language is a parameter
 here; the fetch itself is not modelled.
 */
module LocalePath {
  import opened Strings

  /** The default language, for which requests are left alone. */
  const DefaultLang: string := "zh_hans"

  /** Whether the rewrite changes anything: not the default language, and a dot in the file name. */
  predicate Rewrites(path: string, lang: string) {
    lang != DefaultLang && '.' in path[LastPieceStart(path, '/')..]
  }

  /**
   `Rewrites` is the negation of the two early exits of the source: the default
   language, and a last segment that splits into fewer than two dot-parts.
   */
  lemma RewritesExactly(path: string, lang: string, p: seq<string>, lsp: seq<string>)
    requires p == Split(path, '/') && lsp == Split(p[|p| - 1], '.')
    ensures Rewrites(path, lang) <==> lang != DefaultLang && |lsp| >= 2
  {
    LastPiece(path, '/', p[|p| - 1], p, LastPieceStart(path, '/'));
    SplitSingle(p[|p| - 1], '.');
  }

  /** The position of the first dot in the file name (the last `/`-segment) of `path`. */
  function DotPos(path: string): (d: nat)
    requires '.' in path[LastPieceStart(path, '/')..]
    ensures LastPieceStart(path, '/') <= d < |path| && path[d] == '.'
  {
    var n := LastPieceStart(path, '/');
    n + FirstIndex(path[n..], '.')
  }

  /** `s` with `"." + lang` put in at position `d`. */
  function InsertLang(s: string, d: nat, lang: string): string
    requires d <= |s|
  {
    s[..d] + "." + lang + s[d..]
  }

  /**
   Reference definition of the rewrite: in the last `/`-segment of the path,
   put `"." + lang` just before its first dot; leave the path alone for the
   default language or when that segment has no dot.
   */
  function LocalizedPath(path: string, lang: string): string {
    if Rewrites(path, lang) then InsertLang(path, DotPos(path), lang) else path
  }

  /**
   The rewrite as `fetchWithLang` performs it: split the pathname on `/`, split
   the last segment on `.`, give up when that gives fewer than two parts,
   otherwise splice `lang` in at index 1 and join both levels back.
   */
  method RewritePathname(pathname: string, lang: string) returns (r: string)
    ensures r == LocalizedPath(pathname, lang)
    ensures !Rewrites(pathname, lang) ==> r == pathname
    ensures Rewrites(pathname, lang) ==> |r| == |pathname| + |lang| + 1
  {
    if lang == DefaultLang {
      return pathname;
    }
    var p := Split(pathname, '/');
    var last := |p| - 1;
    var lsp := Split(p[last], '.');
    if |lsp| < 2 {
      LastPiece(pathname, '/', p[last], p, LastPieceStart(pathname, '/'));
      SplitSingle(p[last], '.');
      return pathname;
    }
    SplitSpliceJoin(pathname, lang, p, lsp);
    lsp := lsp[..1] + [lang] + lsp[1..];
    p := p[last := Join(lsp, '.')];
    r := Join(p, '/');
  }

  /** The split, splice and join steps of `fetchWithLang` compute the reference rewrite. */
  lemma SplitSpliceJoin(path: string, lang: string, p: seq<string>, lsp: seq<string>)
    requires lang != DefaultLang
    requires p == Split(path, '/') && lsp == Split(p[|p| - 1], '.') && |lsp| >= 2
    ensures Join(p[|p| - 1 := Join(lsp[..1] + [lang] + lsp[1..], '.')], '/') == LocalizedPath(path, lang)
  {
    var last := |p| - 1;
    var n := LastPieceStart(path, '/');
    assert p[last] == path[n..] by { LastPiece(path, '/', p[last], p, n); }
    assert '.' in p[last] by { SplitSingle(p[last], '.'); }
    var e := FirstIndex(p[last], '.');
    var x := InsertLang(p[last], e, lang);
    calc {
      Join(p[last := Join(lsp[..1] + [lang] + lsp[1..], '.')], '/');
      { NameSplice(p[last], lang, lsp, e); }
      Join(p[last := x], '/');
      { LastPiece(path, '/', x, p, n); }
      path[..n] + x;
      { InsertInName(path, n, e, lang); }
      InsertLang(path, n + e, lang);
      { LocalizedAt(path, lang, n, e); }
      LocalizedPath(path, lang);
    }
  }

  /** Splicing `lang` in at index 1 of a file name's dot-parts inserts it before the first dot. */
  lemma NameSplice(name: string, lang: string, lsp: seq<string>, e: nat)
    requires '.' in name && lsp == Split(name, '.') && e == FirstIndex(name, '.')
    ensures Join(lsp[..1] + [lang] + lsp[1..], '.') == InsertLang(name, e, lang)
  {
    FirstPiece(name, '.');
    SpliceSecond(lsp, lang);
    InsertAtDot(name, e, lang);
  }

  /** The reference rewrite where it applies: the language goes in before the file name's first dot. */
  lemma LocalizedAt(path: string, lang: string, n: nat, e: nat)
    requires Rewrites(path, lang)
    requires n == LastPieceStart(path, '/') && e == FirstIndex(path[n..], '.')
    ensures InsertLang(path, n + e, lang) == LocalizedPath(path, lang)
  {
    var d := DotPos(path);
    assert d == n + e;
    assert LocalizedPath(path, lang) == InsertLang(path, d, lang);
  }

  /** Inserting at a dot puts the language between two dots. */
  lemma InsertAtDot(s: string, e: nat, lang: string)
    requires e < |s| && s[e] == '.'
    ensures InsertLang(s, e, lang) == s[..e] + "." + lang + "." + s[e + 1..]
  {
    assert s[e..] == "." + s[e + 1..];
  }

  /** Inserting into the file name that starts at `n` is inserting into the whole path. */
  lemma InsertInName(path: string, n: nat, e: nat, lang: string)
    requires n + e <= |path|
    ensures path[..n] + InsertLang(path[n..], e, lang) == InsertLang(path, n + e, lang)
  {
    var d := n + e;
    assert path[n..][..e] == path[n..d];
    assert path[n..][e..] == path[d..];
    assert path[..n] + path[n..d] == path[..d];
  }

  /** Joining after splicing a part in at index 1 puts it between the first part and the rest. */
  lemma SpliceSecond(parts: seq<string>, x: string)
    requires |parts| >= 2
    ensures Join(parts[..1] + [x] + parts[1..], '.') == parts[0] + "." + x + "." + Join(parts[1..], '.')
  {
    var spliced := parts[..1] + [x] + parts[1..];
    assert spliced[1..][1..] == parts[1..];
  }

  /** Only the file name changes, and it grows by the language code and one dot. */
  lemma LocalizedLength(path: string, lang: string)
    ensures Rewrites(path, lang) ==> |LocalizedPath(path, lang)| == |path| + |lang| + 1
    ensures !Rewrites(path, lang) ==> LocalizedPath(path, lang) == path
  {
  }

  /**
   When the rewrite applies and the language holds no `/`, the path keeps its
   `/`-segments `p`: all but the last are unchanged, and the last one, the file
   name starting at `n` with its first dot at `n + e`, becomes
   `before-first-dot + "." + lang + "." + after-first-dot`.
   */
  lemma LocalizedSegments(path: string, lang: string, p: seq<string>, q: seq<string>, n: nat, e: nat)
    requires Rewrites(path, lang) && '/' !in lang
    requires p == Split(path, '/') && q == Split(LocalizedPath(path, lang), '/')
    requires n == LastPieceStart(path, '/') && e == FirstIndex(path[n..], '.')
    ensures p[|p| - 1] == path[n..]
    ensures var name := path[n..]; q == p[|p| - 1 := name[..e] + "." + lang + "." + name[e + 1..]]
  {
    var name := path[n..];
    var x := name[..e] + "." + lang + "." + name[e + 1..];
    assert LocalizedPath(path, lang) == path[..n] + x by {
      InsertAtDot(name, e, lang);
      InsertInName(path, n, e, lang);
      LocalizedAt(path, lang, n, e);
    }
    SlashFreeName(name, e, lang);
    ReplaceLastPiece(path, '/', x, p, n);
    LastPiece(path, '/', x, p, n);
  }

  /** A file name with the language spliced in is still one `/`-segment. */
  lemma SlashFreeName(name: string, e: nat, lang: string)
    requires e < |name| && '/' !in name && '/' !in lang
    ensures '/' !in name[..e] + "." + lang + "." + name[e + 1..]
  {
  }

  /**
   The rewrite is not idempotent: a rewritten path `r` still has a dot in its
   file name, so a second application inserts the language again.
   */
  lemma LocalizedTwice(path: string, lang: string, r: string)
    requires Rewrites(path, lang) && r == LocalizedPath(path, lang)
    ensures Rewrites(r, lang) && LocalizedPath(r, lang) != r
  {
    var n := LastPieceStart(path, '/');
    var d := DotPos(path);
    var tail := path[d..];
    assert r == path[..d] + "." + lang + tail;
    var j := |r| - |tail|;
    assert r[j..] == tail && r[j] == '.';
    assert '/' !in tail by {
      assert tail == path[n..][d - n..];
    }
    LastPieceStartBound(r, '/', j);
    assert r[j] in r[LastPieceStart(r, '/')..];
    LocalizedLength(r, lang);
  }

  /** `/img/photo.png` in French becomes `/img/photo.fr.png`; `/img/photo` stays as it is. */
  lemma LocalizedExample()
    ensures LocalizedPath("/img/photo.png", "fr") == "/img/photo.fr.png"
    ensures LocalizedPath("/img/photo", "fr") == "/img/photo"
  {
    var path := "/img/photo.png";
    assert path[5..] == "photo.png";
    LastPieceStartAt(path, '/', 5);
    assert "photo.png"[..5] == "photo";
    FirstIndexAt("photo.png", '.', 5);
    assert path[..10] + "." + "fr" + path[10..] == "/img/photo.fr.png";
    var plain := "/img/photo";
    assert plain[5..] == "photo";
    LastPieceStartAt(plain, '/', 5);
  }
}
