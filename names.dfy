/**
  The string surgery the script performs on links, file names and link texts:
  the identifier between the last `/` and the last `.` of a link, the root a
  relative link is resolved against, the key/extension split of a file name,
  the label cleaning table, the Jiangsu onclick handler and the Zhejiang
  2020+ spreadsheet link.
*/
module Names {
  import opened PyStr

  /** `u[u.rfind('/')+1:u.rfind('.')]`: the file identifier a link names. */
  function Ident(u: string): string {
    Slice(u, RFind(u, '/') + 1, RFind(u, '.'))
  }

  /** `u[:u.rfind('/')+1]`: the directory part of a link, trailing slash included. */
  function Root(u: string): string {
    Slice(u, 0, RFind(u, '/') + 1)
  }

  /** `name[:name.rfind('.')]`: a file name without its extension. */
  function Key(name: string): string {
    Slice(name, 0, RFind(name, '.'))
  }

  /** `name[name.rfind('.'):]`: a file name's extension, dot included. */
  function Ext(name: string): string {
    Slice(name, RFind(name, '.'), |name|)
  }

  /** With the last `.` after the last `/`, the link is root, identifier and extension, in that order. */
  lemma IdentBetween(u: string)
    requires RFind(u, '/') < RFind(u, '.')
    ensures Ident(u) == u[RFind(u, '/') + 1..RFind(u, '.')]
    ensures '/' !in Ident(u)
    ensures Root(u) + Ident(u) + Ext(u) == u
  {
    var s, d := RFind(u, '/'), RFind(u, '.');
    SliceInRange(u, s + 1, d);
    SliceInRange(u, 0, s + 1);
    SliceInRange(u, d, |u|);
    ThreeParts(u, s, d, '/');
  }

  /** Without a `/`, the identifier starts at the beginning: it is the link's key. */
  lemma IdentNoSlash(u: string)
    requires '/' !in u
    ensures Ident(u) == Key(u)
  {
    RFindAbsent(u, '/');
  }

  /** When the last `.` comes before the last `/`, the identifier is empty. */
  lemma IdentDotBeforeSlash(u: string)
    requires 0 <= RFind(u, '.') < RFind(u, '/')
    ensures Ident(u) == []
  {
  }

  /** Without a `.`, the end bound is -1, so the identifier drops the link's last character. */
  lemma IdentNoDot(u: string)
    requires '.' !in u
    ensures Ident(u) == if RFind(u, '/') + 1 < |u| - 1 then u[RFind(u, '/') + 1..|u| - 1] else []
  {
    RFindAbsent(u, '.');
  }

  /** The root is the prefix of the link up to its last `/`; what follows holds no `/`. */
  lemma RootIsDirectory(u: string)
    ensures Root(u) == u[..RFind(u, '/') + 1]
    ensures '/' !in u[|Root(u)|..]
    ensures '/' in u ==> Root(u)[|Root(u)| - 1] == '/'
    ensures '/' !in u ==> Root(u) == []
  {
    RFindAbsent(u, '/');
    var rest := u[|Root(u)|..];
    assert forall k :: 0 <= k < |rest| ==> rest[k] == u[RFind(u, '/') + 1 + k];
  }

  /** Key and extension always put the file name back together, even without a `.`. */
  lemma KeyExt(name: string)
    ensures Key(name) + Ext(name) == name
  {
    var d := RFind(name, '.');
    if d >= 0 {
      assert name[..d] + name[d..] == name;
    } else if |name| > 0 {
      assert name[..|name| - 1] + name[|name| - 1..] == name;
    }
  }

  /** A file saved as `f + x`, `x` a dot followed by no other dot, has key `f` and extension `x`. */
  lemma KeyOfSaved(f: string, x: string)
    requires |x| > 0 && x[0] == '.' && '.' !in x[1..]
    ensures Key(f + x) == f && Ext(f + x) == x
  {
    var n := f + x;
    assert n[|f|] == '.';
    forall k | |f| < k < |n| ensures n[k] != '.' {
      assert n[k] == x[1..][k - |f| - 1];
    }
    assert RFind(n, '.') == |f|;
    assert n[..|f|] == f && n[|f|..] == x;
  }

  /** The extension of a name with a `.` starts with that `.` and holds no other. */
  lemma ExtShape(name: string)
    requires '.' in name
    ensures |Ext(name)| > 0 && Ext(name)[0] == '.' && '.' !in Ext(name)[1..]
  {
    RFindAbsent(name, '.');
    var d := RFind(name, '.');
    assert Ext(name) == name[d..];
    forall k | 0 <= k < |Ext(name)[1..]| ensures Ext(name)[1..][k] != '.' {
      assert Ext(name)[1..][k] == name[d + 1 + k];
    }
  }

  /** The deletion table of `clean_n`. */
  const CleanTable: string := "abcdefghijklmnopqrstuvwxyz&.,:;<>?/=#\":\n\t "

  /** `innerHTML.translate(clean_n).strip()`: the label of a menu link. */
  function CleanLabel(html: string): string {
    Strip(Delete(html, CleanTable))
  }

  lemma StripIdempotent(s: string)
    ensures Strip(Strip(s)) == Strip(s)
  {
    var t := Strip(s);
    var i, j := StripBounds(s);
    StripTrimmed(t);
  }

  /** Stripping keeps a string free of the table's characters. */
  lemma StripKeepsClean(s: string)
    requires forall i :: 0 <= i < |s| ==> s[i] !in CleanTable
    ensures forall i :: 0 <= i < |Strip(s)| ==> Strip(s)[i] !in CleanTable
  {
    var i, j := StripBounds(s);
  }

  /** A cleaned label holds none of the deleted characters, no surrounding whitespace, and cleaning it again changes nothing. */
  lemma CleanLabelIdempotent(html: string)
    ensures forall i :: 0 <= i < |CleanLabel(html)| ==> CleanLabel(html)[i] !in CleanTable
    ensures CleanLabel(CleanLabel(html)) == CleanLabel(html)
  {
    var d := Delete(html, CleanTable);
    StripKeepsClean(d);
    DeleteNothing(Strip(d), CleanTable);
    StripIdempotent(d);
  }

  /** `innerHTML.replace('电子表格链接', '').translate(clean_n)`: a Jiangsu link label (not stripped). */
  function JsLabel(html: string): string {
    Delete(Replace(html, "电子表格链接", ""), CleanTable)
  }

  const JsHandlerPrefix: string := "location.href="

  /** `onclick.replace('location.href=', '').translate(clean_ch)`, `clean_ch` deleting `'`. */
  function JsChapterSuffix(onclick: string): string {
    Delete(Replace(onclick, JsHandlerPrefix, ""), "'")
  }

  /** A handler `location.href='p'` yields `p` when `p` has no quote and no second handler prefix. */
  lemma JsChapterSuffixOfHandler(p: string)
    requires '\'' !in p
    requires forall i :: !OccursAt(p, i, JsHandlerPrefix)
    ensures JsChapterSuffix(JsHandlerPrefix + "'" + p + "'") == p
  {
    var t := JsHandlerPrefix + "'" + p + "'";
    var n := |JsHandlerPrefix|;
    assert OccursAt(t, 0, JsHandlerPrefix);
    forall i | i != 0 ensures !OccursAt(t, i, JsHandlerPrefix) {
      NoHandlerAfterFront(p, i);
    }
    ReplaceSingle(t, 0, JsHandlerPrefix, "");
    assert t[..0] + "" + t[n..] == "'" + p + "'";
    DeleteConcat("'" + p, "'", "'");
    DeleteConcat("'", p, "'");
    DeleteNothing(p, "'");
    assert Delete("'", "'") == [];
  }

  /** In `location.href='p'` the handler prefix occurs only at the front. */
  lemma NoHandlerAfterFront(p: string, i: int)
    requires forall j :: !OccursAt(p, j, JsHandlerPrefix)
    requires i != 0
    ensures !OccursAt(JsHandlerPrefix + "'" + p + "'", i, JsHandlerPrefix)
  {
    var hq := JsHandlerPrefix + "'";
    var t := hq + p + "'";
    var n := |JsHandlerPrefix|;
    if 0 < i <= n {
      assert t[i] == hq[i];
      assert forall j :: 1 <= j < |hq| ==> hq[j] != 'l';
      if i + n <= |t| {
        assert t[i..i + n][0] == t[i];
      }
    } else if i + n == |t| {
      assert t[i..i + n][n - 1] == t[|t| - 1] == '\'';
    } else if n < i && i + n < |t| {
      InnerOccurrence(hq, p, "'", i - |hq|, JsHandlerPrefix);
    }
  }

  /** `root + suff`: the chapter page a Jiangsu table cell leads to. */
  function JsChapterUrl(url: string, onclick: string): string {
    Root(url) + JsChapterSuffix(onclick)
  }

  /** `url[:url.rfind('/')] + main[1:].replace('/html/', '/excel/').replace('.html', '.xlsx')`. */
  function ZjExcelUrl(url: string, main: string): string {
    Slice(url, 0, RFind(url, '/'))
      + Replace(Replace(Slice(main, 1, |main|), "/html/", "/excel/"), ".html", ".xlsx")
  }

  /** The first replacement turns `/html/<name>.html` into `/excel/<name>.html`. */
  lemma ZjHtmlDirReplaced(name: string)
    requires '/' !in name
    ensures Replace("/html/" + name + ".html", "/html/", "/excel/") == "/excel/" + name + ".html"
  {
    var s1 := "/html/" + name + ".html";
    assert OccursAt(s1, 0, "/html/");
    forall k | 6 <= k < |s1| ensures s1[k] != '/' {
      if k < 6 + |name| {
        assert s1[k] == name[k - 6];
      } else {
        assert s1[k] == ".html"[k - 6 - |name|];
      }
    }
    forall i | i != 0 ensures !OccursAt(s1, i, "/html/") {
      if 0 < i && i + 6 <= |s1| {
        assert s1[i..i + 6][5] == s1[i + 5] != '/';
      }
    }
    ReplaceSingle(s1, 0, "/html/", "/excel/");
    assert s1[6..] == name + ".html";
  }

  /** The second replacement turns the one `.html` into `.xlsx`. */
  lemma ZjExtensionReplaced(name: string)
    requires '.' !in name
    ensures Replace("/excel/" + name + ".html", ".html", ".xlsx") == "/excel/" + name + ".xlsx"
  {
    var s2 := "/excel/" + name + ".html";
    var k := 7 + |name|;
    assert s2[k..] == ".html";
    assert OccursAt(s2, k, ".html");
    forall j | 0 <= j < |s2| && s2[j] == '.' ensures j == k {
      if k <= j {
        assert s2[j] == ".html"[j - k];
      }
    }
    OnlyOccurrence(s2, k, ".html");
    ReplaceSingle(s2, k, ".html", ".xlsx");
    assert s2[..k] == "/excel/" + name;
    assert s2[k + 5..] == [];
  }

  /** The identifier of `<prefix>/excel/<name>.xlsx` is `<name>`. */
  lemma ZjExcelIdent(prefix: string, name: string)
    requires '/' !in name && '.' !in name
    ensures Ident(prefix + "/excel/" + name + ".xlsx") == name
  {
    var u := prefix + "/excel/" + name + ".xlsx";
    var slash := |prefix| + 6;
    var dot := slash + 1 + |name|;
    assert u[slash] == '/' && u[dot] == '.';
    forall j | slash < j < |u| ensures u[j] != '/' {
      if j < dot {
        assert u[j] == name[j - slash - 1];
      } else {
        assert u[j] == ".xlsx"[j - dot];
      }
    }
    forall j | dot < j < |u| ensures u[j] != '.' {
      assert u[j] == ".xlsx"[j - dot];
    }
    assert RFind(u, '/') == slash;
    assert RFind(u, '.') == dot;
    SliceInRange(u, slash + 1, dot);
    assert u[slash + 1..dot] == name;
  }

  /** A menu item `main="./html/<name>.html"` points at `<dir>/excel/<name>.xlsx`. */
  lemma ZjExcelUrlOfMenuItem(url: string, name: string)
    requires '/' !in name && '.' !in name
    ensures ZjExcelUrl(url, "./html/" + name + ".html")
            == Slice(url, 0, RFind(url, '/')) + "/excel/" + name + ".xlsx"
  {
    var main := "./html/" + name + ".html";
    var m1 := Slice(main, 1, |main|);
    SliceInRange(main, 1, |main|);
    assert m1 == "/html/" + name + ".html";
    ZjHtmlDirReplaced(name);
    ZjExtensionReplaced(name);
  }

  /** Such a menu item's page-list identifier is `<name>`. */
  lemma ZjIdentOfMenuItem(url: string, name: string)
    requires '/' !in name && '.' !in name
    ensures Ident(ZjExcelUrl(url, "./html/" + name + ".html")) == name
  {
    ZjExcelUrlOfMenuItem(url, name);
    ZjExcelIdent(Slice(url, 0, RFind(url, '/')), name);
  }

  const OpenedFlag: string := ",\"opened\":false"

  /** `item.replace(',"opened":false', '')`, done to a 2023+ Anhui menu record before it is parsed. */
  function DropOpenedFlag(item: string): string {
    Replace(item, OpenedFlag, "")
  }

  /** A record holding the flag once loses exactly that flag; a record without it is untouched. */
  lemma DropOpenedFlagOnce(item: string, k: int)
    requires OccursAt(item, k, OpenedFlag)
    requires forall i :: i != k ==> !OccursAt(item, i, OpenedFlag)
    ensures DropOpenedFlag(item) == item[..k] + item[k + |OpenedFlag|..]
  {
    ReplaceSingle(item, k, OpenedFlag, "");
  }
}
