/**
 * The display name and web address of a newsletter file: Ruby's
 * `File.basename(path, '.html.md')` (lines 27 and 109) and the URL built
 * from it (line 110).
 */
module Naming {
  import opened Options

  const NewsletterSuffix := ".html.md"
  const WebBase := "https://andreamignolo.com/the-becoming/"

  predicate NoSlash(s: string) {
    forall k :: 0 <= k < |s| ==> s[k] != '/'
  }

  /** The path without its trailing slashes. */
  function StripTrailingSlashes(p: string): (t: string)
    ensures t <= p
    ensures t == [] || t[|t| - 1] != '/'
    ensures forall k :: |t| <= k < |p| ==> p[k] == '/'
  {
    if p != [] && p[|p| - 1] == '/' then StripTrailingSlashes(p[..|p| - 1]) else p
  }

  /** Where the component ending at j starts: just after the last slash before j, or 0. */
  function ComponentStart(t: string, j: nat): (i: nat)
    requires j <= |t|
    ensures i <= j
    ensures i > 0 ==> t[i - 1] == '/'
    ensures forall k :: i <= k < j ==> t[k] != '/'
    decreases j
  {
    if j == 0 || t[j - 1] == '/' then j else ComponentStart(t, j - 1)
  }

  /** What follows the last slash of t (all of t when it has none). */
  function AfterLastSlash(t: string): (c: string)
    ensures |c| <= |t| && c == t[|t| - |c|..]
    ensures NoSlash(c)
    ensures |c| < |t| ==> t[|t| - |c| - 1] == '/'
  {
    t[ComponentStart(t, |t|)..]
  }

  /**
   * `File.basename(p)` on a Unix system: the last path component, ignoring
   * trailing slashes; "/" for a path made only of slashes; "" for "".
   */
  function Basename(p: string): (b: string)
    ensures p == [] ==> b == []
    ensures b == "/" || NoSlash(b)
    ensures b == "/" <==> p != [] && forall k :: 0 <= k < |p| ==> p[k] == '/'
    ensures |b| <= |p|
  {
    if p == [] then []
    else
      var t := StripTrailingSlashes(p);
      if t == [] then "/" else AfterLastSlash(t)
  }

  /**
   * `File.basename(p, suffix)`: the suffix is removed when the base name
   * ends with it and is strictly longer than it; a base name equal to the
   * suffix is kept whole.
   */
  function BasenameWithout(p: string, suffix: string): (b: string)
    ensures var whole := Basename(p);
      if |whole| > |suffix| && whole[|whole| - |suffix|..] == suffix
      then b + suffix == whole
      else b == whole
  {
    var whole := Basename(p);
    if |whole| > |suffix| && whole[|whole| - |suffix|..] == suffix then
      assert whole[..|whole| - |suffix|] + suffix == whole;
      whole[..|whole| - |suffix|]
    else whole
  }

  /** The name shown in the menu (line 27) and used in the web address (line 109). */
  function DisplayName(p: string): (d: string)
    ensures d == Basename(p) || d + NewsletterSuffix == Basename(p)
    ensures Basename(p) != "/" ==> NoSlash(d)
  {
    var whole := Basename(p);
    var d := BasenameWithout(p, NewsletterSuffix);
    assert d + NewsletterSuffix == whole ==> forall k :: 0 <= k < |d| ==> d[k] == whole[k];
    d
  }

  /**
   * The public address of a newsletter (line 110).  Reading the name back
   * out of it gives the display name.
   */
  function WebUrl(p: string): (url: string)
    ensures UrlSlug(url) == Some(DisplayName(p))
  {
    UrlSlugOfSegment(DisplayName(p));
    WebBase + DisplayName(p) + "/"
  }

  /** The name a web address of the-becoming points at, if it is one. */
  function UrlSlug(url: string): (r: Option<string>)
    ensures r.Some? ==> WebBase + r.value + "/" == url
  {
    if |url| > |WebBase| && url[..|WebBase|] == WebBase && url[|url| - 1] == '/' then
      assert url == url[..|WebBase|] + url[|WebBase|..|url| - 1] + [url[|url| - 1]];
      Some(url[|WebBase|..|url| - 1])
    else None
  }

  // ---------------------------------------------------------------------
  // Properties
  // ---------------------------------------------------------------------

  /** The base name of a file inside a directory is its own name. */
  lemma BasenameOfFile(dir: string, name: string)
    requires dir == [] || dir[|dir| - 1] == '/'
    requires name != [] && NoSlash(name)
    ensures Basename(dir + name) == name
  {
    var p := dir + name;
    assert StripTrailingSlashes(p) == p;
    AfterLastSlashOfFile(dir, name);
  }

  /**
   * The last component of `<dir>/<name>` is name: it has no slash, so it
   * cannot reach back into dir, and it is preceded by a slash, so it cannot
   * start inside name.
   */
  lemma AfterLastSlashOfFile(dir: string, name: string)
    requires dir == [] || dir[|dir| - 1] == '/'
    requires NoSlash(name)
    ensures AfterLastSlash(dir + name) == name
  {
    var t := dir + name;
    var c := AfterLastSlash(t);
    assert |c| <= |name| by {
      assert forall k :: |t| - |c| <= k < |t| ==> t[k] == c[k - (|t| - |c|)];
      assert dir != [] ==> t[|dir| - 1] == '/';
    }
    assert |c| >= |name| by {
      assert forall k :: |dir| <= k < |t| ==> t[k] == name[k - |dir|];
    }
    assert t[|dir|..] == name;
  }

  /**
   * A newsletter file `<dir>/<name>.html.md` is listed as `<name>`; with the
   * worked example of line 108, `becoming-as-praxis.html.md` is listed as
   * `becoming-as-praxis`.
   */
  lemma DisplayNameOfNewsletter(dir: string, name: string)
    requires dir == [] || dir[|dir| - 1] == '/'
    requires name != [] && NoSlash(name)
    ensures DisplayName(dir + name + NewsletterSuffix) == name
    ensures WebUrl(dir + name + NewsletterSuffix) == WebBase + name + "/"
  {
    var whole := name + NewsletterSuffix;
    assert NoSlash(NewsletterSuffix);
    NoSlashJoin(name, NewsletterSuffix);
    assert dir + name + NewsletterSuffix == dir + whole;
    BasenameOfFile(dir, whole);
    DisplayNameDropsSuffix(dir + name + NewsletterSuffix, name);
  }

  /** A base name `<name>.html.md` with a non-empty name is shown as `<name>`. */
  lemma DisplayNameDropsSuffix(p: string, name: string)
    requires name != [] && Basename(p) == name + NewsletterSuffix
    ensures DisplayName(p) == name
  {
    SuffixParts(name, NewsletterSuffix);
  }

  lemma NoSlashJoin(a: string, b: string)
    requires NoSlash(a) && NoSlash(b)
    ensures NoSlash(a + b)
  {
    assert forall k :: |a| <= k < |a + b| ==> (a + b)[k] == b[k - |a|];
  }

  lemma SuffixParts(name: string, suffix: string)
    ensures var whole := name + suffix;
      whole[|whole| - |suffix|..] == suffix && whole[..|whole| - |suffix|] == name
  {
    var whole := name + suffix;
    assert whole[|whole| - |suffix|..] == suffix;
    assert whole[..|whole| - |suffix|] == name;
  }

  /** A file called exactly `.html.md` keeps its whole name: the suffix is only removed from longer names. */
  lemma SuffixAloneIsKept(dir: string)
    requires dir == [] || dir[|dir| - 1] == '/'
    ensures DisplayName(dir + NewsletterSuffix) == NewsletterSuffix
  {
    assert NoSlash(NewsletterSuffix);
    BasenameOfFile(dir, NewsletterSuffix);
  }

  /**
   * The worked example in the comment at line 108, for the file as the menu
   * lists it.
   */
  lemma WebUrlExample()
    ensures WebUrl("source/the-becoming/becoming-as-praxis.html.md")
      == "https://andreamignolo.com/the-becoming/becoming-as-praxis/"
  {
    var dir, name := "source/the-becoming/", "becoming-as-praxis";
    ExamplePath();
    ExampleUrl();
    assert NoSlash(name);
    DisplayNameOfNewsletter(dir, name);
  }

  lemma ExamplePath()
    ensures "source/the-becoming/" + "becoming-as-praxis" + NewsletterSuffix
      == "source/the-becoming/becoming-as-praxis.html.md"
  {
  }

  lemma ExampleUrl()
    ensures WebBase + "becoming-as-praxis" + "/"
      == "https://andreamignolo.com/the-becoming/becoming-as-praxis/"
  {
  }

  lemma UrlSlugOfSegment(d: string)
    ensures UrlSlug(WebBase + d + "/") == Some(d)
  {
    var url := WebBase + d + "/";
    assert url[..|WebBase|] == WebBase;
    assert url[|WebBase|..|url| - 1] == d;
  }

  /** `File.basename` ignores a trailing slash: `a/b/` has the base name of `a/b`. */
  lemma BasenameIgnoresTrailingSlash(p: string)
    requires p != []
    ensures Basename(p + "/") == Basename(p)
  {
    var q := p + "/";
    assert q[..|q| - 1] == p;
    assert StripTrailingSlashes(q) == StripTrailingSlashes(p);
  }

  /** Two files share a web address only when they share a display name. */
  lemma WebUrlInjective(p: string, q: string)
    ensures WebUrl(p) == WebUrl(q) ==> DisplayName(p) == DisplayName(q)
  {
  }
}
