/**
 * The front of the preview script, lines 13-71 and 109-110: choose the
 * file, check that it exists, read it, split off the front matter, and
 * derive the web address.  Everything after that (markdown, stylesheet,
 * template, CSS inlining, writing the preview) is a library call.
 *
 * The file system is a map from path to file content: `File.exist?` is
 * membership and `File.read` is lookup.
 */
module Preview {
  import opened Options
  import opened Menu
  import opened FrontMatter
  import Naming

  datatype Outcome =
    | Exit(status: int)
    | Ready(file: string, header: string, terminator: string, body: string, webUrl: string)

  function Prepare(args: seq<string>, files: seq<string>, line: Option<string>, fs: map<string, string>): (o: Outcome)
    ensures o.Exit? ==> o.status == 0 || o.status == 1
    ensures o == Exit(0) <==> Decide(args, files, line).Cancelled?
    ensures o.Ready? ==> o.file in fs && o.header + o.terminator + o.body == fs[o.file]
    ensures o.Ready? ==> if |args| > 0 then o.file == args[0] else o.file in files
    ensures o.Ready? ==> Split(fs[o.file]) == Ok(o.header, o.terminator, o.body)
    ensures o.Ready? ==> o.webUrl == Naming.WebUrl(o.file) && Naming.UrlSlug(o.webUrl) == Some(Naming.DisplayName(o.file))
    ensures var c := Decide(args, files, line);
      o.Ready? <==> ExitStatus(c).None? && c.path in fs && Split(fs[c.path]).Ok?
    ensures o.Ready? ==> o.file == Decide(args, files, line).path
  {
    var c := Decide(args, files, line);
    match ExitStatus(c)
    case Some(code) => Exit(code)
    case None =>
      var path := c.path;
      if path !in fs then Exit(1)                          // lines 55-58
      else
        match Split(fs[path])
        case NoFrontmatter => Exit(1)                      // lines 68-70
        case Ok(h, t, b) =>
          Ready(path, h, t, b, Naming.WebUrl(path))
  }

  // ---------------------------------------------------------------------
  // Properties
  // ---------------------------------------------------------------------

  /**
   * A file whose text does not match the front-matter pattern stops the
   * script with exit status 1, whichever way it was chosen.
   */
  lemma NoFrontmatterExits(args: seq<string>, files: seq<string>, line: Option<string>, fs: map<string, string>)
    requires ExitStatus(Decide(args, files, line)).None?
    requires Decide(args, files, line).path in fs
    requires !Matches(fs[Decide(args, files, line).path])
    ensures Prepare(args, files, line, fs) == Exit(1)
  {
    SplitIsEarliestMatch(fs[Decide(args, files, line).path]);
  }

  /**
   * End to end: picking the menu entry of a newsletter written as
   * `---`, header lines, `---`, body gives back that header and body, and
   * the newsletter's web address.
   */
  lemma PreviewOfListedNewsletter(files: seq<string>, i: nat, fs: map<string, string>, h: string, b: string)
    requires i < |files| && files[i] in fs
    requires fs[files[i]] == Compose(h, b)
    requires WellFormedHeader(h) && KeepsBody(b)
    ensures Prepare([], files, Some(RubyText.ShowNat(i + 1) + "\n"), fs)
      == Ready(files[i], "---\n" + h, "---\n", b, Naming.WebUrl(files[i]))
  {
    ChoosingListedEntry(files, i, "\n");
    SplitCompose(h, b);
  }
}
